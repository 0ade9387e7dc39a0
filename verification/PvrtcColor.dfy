// The colours of PVRTC words, and their bilinear interpolation between four words.
module PvrtcColor {
  import opened Powers

  datatype Pixel = Pixel(red: int, green: int, blue: int, alpha: int)

  // the two colours of a word have 5, 5, 5 and 4 bits
  predicate IsColor(p: Pixel)
  {
    0 <= p.red <= 31 && 0 <= p.green <= 31 && 0 <= p.blue <= 31 && 0 <= p.alpha <= 15
  }

  predicate IsPixel32(p: Pixel)
  {
    0 <= p.red <= 255 && 0 <= p.green <= 255 && 0 <= p.blue <= 255 && 0 <= p.alpha <= 255
  }

  // n bits of v from bit k on
  function Field(v: nat, k: nat, n: nat): (r: nat)
    ensures r < Pow2(n)
  {
    DivNonNegative(v, Pow2(k));
    DivMod(v / Pow2(k), Pow2(n));
    v / Pow2(k) % Pow2(n)
  }

  // 4 and 3 bits to 5 bits: the high bits are repeated at the low end
  function From4(v: nat): nat
  {
    2 * v + v / 8
  }

  function From3(v: nat): nat
  {
    4 * v + v / 2
  }

  lemma Expansions(v: nat)
    ensures v < 16 ==> From4(v) <= 31 && (From4(v) == 31 <==> v == 15) && (From4(v) == 0 <==> v == 0)
    ensures v < 8 ==> From3(v) <= 31 && (From3(v) == 31 <==> v == 7) && (From3(v) == 0 <==> v == 0)
  {
  }

  // 31 fifteenths, and 31 sevenths, of v, rounded to the nearest number
  lemma ExpansionsRound(v: nat)
    ensures v < 16 ==> -7 <= 15 * From4(v) - 31 * v <= 7
    ensures v < 8 ==> -3 <= 7 * From3(v) - 31 * v <= 3
  {
  }

  lemma Widths()
    ensures Pow2(1) == 2 && Pow2(3) == 8 && Pow2(4) == 16 && Pow2(5) == 32
  {
  }

  // getColorA: RGB 554 or ARGB 3443
  function ColorA(ii: bool, colorData: nat): (p: Pixel)
    ensures IsColor(p)
  {
    Widths();
    if Field(colorData, if ii then 31 else 15, 1) == 1 then
      Pixel(Field(colorData, 10, 5), Field(colorData, 5, 5), From4(Field(colorData, 1, 4)), 15)
    else
      Pixel(From4(Field(colorData, 8, 4)), From4(Field(colorData, 4, 4)), From3(Field(colorData, 1, 3)),
            2 * Field(colorData, 12, 3))
  }

  // getColorB: RGB 555 or ARGB 3444
  function ColorB(ii: bool, colorData: nat): (p: Pixel)
    ensures IsColor(p)
  {
    Widths();
    if Field(colorData, 31, 1) == 1 then
      Pixel(Field(colorData, 26, 5), Field(colorData, 21, 5), Field(colorData, 16, 5), 15)
    else
      Pixel(From4(Field(colorData, 24, 4)), From4(Field(colorData, 20, 4)), From4(Field(colorData, 16, 4)),
            2 * Field(colorData, 28, 3) + if ii then 1 else 0)
  }

  // ---------- pixel arithmetic ----------

  function Plus(p: Pixel, q: Pixel): Pixel
  {
    Pixel(p.red + q.red, p.green + q.green, p.blue + q.blue, p.alpha + q.alpha)
  }

  function Minus(p: Pixel, q: Pixel): Pixel
  {
    Pixel(p.red - q.red, p.green - q.green, p.blue - q.blue, p.alpha - q.alpha)
  }

  function Times(k: int, p: Pixel): Pixel
  {
    Pixel(k * p.red, k * p.green, k * p.blue, k * p.alpha)
  }

  // ---------- interpolation ----------

  // The words are w by 4 pixels; the pixel a to the right of the centre of P and b below it is a
  // weighted sum of the four words, and the weights add up to 4 * w.
  function Bilinear(P: Pixel, Q: Pixel, R: Pixel, S: Pixel, w: nat, a: nat, b: nat): Pixel
  {
    Plus(Times(4 - b, Mix(P, Q, w, a)), Times(b, Mix(R, S, w, a)))
  }

  function Mix(P: Pixel, Q: Pixel, w: nat, a: nat): Pixel
  {
    Plus(Times(w - a, P), Times(a, Q))
  }

  // to 8 bits for each channel
  function Upscale(p: Pixel, w: nat): Pixel
  {
    if w == 8 then
      Pixel(p.red / 128 + p.red / 4, p.green / 128 + p.green / 4, p.blue / 128 + p.blue / 4, p.alpha / 32 + p.alpha / 2)
    else
      Pixel(p.red / 64 + p.red / 2, p.green / 64 + p.green / 2, p.blue / 64 + p.blue / 2, p.alpha / 16 + p.alpha)
  }

  function ColorAt(P: Pixel, Q: Pixel, R: Pixel, S: Pixel, w: nat, a: nat, b: nat): Pixel
  {
    Upscale(Bilinear(P, Q, R, S, w, a, b), w)
  }

  lemma MixChannel(p: int, q: int, w: nat, a: nat, m: int)
    requires a <= w && 0 <= p <= m && 0 <= q <= m
    ensures 0 <= (w - a) * p + a * q <= w * m
  {
    MulMono(0, p, w - a);
    MulMono(0, q, a);
    MulMono(p, m, w - a);
    MulMono(q, m, a);
    MulDist(w - a, a, m);
  }

  // the weighted sum stays within 4 * w times the range of the channels
  lemma BilinearRange(P: Pixel, Q: Pixel, R: Pixel, S: Pixel, w: nat, a: nat, b: nat)
    requires IsColor(P) && IsColor(Q) && IsColor(R) && IsColor(S) && a <= w && b <= 4
    ensures var p := Bilinear(P, Q, R, S, w, a, b);
      0 <= p.red <= 124 * w && 0 <= p.green <= 124 * w && 0 <= p.blue <= 124 * w && 0 <= p.alpha <= 60 * w
  {
    MixRange(P, Q, w, a);
    MixRange(R, S, w, a);
    var x, y := Mix(P, Q, w, a), Mix(R, S, w, a);
    hide Mix;
    MixChannel(x.red, y.red, 4, b, 31 * w);
    MixChannel(x.green, y.green, 4, b, 31 * w);
    MixChannel(x.blue, y.blue, 4, b, 31 * w);
    MixChannel(x.alpha, y.alpha, 4, b, 15 * w);
  }

  lemma MixRange(P: Pixel, Q: Pixel, w: nat, a: nat)
    requires IsColor(P) && IsColor(Q) && a <= w
    ensures var p := Mix(P, Q, w, a);
      0 <= p.red <= 31 * w && 0 <= p.green <= 31 * w && 0 <= p.blue <= 31 * w && 0 <= p.alpha <= 15 * w
  {
    MixChannel(P.red, Q.red, w, a, 31);
    MixChannel(P.green, Q.green, w, a, 31);
    MixChannel(P.blue, Q.blue, w, a, 31);
    MixChannel(P.alpha, Q.alpha, w, a, 15);
  }

  // An interpolated colour fits 8 bits, for all four words.
  lemma ColorAtRange(P: Pixel, Q: Pixel, R: Pixel, S: Pixel, w: nat, a: nat, b: nat)
    requires IsColor(P) && IsColor(Q) && IsColor(R) && IsColor(S) && (w == 4 || w == 8) && a <= w && b <= 4
    ensures IsPixel32(ColorAt(P, Q, R, S, w, a, b))
  {
    BilinearRange(P, Q, R, S, w, a, b);
    hide Bilinear;
    var p := Bilinear(P, Q, R, S, w, a, b);
    UpscaleRange(p.red, p.alpha);
    UpscaleRange(p.green, p.alpha);
    UpscaleRange(p.blue, p.alpha);
  }

  lemma UpscaleRange(c: int, alpha: int)
    ensures 0 <= c <= 992 ==> 0 <= c / 128 + c / 4 <= 255
    ensures 0 <= c <= 496 ==> 0 <= c / 64 + c / 2 <= 255
    ensures 0 <= alpha <= 480 ==> 0 <= alpha / 32 + alpha / 2 <= 255
    ensures 0 <= alpha <= 240 ==> 0 <= alpha / 16 + alpha <= 255
  {
  }

  // at the centre of a word the colour is its own, and between two words with the same colour
  // nothing changes: 31 becomes 255 and 0 stays 0
  lemma FlatColor(P: Pixel, w: nat, a: nat, b: nat)
    requires IsColor(P) && (w == 4 || w == 8) && a <= w && b <= 4
    ensures Bilinear(P, P, P, P, w, a, b) == Times(4 * w, P)
    ensures P.red == 31 ==> ColorAt(P, P, P, P, w, a, b).red == 255
    ensures P.red == 0 ==> ColorAt(P, P, P, P, w, a, b).red == 0
    ensures P.alpha == 15 ==> ColorAt(P, P, P, P, w, a, b).alpha == 255
  {
    hide Bilinear, Times, Upscale;
    FlatBilinear(P, w, a, b);
    FlatUpscale(P, w);
  }

  lemma FlatBilinear(P: Pixel, w: nat, a: nat, b: nat)
    requires (w == 4 || w == 8) && a <= w && b <= 4
    ensures Bilinear(P, P, P, P, w, a, b) == Times(4 * w, P)
  {
    hide Plus, Times;
    MixSame(P, w, a);
    MixSame(Times(w, P), 4, b);
    TimesTimes(P, w);
  }

  lemma FlatUpscale(P: Pixel, w: nat)
    requires w == 4 || w == 8
    ensures P.red == 31 ==> Upscale(Times(4 * w, P), w).red == 255
    ensures P.red == 0 ==> Upscale(Times(4 * w, P), w).red == 0
    ensures P.alpha == 15 ==> Upscale(Times(4 * w, P), w).alpha == 255
  {
  }

  lemma MixSame(P: Pixel, w: nat, a: nat)
    ensures Plus(Times(w - a, P), Times(a, P)) == Times(w, P)
  {
    MulDist(w - a, a, P.red);
    MulDist(w - a, a, P.green);
    MulDist(w - a, a, P.blue);
    MulDist(w - a, a, P.alpha);
  }

  lemma TimesTimes(P: Pixel, w: nat)
    requires w == 4 || w == 8
    ensures Times(4, Times(w, P)) == Times(4 * w, P)
  {
  }

  // ---------- the incremental form ----------

  // one step to the right, or down
  lemma MixStep(P: Pixel, Q: Pixel, w: nat, a: nat)
    ensures Mix(P, Q, w, a + 1) == Plus(Mix(P, Q, w, a), Minus(Q, P))
  {
    StepChannel(P.red, Q.red, w, a);
    StepChannel(P.green, Q.green, w, a);
    StepChannel(P.blue, Q.blue, w, a);
    StepChannel(P.alpha, Q.alpha, w, a);
  }

  lemma StepChannel(p: int, q: int, w: int, a: int)
    ensures (w - (a + 1)) * p + (a + 1) * q == (w - a) * p + a * q + (q - p)
  {
    MulDist(w - a - 1, 1, p);
    MulDist(a, 1, q);
  }

  lemma BilinearStep(P: Pixel, Q: Pixel, R: Pixel, S: Pixel, w: nat, a: nat, b: nat)
    ensures Bilinear(P, Q, R, S, w, a, b + 1) ==
            Plus(Bilinear(P, Q, R, S, w, a, b), Minus(Mix(R, S, w, a), Mix(P, Q, w, a)))
    ensures Bilinear(P, Q, R, S, w, a, 0) == Times(4, Mix(P, Q, w, a))
    ensures Mix(P, Q, w, 0) == Times(w, P)
  {
    MixStep(Mix(P, Q, w, a), Mix(R, S, w, a), 4, b);
  }

  // interpolateColors: the loops for 2bpp and 4bpp differ in the place of the result
  method InterpolateColors(P: Pixel, Q: Pixel, R: Pixel, S: Pixel, out: array<Pixel>, bpp: nat)
    requires bpp == 2 || bpp == 4
    requires out.Length >= (if bpp == 2 then 32 else 16)
    modifies out
    ensures var w := if bpp == 2 then 8 else 4;
      forall a, b :: 0 <= a < w && 0 <= b < 4 ==> out[Place(w, a, b)] == ColorAt(P, Q, R, S, w, a, b)
  {
    hide Mix, Bilinear, Upscale, Times, Plus, Minus;
    var w := if bpp == 2 then 8 else 4;
    var dPQ, dRS := Minus(Q, P), Minus(S, R);
    var hP, hR := Times(w, P), Times(w, R);
    var a := 0;
    BilinearStep(P, Q, R, S, w, 0, 0);
    BilinearStep(R, S, P, Q, w, 0, 0);
    while a < w
      invariant 0 <= a <= w && hP == Mix(P, Q, w, a) && hR == Mix(R, S, w, a)
      invariant forall x, b :: 0 <= x < a && 0 <= b < 4 ==> out[Place(w, x, b)] == ColorAt(P, Q, R, S, w, x, b)
    {
      var result, dY := Times(4, hP), Minus(hR, hP);
      var b := 0;
      BilinearStep(P, Q, R, S, w, a, 0);
      while b < 4
        invariant 0 <= b <= 4 && result == Bilinear(P, Q, R, S, w, a, b)
        invariant forall x, y :: 0 <= x < a && 0 <= y < 4 ==> out[Place(w, x, y)] == ColorAt(P, Q, R, S, w, x, y)
        invariant forall y :: 0 <= y < b ==> out[Place(w, a, y)] == ColorAt(P, Q, R, S, w, a, y)
      {
        PlacesApart(w, a, b);
        out[Place(w, a, b)] := Upscale(result, w);
        BilinearStep(P, Q, R, S, w, a, b);
        result := Plus(result, dY);
        b := b + 1;
      }
      MixStep(P, Q, w, a);
      MixStep(R, S, w, a);
      hP, hR := Plus(hP, dPQ), Plus(hR, dRS);
      a := a + 1;
    }
  }

  // where the pixel a to the right and b down is stored: by rows for 2bpp, by columns for 4bpp
  function Place(w: nat, a: nat, b: nat): nat
  {
    if w == 8 then b * 8 + a else a * 4 + b
  }

  lemma PlacesApart(w: nat, a: nat, b: nat)
    requires (w == 4 || w == 8) && a < w && b < 4
    ensures Place(w, a, b) < 4 * w
    ensures forall x, y :: 0 <= x < w && 0 <= y < 4 && (x != a || y != b) ==> Place(w, x, y) != Place(w, a, b)
  {
  }
}
