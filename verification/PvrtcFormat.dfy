// The PVRTC formats in terms of the image: which bits of which words a pixel is made of, and how much
// of which colour.  The decompressor, which goes tile by tile, gives exactly these pixels.
module PvrtcFormat {
  import opened Powers
  import opened PvrtcTwiddle
  import opened PvrtcColor
  import opened PvrtcModulation
  import opened Pvrtc
  import opened PvrtcTexture

  // 2^a by 2^b words of w by 4 pixels
  datatype Texture = Texture(members: seq<nat>, ii: bool, a: nat, b: nat, w: nat)
  {
    predicate Valid()
    {
      |members| >= 2 * (Pow2(a) * Pow2(b)) && WordWidth(w)
    }

    function Columns(): nat
    {
      Pow2(a) * w
    }

    function Rows(): nat
    {
      Pow2(b) * 4
    }

    predicate Holds(x: nat, y: nat)
    {
      x < Columns() && y < Rows()
    }
  }

  function BitAt(v: nat, k: nat): (bit: nat)
    ensures bit < 2
  {
    DivNonNegative(v, Pow2(k));
    v / Pow2(k) % 2
  }

  // the word that the pixel lies in
  function WordOf(t: Texture, x: nat, y: nat): Word
    requires t.Valid() && t.Holds(x, y)
  {
    InWord(Pow2(t.a), t.w, x);
    InWord(Pow2(t.b), 4, y);
    TextureWord(t.members, t.ii, t.a, t.b, x / t.w, y / 4)
  }

  lemma InWord(n: nat, w: nat, x: nat)
    requires WordWidth(w) && x < n * w
    ensures 0 <= x / w < n
  {
  }

  // the next pixel or word to the right or below, and to the left or above: the texture wraps around
  function After(n: nat, x: nat): nat
  {
    if x + 1 == n then 0 else x + 1
  }

  function Before(n: nat, x: nat): nat
    requires x < n
  {
    if x == 0 then n - 1 else x - 1
  }

  // ---------- the factor of colour B ----------

  // two bits in eighths
  function Eighths(d: nat): (f: nat)
    ensures f <= 8
  {
    if d == 0 then 0 else if d == 1 then 3 else if d == 2 then 5 else 8
  }

  // With the mode bit of its word clear a pixel of 2bpp has one bit.  With it set every other pixel
  // has two bits; two of these pixels lend their low bit to the mode and repeat the high one.
  function Own2(t: Texture, x: nat, y: nat): (f: nat)
    requires t.Valid() && t.Holds(x, y)
    ensures f <= 8
  {
    var (m, u, v) := (WordOf(t, x, y).modulationData, x % 8, y % 4);
    if WordOf(t, x, y).colorData % 2 == 0 then 8 * BitAt(m, 8 * v + u)
    else
      var k := 8 * v + u / 2 * 2;
      var low := if k == 0 then BitAt(m, 1) else if k == 20 && BitAt(m, 0) == 1 then BitAt(m, 21) else BitAt(m, k);
      Eighths(2 * BitAt(m, k + 1) + low)
  }

  // The other pixels take the average of their neighbours: all four of them, the two in the row, or
  // the two in the column.
  function FormatFactor2(t: Texture, x: nat, y: nat): (f: nat)
    requires t.Valid() && t.Holds(x, y)
    ensures f <= 8
  {
    var m := WordOf(t, x, y).modulationData;
    if WordOf(t, x, y).colorData % 2 == 0 || x % 2 == y % 2 then Own2(t, x, y)
    else
      var (left, right) := (Own2(t, Before(t.Columns(), x), y), Own2(t, After(t.Columns(), x), y));
      var (up, down) := (Own2(t, x, Before(t.Rows(), y)), Own2(t, x, After(t.Rows(), y)));
      if BitAt(m, 0) == 0 then (left + right + up + down + 2) / 4
      else if BitAt(m, 20) == 0 then (left + right + 1) / 2
      else (up + down + 1) / 2
  }

  // 4bpp: two bits for every pixel; 14 is 4 with the alpha punched through
  function FormatFactor4(t: Texture, x: nat, y: nat): (f: nat)
    requires t.Valid() && t.Holds(x, y)
    ensures f <= 8 || f == 14
  {
    var (m, k) := (WordOf(t, x, y).modulationData, 2 * (4 * (y % 4) + x % 4));
    var d := 2 * BitAt(m, k + 1) + BitAt(m, k);
    if WordOf(t, x, y).colorData % 2 == 0 then Eighths(d)
    else if d == 0 then 0 else if d == 1 then 4 else if d == 2 then 14 else 8
  }

  function FormatFactor(t: Texture, x: nat, y: nat): (f: nat)
    requires t.Valid() && t.Holds(x, y)
    ensures f <= 8 || f == 14
  {
    if t.w == 8 then FormatFactor2(t, x, y) else FormatFactor4(t, x, y)
  }

  // ---------- the two colours ----------

  // the word whose centre is at the pixel or before it, and how far before it
  function CentreWord(n: nat, w: nat, x: nat): (i: nat)
    requires WordWidth(w) && x < n * w
    ensures i < n
  {
    InWord(n, w, x);
    if x % w >= w / 2 then x / w else Before(n, x / w)
  }

  function FromCentre(w: nat, x: nat): (k: nat)
    requires WordWidth(w)
    ensures k < w
  {
    if x % w >= w / 2 then x % w - w / 2 else x % w + w / 2
  }

  // the weighted sum of a channel of the four words around the pixel
  function Weighted(w: nat, k: nat, l: nat, p: int, q: int, r: int, s: int): int
  {
    (w - k) * (4 - l) * p + k * (4 - l) * q + (w - k) * l * r + k * l * s
  }

  // 5 and 4 bits to 8 bits, with the weights taken out
  function To8(w: nat, v: int): int
  {
    if w == 8 then v / 4 + v / 128 else v / 2 + v / 64
  }

  function AlphaTo8(w: nat, v: int): int
  {
    if w == 8 then v / 2 + v / 32 else v + v / 16
  }

  // colour A or B at the pixel
  function FormatColor(t: Texture, x: nat, y: nat, second: bool): Pixel
    requires t.Valid() && t.Holds(x, y)
  {
    var (i, j, k, l) := (CentreWord(Pow2(t.a), t.w, x), CentreWord(Pow2(t.b), 4, y), FromCentre(t.w, x), FromCentre(4, y));
    var p, q := WordColor(t, i, j, second), WordColor(t, After(Pow2(t.a), i), j, second);
    var r, s := WordColor(t, i, After(Pow2(t.b), j), second), WordColor(t, After(Pow2(t.a), i), After(Pow2(t.b), j), second);
    Pixel(To8(t.w, Weighted(t.w, k, l, p.red, q.red, r.red, s.red)),
          To8(t.w, Weighted(t.w, k, l, p.green, q.green, r.green, s.green)),
          To8(t.w, Weighted(t.w, k, l, p.blue, q.blue, r.blue, s.blue)),
          AlphaTo8(t.w, Weighted(t.w, k, l, p.alpha, q.alpha, r.alpha, s.alpha)))
  }

  function WordColor(t: Texture, i: nat, j: nat, second: bool): (p: Pixel)
    requires t.Valid() && i < Pow2(t.a) && j < Pow2(t.b)
    ensures IsColor(p)
  {
    var data := TextureWord(t.members, t.ii, t.a, t.b, i, j).colorData;
    if second then ColorB(t.ii, data) else ColorA(t.ii, data)
  }

  // ---------- the pixel ----------

  function FormatPixel(t: Texture, x: nat, y: nat): Pixel
    requires t.Valid() && t.Holds(x, y)
  {
    var (f, p, q) := (FormatFactor(t, x, y), FormatColor(t, x, y, false), FormatColor(t, x, y, true));
    if f == 14 then
      if t.ii then Pixel(0, 0, 0, 0)
      else Pixel((p.red + q.red) / 2, (p.green + q.green) / 2, (p.blue + q.blue) / 2, 0)
    else
      Pixel(((8 - f) * p.red + f * q.red) / 8, ((8 - f) * p.green + f * q.green) / 8,
            ((8 - f) * p.blue + f * q.blue) / 8, ((8 - f) * p.alpha + f * q.alpha) / 8)
  }

  // ---------- bits ----------

  lemma {:induction false} ShrIsDiv(v: nat, k: nat)
    ensures Shr1(v, k) == v / Pow2(k)
  {
    if k > 0 {
      ShrIsDiv(v, k - 1);
      DivDiv(v, Pow2(k - 1), 2);
      Pow2Half(k);
    }
  }

  lemma BitIs(v: nat, k: nat)
    ensures Bit(v, k) <==> BitAt(v, k) == 1
  {
    hide Pow2, Shr1;
    ShrIsDiv(v, k);
  }

  lemma {:induction false} TwoShifts(v: nat, k: nat)
    ensures Shr2(v, k) == Shr1(v, 2 * k)
  {
    if k > 0 {
      TwoShifts(v, k - 1);
      TwiceHalf(Shr1(v, 2 * k - 2));
      assert Shr1(v, 2 * k) == Shr1(v, 2 * k - 1) / 2 == Shr1(v, 2 * k - 2) / 2 / 2;
    }
  }

  lemma TwiceHalf(v: nat)
    ensures v / 4 == v / 2 / 2 && v % 4 == 2 * (v / 2 % 2) + v % 2
  {
  }

  lemma DigitIs(v: nat, k: nat)
    ensures Digit(v, k) == 2 * BitAt(v, 2 * k + 1) + BitAt(v, 2 * k)
  {
    TwoShifts(v, k);
    TwiceHalf(Shr1(v, 2 * k));
    ShrNext(v, 2 * k);
    hide Pow2, Shr1, Shr2;
    ShrIsDiv(v, 2 * k);
    ShrIsDiv(v, 2 * k + 1);
  }

  lemma ShrNext(v: nat, k: nat)
    ensures Shr1(v, k + 1) == Shr1(v, k) / 2
  {
  }

  // ---------- the four words around a tile ----------

  // the column of the image that column x of the two words of tile i is
  function QuadColumn(n: nat, w: nat, i: nat, x: nat): nat
    requires WordWidth(w) && i < n && x < 2 * w
  {
    if x < w then Before(n, i) * w + x else i * w + (x - w)
  }

  lemma QuadColumnIs(n: nat, w: nat, i: nat, x: nat)
    requires WordWidth(w) && i < n && x < 2 * w
    ensures var c := QuadColumn(n, w, i, x);
      c < n * w && c / w == (if x < w then Before(n, i) else i) && c % w == Local(x, w) && c % 2 == x % 2
  {
    var (j, u) := (if x < w then Before(n, i) else i, Local(x, w));
    DivUnique(j * w + u, w, j, u);
    MulMono(j + 1, n, w);
    MulDist(j, 1, w);
    SameParity(j, w, u, x);
  }

  lemma SameParity(j: nat, w: nat, u: nat, x: nat)
    requires WordWidth(w) && (x == u || x == u + w)
    ensures (j * w + u) % 2 == x % 2
  {
    if w == 4 {
      EvenMore(2 * j, u);
    } else {
      EvenMore(4 * j, u);
    }
    EvenMore(w / 2, u);
  }

  lemma EvenMore(m: nat, u: nat)
    ensures (2 * m + u) % 2 == u % 2
  {
  }

  lemma QuadNext(n: nat, w: nat, i: nat, x: nat)
    requires WordWidth(w) && i < n && x + 1 < 2 * w
    ensures QuadColumn(n, w, i, x + 1) == After(n * w, QuadColumn(n, w, i, x))
    ensures QuadColumn(n, w, i, x) < n * w && QuadColumn(n, w, i, x + 1) < n * w
    ensures QuadColumn(n, w, i, x) == Before(n * w, QuadColumn(n, w, i, x + 1))
  {
    if w == 4 {
    } else {
    }
  }

  lemma BackAndForth(n: nat, i: nat)
    requires i < n
    ensures After(n, Before(n, i)) == i && Before(n, i) < n
  {
  }

  // a pixel in its tile
  lemma PixelInTile(n: nat, w: nat, x: nat)
    requires WordWidth(w) && x < n * w
    ensures var (i, k) := (Tile(n, w, x), Offset(w, x));
      i < n && QuadColumn(n, w, i, k + w / 2) == x && FromCentre(w, x) == k &&
      CentreWord(n, w, x) == Before(n, i) && After(n, Before(n, i)) == i
  {
    hide After;
    InWord(n, w, x);
    DivMod(x, w);
    HalfWord(w, x, x / w, x % w, w / 2);
    BackAndForth(n, Tile(n, w, x));
  }

  lemma HalfWord(w: nat, x: nat, c: nat, r: nat, h: nat)
    requires WordWidth(w) && x == c * w + r && r < w && h + h == w
    ensures if r >= h then (x + h) / w == c + 1 && (x + h) % w == r - h else (x + h) / w == c && (x + h) % w == r + h
    ensures r >= h ==> (c + 1) * w + (r - h + h - w) == x
  {
    MulDist(c, 1, w);
    if r >= h {
      DivUnique(x + h, w, c + 1, r - h);
    } else {
      DivUnique(x + h, w, c, r + h);
    }
  }

  lemma WrapIsBefore(n: nat, i: nat)
    requires i < n
    ensures WrapWordIndex(n, i - 1) == Before(n, i)
  {
    WrapIs(n, i);
  }

  // pixel x, y of the four words around tile i, j, as a pixel of the image
  lemma QuadWord(t: Texture, i: nat, j: nat, x: nat, y: nat)
    requires t.Valid() && i < Pow2(t.a) && j < Pow2(t.b) && x < 2 * t.w && y < 8
    ensures var (c, r) := (QuadColumn(Pow2(t.a), t.w, i, x), QuadColumn(Pow2(t.b), 4, j, y));
      t.Holds(c, r) && c % t.w == Local(x, t.w) && r % 4 == Local(y, 4) && c % 2 == x % 2 && r % 2 == y % 2 &&
      WordAt(TileWords(t.members, t.ii, t.a, t.b, i, j), t.w, x, y) == WordOf(t, c, r)
  {
    hide Pow2, TextureWord, QuadColumn;
    QuadColumnIs(Pow2(t.a), t.w, i, x);
    QuadColumnIs(Pow2(t.b), 4, j, y);
    WrapIsBefore(Pow2(t.a), i);
    WrapIsBefore(Pow2(t.b), j);
    WrapIs(Pow2(t.a), i);
    WrapIs(Pow2(t.b), j);
  }

  // ---------- factors ----------

  lemma Bits2Is(word: Word, k: nat)
    ensures var m := word.modulationData;
      BitAt(Bits2(word), k) ==
      if k == 0 then BitAt(m, 1) else if k == 20 && BitAt(m, 0) == 1 then BitAt(m, 21) else BitAt(m, k)
  {
    hide Pow2, SetBit, Bit, BitAt;
    var m := word.modulationData;
    var m1 := if Bit(m, 0) then SetBit(m, 20, Bit(m, 21)) else m;
    SetBitIs(m1, 0, Bit(m1, 1), k);
    SetBitIs(m, 20, Bit(m, 21), k);
    SetBitIs(m, 20, Bit(m, 21), 1);
    BitIs(Bits2(word), k);
    BitIs(m, 0);
    BitIs(m, 1);
    BitIs(m, 21);
    BitIs(m, k);
  }

  // what is unpacked for a pixel that has bits of its own
  lemma ValueIs(word: Word, u: nat, v: nat)
    requires u < 8 && v < 4 && Stored2(word, u, v)
    ensures var m := word.modulationData;
      Rep(Value2(word, u, v)) ==
      if word.colorData % 2 == 0 then 8 * BitAt(m, 8 * v + u)
      else
        var k := 8 * v + u / 2 * 2;
        Eighths(2 * BitAt(m, k + 1) +
          if k == 0 then BitAt(m, 1) else if k == 20 && BitAt(m, 0) == 1 then BitAt(m, 21) else BitAt(m, k))
  {
    hide Pow2, Bit, BitAt, Bits2, Digit;
    if word.colorData % 2 == 0 {
      BitIs(word.modulationData, 8 * v + u);
    } else {
      var k := 8 * v + u / 2 * 2;
      assert 2 * (4 * v + u / 2) == k;
      DigitIs(Bits2(word), 4 * v + u / 2);
      Bits2Is(word, k);
      Bits2Is(word, k + 1);
    }
  }

  lemma OwnIs(t: Texture, i: nat, j: nat, x: nat, y: nat)
    requires t.Valid() && t.w == 8 && i < Pow2(t.a) && j < Pow2(t.b) && x < 16 && y < 8
    requires Stored(TileWords(t.members, t.ii, t.a, t.b, i, j), x, y)
    ensures var (c, r) := (QuadColumn(Pow2(t.a), 8, i, x), QuadColumn(Pow2(t.b), 4, j, y));
      t.Holds(c, r) && Rep(Value(TileWords(t.members, t.ii, t.a, t.b, i, j), x, y)) == Own2(t, c, r)
  {
    hide Pow2, QuadColumn, TileWords, WordOf, WordAt, BitAt, Value2, Stored2, Rep, Eighths;
    QuadWord(t, i, j, x, y);
    ValueIs(WordAt(TileWords(t.members, t.ii, t.a, t.b, i, j), 8, x, y), Local(x, 8), Local(y, 4));
  }

  lemma Mode2Is(word: Word)
    ensures Mode2(word) == if word.colorData % 2 == 0 then 0 else if BitAt(word.modulationData, 0) == 0 then 1
                           else if BitAt(word.modulationData, 20) == 0 then 2 else 3
  {
    hide Bit, BitAt;
    BitIs(word.modulationData, 0);
    BitIs(word.modulationData, 20);
  }

  lemma Factor2Is(t: Texture, i: nat, j: nat, x: nat, y: nat)
    requires t.Valid() && t.w == 8 && i < Pow2(t.a) && j < Pow2(t.b) && 0 < x < 15 && 0 < y < 7
    ensures var (c, r) := (QuadColumn(Pow2(t.a), 8, i, x), QuadColumn(Pow2(t.b), 4, j, y));
      t.Holds(c, r) && Factor2(TileWords(t.members, t.ii, t.a, t.b, i, j), x, y) == FormatFactor2(t, c, r)
  {
    hide Pow2, QuadColumn, TileWords, WordOf, WordAt, BitAt, Value, Stored, Rep, Own2, Mode2, Local, After, Before;
    var q := TileWords(t.members, t.ii, t.a, t.b, i, j);
    QuadWord(t, i, j, x, y);
    Mode2Is(WordAt(q, 8, x, y));
    FactorsAreStored(q, x, y);
    if Mode2(WordAt(q, 8, x, y)) == 0 || x % 2 == y % 2 {
      OwnIs(t, i, j, x, y);
    } else {
      QuadNext(Pow2(t.a), 8, i, x - 1);
      QuadNext(Pow2(t.a), 8, i, x);
      QuadNext(Pow2(t.b), 4, j, y - 1);
      QuadNext(Pow2(t.b), 4, j, y);
      OwnIs(t, i, j, x - 1, y);
      OwnIs(t, i, j, x + 1, y);
      OwnIs(t, i, j, x, y - 1);
      OwnIs(t, i, j, x, y + 1);
    }
  }

  lemma Factor4Is(t: Texture, i: nat, j: nat, x: nat, y: nat)
    requires t.Valid() && t.w == 4 && i < Pow2(t.a) && j < Pow2(t.b) && x < 8 && y < 8
    ensures var (c, r) := (QuadColumn(Pow2(t.a), 4, i, x), QuadColumn(Pow2(t.b), 4, j, y));
      t.Holds(c, r) && Factor4(TileWords(t.members, t.ii, t.a, t.b, i, j), x, y) == FormatFactor4(t, c, r)
  {
    hide Pow2, QuadColumn, TileWords, WordOf, WordAt, BitAt, Digit;
    var q := TileWords(t.members, t.ii, t.a, t.b, i, j);
    QuadWord(t, i, j, x, y);
    DigitIs(WordAt(q, 4, x, y).modulationData, 4 * Local(y, 4) + Local(x, 4));
  }

  lemma FactorIs(t: Texture, x: nat, y: nat)
    requires t.Valid() && t.Holds(x, y)
    ensures var (i, j) := (Tile(Pow2(t.a), t.w, x), Tile(Pow2(t.b), 4, y));
      i < Pow2(t.a) && j < Pow2(t.b) &&
      FactorAt(TileWords(t.members, t.ii, t.a, t.b, i, j), t.w, Offset(t.w, x), Offset(4, y)) == FormatFactor(t, x, y)
  {
    hide Pow2, Tile, Offset, QuadColumn, TileWords, Factor2, Factor4, FormatFactor2, FormatFactor4, FromCentre,
      CentreWord, After, Before;
    PixelInTile(Pow2(t.a), t.w, x);
    PixelInTile(Pow2(t.b), 4, y);
    var (i, j, k, l) := (Tile(Pow2(t.a), t.w, x), Tile(Pow2(t.b), 4, y), Offset(t.w, x), Offset(4, y));
    if t.w == 8 {
      Factor2Is(t, i, j, k + 4, l + 2);
    } else {
      Factor4Is(t, i, j, k + 2, l + 2);
    }
  }

  // ---------- colours ----------

  lemma WeightedIs(w: nat, k: nat, l: nat, p: int, q: int, r: int, s: int)
    requires k <= w && l <= 4
    ensures (4 - l) * ((w - k) * p + k * q) + l * ((w - k) * r + k * s) == Weighted(w, k, l, p, q, r, s)
  {
    TwoTerms(4 - l, (w - k) * p, k * q);
    TwoTerms(l, (w - k) * r, k * s);
    Reordered(4 - l, w - k, p);
    Reordered(4 - l, k, q);
    Reordered(l, w - k, r);
    Reordered(l, k, s);
  }

  lemma TwoTerms(a: int, b: int, c: int)
    ensures a * (b + c) == a * b + a * c
  {
  }

  lemma Reordered(a: int, b: int, c: int)
    ensures a * (b * c) == b * a * c
  {
  }

  lemma ColorAtIs(p: Pixel, q: Pixel, r: Pixel, s: Pixel, w: nat, k: nat, l: nat)
    requires WordWidth(w) && k <= w && l <= 4
    ensures ColorAt(p, q, r, s, w, k, l) ==
            Pixel(To8(w, Weighted(w, k, l, p.red, q.red, r.red, s.red)),
                  To8(w, Weighted(w, k, l, p.green, q.green, r.green, s.green)),
                  To8(w, Weighted(w, k, l, p.blue, q.blue, r.blue, s.blue)),
                  AlphaTo8(w, Weighted(w, k, l, p.alpha, q.alpha, r.alpha, s.alpha)))
  {
    hide Weighted, Bilinear;
    BilinearIs(p, q, r, s, w, k, l);
  }

  lemma BilinearIs(p: Pixel, q: Pixel, r: Pixel, s: Pixel, w: nat, k: nat, l: nat)
    requires k <= w && l <= 4
    ensures Bilinear(p, q, r, s, w, k, l) ==
            Pixel(Weighted(w, k, l, p.red, q.red, r.red, s.red), Weighted(w, k, l, p.green, q.green, r.green, s.green),
                  Weighted(w, k, l, p.blue, q.blue, r.blue, s.blue), Weighted(w, k, l, p.alpha, q.alpha, r.alpha, s.alpha))
  {
    hide Weighted;
    WeightedIs(w, k, l, p.red, q.red, r.red, s.red);
    WeightedIs(w, k, l, p.green, q.green, r.green, s.green);
    WeightedIs(w, k, l, p.blue, q.blue, r.blue, s.blue);
    WeightedIs(w, k, l, p.alpha, q.alpha, r.alpha, s.alpha);
  }

  // the words of a tile, by the word whose centre comes first
  lemma TileWordsAre(t: Texture, i: nat, j: nat)
    requires t.Valid() && i < Pow2(t.a) && j < Pow2(t.b)
    ensures var q := TileWords(t.members, t.ii, t.a, t.b, i, j);
      var (h, g) := (Before(Pow2(t.a), i), Before(Pow2(t.b), j));
      After(Pow2(t.a), h) == i && After(Pow2(t.b), g) == j &&
      q.P == TextureWord(t.members, t.ii, t.a, t.b, h, g) && q.Q == TextureWord(t.members, t.ii, t.a, t.b, i, g) &&
      q.R == TextureWord(t.members, t.ii, t.a, t.b, h, j) && q.S == TextureWord(t.members, t.ii, t.a, t.b, i, j)
  {
    hide Pow2, TextureWord, WrapWordIndex;
    WrapIsBefore(Pow2(t.a), i);
    WrapIsBefore(Pow2(t.b), j);
  }

  lemma ColorsAre(t: Texture, x: nat, y: nat)
    requires t.Valid() && t.Holds(x, y)
    ensures var (i, j) := (Tile(Pow2(t.a), t.w, x), Tile(Pow2(t.b), 4, y));
      i < Pow2(t.a) && j < Pow2(t.b) &&
      var q := TileWords(t.members, t.ii, t.a, t.b, i, j);
      ColorsA(q, t.ii, t.w, Offset(t.w, x), Offset(4, y)) == FormatColor(t, x, y, false) &&
      ColorsB(q, t.ii, t.w, Offset(t.w, x), Offset(4, y)) == FormatColor(t, x, y, true)
  {
    hide Pow2, Tile, Offset, QuadColumn, TileWords, ColorAt, ColorA, ColorB, FromCentre, CentreWord, After, Before,
      TextureWord, Weighted, To8, AlphaTo8;
    PixelInTile(Pow2(t.a), t.w, x);
    PixelInTile(Pow2(t.b), 4, y);
    var (i, j, k, l) := (Tile(Pow2(t.a), t.w, x), Tile(Pow2(t.b), 4, y), Offset(t.w, x), Offset(4, y));
    TileWordsAre(t, i, j);
    var q := TileWords(t.members, t.ii, t.a, t.b, i, j);
    ColorAtIs(ColorA(t.ii, q.P.colorData), ColorA(t.ii, q.Q.colorData), ColorA(t.ii, q.R.colorData), ColorA(t.ii, q.S.colorData), t.w, k, l);
    ColorAtIs(ColorB(t.ii, q.P.colorData), ColorB(t.ii, q.Q.colorData), ColorB(t.ii, q.R.colorData), ColorB(t.ii, q.S.colorData), t.w, k, l);
  }

  // The pixel that the decompressor's tile gives is the one that the format describes.
  lemma PixelIs(t: Texture, x: nat, y: nat)
    requires t.Valid() && t.Holds(x, y)
    ensures ImagePixel(t.members, t.ii, t.a, t.b, t.w, x, y) == FormatPixel(t, x, y)
  {
    hide Pow2, Tile, Offset, TileWords, ColorsA, ColorsB, FormatColor, FormatFactor, FactorAt;
    FactorIs(t, x, y);
    ColorsAre(t, x, y);
    var (f, p, q) := (FormatFactor(t, x, y), FormatColor(t, x, y, false), FormatColor(t, x, y, true));
    if f <= 8 {
      Commuted(p.red, q.red, f);
      Commuted(p.green, q.green, f);
      Commuted(p.blue, q.blue, f);
      Commuted(p.alpha, q.alpha, f);
    }
  }

  lemma Commuted(a: int, b: int, f: nat)
    ensures a * (8 - f) + b * f == (8 - f) * a + f * b
  {
  }

  // ---------- what the factor does ----------

  // from a towards b: c2 has gone at least as far as c1
  predicate NoFurther(a: int, b: int, c1: int, c2: int)
  {
    if a <= b then a <= c1 <= c2 <= b else b <= c2 <= c1 <= a
  }

  lemma Mixed(a: int, b: int, f: nat, g: nat)
    requires f <= g <= 8
    ensures NoFurther(a, b, ((8 - f) * a + f * b) / 8, ((8 - g) * a + g * b) / 8)
    ensures 8 * (((8 - f) * a + f * b) / 8) <= (8 - f) * a + f * b < 8 * (((8 - f) * a + f * b) / 8) + 8
    ensures ((8 - 0) * a + 0 * b) / 8 == a && ((8 - 8) * a + 8 * b) / 8 == b
  {
    Steps(a, b, f);
    Steps(a, b, g);
    if a <= b {
      MulMono(0, f, b - a);
      MulMono(f, g, b - a);
      MulMono(g, 8, b - a);
    } else {
      MulMono(0, f, a - b);
      MulMono(f, g, a - b);
      MulMono(g, 8, a - b);
      Negated(f, a - b);
      Negated(g, a - b);
    }
  }

  lemma Steps(a: int, b: int, f: nat)
    ensures (8 - f) * a + f * b == 8 * a + f * (b - a)
  {
  }

  lemma Negated(f: int, d: int)
    ensures f * -d == -(f * d)
  {
  }

  // Factor 0 gives colour A and factor 8 colour B; in between every channel lies between those of A
  // and B, at the given number of eighths, rounded down.  Punched-through alpha is 0, over half of
  // each colour in the first format and over black in the second.
  lemma FactorSelects(t: Texture, x: nat, y: nat)
    requires t.Valid() && t.Holds(x, y)
    ensures var (f, a, b) := (FormatFactor(t, x, y), FormatColor(t, x, y, false), FormatColor(t, x, y, true));
      var p := ImagePixel(t.members, t.ii, t.a, t.b, t.w, x, y);
      (f == 0 ==> p == a) && (f == 8 ==> p == b) &&
      (f <= 8 ==>
         NoFurther(a.red, b.red, p.red, p.red) && 8 * p.red <= (8 - f) * a.red + f * b.red < 8 * p.red + 8 &&
         NoFurther(a.green, b.green, p.green, p.green) && 8 * p.green <= (8 - f) * a.green + f * b.green < 8 * p.green + 8 &&
         NoFurther(a.blue, b.blue, p.blue, p.blue) && 8 * p.blue <= (8 - f) * a.blue + f * b.blue < 8 * p.blue + 8 &&
         NoFurther(a.alpha, b.alpha, p.alpha, p.alpha) && 8 * p.alpha <= (8 - f) * a.alpha + f * b.alpha < 8 * p.alpha + 8) &&
      (f == 14 ==>
         p.alpha == 0 &&
         if t.ii then p.red == p.green == p.blue == 0
         else 2 * p.red <= a.red + b.red <= 2 * p.red + 1 && 2 * p.green <= a.green + b.green <= 2 * p.green + 1 &&
              2 * p.blue <= a.blue + b.blue <= 2 * p.blue + 1)
  {
    hide Pow2, FormatColor, FormatFactor, ImagePixel, NoFurther;
    PixelIs(t, x, y);
    var (f, a, b) := (FormatFactor(t, x, y), FormatColor(t, x, y, false), FormatColor(t, x, y, true));
    if f <= 8 {
      Mixed(a.red, b.red, f, f);
      Mixed(a.green, b.green, f, f);
      Mixed(a.blue, b.blue, f, f);
      Mixed(a.alpha, b.alpha, f, f);
    }
  }

  // With the same two colours a larger factor never leads away from colour B.
  lemma MoreOfB(t: Texture, x: nat, y: nat, t': Texture, x': nat, y': nat)
    requires t.Valid() && t.Holds(x, y) && t'.Valid() && t'.Holds(x', y')
    requires FormatColor(t, x, y, false) == FormatColor(t', x', y', false)
    requires FormatColor(t, x, y, true) == FormatColor(t', x', y', true)
    requires FormatFactor(t, x, y) <= FormatFactor(t', x', y') <= 8
    ensures var (a, b) := (FormatColor(t, x, y, false), FormatColor(t, x, y, true));
      var (p, p') := (ImagePixel(t.members, t.ii, t.a, t.b, t.w, x, y),
                      ImagePixel(t'.members, t'.ii, t'.a, t'.b, t'.w, x', y'));
      NoFurther(a.red, b.red, p.red, p'.red) && NoFurther(a.green, b.green, p.green, p'.green) &&
      NoFurther(a.blue, b.blue, p.blue, p'.blue) && NoFurther(a.alpha, b.alpha, p.alpha, p'.alpha)
  {
    hide Pow2, FormatColor, FormatFactor, ImagePixel, NoFurther;
    PixelIs(t, x, y);
    PixelIs(t', x', y');
    var (a, b) := (FormatColor(t, x, y, false), FormatColor(t, x, y, true));
    Mixed(a.red, b.red, FormatFactor(t, x, y), FormatFactor(t', x', y'));
    Mixed(a.green, b.green, FormatFactor(t, x, y), FormatFactor(t', x', y'));
    Mixed(a.blue, b.blue, FormatFactor(t, x, y), FormatFactor(t', x', y'));
    Mixed(a.alpha, b.alpha, FormatFactor(t, x, y), FormatFactor(t', x', y'));
  }

  // ---------- colours and places in bits ----------

  lemma FieldIs(v: nat, k: nat, n: nat, above: nat, f: nat, below: nat)
    requires f < Pow2(n) && below < Pow2(k) && v == (above * Pow2(n) + f) * Pow2(k) + below
    ensures Field(v, k, n) == f
  {
    hide Pow2;
    DivUnique(v, Pow2(k), above * Pow2(n) + f, below);
    DivUnique(above * Pow2(n) + f, Pow2(n), above, f);
  }

  lemma FieldPowers()
    ensures Pow2(1) == 0x2 && Pow2(3) == 0x8 && Pow2(4) == 0x10 && Pow2(5) == 0x20 && Pow2(8) == 0x100
    ensures Pow2(10) == 0x400 && Pow2(12) == 0x1000 && Pow2(15) == 0x8000 && Pow2(16) == 0x1_0000
    ensures Pow2(20) == 0x10_0000 && Pow2(21) == 0x20_0000 && Pow2(24) == 0x100_0000 && Pow2(26) == 0x400_0000
    ensures Pow2(28) == 0x1000_0000 && Pow2(31) == 0x8000_0000
  {
    Pow2Values();
    assert Pow2(3) == 8 && Pow2(5) == 32;
    Pow2Add(5, 5);
    Pow2Add(16, 4);
    Pow2Add(16, 5);
    Pow2Add(16, 8);
    Pow2Add(16, 10);
    Pow2Add(16, 12);
    Pow2Add(16, 15);
  }

  // 15: opaque; then red, green and blue with 5, 5 and 4 bits, above the mode bit.  The bit that says
  // so is the top one of colour A in the first format, and the top one of the word in the second.
  lemma OpaqueA(ii: bool, data: nat, high: nat, flag: nat, red: nat, green: nat, blue: nat, mode: nat)
    requires red < 32 && green < 32 && blue < 16 && mode < 2 && flag < 2 && high < 0x1_0000
    requires if ii then high >= 0x8000 else flag == 1
    requires data == 0x1_0000 * high + 0x8000 * flag + 0x400 * red + 0x20 * green + 2 * blue + mode
    ensures ColorA(ii, data) == Pixel(red, green, 2 * blue + blue / 8, 15)
  {
    FieldPowers();
    hide Pow2, Field;
    if ii {
      FieldIs(data, 31, 1, 0, 1, data - 0x8000_0000);
    } else {
      FieldIs(data, 15, 1, high, 1, data - 0x1_0000 * high - 0x8000);
    }
    FieldIs(data, 10, 5, 2 * high + flag, red, 0x20 * green + 2 * blue + mode);
    FieldIs(data, 5, 5, 0x40 * high + 0x20 * flag + red, green, 2 * blue + mode);
    FieldIs(data, 1, 4, 0x800 * high + 0x400 * flag + 0x20 * red + green, blue, mode);
  }

  // otherwise alpha, red, green and blue with 3, 4, 4 and 3 bits
  lemma TranslucentA(ii: bool, data: nat, high: nat, flag: nat, alpha: nat, red: nat, green: nat, blue: nat, mode: nat)
    requires alpha < 8 && red < 16 && green < 16 && blue < 8 && mode < 2 && flag < 2 && high < 0x1_0000
    requires if ii then high < 0x8000 else flag == 0
    requires data ==
      0x1_0000 * high + 0x8000 * flag + 0x1000 * alpha + 0x100 * red + 0x10 * green + 2 * blue + mode
    ensures ColorA(ii, data) == Pixel(2 * red + red / 8, 2 * green + green / 8, 4 * blue + blue / 2, 2 * alpha)
  {
    FieldPowers();
    hide Pow2, Field;
    if ii {
      FieldIs(data, 31, 1, 0, 0, data);
    } else {
      FieldIs(data, 15, 1, high, 0, data - 0x1_0000 * high);
    }
    FieldIs(data, 12, 3, 2 * high + flag, alpha, 0x100 * red + 0x10 * green + 2 * blue + mode);
    FieldIs(data, 8, 4, 0x10 * high + 8 * flag + alpha, red, 0x10 * green + 2 * blue + mode);
    FieldIs(data, 4, 4, 0x100 * high + 0x80 * flag + 0x10 * alpha + red, green, 2 * blue + mode);
    FieldIs(data, 1, 3, 0x1000 * high + 0x800 * flag + 0x100 * alpha + 0x10 * red + green, blue, mode);
  }

  lemma OpaqueB(ii: bool, data: nat, red: nat, green: nat, blue: nat, low: nat)
    requires red < 32 && green < 32 && blue < 32 && low < 0x1_0000
    requires data == 0x8000_0000 + 0x400_0000 * red + 0x20_0000 * green + 0x1_0000 * blue + low
    ensures ColorB(ii, data) == Pixel(red, green, blue, 15)
  {
    FieldPowers();
    hide Pow2, Field;
    FieldIs(data, 31, 1, 0, 1, data - 0x8000_0000);
    FieldIs(data, 26, 5, 1, red, 0x20_0000 * green + 0x1_0000 * blue + low);
    FieldIs(data, 21, 5, 0x20 + red, green, 0x1_0000 * blue + low);
    FieldIs(data, 16, 5, 0x400 + 0x20 * red + green, blue, low);
  }

  // the second format has a low alpha bit of 1 here
  lemma TranslucentB(ii: bool, data: nat, alpha: nat, red: nat, green: nat, blue: nat, low: nat)
    requires alpha < 8 && red < 16 && green < 16 && blue < 16 && low < 0x1_0000
    requires data == 0x1000_0000 * alpha + 0x100_0000 * red + 0x10_0000 * green + 0x1_0000 * blue + low
    ensures ColorB(ii, data) ==
            Pixel(2 * red + red / 8, 2 * green + green / 8, 2 * blue + blue / 8, 2 * alpha + if ii then 1 else 0)
  {
    FieldPowers();
    hide Pow2, Field;
    FieldIs(data, 31, 1, 0, 0, data);
    FieldIs(data, 28, 3, 0, alpha, data - 0x1000_0000 * alpha);
    FieldIs(data, 24, 4, alpha, red, 0x10_0000 * green + 0x1_0000 * blue + low);
    FieldIs(data, 20, 4, 0x10 * alpha + red, green, 0x1_0000 * blue + low);
    FieldIs(data, 16, 4, 0x100 * alpha + 0x10 * red + green, blue, low);
  }

  // Where the word x, y stands: row by row in the second format; in the first one the bits of the
  // two coordinates take turns, beginning with y, as long as both have some.
  lemma WordStands(t: Texture, x: nat, y: nat) returns (k: nat)
    requires t.Valid() && x < Pow2(t.a) && y < Pow2(t.b)
    ensures 2 * k + 1 < |t.members|
    ensures TextureWord(t.members, t.ii, t.a, t.b, x, y) == Word(t.members[2 * k], t.members[2 * k + 1])
    ensures t.ii ==> k == y * Pow2(t.a) + x
    ensures !t.ii ==>
      var m := if t.a < t.b then t.a else t.b;
      (forall n :: 0 <= n < m ==> BitAt(k, 2 * n) == BitAt(y, n) && BitAt(k, 2 * n + 1) == BitAt(x, n)) &&
      k / Pow2(2 * m) == (if t.b < t.a then x else y) / Pow2(m)
  {
    hide Pow2, Twiddle, BitAt;
    WordOrderOneToOne(t.ii, t.a, t.b, x, y, x, y);
    k := WordOrder(t.ii, t.a, t.b, x, y);
    if !t.ii {
      var m := if t.a < t.b then t.a else t.b;
      forall n | 0 <= n < m
        ensures BitAt(k, 2 * n) == BitAt(y, n) && BitAt(k, 2 * n + 1) == BitAt(x, n)
      {
        TwiddleBits(t.a, t.b, x, y, n);
      }
      TwiddleRest(t.a, t.b, x, y);
    }
  }

  lemma {:induction false} TwiddleBits(a: nat, b: nat, x: nat, y: nat, n: nat)
    requires x < Pow2(a) && y < Pow2(b) && n < a && n < b
    ensures BitAt(Twiddle(a, b, x, y), 2 * n) == BitAt(y, n) && BitAt(Twiddle(a, b, x, y), 2 * n + 1) == BitAt(x, n)
  {
    hide Pow2, Twiddle, BitAt;
    TwiddleStep(a, b, x, y);
    Pow2Half(a);
    Pow2Half(b);
    var (u, t) := (Twiddle(a - 1, b - 1, x / 2, y / 2), Twiddle(a, b, x, y));
    Quarters(u, x % 2, y % 2);
    if n == 0 {
      LowBits(t);
      LowBits(x);
      LowBits(y);
    } else {
      TwiddleBits(a - 1, b - 1, x / 2, y / 2, n - 1);
      BitUp(t, 2 * n);
      BitUp(t, 2 * n + 1);
      BitUp(t / 2, 2 * n - 1);
      BitUp(t / 2, 2 * n);
      BitUp(x, n);
      BitUp(y, n);
    }
  }

  lemma Quarters(u: nat, high: nat, low: nat)
    requires high < 2 && low < 2
    ensures var t := 4 * u + 2 * high + low; t / 2 / 2 == u && t % 2 == low && t / 2 % 2 == high
  {
  }

  lemma LowBits(v: nat)
    ensures BitAt(v, 0) == v % 2 && BitAt(v, 1) == v / 2 % 2
  {
  }

  lemma BitUp(v: nat, k: nat)
    requires k > 0
    ensures BitAt(v, k) == BitAt(v / 2, k - 1)
  {
    Pow2Half(k);
    hide Pow2;
    DivDiv(v, 2, Pow2(k - 1));
  }

  lemma {:induction false} TwiddleRest(a: nat, b: nat, x: nat, y: nat)
    requires x < Pow2(a) && y < Pow2(b)
    ensures var m := if a < b then a else b;
      Twiddle(a, b, x, y) / Pow2(2 * m) == (if b < a then x else y) / Pow2(m)
  {
    hide Pow2, Twiddle;
    TwiddleStep(a, b, x, y);
    if a > 0 && b > 0 {
      var m := if a < b then a else b;
      Pow2Half(a);
      Pow2Half(b);
      TwiddleRest(a - 1, b - 1, x / 2, y / 2);
      var (u, t) := (Twiddle(a - 1, b - 1, x / 2, y / 2), Twiddle(a, b, x, y));
      Quarters(u, x % 2, y % 2);
      DivUp(t, 2 * m);
      DivUp(t / 2, 2 * m - 1);
      DivUp(if b < a then x else y, m);
    } else {
      PowZero();
    }
  }

  lemma DivUp(v: nat, k: nat)
    requires k > 0
    ensures v / Pow2(k) == v / 2 / Pow2(k - 1)
  {
    Pow2Half(k);
    hide Pow2;
    DivDiv(v, 2, Pow2(k - 1));
  }

  // ---------- an example ----------

  // A texture whose words all have an opaque red colour A, an opaque blue colour B and factor 0 is red.
  lemma RedTexture(t: Texture, x: nat, y: nat)
    requires t.Valid() && t.Holds(x, y) && !t.ii && t.w == 4
    requires forall k :: 0 <= k < |t.members| ==> t.members[k] == if k % 2 == 0 then 0 else 0x801F_FC00
    ensures ImagePixel(t.members, t.ii, t.a, t.b, t.w, x, y) == Pixel(255, 0, 0, 255)
  {
    hide Pow2, TextureWord, WordOf, CentreWord, FromCentre, After, Before, ColorA, ColorB, BitAt, Weighted, ImagePixel;
    PixelIs(t, x, y);
    SameWords(t);
    InWord(Pow2(t.a), 4, x);
    InWord(Pow2(t.b), 4, y);
    WordOfIs(t, x, y);
    ZeroBits(2 * (4 * (y % 4) + x % 4));
    ZeroBits(2 * (4 * (y % 4) + x % 4) + 1);
    OpaqueA(false, 0x801F_FC00, 0x801F, 1, 31, 0, 0, 0);
    AfterBelow(Pow2(t.a), CentreWord(Pow2(t.a), 4, x));
    AfterBelow(Pow2(t.b), CentreWord(Pow2(t.b), 4, y));
    SameSum(4, FromCentre(4, x), FromCentre(4, y), 31);
    SameSum(4, FromCentre(4, x), FromCentre(4, y), 0);
    SameSum(4, FromCentre(4, x), FromCentre(4, y), 15);
  }

  lemma WordOfIs(t: Texture, x: nat, y: nat)
    requires t.Valid() && t.Holds(x, y) && 0 <= x / t.w < Pow2(t.a) && 0 <= y / 4 < Pow2(t.b)
    ensures WordOf(t, x, y) == TextureWord(t.members, t.ii, t.a, t.b, x / t.w, y / 4)
  {
  }

  lemma SameWords(t: Texture)
    requires t.Valid() && forall k :: 0 <= k < |t.members| ==> t.members[k] == if k % 2 == 0 then 0 else 0x801F_FC00
    ensures forall i, j :: 0 <= i < Pow2(t.a) && 0 <= j < Pow2(t.b) ==>
      TextureWord(t.members, t.ii, t.a, t.b, i, j) == Word(0, 0x801F_FC00)
  {
    hide Pow2, TextureWord, BitAt;
    forall i, j | 0 <= i < Pow2(t.a) && 0 <= j < Pow2(t.b)
      ensures TextureWord(t.members, t.ii, t.a, t.b, i, j) == Word(0, 0x801F_FC00)
    {
      var k := WordStands(t, i, j);
    }
  }

  lemma ZeroBits(k: nat)
    ensures BitAt(0, k) == 0
  {
    hide Pow2;
    DivUnique(0, Pow2(k), 0, 0);
  }

  lemma AfterBelow(n: nat, i: nat)
    requires i < n
    ensures After(n, i) < n
  {
  }

  lemma SameSum(w: nat, k: nat, l: nat, v: int)
    ensures Weighted(w, k, l, v, v, v, v) == 4 * w * v
  {
    WeightsAre(w - k, k, 4 - l, l, v);
  }

  lemma WeightsAre(a: int, b: int, c: int, d: int, v: int)
    ensures a * c * v + b * c * v + a * d * v + b * d * v == (c + d) * (a + b) * v
  {
    assert a * c + b * c + a * d + b * d == (c + d) * (a + b);
    MulDist(a * c, b * c, v);
    MulDist(a * c + b * c, a * d, v);
    MulDist(a * c + b * c + a * d, b * d, v);
  }
}
