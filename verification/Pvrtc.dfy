// The PVRTC texture decompressor: every pixel lies between the centres of four words, which wrap
// around at the edges of the texture.
module Pvrtc {
  import opened Powers
  import opened PvrtcColor
  import opened PvrtcModulation

  const WORD_HEIGHT := 4

  predicate WordWidth(w: nat)
  {
    w == 4 || w == 8
  }

  // ---------- one tile of pixels ----------

  function FactorAt(q: Quad, w: nat, x: nat, y: nat): (f: nat)
    requires WordWidth(w) && x < w && y < WORD_HEIGHT
    ensures f <= 8 || f == 14
  {
    if w == 8 then Factor2(q, x + 4, y + 2) else Factor4(q, x + 2, y + 2)
  }

  function ColorsA(q: Quad, ii: bool, w: nat, x: nat, y: nat): Pixel
  {
    ColorAt(ColorA(ii, q.P.colorData), ColorA(ii, q.Q.colorData), ColorA(ii, q.R.colorData), ColorA(ii, q.S.colorData), w, x, y)
  }

  function ColorsB(q: Quad, ii: bool, w: nat, x: nat, y: nat): Pixel
  {
    ColorAt(ColorB(ii, q.P.colorData), ColorB(ii, q.Q.colorData), ColorB(ii, q.R.colorData), ColorB(ii, q.S.colorData), w, x, y)
  }

  // mod eighths of B and the rest of A
  function Blend(a: Pixel, b: Pixel, mod: nat): Pixel
    requires mod <= 8
  {
    Pixel((a.red * (8 - mod) + b.red * mod) / 8, (a.green * (8 - mod) + b.green * mod) / 8,
          (a.blue * (8 - mod) + b.blue * mod) / 8, (a.alpha * (8 - mod) + b.alpha * mod) / 8)
  }

  function Modulated(a: Pixel, b: Pixel, factor: nat, ii: bool): Pixel
    requires factor <= 8 || factor == 14
  {
    if factor <= 10 then Blend(a, b, factor)
    else if ii then Pixel(0, 0, 0, 0)
    else Blend(a, b, factor - 10).(alpha := 0)
  }

  // the pixel x to the right of the centre of P and y below it
  function DecodePixel(q: Quad, ii: bool, w: nat, x: nat, y: nat): (p: Pixel)
    requires WordWidth(w) && x < w && y < WORD_HEIGHT
  {
    Modulated(ColorsA(q, ii, w, x, y), ColorsB(q, ii, w, x, y), FactorAt(q, w, x, y), ii)
  }

  // p has a share of f eighths of b, rounded down, and the rest of a; with punch-through it is half of
  // each and transparent, and in the second format black
  predicate Mixes(a: Pixel, b: Pixel, f: nat, ii: bool, p: Pixel)
  {
    if f <= 8 then
      IsShare(a.red, b.red, f, p.red) && IsShare(a.green, b.green, f, p.green) && IsShare(a.blue, b.blue, f, p.blue) &&
      IsShare(a.alpha, b.alpha, f, p.alpha)
    else
      p.alpha == 0 &&
      if ii then p.red == 0 && p.green == 0 && p.blue == 0
      else IsShare(a.red, b.red, 4, p.red) && IsShare(a.green, b.green, 4, p.green) && IsShare(a.blue, b.blue, 4, p.blue)
  }

  predicate IsShare(a: int, b: int, f: nat, p: int)
  {
    8 * p <= (8 - f) * a + f * b < 8 * p + 8
  }

  // The factor of a pixel is the share of colour B in it.
  lemma PixelMixes(q: Quad, ii: bool, w: nat, x: nat, y: nat)
    requires WordWidth(w) && x < w && y < WORD_HEIGHT
    ensures Mixes(ColorsA(q, ii, w, x, y), ColorsB(q, ii, w, x, y), FactorAt(q, w, x, y), ii, DecodePixel(q, ii, w, x, y))
  {
    hide ColorsA, ColorsB, FactorAt, Modulated, Mixes;
    ModulatedMixes(ColorsA(q, ii, w, x, y), ColorsB(q, ii, w, x, y), FactorAt(q, w, x, y), ii);
  }

  lemma ModulatedMixes(a: Pixel, b: Pixel, f: nat, ii: bool)
    requires f <= 8 || f == 14
    ensures Mixes(a, b, f, ii, Modulated(a, b, f, ii))
  {
    hide IsShare;
    var m := if f <= 10 then f else f - 10;
    ShareIs(a.red, b.red, m);
    ShareIs(a.green, b.green, m);
    ShareIs(a.blue, b.blue, m);
    ShareIs(a.alpha, b.alpha, m);
  }

  lemma ShareIs(a: int, b: int, f: nat)
    requires f <= 8
    ensures IsShare(a, b, f, (a * (8 - f) + b * f) / 8)
  {
    assert a * (8 - f) == (8 - f) * a && b * f == f * b;
  }

  lemma BlendRange(a: Pixel, b: Pixel, mod: nat)
    requires IsPixel32(a) && IsPixel32(b) && mod <= 8
    ensures IsPixel32(Blend(a, b, mod))
  {
    BlendChannel(a.red, b.red, mod);
    BlendChannel(a.green, b.green, mod);
    BlendChannel(a.blue, b.blue, mod);
    BlendChannel(a.alpha, b.alpha, mod);
  }

  lemma BlendChannel(a: int, b: int, mod: nat)
    requires 0 <= a <= 255 && 0 <= b <= 255 && mod <= 8
    ensures 0 <= (a * (8 - mod) + b * mod) / 8 <= 255
  {
    MulMono(a, 255, 8 - mod);
    MulMono(b, 255, mod);
    MulMono(0, a, 8 - mod);
    MulMono(0, b, mod);
  }

  // For all words every channel is in 0..255: no cast to 8 bits cuts anything off.
  lemma PixelInRange(q: Quad, ii: bool, w: nat, x: nat, y: nat)
    requires WordWidth(w) && x < w && y < WORD_HEIGHT
    ensures IsPixel32(DecodePixel(q, ii, w, x, y))
  {
    hide ColorA, ColorB, ColorAt, FactorAt, Blend;
    ColorAtRange(ColorA(ii, q.P.colorData), ColorA(ii, q.Q.colorData), ColorA(ii, q.R.colorData), ColorA(ii, q.S.colorData), w, x, y);
    ColorAtRange(ColorB(ii, q.P.colorData), ColorB(ii, q.Q.colorData), ColorB(ii, q.R.colorData), ColorB(ii, q.S.colorData), w, x, y);
    var f := FactorAt(q, w, x, y);
    BlendRange(ColorsA(q, ii, w, x, y), ColorsB(q, ii, w, x, y), if f <= 10 then f else f - 10);
  }

  // pvrtcGetDecompressedPixels
  method GetDecompressedPixels(q: Quad, ii: bool, out: array<Pixel>, bpp: nat)
    requires (bpp == 2 || bpp == 4) && out.Length >= (if bpp == 2 then 32 else 16)
    modifies out
    ensures var w := if bpp == 2 then 8 else 4;
      forall x, y :: 0 <= x < w && 0 <= y < 4 ==> out[InTile(w, x, y)] == DecodePixel(q, ii, w, x, y)
  {
    hide ColorA, ColorB, ColorAt, Factor2, Factor4, Modulated, HoldsQuad, FactorAt;
    var values, modes := new int[16, 8], new int[16, 8];
    var upscaledA, upscaledB := new Pixel[32], new Pixel[32];
    UnpackQuad(q, values, modes, bpp);
    InterpolateColors(ColorA(ii, q.P.colorData), ColorA(ii, q.Q.colorData), ColorA(ii, q.R.colorData), ColorA(ii, q.S.colorData), upscaledA, bpp);
    InterpolateColors(ColorB(ii, q.P.colorData), ColorB(ii, q.Q.colorData), ColorB(ii, q.R.colorData), ColorB(ii, q.S.colorData), upscaledB, bpp);
    BlendTile(q, ii, values, modes, upscaledA, upscaledB, out, bpp);
  }

  // the loop over the tile; for 4bpp it runs through columns first
  method BlendTile(ghost q: Quad, ii: bool, values: array2<int>, modes: array2<int>,
                   upscaledA: array<Pixel>, upscaledB: array<Pixel>, out: array<Pixel>, bpp: nat)
    requires values.Length0 == modes.Length0 == 16 && values.Length1 == modes.Length1 == 8
    requires (bpp == 2 || bpp == 4) && out.Length >= (if bpp == 2 then 32 else 16) && HoldsQuad(q, values, modes, bpp)
    requires upscaledA.Length == upscaledB.Length == 32 && out != upscaledA && out != upscaledB
    requires var w := if bpp == 2 then 8 else 4;
      forall x, y :: 0 <= x < w && 0 <= y < 4 ==>
        upscaledA[Place(w, x, y)] == ColorsA(q, ii, w, x, y) && upscaledB[Place(w, x, y)] == ColorsB(q, ii, w, x, y)
    modifies out
    ensures var w := if bpp == 2 then 8 else 4;
      forall x, y :: 0 <= x < w && 0 <= y < 4 ==> out[InTile(w, x, y)] == DecodePixel(q, ii, w, x, y)
  {
    hide ColorsA, ColorsB, Factor2, Factor4, Modulated, HoldsQuad, FactorAt;
    var w := if bpp == 2 then 8 else 4;
    for y := 0 to 4
      invariant forall u, v :: 0 <= u < w && 0 <= v < y ==>
        out[Target(w, u, v)] == DecodePixel(q, ii, w, SourceX(w, u, v), SourceY(w, u, v))
    {
      for x := 0 to w
        invariant forall u, v :: 0 <= u < w && 0 <= v <= y && (v < y || u < x) ==>
          out[Target(w, u, v)] == DecodePixel(q, ii, w, SourceX(w, u, v), SourceY(w, u, v))
      {
        var mod := GetModulationValues(q, values, modes, x + w / 2, y + 2, bpp);
        LoopIs(q, w, x, y);
        TargetsApart(w, x, y);
        out[Target(w, x, y)] := Modulated(upscaledA[y * w + x], upscaledB[y * w + x], mod, ii);
      }
    }
    forall x, y | 0 <= x < w && 0 <= y < 4
      ensures out[InTile(w, x, y)] == DecodePixel(q, ii, w, x, y)
    {
      if w == 8 {
        assert Target(w, x, y) == InTile(w, x, y);
      } else {
        assert Target(w, y, x) == InTile(w, x, y);
      }
    }
  }

  // where a tile of pixels holds the pixel x, y
  function InTile(w: nat, x: nat, y: nat): nat
  {
    y * w + x
  }

  // in the loops for 4bpp x counts rows and y columns
  function SourceX(w: nat, x: nat, y: nat): nat
  {
    if w == 8 then x else y
  }

  function SourceY(w: nat, x: nat, y: nat): nat
  {
    if w == 8 then y else x
  }

  function Target(w: nat, x: nat, y: nat): nat
  {
    if w == 8 then y * 8 + x else y + x * 4
  }

  lemma TargetsApart(w: nat, x: nat, y: nat)
    requires WordWidth(w) && x < w && y < 4
    ensures Target(w, x, y) < 4 * w
    ensures forall u, v :: 0 <= u < w && 0 <= v < 4 && (u != x || v != y) ==> Target(w, u, v) != Target(w, x, y)
  {
  }

  lemma LoopIs(q: Quad, w: nat, x: nat, y: nat)
    requires WordWidth(w) && x < w && y < 4
    ensures y * w + x == Place(w, SourceX(w, x, y), SourceY(w, x, y)) < 32
    ensures FactorAt(q, w, SourceX(w, x, y), SourceY(w, x, y)) ==
            if w == 8 then Factor2(q, x + 4, y + 2) else Factor4(q, y + 2, x + 2)
  {
  }

  // ---------- tiles on the image ----------

  // The texture has n words in a row (or column), of w pixels each; tile i lies between the centres
  // of the words i - 1 and i, where word -1 is the last one.

  // wrapWordIndex
  function WrapWordIndex(n: nat, word: int): (r: nat)
    requires n > 0 && word >= -1
    ensures r < n
  {
    DivMod(word + n, n);
    (word + n) % n
  }

  lemma WrapIs(n: nat, i: nat)
    requires i < n
    ensures WrapWordIndex(n, i) == i && WrapWordIndex(n, i - 1) == if i == 0 then n - 1 else i - 1
  {
    DivUnique(i + n, n, 1, i);
    if i == 0 {
      DivUnique(n - 1, n, 0, n - 1);
    } else {
      DivUnique(i - 1 + n, n, 1, i - 1);
    }
  }

  // the place in the image of column k of tile i: its left half is in word i - 1, its right half in
  // word i
  function Column(n: nat, w: nat, i: nat, k: nat): (x: nat)
    requires WordWidth(w) && i < n && k < w
  {
    if k < w / 2 then WrapWordIndex(n, i - 1) * w + k + w / 2 else i * w + k - w / 2
  }

  // the tile that column x of the image lies in, and where in it
  function Tile(n: nat, w: nat, x: nat): nat
    requires WordWidth(w)
  {
    var t := (x + w / 2) / w;
    if t == n then 0 else t
  }

  function Offset(w: nat, x: nat): (k: nat)
    requires WordWidth(w)
    ensures k < w
  {
    (x + w / 2) % w
  }

  lemma ColumnInverse(n: nat, w: nat, i: nat, k: nat)
    requires WordWidth(w) && i < n && k < w
    ensures Column(n, w, i, k) < n * w
    ensures Tile(n, w, Column(n, w, i, k)) == i && Offset(w, Column(n, w, i, k)) == k
  {
    WrapIs(n, i);
    hide WrapWordIndex;
    if w == 4 {
    } else {
    }
  }

  lemma TileInverse(n: nat, w: nat, x: nat)
    requires WordWidth(w) && x < n * w
    ensures Tile(n, w, x) < n && Column(n, w, Tile(n, w, x), Offset(w, x)) == x
  {
    if w == 4 {
    } else {
    }
    WrapIs(n, Tile(n, w, x));
    hide WrapWordIndex;
  }

  // Over the wrapped words the tiles partition the image: every pixel is in exactly one place of
  // exactly one tile.
  lemma TilesPartition(nx: nat, ny: nat, w: nat, x: nat, y: nat) returns (i: nat, j: nat, k: nat, l: nat)
    requires WordWidth(w) && x < nx * w && y < ny * WORD_HEIGHT
    ensures i < nx && j < ny && k < w && l < WORD_HEIGHT
    ensures Column(nx, w, i, k) == x && Column(ny, WORD_HEIGHT, j, l) == y
    ensures forall i': nat, j': nat, k': nat, l': nat ::
      i' < nx && j' < ny && k' < w && l' < WORD_HEIGHT &&
      Column(nx, w, i', k') == x && Column(ny, WORD_HEIGHT, j', l') == y ==>
        i' == i && j' == j && k' == k && l' == l
  {
    i, j, k, l := Tile(nx, w, x), Tile(ny, WORD_HEIGHT, y), Offset(w, x), Offset(WORD_HEIGHT, y);
    TileInverse(nx, w, x);
    TileInverse(ny, WORD_HEIGHT, y);
    hide Column, Tile, Offset;
    forall i': nat, j': nat, k': nat, l': nat |
      i' < nx && j' < ny && k' < w && l' < WORD_HEIGHT &&
      Column(nx, w, i', k') == x && Column(ny, WORD_HEIGHT, j', l') == y
      ensures i' == i && j' == j && k' == k && l' == l
    {
      ColumnInverse(nx, w, i', k');
      ColumnInverse(ny, WORD_HEIGHT, j', l');
    }
  }
}
