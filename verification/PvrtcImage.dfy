// pvrtcDecompress and its callers: the loop over the words of a texture that fills the image.
module PvrtcImage {
  import opened Powers
  import opened PvrtcTwiddle
  import opened PvrtcColor
  import opened PvrtcModulation
  import opened Pvrtc
  import opened PvrtcTexture
  import opened PvrtcFormat

  // the pixel x, y of an image of the given width
  function Index(width: nat, x: nat, y: nat): nat
  {
    y * width + x
  }

  lemma IndexBelow(width: nat, height: nat, x: nat, y: nat)
    requires x < width && y < height
    ensures Index(width, x, y) < width * height
  {
    MulMono(y + 1, height, width);
    MulDist(y, 1, width);
  }

  lemma IndexOneToOne(width: nat, x: nat, y: nat, x': nat, y': nat)
    requires x < width && x' < width && Index(width, x, y) == Index(width, x', y')
    ensures x == x' && y == y'
  {
    EuclidUnique(width, y, x, y', x');
  }

  // is this pixel the one at k, l of tile i, j?
  predicate At(nx: nat, ny: nat, w: nat, x: nat, y: nat, i: nat, j: nat, k: nat, l: nat)
    requires WordWidth(w)
  {
    Tile(nx, w, x) == i && Tile(ny, WORD_HEIGHT, y) == j && Offset(w, x) == k && Offset(WORD_HEIGHT, y) == l
  }

  // one pixel of tile i, j
  method Put(out: array<Pixel>, nx: nat, ny: nat, w: nat, i: nat, j: nat, k: nat, l: nat, p: Pixel)
    requires WordWidth(w) && i < nx && j < ny && k < w && l < WORD_HEIGHT
    requires out.Length >= nx * w * (ny * WORD_HEIGHT)
    modifies out
    ensures forall x, y :: 0 <= x < nx * w && 0 <= y < ny * WORD_HEIGHT ==>
      Index(nx * w, x, y) < out.Length &&
      out[Index(nx * w, x, y)] == if At(nx, ny, w, x, y, i, j, k, l) then p else old(out[Index(nx * w, x, y)])
  {
    var x0, y0 := Column(nx, w, i, k), Column(ny, WORD_HEIGHT, j, l);
    ColumnInverse(nx, w, i, k);
    ColumnInverse(ny, WORD_HEIGHT, j, l);
    var width := nx * w;
    IndexBelow(width, ny * WORD_HEIGHT, x0, y0);
    out[Index(width, x0, y0)] := p;
    forall x, y | 0 <= x < width && 0 <= y < ny * WORD_HEIGHT
      ensures Index(width, x, y) < out.Length
      ensures out[Index(width, x, y)] == if At(nx, ny, w, x, y, i, j, k, l) then p else old(out[Index(width, x, y)])
    {
      PutPixel(nx, ny, w, x, y, i, j, k, l, x0, y0);
    }
  }

  lemma PutPixel(nx: nat, ny: nat, w: nat, x: nat, y: nat, i: nat, j: nat, k: nat, l: nat, x0: nat, y0: nat)
    requires WordWidth(w) && i < nx && j < ny && k < w && l < WORD_HEIGHT && x < nx * w && y < ny * WORD_HEIGHT
    requires x0 == Column(nx, w, i, k) < nx * w && y0 == Column(ny, WORD_HEIGHT, j, l)
    ensures Index(nx * w, x, y) < nx * w * (ny * WORD_HEIGHT)
    ensures Index(nx * w, x, y) == Index(nx * w, x0, y0) <==> At(nx, ny, w, x, y, i, j, k, l)
  {
    IndexBelow(nx * w, ny * WORD_HEIGHT, x, y);
    ColumnInverse(nx, w, i, k);
    ColumnInverse(ny, WORD_HEIGHT, j, l);
    TileInverse(nx, w, x);
    TileInverse(ny, WORD_HEIGHT, y);
    hide Column, Tile, Offset, Index;
    if Index(nx * w, x, y) == Index(nx * w, x0, y0) {
      IndexOneToOne(nx * w, x, y, x0, y0);
    }
  }

  // does this pixel lie in tile i, j?
  predicate Inside(nx: nat, ny: nat, w: nat, x: nat, y: nat, i: nat, j: nat)
    requires WordWidth(w)
  {
    Tile(nx, w, x) == i && Tile(ny, WORD_HEIGHT, y) == j
  }

  // its place in the tile
  function Spot(w: nat, x: nat, y: nat): (s: nat)
    requires WordWidth(w)
    ensures s < WORD_HEIGHT * w
  {
    InTile(w, Offset(w, x), Offset(WORD_HEIGHT, y))
  }

  // its place in a quarter of the tile
  function SpotX(w: nat, x: nat): nat
    requires WordWidth(w)
  {
    Offset(w, x) % (w / 2)
  }

  function SpotY(y: nat): nat
  {
    Offset(WORD_HEIGHT, y) % 2
  }

  lemma SpotIs(nx: nat, ny: nat, w: nat, u: nat, v: nat, i: nat, j: nat, x: nat, y: nat)
    requires WordWidth(w) && x < w / 2 && y < 2
    ensures Inside(nx, ny, w, u, v, i, j) && SpotX(w, u) == x && SpotY(v) == y <==>
      At(nx, ny, w, u, v, i, j, x, y) || At(nx, ny, w, u, v, i, j, x + w / 2, y) ||
      At(nx, ny, w, u, v, i, j, x, y + 2) || At(nx, ny, w, u, v, i, j, x + w / 2, y + 2)
    ensures forall k, l :: 0 <= k < w && 0 <= l < WORD_HEIGHT && At(nx, ny, w, u, v, i, j, k, l) ==>
      Spot(w, u, v) == InTile(w, k, l)
  {
    hide Tile;
    if w == 4 {
    } else {
    }
  }

  // the same place in each quarter: they go to the words P, Q, R and S
  method MapQuarters(out: array<Pixel>, nx: nat, ny: nat, w: nat, tile: array<Pixel>, i: nat, j: nat, x: nat, y: nat)
    requires WordWidth(w) && i < nx && j < ny && out != tile && x < w / 2 && y < 2
    requires out.Length >= nx * w * (ny * WORD_HEIGHT) && tile.Length >= WORD_HEIGHT * w
    modifies out
    ensures forall u, v :: 0 <= u < nx * w && 0 <= v < ny * WORD_HEIGHT ==>
      Index(nx * w, u, v) < out.Length &&
      out[Index(nx * w, u, v)] ==
        if Inside(nx, ny, w, u, v, i, j) && SpotX(w, u) == x && SpotY(v) == y then tile[Spot(w, u, v)]
        else old(out[Index(nx * w, u, v)])
  {
    hide Inside, Spot, SpotX, SpotY, At, Index;
    TileFits(w);
    label start:
    Put(out, nx, ny, w, i, j, x, y, tile[InTile(w, x, y)]);
    Put(out, nx, ny, w, i, j, x + w / 2, y, tile[InTile(w, x + w / 2, y)]);
    Put(out, nx, ny, w, i, j, x, y + 2, tile[InTile(w, x, y + 2)]);
    Put(out, nx, ny, w, i, j, x + w / 2, y + 2, tile[InTile(w, x + w / 2, y + 2)]);
    forall u, v | 0 <= u < nx * w && 0 <= v < ny * WORD_HEIGHT
      ensures out[Index(nx * w, u, v)] ==
        if Inside(nx, ny, w, u, v, i, j) && SpotX(w, u) == x && SpotY(v) == y then tile[Spot(w, u, v)]
        else old(out[Index(nx * w, u, v)])
    {
      SpotIs(nx, ny, w, u, v, i, j, x, y);
    }
  }

  lemma TileFits(w: nat)
    requires WordWidth(w)
    ensures forall k, l :: 0 <= k < w && 0 <= l < WORD_HEIGHT ==> InTile(w, k, l) < WORD_HEIGHT * w
  {
  }

  // mapDecompressedData
  method MapDecompressedData(out: array<Pixel>, nx: nat, ny: nat, w: nat, tile: array<Pixel>, i: nat, j: nat)
    requires WordWidth(w) && i < nx && j < ny && out != tile
    requires out.Length >= nx * w * (ny * WORD_HEIGHT) && tile.Length >= WORD_HEIGHT * w
    modifies out
    ensures forall u, v :: 0 <= u < nx * w && 0 <= v < ny * WORD_HEIGHT ==>
      Index(nx * w, u, v) < out.Length &&
      out[Index(nx * w, u, v)] ==
        if Inside(nx, ny, w, u, v, i, j) then tile[Spot(w, u, v)] else old(out[Index(nx * w, u, v)])
  {
    IndexesFit(nx, ny, w);
    SpotsFit(w);
    hide Inside, Spot, SpotX, SpotY, Index;
    for y := 0 to 2
      invariant forall u, v :: 0 <= u < nx * w && 0 <= v < ny * WORD_HEIGHT ==>
        out[Index(nx * w, u, v)] ==
          if Inside(nx, ny, w, u, v, i, j) && SpotY(v) < y then tile[Spot(w, u, v)] else old(out[Index(nx * w, u, v)])
    {
      for x := 0 to w / 2
        invariant forall u, v :: 0 <= u < nx * w && 0 <= v < ny * WORD_HEIGHT ==>
          out[Index(nx * w, u, v)] ==
            if Inside(nx, ny, w, u, v, i, j) && (SpotY(v) < y || (SpotY(v) == y && SpotX(w, u) < x))
            then tile[Spot(w, u, v)] else old(out[Index(nx * w, u, v)])
      {
        MapQuarters(out, nx, ny, w, tile, i, j, x, y);
      }
    }
  }

  lemma SpotsFit(w: nat)
    requires WordWidth(w)
    ensures forall u :: 0 <= u ==> SpotX(w, u) < w / 2
    ensures forall v :: 0 <= v ==> SpotY(v) < 2
  {
  }

  lemma IndexesFit(nx: nat, ny: nat, w: nat)
    requires WordWidth(w)
    ensures forall x, y :: 0 <= x < nx * w && 0 <= y < ny * WORD_HEIGHT ==>
      Index(nx * w, x, y) < nx * w * (ny * WORD_HEIGHT)
  {
    forall x, y | 0 <= x < nx * w && 0 <= y < ny * WORD_HEIGHT
      ensures Index(nx * w, x, y) < nx * w * (ny * WORD_HEIGHT)
    {
      IndexBelow(nx * w, ny * WORD_HEIGHT, x, y);
    }
  }

  // ---------- the texture ----------

  method ReadWord(members: seq<nat>, ii: bool, nx: nat, ny: nat, x: nat, y: nat, ghost a: nat, ghost b: nat)
    returns (word: Word)
    requires nx == Pow2(a) && ny == Pow2(b) && |members| >= 2 * (Pow2(a) * Pow2(b)) && x < nx && y < ny
    ensures word == TextureWord(members, ii, a, b, x, y)
  {
    hide Pow2, WordOrder;
    WordOrderOneToOne(ii, a, b, x, y, x, y);
    var k := TwiddleUV(ii, nx, ny, x, y, a, b);
    word := Word(members[2 * k], members[2 * k + 1]);
  }

  // the words around a tile
  method ReadTileWords(members: seq<nat>, ii: bool, nx: nat, ny: nat, wordX: int, wordY: int, ghost a: nat,
          ghost b: nat)
    returns (q: Quad)
    requires nx == Pow2(a) && ny == Pow2(b) && |members| >= 2 * (Pow2(a) * Pow2(b))
    requires -1 <= wordX < nx - 1 && -1 <= wordY < ny - 1
    ensures q == TileWords(members, ii, a, b, wordX + 1, wordY + 1)
  {
    hide Pow2, TextureWord;
    WrapIs(nx, wordX + 1);
    WrapIs(ny, wordY + 1);
    var P := ReadWord(members, ii, nx, ny, WrapWordIndex(nx, wordX), WrapWordIndex(ny, wordY), a, b);
    var Q := ReadWord(members, ii, nx, ny, WrapWordIndex(nx, wordX + 1), WrapWordIndex(ny, wordY), a, b);
    var R := ReadWord(members, ii, nx, ny, WrapWordIndex(nx, wordX), WrapWordIndex(ny, wordY + 1), a, b);
    var S := ReadWord(members, ii, nx, ny, WrapWordIndex(nx, wordX + 1), WrapWordIndex(ny, wordY + 1), a, b);
    q := Quad(P, Q, R, S);
  }

  // tile i, j of the image is there
  lemma TileIsImage(members: seq<nat>, ii: bool, a: nat, b: nat, w: nat, u: nat, v: nat, i: nat, j: nat)
    requires |members| >= 2 * (Pow2(a) * Pow2(b)) && WordWidth(w) && u < Pow2(a) * w && v < Pow2(b) * WORD_HEIGHT
    requires i < Pow2(a) && j < Pow2(b) && Inside(Pow2(a), Pow2(b), w, u, v, i, j)
    ensures DecodePixel(TileWords(members, ii, a, b, i, j), ii, w, Offset(w, u), Offset(WORD_HEIGHT, v)) ==
            ImagePixel(members, ii, a, b, w, u, v)
  {
    hide DecodePixel, TileWords, Pow2, Tile, Offset;
  }

  // one round of the loop
  method DecompressTile(members: seq<nat>, ii: bool, out: array<Pixel>, tile: array<Pixel>, nx: nat, ny: nat, bpp: nat,
                        wordX: int, wordY: int, ghost a: nat, ghost b: nat)
    requires nx == Pow2(a) && ny == Pow2(b) && |members| >= 2 * (Pow2(a) * Pow2(b))
    requires -1 <= wordX < nx - 1 && -1 <= wordY < ny - 1 && (bpp == 2 || bpp == 4) && out != tile
    requires var w := if bpp == 2 then 8 else 4;
      out.Length >= nx * w * (ny * WORD_HEIGHT) && tile.Length >= WORD_HEIGHT * w
    modifies out, tile
    ensures var w := if bpp == 2 then 8 else 4;
      forall u, v :: 0 <= u < nx * w && 0 <= v < ny * WORD_HEIGHT ==>
        Index(nx * w, u, v) < out.Length &&
        out[Index(nx * w, u, v)] ==
          if Inside(nx, ny, w, u, v, wordX + 1, wordY + 1) then ImagePixel(members, ii, a, b, w, u, v)
          else old(out[Index(nx * w, u, v)])
  {
    hide DecodePixel, TileWords, ImagePixel, Inside, Pow2, Index, InTile, Offset;
    var w := if bpp == 2 then 8 else 4;
    var q := ReadTileWords(members, ii, nx, ny, wordX, wordY, a, b);
    GetDecompressedPixels(q, ii, tile, bpp);
    MapDecompressedData(out, nx, ny, w, tile, wordX + 1, wordY + 1);
    forall u, v | 0 <= u < nx * w && 0 <= v < ny * WORD_HEIGHT && Inside(nx, ny, w, u, v, wordX + 1, wordY + 1)
      ensures out[Index(nx * w, u, v)] == ImagePixel(members, ii, a, b, w, u, v)
    {
      TileIsImage(members, ii, a, b, w, u, v, wordX + 1, wordY + 1);
    }
  }

  // the tiles before wordX, wordY in the order of the loops
  predicate Earlier(nx: nat, ny: nat, w: nat, u: nat, v: nat, wordX: int, wordY: int)
    requires WordWidth(w)
  {
    Tile(ny, WORD_HEIGHT, v) < wordY + 1 || (Tile(ny, WORD_HEIGHT, v) == wordY + 1 && Tile(nx, w, u) < wordX + 1)
  }

  lemma Order(nx: nat, ny: nat, w: nat, u: nat, v: nat, wordX: int, wordY: int)
    requires WordWidth(w) && wordX >= -1 && wordY >= -1 && u < nx * w && v < ny * WORD_HEIGHT
    ensures Earlier(nx, ny, w, u, v, wordX + 1, wordY) <==>
      Earlier(nx, ny, w, u, v, wordX, wordY) || Inside(nx, ny, w, u, v, wordX + 1, wordY + 1)
    ensures Earlier(nx, ny, w, u, v, nx - 1, wordY) <==> Earlier(nx, ny, w, u, v, -1, wordY + 1)
    ensures !Earlier(nx, ny, w, u, v, -1, -1) && Earlier(nx, ny, w, u, v, -1, ny - 1)
  {
    TileInverse(nx, w, u);
    TileInverse(ny, WORD_HEIGHT, v);
    hide Tile, Column;
  }

  lemma NextTile(nx: nat, ny: nat, w: nat, wordX: int, next: int, wordY: int, i: nat, j: nat)
    requires WordWidth(w) && wordX >= -1 && wordY >= -1 && next == i == wordX + 1 && j == wordY + 1
    ensures forall u, v :: 0 <= u < nx * w && 0 <= v < ny * WORD_HEIGHT ==>
      (Earlier(nx, ny, w, u, v, next, wordY) <==> Earlier(nx, ny, w, u, v, wordX, wordY) || Inside(nx, ny, w, u, v, i, j))
  {
    hide Earlier, Inside;
    forall u, v | 0 <= u < nx * w && 0 <= v < ny * WORD_HEIGHT
      ensures Earlier(nx, ny, w, u, v, next, wordY) <==>
        Earlier(nx, ny, w, u, v, wordX, wordY) || Inside(nx, ny, w, u, v, i, j)
    {
      Order(nx, ny, w, u, v, wordX, wordY);
    }
  }

  lemma NextRow(nx: nat, ny: nat, w: nat, last: int, first: int, wordY: int, next: int)
    requires WordWidth(w) && wordY >= -1 && next == wordY + 1 && last == nx - 1 && first == -1
    ensures forall u, v :: 0 <= u < nx * w && 0 <= v < ny * WORD_HEIGHT ==>
      (Earlier(nx, ny, w, u, v, last, wordY) <==> Earlier(nx, ny, w, u, v, first, next))
  {
    hide Earlier, Inside;
    forall u, v | 0 <= u < nx * w && 0 <= v < ny * WORD_HEIGHT
      ensures Earlier(nx, ny, w, u, v, last, wordY) <==> Earlier(nx, ny, w, u, v, first, next)
    {
      Order(nx, ny, w, u, v, first, wordY);
    }
  }

  lemma AllTiles(nx: nat, ny: nat, w: nat, first: int, last: int)
    requires WordWidth(w) && first == -1 && last == ny - 1
    ensures forall u, v :: 0 <= u < nx * w && 0 <= v < ny * WORD_HEIGHT ==> !Earlier(nx, ny, w, u, v, first, first)
    ensures forall u, v :: 0 <= u < nx * w && 0 <= v < ny * WORD_HEIGHT ==> Earlier(nx, ny, w, u, v, first, last)
  {
    hide Earlier, Inside;
    forall u, v | 0 <= u < nx * w && 0 <= v < ny * WORD_HEIGHT
      ensures !Earlier(nx, ny, w, u, v, first, first)
      ensures Earlier(nx, ny, w, u, v, first, last)
    {
      Order(nx, ny, w, u, v, first, first);
    }
  }

  // the pixels of the tiles before wordX, wordY are there
  ghost predicate TilesDone(members: seq<nat>, ii: bool, a: nat, b: nat, w: nat, out: seq<Pixel>, wordX: int, wordY: int)
    requires |members| >= 2 * (Pow2(a) * Pow2(b)) && WordWidth(w)
  {
    forall u, v | 0 <= u < Pow2(a) * w && 0 <= v < Pow2(b) * WORD_HEIGHT ::
      Earlier(Pow2(a), Pow2(b), w, u, v, wordX, wordY) ==> Shows(members, ii, a, b, w, out, u, v)
  }

  ghost predicate Shows(members: seq<nat>, ii: bool, a: nat, b: nat, w: nat, out: seq<Pixel>, u: nat, v: nat)
    requires |members| >= 2 * (Pow2(a) * Pow2(b)) && WordWidth(w) && u < Pow2(a) * w && v < Pow2(b) * WORD_HEIGHT
  {
    Index(Pow2(a) * w, u, v) < |out| && out[Index(Pow2(a) * w, u, v)] == ImagePixel(members, ii, a, b, w, u, v)
  }

  lemma NothingDone(members: seq<nat>, ii: bool, a: nat, b: nat, w: nat, out: seq<Pixel>)
    requires |members| >= 2 * (Pow2(a) * Pow2(b)) && WordWidth(w)
    ensures TilesDone(members, ii, a, b, w, out, -1, -1)
  {
    hide Earlier, Shows, Pow2;
    AllTiles(Pow2(a), Pow2(b), w, -1, Pow2(b) - 1);
  }

  lemma TileDone(members: seq<nat>, ii: bool, a: nat, b: nat, w: nat, before: seq<Pixel>, out: seq<Pixel>, wordX: int,
                 wordY: int)
    requires |members| >= 2 * (Pow2(a) * Pow2(b)) && WordWidth(w) && |before| == |out| && wordX >= -1 && wordY >= -1
    requires TilesDone(members, ii, a, b, w, before, wordX, wordY)
    requires forall u, v :: 0 <= u < Pow2(a) * w && 0 <= v < Pow2(b) * WORD_HEIGHT ==>
      Index(Pow2(a) * w, u, v) < |out| &&
      out[Index(Pow2(a) * w, u, v)] ==
        if Inside(Pow2(a), Pow2(b), w, u, v, wordX + 1, wordY + 1) then ImagePixel(members, ii, a, b, w, u, v)
        else before[Index(Pow2(a) * w, u, v)]
    ensures TilesDone(members, ii, a, b, w, out, wordX + 1, wordY)
  {
    hide Earlier, Inside, ImagePixel, Index, Pow2;
    NextTile(Pow2(a), Pow2(b), w, wordX, wordX + 1, wordY, wordX + 1, wordY + 1);
  }

  lemma RowDone(members: seq<nat>, ii: bool, a: nat, b: nat, w: nat, out: seq<Pixel>, wordY: int)
    requires |members| >= 2 * (Pow2(a) * Pow2(b)) && WordWidth(w) && wordY >= -1
    requires TilesDone(members, ii, a, b, w, out, Pow2(a) - 1, wordY)
    ensures TilesDone(members, ii, a, b, w, out, -1, wordY + 1)
  {
    hide Earlier, Shows, Pow2;
    NextRow(Pow2(a), Pow2(b), w, Pow2(a) - 1, -1, wordY, wordY + 1);
  }

  lemma AllDone(members: seq<nat>, ii: bool, a: nat, b: nat, w: nat, out: seq<Pixel>)
    requires |members| >= 2 * (Pow2(a) * Pow2(b)) && WordWidth(w)
    requires TilesDone(members, ii, a, b, w, out, -1, Pow2(b) - 1)
    ensures forall u, v :: 0 <= u < Pow2(a) * w && 0 <= v < Pow2(b) * WORD_HEIGHT ==>
      Index(Pow2(a) * w, u, v) < |out| &&
      out[Index(Pow2(a) * w, u, v)] == FormatPixel(Texture(members, ii, a, b, w), u, v)
  {
    hide Earlier, ImagePixel, FormatPixel, Index, Pow2;
    AllTiles(Pow2(a), Pow2(b), w, -1, Pow2(b) - 1);
    forall u, v | 0 <= u < Pow2(a) * w && 0 <= v < Pow2(b) * WORD_HEIGHT
      ensures Index(Pow2(a) * w, u, v) < |out|
      ensures out[Index(Pow2(a) * w, u, v)] == FormatPixel(Texture(members, ii, a, b, w), u, v)
    {
      assert Shows(members, ii, a, b, w, out, u, v);
      PixelIs(Texture(members, ii, a, b, w), u, v);
    }
  }

  // pvrtcDecompress
  method PvrtcDecompress(members: seq<nat>, ii: bool, out: array<Pixel>, width: nat, height: nat, bpp: nat,
                         ghost a: nat, ghost b: nat) returns (size: nat)
    requires (bpp == 2 || bpp == 4) && |members| >= 2 * (Pow2(a) * Pow2(b)) && out.Length >= width * height
    requires width == Pow2(a) * (if bpp == 2 then 8 else 4) && height == Pow2(b) * WORD_HEIGHT
    modifies out
    ensures var w := if bpp == 2 then 8 else 4;
      forall u, v :: 0 <= u < width && 0 <= v < height ==>
        Index(width, u, v) < out.Length &&
        out[Index(width, u, v)] == FormatPixel(Texture(members, ii, a, b, w), u, v)
    ensures size == 8 * (Pow2(a) * Pow2(b))
  {
    hide FormatPixel, Inside, Pow2, Index, TilesDone;
    var w := if bpp == 2 then 8 else 4;
    var nx, ny := width / w, height / WORD_HEIGHT;
    var tile := new Pixel[w * WORD_HEIGHT];
    NothingDone(members, ii, a, b, w, out[..]);
    for wordY := -1 to ny - 1
      invariant TilesDone(members, ii, a, b, w, out[..], -1, wordY)
    {
      for wordX := -1 to nx - 1
        invariant TilesDone(members, ii, a, b, w, out[..], wordX, wordY)
      {
        ghost var before := out[..];
        DecompressTile(members, ii, out, tile, nx, ny, bpp, wordX, wordY, a, b);
        TileDone(members, ii, a, b, w, before, out[..], wordX, wordY);
      }
      RowDone(members, ii, a, b, w, out[..], wordY);
    }
    AllDone(members, ii, a, b, w, out[..]);
    DataSize(nx, ny, w);
    // the data size
    size := width * height / (w / 2);
  }

  // two members of 4 bytes for each word
  lemma DataSize(nx: nat, ny: nat, w: nat)
    requires WordWidth(w)
    ensures nx * w * (ny * WORD_HEIGHT) / (w / 2) == 8 * (nx * ny)
  {
    if w == 4 {
      assert nx * 4 * (ny * 4) == 16 * (nx * ny);
    } else {
      assert nx * 8 * (ny * 4) == 32 * (nx * ny);
    }
  }

  // PVRTDecompressPVRTC and PVRTDecompressPVRTCII: an image smaller than two words each way is cut
  // out of the smallest texture
  method Decompress(members: seq<nat>, ii: bool, do2bitMode: bool, XDim: nat, YDim: nat, result: array<Pixel>,
                    ghost a: nat, ghost b: nat) returns (size: nat)
    requires var w := if do2bitMode then 8 else 4;
      a > 0 && b > 0 && TrueDim(XDim, 2 * w) == Pow2(a) * w && TrueDim(YDim, 8) == Pow2(b) * WORD_HEIGHT
    requires |members| >= 2 * (Pow2(a) * Pow2(b)) && result.Length >= XDim * YDim
    modifies result
    ensures var w := if do2bitMode then 8 else 4;
      forall u, v :: 0 <= u < XDim && 0 <= v < YDim ==>
        Index(XDim, u, v) < result.Length &&
        result[Index(XDim, u, v)] == FormatPixel(Texture(members, ii, a, b, w), u, v)
    ensures size == 8 * (Pow2(a) * Pow2(b))
  {
    hide FormatPixel, Pow2, Index;
    var w := if do2bitMode then 8 else 4;
    var XTrueDim, YTrueDim := TrueDim(XDim, 2 * w), TrueDim(YDim, 8);
    if XTrueDim == XDim && YTrueDim == YDim {
      size := PvrtcDecompress(members, ii, result, XDim, YDim, if do2bitMode then 2 else 4, a, b);
      return;
    }
    var data := new Pixel[XTrueDim * YTrueDim];
    size := PvrtcDecompress(members, ii, data, XTrueDim, YTrueDim, if do2bitMode then 2 else 4, a, b);
    Cut(data, XTrueDim, YTrueDim, result, XDim, YDim);
  }

  function TrueDim(dim: nat, least: nat): nat
  {
    if dim < least then least else dim
  }

  // copies the required pixels
  method Cut(data: array<Pixel>, XTrueDim: nat, YTrueDim: nat, result: array<Pixel>, XDim: nat, YDim: nat)
    requires XDim <= XTrueDim && YDim <= YTrueDim && data != result
    requires data.Length >= XTrueDim * YTrueDim && result.Length >= XDim * YDim
    modifies result
    ensures forall u, v :: 0 <= u < XDim && 0 <= v < YDim ==>
      Index(XDim, u, v) < result.Length && Index(XTrueDim, u, v) < data.Length &&
      result[Index(XDim, u, v)] == data[Index(XTrueDim, u, v)]
  {
    hide Index;
    InImage(XDim, YDim, XDim, YDim);
    InImage(XTrueDim, YTrueDim, XDim, YDim);
    for x := 0 to XDim
      invariant forall u, v :: 0 <= u < x && 0 <= v < YDim ==>
        result[Index(XDim, u, v)] == data[Index(XTrueDim, u, v)]
    {
      for y := 0 to YDim
        invariant forall u, v :: 0 <= u <= x && 0 <= v < YDim && (u < x || v < y) ==>
          result[Index(XDim, u, v)] == data[Index(XTrueDim, u, v)]
      {
        IndexApart(XDim, x, y);
        result[Index(XDim, x, y)] := data[Index(XTrueDim, x, y)];
      }
    }
  }

  lemma InImage(width: nat, height: nat, m: nat, n: nat)
    requires m <= width && n <= height
    ensures forall u, v :: 0 <= u < m && 0 <= v < n ==> Index(width, u, v) < width * height
  {
    forall u, v | 0 <= u < m && 0 <= v < n
      ensures Index(width, u, v) < width * height
    {
      IndexBelow(width, height, u, v);
    }
  }

  lemma IndexApart(width: nat, x: nat, y: nat)
    requires x < width
    ensures forall u, v :: 0 <= u < width && 0 <= v && (u != x || v != y) ==> Index(width, u, v) != Index(width, x, y)
  {
    forall u, v | 0 <= u < width && 0 <= v && (u != x || v != y)
      ensures Index(width, u, v) != Index(width, x, y)
    {
      if Index(width, u, v) == Index(width, x, y) {
        IndexOneToOne(width, u, v, x, y);
      }
    }
  }
}
