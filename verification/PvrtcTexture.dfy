// A PVRTC texture: its words, the four words around each tile, and the pixel that they give.
module PvrtcTexture {
  import opened Powers
  import opened PvrtcTwiddle
  import opened PvrtcColor
  import opened PvrtcModulation
  import opened Pvrtc

  // the word at x, y of a texture of 2^a by 2^b words; each is two members, modulation and colour
  function TextureWord(members: seq<nat>, ii: bool, a: nat, b: nat, x: nat, y: nat): Word
    requires |members| >= 2 * (Pow2(a) * Pow2(b)) && x < Pow2(a) && y < Pow2(b)
  {
    WordOrderOneToOne(ii, a, b, x, y, x, y);
    var k := 2 * WordOrder(ii, a, b, x, y);
    Word(members[k], members[k + 1])
  }

  // the words around tile i, j
  function TileWords(members: seq<nat>, ii: bool, a: nat, b: nat, i: nat, j: nat): Quad
    requires |members| >= 2 * (Pow2(a) * Pow2(b)) && i < Pow2(a) && j < Pow2(b)
  {
    var px, py := WrapWordIndex(Pow2(a), i - 1), WrapWordIndex(Pow2(b), j - 1);
    Quad(TextureWord(members, ii, a, b, px, py), TextureWord(members, ii, a, b, i, py),
         TextureWord(members, ii, a, b, px, j), TextureWord(members, ii, a, b, i, j))
  }

  // the pixel x, y of the image
  function ImagePixel(members: seq<nat>, ii: bool, a: nat, b: nat, w: nat, x: nat, y: nat): Pixel
    requires |members| >= 2 * (Pow2(a) * Pow2(b)) && WordWidth(w) && x < Pow2(a) * w && y < Pow2(b) * WORD_HEIGHT
  {
    TileInverse(Pow2(a), w, x);
    TileInverse(Pow2(b), WORD_HEIGHT, y);
    DecodePixel(TileWords(members, ii, a, b, Tile(Pow2(a), w, x), Tile(Pow2(b), WORD_HEIGHT, y)), ii, w,
                Offset(w, x), Offset(WORD_HEIGHT, y))
  }
}
