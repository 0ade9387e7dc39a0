// Block headers as they are written: block type and length, and the trees; the decoder gets back what
// was written.
module LzxBlocks {
  import opened Wrappers
  import opened Powers
  import opened CanonicalCode
  import opened BitStream
  import opened LzxSpec
  import opened LzxTokens
  import opened LzxLengths

  // ---------- numbers of more than 17 bits are read in two parts ----------

  lemma TwoParts(hi: nat, n: nat, lo: nat, m: nat)
    requires lo < Pow2(m)
    ensures BitsOf(Shl(hi, m) + lo, n + m) == BitsOf(hi, n) + BitsOf(lo, m)
  {
    BitsOfConcat(hi, n, lo, m);
  }

  // one bit 0, or one bit 1 and 32 bits of the file size
  function HeaderBits(size: Option<nat>): seq<Bit>
  {
    if size.None? then [0] else [1] + BitsOf(size.value, 32)
  }

  // The header of the stream.
  lemma HeaderIsRead(src: seq<nat>, c: Cursor, size: Option<nat>, rest: seq<nat>)
    requires size.Some? ==> size.value < Pow2(32)
    requires Holds(src, c, HeaderBits(size), rest)
    ensures HeaderNumber(src, c).Ok?
    ensures var (v, c') := HeaderNumber(src, c).value;
      v == (if size.None? then 0 else Signed32(size.value)) && Reached(src, c, c', rest)
  {
    OneBit();
    Pow2Values();
    hide Bits, BitsOf, Remaining, Signed32, Pow2;
    if size.None? {
      NumberIsRead(src, c, 1, 0, rest);
    } else {
      var u := size.value;
      var hi, lo := u / 0x1_0000, u % 0x1_0000;
      assert Shl(hi, 16) == 0x1_0000 * hi;
      TwoParts(hi, 16, lo, 16);
      assert [1] + (BitsOf(hi, 16) + BitsOf(lo, 16)) + rest == [1] + (BitsOf(hi, 16) + (BitsOf(lo, 16) + rest));
      NumberIsRead(src, c, 1, 1, BitsOf(hi, 16) + (BitsOf(lo, 16) + rest));
      var c1 := Bits(src, c, 1).value.1;
      NumberIsRead(src, c1, 16, hi, BitsOf(lo, 16) + rest);
      NumberIsRead(src, Bits(src, c1, 16).value.1, 16, lo, rest);
    }
  }

  lemma OneBit()
    ensures BitsOf(0, 1) == [0] && BitsOf(1, 1) == [1] && Pow2(1) == 2
  {
    assert BitsOf(0, 0) == [];
    assert [] + [0] == [0] && [] + [1] == [1];
  }

  // block type and block length: 3 bits and 24 bits
  function StartBits(kind: nat, length: nat): seq<Bit>
  {
    BitsOf(kind, 3) + BitsOf(length, 24)
  }

  // where the reader stands behind a padding byte, if there is one
  function Padded(c: Cursor, pad: bool): Cursor
  {
    if pad then c.(taken := c.taken + 1) else c
  }

  lemma NumbersOfBlock(src: seq<nat>, c: Cursor, pad: bool, kind: nat, length: nat, rest: seq<nat>)
    requires kind < 8 && length < 0x100_0000 && Padded(c, pad).taken <= |src|
    requires Holds(src, Padded(c, pad), StartBits(kind, length), rest)
    ensures BlockNumbers(src, c, pad).Ok?
    ensures var (numbers, c') := BlockNumbers(src, c, pad).value;
      numbers == (kind, length) && Reached(src, Padded(c, pad), c', rest)
  {
    hide Bits, BitsOf, Remaining, Pow2, Shl;
    var hi, lo := length / 256, length % 256;
    LengthParts(kind, length, hi, lo);
    assert BitsOf(kind, 3) + (BitsOf(hi, 16) + BitsOf(lo, 8)) + rest ==
           BitsOf(kind, 3) + (BitsOf(hi, 16) + (BitsOf(lo, 8) + rest));
    var c0 := Padded(c, pad);
    NumberIsRead(src, c0, 3, kind, BitsOf(hi, 16) + (BitsOf(lo, 8) + rest));
    var c1 := Bits(src, c0, 3).value.1;
    NumberIsRead(src, c1, 16, hi, BitsOf(lo, 8) + rest);
    NumberIsRead(src, Bits(src, c1, 16).value.1, 8, lo, rest);
  }

  lemma LengthParts(kind: nat, length: nat, hi: nat, lo: nat)
    requires kind < 8 && length < 0x100_0000 && hi == length / 256 && lo == length % 256
    ensures kind < Pow2(3) && hi < Pow2(16) && lo < Pow2(8)
    ensures BitsOf(length, 24) == BitsOf(hi, 16) + BitsOf(lo, 8)
  {
    Pow2Values();
    assert Pow2(3) == 8;
    assert Shl(hi, 8) == 256 * hi;
    hide BitsOf, Pow2, Shl;
    TwoParts(hi, 16, lo, 8);
  }

  // ---------- the trees ----------

  // the trees of a block: the aligned one, the main tree in two parts, and the length tree
  datatype Trees = Trees(aligned: seq<nat>, literals: LensRun, matches: LensRun, lengths: LensRun)

  // the last symbol of the main tree, for this window
  function MainLast(st: Lzx): nat
  {
    NUM_CHARS + st.p.numOffsets
  }

  // can the runs be written?
  predicate RunsOk(st: Lzx, t: Trees)
  {
    RunOk(t.literals, 0, NUM_CHARS) && RunOk(t.matches, NUM_CHARS, MainLast(st)) &&
    RunOk(t.lengths, 0, LENGTH_SYMBOLS - 1)
  }

  function HalfMain(st: Lzx, t: Trees): seq<nat>
    requires StOk(st) && RunsOk(st, t)
  {
    RunLens(t.literals, st.mainLens, 0, NUM_CHARS)
  }

  // the code lengths of the main tree that is written
  function MainOf(st: Lzx, t: Trees): (lens: seq<nat>)
    requires StOk(st) && RunsOk(st, t)
    ensures |lens| == |st.mainLens|
  {
    RunLens(t.matches, HalfMain(st, t), NUM_CHARS, MainLast(st))
  }

  function LengthsOf(st: Lzx, t: Trees): (lens: seq<nat>)
    requires StOk(st) && RunsOk(st, t)
    ensures |lens| == |st.lengthLens|
  {
    RunLens(t.lengths, st.lengthLens, 0, LENGTH_SYMBOLS - 1)
  }

  predicate TreesOk(st: Lzx, t: Trees)
    requires StOk(st)
  {
    RunsOk(st, t) && Buildable(MainOf(st, t)[..MAIN_SYMBOLS], MAIN_BITS) &&
    (Buildable(LengthsOf(st, t)[..LENGTH_SYMBOLS], LENGTH_BITS) || AllZero(LengthsOf(st, t)[..LENGTH_SYMBOLS]))
  }

  function TreesBits(st: Lzx, t: Trees): seq<Bit>
    requires RunsOk(st, t)
  {
    RunBits(t.literals, 0, NUM_CHARS) +
    (RunBits(t.matches, NUM_CHARS, MainLast(st)) + RunBits(t.lengths, 0, LENGTH_SYMBOLS - 1))
  }

  // the state after the trees, with the reader at c
  function WithTrees(st: Lzx, t: Trees, c: Cursor): Lzx
    requires StOk(st) && RunsOk(st, t)
  {
    st.(mainLens := MainOf(st, t), intelStarted := st.intelStarted || MainOf(st, t)[IntelE8.E8] != 0,
        lengthLens := LengthsOf(st, t), lengthEmpty := !Buildable(LengthsOf(st, t)[..LENGTH_SYMBOLS], LENGTH_BITS),
        cur := c)
  }

  lemma MainIsRead(src: seq<nat>, st: Lzx, t: Trees, c: Cursor, rest: seq<nat>)
    requires StOk(st) && RunsOk(st, t)
    requires Holds(src, c, RunBits(t.literals, 0, NUM_CHARS) + RunBits(t.matches, NUM_CHARS, MainLast(st)), rest)
    ensures ReadMainLens(src, st.mainLens, MainLast(st), c).Ok?
    ensures var (lens, c') := ReadMainLens(src, st.mainLens, MainLast(st), c).value;
      lens == MainOf(st, t) && Reached(src, c, c', rest)
  {
    hide Remaining, Pow2, RunOk, RunBits, RunLens, ReadLens;
    var first, second := RunBits(t.literals, 0, NUM_CHARS), RunBits(t.matches, NUM_CHARS, MainLast(st));
    assert first + second + rest == first + (second + rest);
    RunIsRead(src, t.literals, st.mainLens, 0, NUM_CHARS, c, second + rest);
    var (half, c1) := ReadLens(src, st.mainLens, 0, NUM_CHARS, c).value;
    RunIsRead(src, t.matches, half, NUM_CHARS, MainLast(st), c1, rest);
  }

  // The trees of a compressed block are read back.
  lemma TreesAreRead(src: seq<nat>, st: Lzx, t: Trees, rest: seq<nat>)
    requires StOk(st) && TreesOk(st, t) && Holds(src, st.cur, TreesBits(st, t), rest)
    ensures ReadTrees(src, st).Ok?
    ensures var st' := ReadTrees(src, st).value;
      st' == WithTrees(st, t, st'.cur) && Reached(src, st.cur, st'.cur, rest)
  {
    hide Remaining, Pow2, Buildable, RunOk, RunBits, RunLens, ReadLens, ReadMainLens, MainOf;
    var first, second := RunBits(t.literals, 0, NUM_CHARS), RunBits(t.matches, NUM_CHARS, MainLast(st));
    var third := RunBits(t.lengths, 0, LENGTH_SYMBOLS - 1);
    assert first + (second + third) + rest == first + second + (third + rest);
    MainIsRead(src, st, t, st.cur, third + rest);
    var c1 := ReadMainLens(src, st.mainLens, MainLast(st), st.cur).value.1;
    RunIsRead(src, t.lengths, st.lengthLens, 0, LENGTH_SYMBOLS - 1, c1, rest);
  }

  predicate AlignedOk(t: Trees, kind: nat)
  {
    kind == ALIGNED ==>
      |t.aligned| == ALIGNED_SYMBOLS && Buildable(t.aligned, ALIGNED_BITS) &&
      forall i :: 0 <= i < |t.aligned| ==> t.aligned[i] < 8
  }

  function AlignedBits(t: Trees, kind: nat): seq<Bit>
  {
    if kind == ALIGNED then NumbersBits(t.aligned, 3) else []
  }

  // the state after the aligned tree, if there is one
  function WithAligned(st: Lzx, t: Trees, kind: nat, c: Cursor): Lzx
  {
    st.(alignedLens := if kind == ALIGNED then t.aligned else st.alignedLens, cur := c)
  }

  lemma AlignedIsRead(src: seq<nat>, st: Lzx, t: Trees, rest: seq<nat>)
    requires StOk(st) && AlignedOk(t, ALIGNED) && Holds(src, st.cur, AlignedBits(t, ALIGNED), rest)
    ensures ReadAlignedTree(src, st).Ok?
    ensures var st' := ReadAlignedTree(src, st).value;
      st' == WithAligned(st, t, ALIGNED, st'.cur) && Reached(src, st.cur, st'.cur, rest)
  {
    assert Pow2(3) == 8;
    hide Pow2, Buildable, Remaining, Numbers, NumbersBits;
    NumbersAreRead(src, st.cur, 3, t.aligned, rest);
  }

  // other parts of the state do not matter for the trees
  lemma SameTrees(st: Lzx, st': Lzx, t: Trees)
    requires StOk(st) && StOk(st') && RunsOk(st, t)
    requires st'.p == st.p && st'.mainLens == st.mainLens && st'.lengthLens == st.lengthLens
    ensures RunsOk(st', t) && TreesOk(st', t) == TreesOk(st, t) && TreesBits(st', t) == TreesBits(st, t)
    ensures MainOf(st', t) == MainOf(st, t) && LengthsOf(st', t) == LengthsOf(st, t)
  {
    hide Pow2, Buildable, RunOk, RunBits, RunLens, StOk;
  }

  // ---------- the header of a compressed block ----------

  // type, length and trees of a verbatim or aligned block
  datatype Head = Head(kind: nat, length: nat, trees: Trees)

  predicate HeadOk(st: Lzx, h: Head)
    requires StOk(st)
  {
    (h.kind == VERBATIM || h.kind == ALIGNED) && h.length < 0x100_0000 && TreesOk(st, h.trees) && AlignedOk(h.trees, h.kind)
  }

  function HeadBits(st: Lzx, h: Head): seq<Bit>
    requires StOk(st) && HeadOk(st, h)
  {
    StartBits(h.kind, h.length) + (AlignedBits(h.trees, h.kind) + TreesBits(st, h.trees))
  }

  // the state behind the header, with the reader at c
  function Begun(st: Lzx, h: Head, c: Cursor): Lzx
    requires StOk(st) && HeadOk(st, h)
  {
    WithTrees(st, h.trees, c).(blockType := h.kind, blockLength := h.length, blockRemaining := h.length,
      alignedLens := if h.kind == ALIGNED then h.trees.aligned else st.alignedLens)
  }

  // a block behind an uncompressed block of odd length starts with a padding byte
  predicate NeedsPad(st: Lzx)
  {
    st.blockType == UNCOMPRESSED && st.blockLength % 2 == 1
  }

  // the trees, behind block type and length
  lemma TreesOfBlock(src: seq<nat>, st: Lzx, h: Head, rest: seq<nat>)
    requires StOk(st) && st.blockType == h.kind && HeadOk(st, h)
    requires Holds(src, st.cur, AlignedBits(h.trees, h.kind) + TreesBits(st, h.trees), rest)
    ensures ReadBlockHeader(src, st).Ok?
    ensures var st' := ReadBlockHeader(src, st).value;
      st' == WithTrees(st, h.trees, st'.cur).(alignedLens := if h.kind == ALIGNED then h.trees.aligned else st.alignedLens) &&
      Reached(src, st.cur, st'.cur, rest)
  {
    hide Pow2, RunOk, RunLens, MainOf, LengthsOf, TreesBits, ReadAlignedTree, ReadTrees, Remaining, Buildable,
      AllZero, StOk,
      SamePlace, SameBlock, LzxSpec.Ahead, NumbersBits;
    var trees := TreesBits(st, h.trees);
    assert AlignedBits(h.trees, h.kind) + trees + rest == AlignedBits(h.trees, h.kind) + (trees + rest);
    if h.kind == ALIGNED {
      AlignedIsRead(src, st, h.trees, trees + rest);
      var st1 := ReadAlignedTree(src, st).value;
      SameTrees(st, st1, h.trees);
      TreesAreRead(src, st1, h.trees, rest);
    } else {
      assert [] + (trees + rest) == trees + rest;
      TreesAreRead(src, st, h.trees, rest);
    }
  }

  // The header of a compressed block is read back, with the padding byte before it.
  lemma HeadIsRead(src: seq<nat>, st: Lzx, h: Head, rest: seq<nat>)
    requires StOk(st) && HeadOk(st, h) && st.blockRemaining == 0
    requires Padded(st.cur, NeedsPad(st)).taken <= |src|
    requires Holds(src, Padded(st.cur, NeedsPad(st)), HeadBits(st, h), rest)
    ensures NewBlock(src, st).Ok?
    ensures var st' := NewBlock(src, st).value;
      st' == Begun(st, h, st'.cur) && Reached(src, Padded(st.cur, NeedsPad(st)), st'.cur, rest)
  {
    hide Pow2, RunsOk, MainOf, LengthsOf, TreesBits, AlignedOk, AlignedBits, Remaining, ReadBlockHeader, BlockNumbers,
      StartBits, StOk,
      SamePlace, SameBlock, LzxSpec.Ahead, Buildable;
    var start, trees := StartBits(h.kind, h.length), AlignedBits(h.trees, h.kind) + TreesBits(st, h.trees);
    assert start + trees + rest == start + (trees + rest);
    PadInput(src, st);
    NumbersOfBlock(src, st.cur, NeedsPad(st), h.kind, h.length, trees + rest);
    var c1 := BlockNumbers(src, st.cur, NeedsPad(st)).value.1;
    var st1 := st.(blockType := h.kind, blockLength := h.length, blockRemaining := h.length, cur := c1);
    AlignedSame(st, st1);
    HeadSame(st, st1, h);
    TreesOfBlock(src, st1, h, rest);
  }

  lemma PadInput(src: seq<nat>, st: Lzx)
    requires StOk(st) && IsBytes(src)
    ensures Input(src, st.cur)
  {
    hide Pow2;
  }

  lemma AlignedSame(st: Lzx, st': Lzx)
    requires StOk(st) && CursorOk(st'.cur)
    requires st' == st.(blockType := st'.blockType, blockLength := st'.blockLength, blockRemaining := st'.blockRemaining, cur := st'.cur)
    ensures StOk(st')
  {
    hide Pow2;
  }

  lemma HeadSame(st: Lzx, st': Lzx, h: Head)
    requires StOk(st) && StOk(st') && HeadOk(st, h)
    requires st'.p == st.p && st'.mainLens == st.mainLens && st'.lengthLens == st.lengthLens
    ensures HeadOk(st', h) && TreesBits(st', h.trees) == TreesBits(st, h.trees)
    ensures MainOf(st', h.trees) == MainOf(st, h.trees) && LengthsOf(st', h.trees) == LengthsOf(st, h.trees)
  {
    SameTrees(st, st', h.trees);
    hide TreesOk, TreesBits, MainOf, LengthsOf, StOk;
  }
}
