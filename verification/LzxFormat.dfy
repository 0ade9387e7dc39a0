// What single symbols, block types and bytes of the LZX format mean, in plain numbers, and one whole
// stream.
module LzxFormat {
  import opened Wrappers
  import opened Powers
  import opened BitStream
  import opened LzWindow
  import opened LzxSpec
  import opened LzxProps
  import opened LzxBlocks
  import opened LzxOutput
  import opened LzxHistory

  // ---------- main symbols ----------

  // the offset of the first four position slots
  function ShortOffset(st: Lzx, slot: nat): nat
  {
    match slot
    case 0 => st.R0
    case 1 => st.R1
    case 2 => st.R2
    case _ => 1
  }

  // Main symbol 256 + 8 * slot + k, with k < 7 and one of the first four slots, appends k + 2 bytes to
  // the history.  They repeat those at distance R0, R1, R2 or 1; that offset comes first in the queue
  // afterwards, where R1 and R2 change places with R0, and 1 pushes R2 out.
  lemma ShortMatch(src: seq<nat>, st: Lzx, h: seq<nat>, slot: nat, k: nat, c: Cursor)
    requires IsBytes(src) && Inside(st, h) && slot <= 3 && k < 7
    requires Symbol(src, st.mainLens[..2576], st.cur) == Ok((256 + 8 * slot + k, c))
    requires st.windowPosn + k + 2 <= st.p.windowSize && 1 <= ShortOffset(st, slot) <= st.p.windowSize
    requires ShortOffset(st, slot) <= |h| - st.p.windowSize + st.p.refDataSize
    ensures Element(src, st).Ok?
    ensures var st' := Element(src, st).value;
      var d := st'.window[st.windowPosn..st'.windowPosn];
      |d| == k + 2 && Inside(st', h + d) && Repeats(h + d, k + 2, ShortOffset(st, slot)) && st'.cur == c &&
      (st'.R0, st'.R1, st'.R2) == ShortQueue(st, slot)
  {
    hide Symbol, Match, Ahead, Shows, Repeats, IsBytes, Pow2, ShortOffset, ShortQueue;
    InsideOk(st, h);
    SameShort(st, c, slot);
    ShortCopy(src, st.(cur := c), h, slot, k);
  }

  // the match itself, behind its main symbol
  lemma ShortCopy(src: seq<nat>, st: Lzx, h: seq<nat>, slot: nat, k: nat)
    requires IsBytes(src) && Inside(st, h) && slot <= 3 && k < 7
    requires st.windowPosn + k + 2 <= st.p.windowSize && 1 <= ShortOffset(st, slot) <= st.p.windowSize
    requires ShortOffset(st, slot) <= |h| - st.p.windowSize + st.p.refDataSize
    ensures Match(src, st, 8 * slot + k).Ok?
    ensures var st' := Match(src, st, 8 * slot + k).value;
      var d := st'.window[st.windowPosn..st'.windowPosn];
      |d| == k + 2 && Inside(st', h + d) && Repeats(h + d, k + 2, ShortOffset(st, slot)) && st'.cur == st.cur &&
      (st'.R0, st'.R1, st'.R2) == ShortQueue(st, slot)
  {
    hide Match, MatchLength, MatchOffset, Ahead, Shows, Repeats, IsBytes, Pow2, ShortOffset, ShortQueue;
    InsideOk(st, h);
    ShortParts(src, st, slot, k);
    MatchInsideStream(src, st, 8 * slot + k, h);
    MatchRepeats(src, st, 8 * slot + k, h);
    MatchQueue(src, st, 8 * slot + k);
  }

  function ShortQueue(st: Lzx, slot: nat): (nat, nat, nat)
  {
    match slot
    case 0 => (st.R0, st.R1, st.R2)
    case 1 => (st.R1, st.R0, st.R2)
    case 2 => (st.R2, st.R1, st.R0)
    case _ => (1, st.R0, st.R1)
  }

  lemma ShortParts(src: seq<nat>, st: Lzx, slot: nat, k: nat)
    requires IsBytes(src) && StOk(st) && slot <= 3 && k < 7
    ensures MatchLength(src, st, (8 * slot + k) % 8) == Ok((k + 2, st.cur)) && st.(cur := st.cur) == st
    ensures MatchOffset(src, st, (8 * slot + k) / 8).Ok?
    ensures var (offset, st1) := MatchOffset(src, st, (8 * slot + k) / 8).value;
      offset == ShortOffset(st, slot) && (st1.R0, st1.R1, st1.R2) == ShortQueue(st, slot) && st1.cur == st.cur
  {
    hide IsBytes, StOk, Pow2, Ahead;
    DivUnique(8 * slot + k, 8, slot, k);
  }

  // a match leaves the queue and the reader as its offset did
  lemma MatchQueue(src: seq<nat>, st: Lzx, element: nat)
    requires IsBytes(src) && StOk(st) && Match(src, st, element).Ok?
    ensures var c := MatchLength(src, st, element % 8).value.1;
      var st1 := MatchOffset(src, st.(cur := c), element / 8).value.1;
      var st' := Match(src, st, element).value;
      (st'.R0, st'.R1, st'.R2) == (st1.R0, st1.R1, st1.R2) && st'.cur == st1.cur
  {
    hide MatchLength, MatchOffset, CopyMatch, Ahead, Decoded;
  }

  lemma SameShort(st: Lzx, c: Cursor, slot: nat)
    ensures ShortOffset(st.(cur := c), slot) == ShortOffset(st, slot)
    ensures ShortQueue(st.(cur := c), slot) == ShortQueue(st, slot)
  {
  }

  // With k = 7 a symbol of the length tree follows, and 9 is added to it.
  lemma LongLength(src: seq<nat>, st: Lzx, c: Cursor, footer: nat)
    requires IsBytes(src) && StOk(st)
    ensures st.lengthEmpty ==> MatchLength(src, st, 7) == Fail(Decrunch)
    ensures !st.lengthEmpty && Symbol(src, st.lengthLens[..250], st.cur) == Ok((footer, c)) ==>
      MatchLength(src, st, 7) == Ok((9 + footer, c))
  {
    hide Symbol, Ahead, IsBytes, Pow2;
  }

  // From slot 4 on a slot stands for its extra bits and the lowest offset with them.  Two slots have k
  // extra bits for every k from 1 to 16; the third one with 16, slot 36, is the first with 17, and so
  // are all the others.
  predicate SlotIs(slot: nat, extra: nat, lowest: nat)
  {
    (slot < 36 && extra == slot / 2 - 1 >= 1 &&
     lowest + 2 == (if slot % 2 == 0 then Pow2(extra + 1) else Pow2(extra + 1) + Pow2(extra))) ||
    (slot >= 36 && extra == 17 && lowest + 2 == 0x4_0000 + 0x2_0000 * (slot - 36))
  }

  lemma SlotTable(slot: nat, extra: nat, lowest: nat)
    requires slot >= 4 && SlotIs(slot, extra, lowest)
    ensures extra == ExtraBits(slot) && lowest == PositionBase(slot) - 2
  {
    hide Pow2, PositionBase;
    if slot < 36 {
      PositionBaseLow(slot / 2);
      assert slot == 2 * (slot / 2) || slot == 2 * (slot / 2) + 1;
    } else {
      PositionBaseHigh(slot - 36);
    }
  }

  // In a verbatim block, or if there are less than three, the extra bits are read as one number; it is
  // added to the slot's lowest offset, and the new offset goes to the front of the queue.
  lemma VerbatimOffset(src: seq<nat>, st: Lzx, slot: nat, extra: nat, lowest: nat, v: nat, c: Cursor)
    requires IsBytes(src) && StOk(st) && slot >= 4 && SlotIs(slot, extra, lowest) && (st.blockType == 1 || extra < 3)
    requires extra <= 17 && Bits(src, st.cur, extra) == Ok((v, c))
    ensures MatchOffset(src, st, slot) == Ok((lowest + v, st.(R0 := lowest + v, R1 := st.R0, R2 := st.R1, cur := c)))
  {
    hide Pow2, SlotIs, ExtraBits, PositionBase, Ahead, Bits, IsBytes, StOk;
    SlotTable(slot, extra, lowest);
  }

  // In an aligned block the lowest three of at least three bits come as a symbol of the aligned tree,
  // behind the others.
  lemma AlignedTreeOffset(src: seq<nat>, st: Lzx, slot: nat, extra: nat, lowest: nat, v: nat, c1: Cursor, a: nat, c: Cursor)
    requires IsBytes(src) && StOk(st) && st.blockType == 2 && slot >= 4 && SlotIs(slot, extra, lowest) && 3 <= extra <= 17
    requires if extra == 3 then (v, c1) == (0, st.cur) else Bits(src, st.cur, extra - 3) == Ok((v, c1))
    requires Input(src, c1) && Symbol(src, st.alignedLens, c1) == Ok((a, c))
    ensures MatchOffset(src, st, slot) ==
            Ok((lowest + 8 * v + a, st.(R0 := lowest + 8 * v + a, R1 := st.R0, R2 := st.R1, cur := c)))
  {
    hide Pow2, SlotIs, ExtraBits, PositionBase, Ahead, Bits, Symbol, IsBytes, StOk;
    SlotTable(slot, extra, lowest);
  }

  // The repeated offsets are 1 to begin with.
  lemma FirstOffsets(p: Params, window: seq<nat>)
    ensures Initial(p, window).R0 == 1 && Initial(p, window).R1 == 1 && Initial(p, window).R2 == 1
  {
  }

  // ---------- blocks ----------

  // A block starts with its type, in three bits, the highest first.
  lemma TypeBits(length: nat)
    ensures StartBits(1, length)[..3] == [0, 0, 1] && StartBits(2, length)[..3] == [0, 1, 0]
    ensures StartBits(3, length)[..3] == [0, 1, 1]
  {
    assert BitsOf(0, 1) == [0] && BitsOf(0, 2) == [0, 0] && BitsOf(1, 2) == [0, 1];
  }

  // Of the eight block types 1, 2 and 3 exist.  Type 3 may hold calls; after the others there may be
  // some if there have been, or if 0xE8 has a code.  Only type 2 has an aligned tree.
  lemma BlockTypes(src: seq<nat>, st: Lzx)
    requires IsBytes(src) && StOk(st) && ReadBlockStart(src, st).Ok?
    ensures var kind := ReadBlockStart(src, st).value.blockType;
      var r := ReadBlock(src, st);
      (kind != 1 && kind != 2 && kind != 3 ==> r == Fail(Decrunch)) &&
      (r.Ok? ==>
         var st' := r.value;
         st'.blockType == kind && st'.intelStarted == (st.intelStarted || kind == 3 || st'.mainLens[0xE8] != 0) &&
         (kind != 2 ==> st'.alignedLens == st.alignedLens) &&
         (kind == 3 ==> st'.mainLens == st.mainLens && st'.lengthLens == st.lengthLens) &&
         (kind != 3 ==> (st'.R0, st'.R1, st'.R2) == (st.R0, st.R1, st.R2)))
  {
    hide BlockNumbers, ReadMainLens, ReadLens, Numbers, StoredOffsets, Ahead, IsBytes, Pow2;
  }

  // ---------- code lengths ----------

  // Pretree symbols up to 16 are the difference to the length before, modulo 17.
  lemma DifferenceOfLengths(src: seq<nat>, pre: seq<nat>, lens: seq<nat>, x: nat, c: Cursor, z: nat, c1: Cursor)
    requires Input(src, c) && x + SAFETY <= |lens| && Symbol(src, pre, c) == Ok((z, c1)) && z <= 16 && lens[x] <= 16
    ensures LensStep(src, pre, lens, x, c).Ok?
    ensures var (lens', x', c') := LensStep(src, pre, lens, x, c).value;
      x' == x + 1 && c' == c1 && lens' == lens[x := lens'[x]] && lens'[x] <= 16 && (lens'[x] + z - lens[x]) % 17 == 0
  {
    hide Symbol, IsBytes, CursorOk, Ahead;
  }

  // Symbol 17 stands for 4 to 19 lengths of 0, symbol 18 for 20 to 51.
  lemma ShortRunOfZeros(src: seq<nat>, pre: seq<nat>, lens: seq<nat>, x: nat, c: Cursor, c1: Cursor, y: nat, c2: Cursor)
    requires Input(src, c) && Input(src, c1) && x + SAFETY <= |lens|
    requires Symbol(src, pre, c) == Ok((17, c1)) && Bits(src, c1, 4) == Ok((y, c2))
    ensures y < 16
    ensures LensStep(src, pre, lens, x, c) == Ok((lens[..x] + seq(y + 4, _ => 0) + lens[x + (y + 4)..], x + y + 4, c2))
  {
    Pow2Values();
    hide Symbol, Bits, IsBytes, CursorOk, Ahead, Pow2;
  }

  lemma LongRunOfZeros(src: seq<nat>, pre: seq<nat>, lens: seq<nat>, x: nat, c: Cursor, c1: Cursor, y: nat, c2: Cursor)
    requires Input(src, c) && Input(src, c1) && x + SAFETY <= |lens|
    requires Symbol(src, pre, c) == Ok((18, c1)) && Bits(src, c1, 5) == Ok((y, c2))
    ensures y < 32
    ensures LensStep(src, pre, lens, x, c) == Ok((lens[..x] + seq(y + 20, _ => 0) + lens[x + (y + 20)..], x + y + 20, c2))
  {
    assert Pow2(5) == 32;
    hide Symbol, Bits, IsBytes, CursorOk, Ahead, Pow2;
  }

  // Symbol 19 stands for 4 or 5 lengths that are all changed to the same one, by the symbol that follows.
  lemma RunOfOneLength(src: seq<nat>, pre: seq<nat>, lens: seq<nat>, x: nat, c: Cursor, c1: Cursor, y: nat, c2: Cursor,
                       z: nat, c3: Cursor)
    requires Input(src, c) && Input(src, c1) && Input(src, c2) && x + SAFETY <= |lens| && lens[x] <= 16 && z <= 16
    requires Symbol(src, pre, c) == Ok((19, c1)) && Bits(src, c1, 1) == Ok((y, c2)) && Symbol(src, pre, c2) == Ok((z, c3))
    ensures y < 2 && LensStep(src, pre, lens, x, c).Ok?
    ensures var (lens', x', c') := LensStep(src, pre, lens, x, c).value;
      x' == x + y + 4 && c' == c3 && lens' == lens[..x] + seq(y + 4, _ => lens'[x]) + lens[x + y + 4..] &&
      lens'[x] <= 16 && (lens'[x] + z - lens[x]) % 17 == 0
  {
    Pow2Values();
    hide Symbol, Bits, IsBytes, CursorOk, Ahead, Pow2;
  }

  // ---------- a stream ----------

  // no file size, and an uncompressed block of one byte, 0x41
  const ONE_BYTE: seq<nat> := [0x00, 0x30, 0x10, 0x00, 1, 0, 0, 0, 1, 0, 0, 0, 1, 0, 0, 0, 0x41]

  lemma ReadsAs(src: seq<nat>, c: Cursor, n: nat, c1: Cursor, v: nat, c2: Cursor)
    requires Input(src, c) && n <= 17 && Ensure(src, c, n) == Some(c1) && c1.left == c2.left + n && c2.taken == c1.taken
    requires c1.pend == v * Pow2(c2.left) + c2.pend && c2.pend < Pow2(c2.left)
    ensures Bits(src, c, n) == Ok((v, c2))
  {
    hide Pow2, Ensure, IsBytes;
    DivUnique(c1.pend, Pow2(c2.left), v, c2.pend);
  }

  lemma Fetches(src: seq<nat>, c: Cursor, n: nat, w: nat)
    requires c.taken + 2 <= |src| && w == src[c.taken] + 256 * src[c.taken + 1] && c.left < n <= c.left + 16
    ensures Ensure(src, c, n) == Some(Cursor(c.taken + 2, c.left + 16, c.pend * 65536 + w))
  {
    Pow2Values();
    hide Pow2;
    var c1 := Cursor(c.taken + 2, c.left + 16, c.pend * 65536 + w);
    assert Fetch(src, c) == Some(c1) && Ensure(src, c1, n) == Some(c1);
  }

  lemma OneByteInput(c: Cursor)
    requires c == Cursor(0, 0, 0) || c == Cursor(2, 15, 0x3000) || c == Cursor(2, 12, 0) || c == Cursor(4, 12, 0x10)
    ensures Input(ONE_BYTE, c)
  {
    Pow2Values();
  }

  lemma FirstBit()
    ensures Input(ONE_BYTE, Cursor(0, 0, 0)) && HeaderNumber(ONE_BYTE, Cursor(0, 0, 0)) == Ok((0, Cursor(2, 15, 0x3000)))
  {
    OneByteInput(Cursor(0, 0, 0));
    Pow2Values();
    hide Pow2, Bits, Ensure, IsBytes, CursorOk;
    Fetches(ONE_BYTE, Cursor(0, 0, 0), 1, 0x3000);
    ReadsAs(ONE_BYTE, Cursor(0, 0, 0), 1, Cursor(2, 16, 0x3000), 0, Cursor(2, 15, 0x3000));
  }

  lemma TypeAndLength()
    ensures Input(ONE_BYTE, Cursor(2, 15, 0x3000))
    ensures BlockNumbers(ONE_BYTE, Cursor(2, 15, 0x3000), false) == Ok(((3, 1), Cursor(4, 4, 0)))
  {
    OneByteInput(Cursor(2, 15, 0x3000));
    OneByteInput(Cursor(2, 12, 0));
    OneByteInput(Cursor(4, 12, 0x10));
    Pow2Values();
    hide Pow2, Bits, IsBytes, CursorOk;
    ReadsAs(ONE_BYTE, Cursor(2, 15, 0x3000), 3, Cursor(2, 15, 0x3000), 3, Cursor(2, 12, 0));
    Fetches(ONE_BYTE, Cursor(2, 12, 0), 16, 0x10);
    ReadsAs(ONE_BYTE, Cursor(2, 12, 0), 16, Cursor(4, 28, 0x10), 0, Cursor(4, 12, 0x10));
    ReadsAs(ONE_BYTE, Cursor(4, 12, 0x10), 8, Cursor(4, 12, 0x10), 1, Cursor(4, 4, 0));
  }

  lemma ThreeOnes()
    ensures StoredOffsets(ONE_BYTE, Cursor(4, 4, 0)) == Ok(([1, 1, 1], Cursor(16, 0, 0)))
  {
    hide Ensure, Pow2;
    var b := ONE_BYTE[4..16];
    assert b[0] == b[4] == b[8] == 1 && b[1] == b[2] == b[3] == b[5] == b[6] == b[7] == b[9] == b[10] == b[11] == 0;
    assert LittleEndian(b, 0) == LittleEndian(b, 4) == LittleEndian(b, 8) == 1;
  }

  lemma OneByteHead(st: Lzx)
    requires StOk(st) && st.cur == Cursor(2, 15, 0x3000) && st.blockType == 0 && st.blockRemaining == 0
    ensures IsBytes(ONE_BYTE)
    ensures NewBlock(ONE_BYTE, st) ==
            Ok(st.(blockType := 3, blockLength := 1, blockRemaining := 1, R0 := 1, R1 := 1, R2 := 1,
                   intelStarted := true, cur := Cursor(16, 0, 0)))
  {
    hide BlockNumbers, StoredOffsets, Pow2, Ahead;
    TypeAndLength();
    ThreeOnes();
  }

  lemma OneByteRun(st: Lzx)
    requires StOk(st) && st.cur == Cursor(16, 0, 0) && st.blockType == 3 && st.blockRemaining == 1
    requires st.windowPosn < |st.window|
    ensures IsBytes(ONE_BYTE)
    ensures RunOfBlock(ONE_BYTE, st, 1) ==
            Ok(st.(blockRemaining := 0, window := st.window[st.windowPosn := 0x41], windowPosn := st.windowPosn + 1,
                   cur := Cursor(17, 0, 0)))
  {
    hide Pow2, Ahead;
    assert ONE_BYTE[16..17] == [0x41];
    assert Spliced(st.window, st.windowPosn, [0x41]) == st.window[st.windowPosn := 0x41];
  }

  lemma OneByteBlocks(st: Lzx)
    requires StOk(st) && st.cur == Cursor(0, 0, 0) && !st.headerRead && st.blockType == 0 && st.blockRemaining == 0
    requires st.windowPosn == st.framePosn == 0 < |st.window| == st.p.windowSize && st.intelCurpos == 0
    ensures IsBytes(ONE_BYTE) && DecodeBlocks(ONE_BYTE, st, 1).Ok?
    ensures var r := DecodeBlocks(ONE_BYTE, st, 1).value;
      r.window == st.window[0 := 0x41] && r.windowPosn == 1 && r.cur == Cursor(17, 0, 0) && r.intelFilesize == 0 && StOk(r)
  {
    hide HeaderNumber, NewBlock, RunOfBlock, Ahead, Pow2;
    OneByteInput(Cursor(2, 15, 0x3000));
    FirstBit();
    var st1 := st.(headerRead := true, intelFilesize := 0, cur := Cursor(2, 15, 0x3000));
    assert ReadHeader(ONE_BYTE, st) == Ok(st1);
    OneByteHead(st1);
    var st2 := NewBlock(ONE_BYTE, st1).value;
    OneByteRun(st2);
    var st3 := RunOfBlock(ONE_BYTE, st2, 1).value;
    assert BlockStep(ONE_BYTE, st1, 1) == Ok((st3, 0));
    assert BlockLoop(ONE_BYTE, st3, 0) == Ok(st3);
  }

  lemma OneByteFrame(st: Lzx)
    requires FrameOk(st) && st.pending == [] && st.p.length == 1 && st.offset == 0
    requires st.cur == Cursor(0, 0, 0) && !st.headerRead && st.blockType == 0 && st.blockRemaining == 0
    requires st.windowPosn == st.framePosn == 0 && st.intelCurpos == 0
    ensures IsBytes(ONE_BYTE) && DecodeFrame(ONE_BYTE, st).Ok? && DecodeFrame(ONE_BYTE, st).value.pending == [0x41]
  {
    hide DecodeBlocks, FrameOk, StOk, Pow2;
    FrameFits(st);
    FrameOkIs(st);
    OneByteBlocks(st);
    var st1 := DecodeBlocks(ONE_BYTE, st, 1).value;
    assert st1.window[0..1] == [0x41];
  }

  lemma FrameOkIs(st: Lzx)
    requires FrameOk(st)
    ensures StOk(st) && st.p.windowSize == |st.window| > 0
  {
    hide Pow2;
  }

  // From these 17 bytes one byte is decoded, whatever the window is.
  lemma OneByteStream(p: Params, window: seq<nat>)
    requires |window| == p.windowSize > 0 && p.windowSize % 32768 == 0 && p.numOffsets <= 2320 && p.length == 1
    ensures IsBytes(ONE_BYTE) && FrameOk(Initial(p, window))
    ensures Decompress(ONE_BYTE, Initial(p, window), 1).Ok?
    ensures Decompress(ONE_BYTE, Initial(p, window), 1).value.1 == [0x41]
  {
    hide DecodeFrame, FrameOk;
    InitialOk(p, window);
    var st := Initial(p, window);
    OneByteFrame(st);
    assert Write(st, 0) == st;
    var st1 := DecodeFrame(ONE_BYTE, st).value;
    assert st1.pending[..1] == [0x41];
    LoopOver(ONE_BYTE, Write(st1, 1), 0, 1);
    LoopUnfolds(ONE_BYTE, st, 1, 1);
  }
}
