// The LZX decoder as a function of its input and its state: the specification of lzxd_decompress,
// frame by frame, with every branch of the code.  LZX DELTA and reset intervals are not modelled.
module LzxSpec {
  import opened Wrappers
  import opened Powers
  import opened CanonicalCode
  import opened BitStream
  import opened HuffRead
  import opened LzWindow
  import IntelE8

  const FRAME_SIZE := 32768
  const NUM_CHARS := 256
  const PRETREE_SYMBOLS := 20
  const PRETREE_BITS := 6
  const MAIN_SYMBOLS := 2576      // 256 + 290 * 8
  const MAIN_BITS := 12
  const LENGTH_SYMBOLS := 250
  const LENGTH_BITS := 12
  const ALIGNED_SYMBOLS := 8
  const ALIGNED_BITS := 7
  const SAFETY := 64              // code lengths may be written this far past a table's symbols

  const VERBATIM := 1
  const ALIGNED := 2
  const UNCOMPRESSED := 3

  datatype Error = ReadError | Decrunch

  datatype Result<+T> = Ok(value: T) | Fail(error: Error)
  {
    predicate IsFailure()
    {
      Fail?
    }

    function PropagateFailure<U>(): Result<U>
      requires Fail?
    {
      Fail(error)
    }

    function Extract(): T
      requires Ok?
    {
      value
    }
  }

  // fixed when the stream is opened; a length of 0 is an unknown length
  datatype Params = Params(windowSize: nat, numOffsets: nat, length: nat, refDataSize: nat)

  datatype Lzx = Lzx(
    p: Params,
    cur: Cursor,
    window: seq<nat>,
    windowPosn: nat,
    framePosn: nat,
    frame: nat,
    offset: nat,                  // bytes written
    R0: nat,
    R1: nat,
    R2: nat,
    blockType: nat,
    blockLength: nat,
    blockRemaining: nat,
    headerRead: bool,
    intelFilesize: int,
    intelCurpos: int,
    intelStarted: bool,
    mainLens: seq<nat>,
    lengthLens: seq<nat>,
    alignedLens: seq<nat>,
    lengthEmpty: bool,
    pending: seq<nat>             // decoded and not written yet
  )

  predicate StOk(st: Lzx)
  {
    CursorOk(st.cur) && |st.window| == st.p.windowSize && st.windowPosn <= |st.window| &&
    st.p.numOffsets <= MAIN_SYMBOLS - NUM_CHARS &&
    |st.mainLens| == MAIN_SYMBOLS + SAFETY && |st.lengthLens| == LENGTH_SYMBOLS + SAFETY &&
    |st.alignedLens| == ALIGNED_SYMBOLS
  }

  // the number of bits ahead of the reader
  function Ahead(src: seq<nat>, c: Cursor): nat
  {
    (if c.taken < |src| then 8 * (|src| - c.taken) else 0) + c.left
  }

  // ---------- reading ----------

  lemma EnsureAhead(src: seq<nat>, c: Cursor, n: nat)
    ensures Ensure(src, c, n).Some? ==> Ahead(src, Ensure(src, c, n).value) == Ahead(src, c)
    decreases if n > c.left then n - c.left else 0
  {
    if c.left < n && Fetch(src, c).Some? {
      EnsureAhead(src, Fetch(src, c).value, n);
    }
  }

  lemma SymbolKeeps(src: seq<nat>, lens: seq<nat>, c: Cursor)
    requires Input(src, c)
    ensures DecodeSymbol(src, lens, c).Some? ==>
      var (s, c') := DecodeSymbol(src, lens, c).value;
      CursorOk(c') && s < |lens| && Ahead(src, c') < Ahead(src, c)
  {
    hide Start, Weight, Pow2, Ahead;
    EnsureAhead(src, c, MAX_BITS);
    EnsureKeeps(src, c, MAX_BITS);
    if DecodeSymbol(src, lens, c).Some? {
      var c1 := Ensure(src, c, MAX_BITS).value;
      var s := SymbolAt(lens, Peek(c1, MAX_BITS)).value;
      DropTakes(src, c1, lens[s]);
      DropAhead(src, c1, lens[s]);
    }
  }

  lemma DropAhead(src: seq<nat>, c: Cursor, n: nat)
    requires n <= c.left
    ensures Ahead(src, Drop(c, n)) + n == Ahead(src, c)
  {
  }

  predicate Input(src: seq<nat>, c: Cursor)
  {
    IsBytes(src) && CursorOk(c)
  }

  function Bits(src: seq<nat>, c: Cursor, n: nat): (r: Result<(nat, Cursor)>)
    requires Input(src, c) && n <= 17
    ensures r.Ok? ==> Ahead(src, r.value.1) + n == Ahead(src, c)
    ensures r.Ok? ==> CursorOk(r.value.1) && r.value.0 < Pow2(n)
  {
    EnsureAhead(src, c, n);
    ReadBitsIsNextBits(src, c, n);
    match ReadBits(src, c, n)
    case None => Fail(ReadError)
    case Some(v) => Ok(v)
  }

  function Symbol(src: seq<nat>, lens: seq<nat>, c: Cursor): (r: Result<(nat, Cursor)>)
    requires Input(src, c)
    ensures r.Ok? ==> Ahead(src, r.value.1) < Ahead(src, c)
    ensures r.Ok? ==> CursorOk(r.value.1) && r.value.0 < |lens|
  {
    EnsureAhead(src, c, MAX_BITS);
    SymbolKeeps(src, lens, c);
    match DecodeSymbol(src, lens, c)
    case None => Fail(ReadError)
    case Some(v) => Ok(v)
  }

  // n bytes straight from the byte buffer
  function Bytes(src: seq<nat>, c: Cursor, n: nat): (r: Result<(seq<nat>, Cursor)>)
    requires Input(src, c)
    ensures r.Ok? ==> |r.value.0| == n && Ahead(src, r.value.1) <= Ahead(src, c) && CursorOk(r.value.1)
  {
    if c.taken + n <= |src|
    then Ok((src[c.taken..c.taken + n], Cursor(c.taken + n, c.left, c.pend)))
    else Fail(ReadError)
  }

  // n numbers of the given width
  function Numbers(src: seq<nat>, c: Cursor, width: nat, n: nat): (r: Result<(seq<nat>, Cursor)>)
    requires Input(src, c) && width <= 17
    ensures r.Ok? ==> |r.value.0| == n && Ahead(src, r.value.1) <= Ahead(src, c) && CursorOk(r.value.1)
  {
    if n == 0 then Ok(([], c))
    else
      var (front, c1) :- Numbers(src, c, width, n - 1);
      var (y, c2) :- Bits(src, c1, width);
      Ok((front + [y], c2))
  }

  // ---------- lzxd_read_lens ----------

  // a code length is stored as the difference, modulo 17, to the length before; the result is
  // stored in a byte
  function Delta(oldLen: nat, z: nat): nat
  {
    (if oldLen < z then oldLen - z + 17 else oldLen - z) % 256
  }

  function Fill(lens: seq<nat>, x: nat, y: nat, v: nat): (r: seq<nat>)
    requires x + y <= |lens|
    ensures |r| == |lens|
  {
    lens[..x] + seq(y, _ => v) + lens[x + y..]
  }

  // one pretree symbol and what it does to the lengths from x on
  function LensStep(src: seq<nat>, pre: seq<nat>, lens: seq<nat>, x: nat, c: Cursor): (r: Result<(seq<nat>, nat, Cursor)>)
    requires Input(src, c) && x + SAFETY <= |lens|
    ensures r.Ok? ==> |r.value.0| == |lens| && x < r.value.1 <= x + 51
    ensures r.Ok? ==> Ahead(src, r.value.2) <= Ahead(src, c) && CursorOk(r.value.2)
  {
    var (z, c1) :- Symbol(src, pre, c);
    if z == 17 then
      var (y, c2) :- Bits(src, c1, 4);
      Ok((Fill(lens, x, y + 4, 0), x + y + 4, c2))
    else if z == 18 then
      var (y, c2) :- Bits(src, c1, 5);
      Ok((Fill(lens, x, y + 20, 0), x + y + 20, c2))
    else if z == 19 then
      var (y, c2) :- Bits(src, c1, 1);
      var (z', c3) :- Symbol(src, pre, c2);
      Ok((Fill(lens, x, y + 4, Delta(lens[x], z')), x + y + 4, c3))
    else
      Ok((lens[x := Delta(lens[x], z)], x + 1, c1))
  }

  function LensLoop(src: seq<nat>, pre: seq<nat>, lens: seq<nat>, x: nat, last: nat, c: Cursor): (r: Result<(seq<nat>, Cursor)>)
    requires Input(src, c) && last + SAFETY <= |lens| + 1
    ensures r.Ok? ==> |r.value.0| == |lens| && Ahead(src, r.value.1) <= Ahead(src, c) && CursorOk(r.value.1)
    decreases last - x
  {
    if x >= last then Ok((lens, c))
    else
      var (lens', x', c') :- LensStep(src, pre, lens, x, c);
      LensLoop(src, pre, lens', x', last, c')
  }

  function ReadLens(src: seq<nat>, lens: seq<nat>, first: nat, last: nat, c: Cursor): (r: Result<(seq<nat>, Cursor)>)
    requires Input(src, c) && last + SAFETY <= |lens| + 1
    ensures r.Ok? ==> |r.value.0| == |lens| && Ahead(src, r.value.1) <= Ahead(src, c) && CursorOk(r.value.1)
  {
    var (pre, c1) :- Numbers(src, c, 4, PRETREE_SYMBOLS);
    if Buildable(pre, PRETREE_BITS) then LensLoop(src, pre, lens, first, last, c1) else Fail(Decrunch)
  }

  // ---------- block headers ----------

  function LittleEndian(b: seq<nat>, k: nat): nat
    requires k + 4 <= |b|
  {
    b[k] + 0x100 * b[k + 1] + 0x1_0000 * b[k + 2] + 0x100_0000 * b[k + 3]
  }

  function AllZero(lens: seq<nat>): bool
  {
    forall i :: 0 <= i < |lens| ==> lens[i] == 0
  }

  // the code lengths of the main tree: the literals, then the matches
  function ReadMainLens(src: seq<nat>, lens: seq<nat>, last: nat, c: Cursor): (r: Result<(seq<nat>, Cursor)>)
    requires Input(src, c) && |lens| == MAIN_SYMBOLS + SAFETY && last <= MAIN_SYMBOLS
    ensures r.Ok? ==> |r.value.0| == |lens| && Ahead(src, r.value.1) <= Ahead(src, c) && CursorOk(r.value.1)
  {
    var (lens1, c1) :- ReadLens(src, lens, 0, NUM_CHARS, c);
    ReadLens(src, lens1, NUM_CHARS, last, c1)
  }

  // the main tree
  function ReadMainTree(src: seq<nat>, st: Lzx): (r: Result<Lzx>)
    requires IsBytes(src) && StOk(st)
    ensures r.Ok? ==> StOk(r.value) && Ahead(src, r.value.cur) <= Ahead(src, st.cur)
    ensures r.Ok? ==> SamePlace(st, r.value) && SameBlock(st, r.value)
  {
    var (lens, c) :- ReadMainLens(src, st.mainLens, NUM_CHARS + st.p.numOffsets, st.cur);
    if Buildable(lens[..MAIN_SYMBOLS], MAIN_BITS) then
      // a code for 0xE8 means that there may be calls
      Ok(st.(mainLens := lens, intelStarted := st.intelStarted || lens[IntelE8.E8] != 0, cur := c))
    else Fail(Decrunch)
  }

  // the length tree; an empty one is allowed, but no symbol can be decoded with it
  function ReadLengthTree(src: seq<nat>, st: Lzx): (r: Result<Lzx>)
    requires IsBytes(src) && StOk(st)
    ensures r.Ok? ==> StOk(r.value) && Ahead(src, r.value.cur) <= Ahead(src, st.cur)
    ensures r.Ok? ==> SamePlace(st, r.value) && SameBlock(st, r.value)
  {
    var (lens, c) :- ReadLens(src, st.lengthLens, 0, LENGTH_SYMBOLS - 1, st.cur);
    var built := Buildable(lens[..LENGTH_SYMBOLS], LENGTH_BITS);
    if built || AllZero(lens[..LENGTH_SYMBOLS]) then Ok(st.(lengthLens := lens, lengthEmpty := !built, cur := c))
    else Fail(Decrunch)
  }

  // the main and length trees of a compressed block
  function ReadTrees(src: seq<nat>, st: Lzx): (r: Result<Lzx>)
    requires IsBytes(src) && StOk(st)
    ensures r.Ok? ==> StOk(r.value) && Ahead(src, r.value.cur) <= Ahead(src, st.cur)
    ensures r.Ok? ==> SamePlace(st, r.value) && SameBlock(st, r.value)
  {
    var st1 :- ReadMainTree(src, st);
    ReadLengthTree(src, st1)
  }

  // nothing has been decoded or written
  predicate SamePlace(st: Lzx, st': Lzx)
  {
    st'.p == st.p && st'.window == st.window && st'.windowPosn == st.windowPosn &&
    st'.framePosn == st.framePosn && st'.frame == st.frame && st'.offset == st.offset &&
    st'.pending == st.pending && st'.headerRead == st.headerRead &&
    st'.intelFilesize == st.intelFilesize && st'.intelCurpos == st.intelCurpos
  }

  predicate SameBlock(st: Lzx, st': Lzx)
  {
    st'.blockType == st.blockType && st'.blockLength == st.blockLength && st'.blockRemaining == st.blockRemaining
  }

  // the stored R0, R1 and R2 of an uncompressed block
  function StoredOffsets(src: seq<nat>, c: Cursor): (r: Result<(seq<nat>, Cursor)>)
    requires Input(src, c)
    ensures r.Ok? ==> |r.value.0| == 3 && Ahead(src, r.value.1) <= Ahead(src, c) && CursorOk(r.value.1)
  {
    // skip to the next word, which is never nothing: a whole word is skipped when none is begun
    EnsureAhead(src, c, 16);
    var ensured := if c.left == 0 then Ensure(src, c, 16) else Some(c);
    if ensured.None? then Fail(ReadError)
    else
      var (buf, c2) :- Bytes(src, Cursor(ensured.value.taken, 0, 0), 12);
      Ok(([LittleEndian(buf, 0), LittleEndian(buf, 4), LittleEndian(buf, 8)], c2))
  }

  // the header of an uncompressed block, from its alignment on
  function ReadUncompressedHeader(src: seq<nat>, st: Lzx): (r: Result<Lzx>)
    requires IsBytes(src) && StOk(st)
    ensures r.Ok? ==> StOk(r.value) && Ahead(src, r.value.cur) <= Ahead(src, st.cur)
    ensures r.Ok? ==> SamePlace(st, r.value) && SameBlock(st, r.value)
  {
    var (R, c) :- StoredOffsets(src, st.cur);
    Ok(st.(R0 := R[0], R1 := R[1], R2 := R[2], intelStarted := true, cur := c))
  }

  // the type and the length, in 3 and 24 bits, behind the byte that pads an uncompressed block of odd
  // length
  function BlockNumbers(src: seq<nat>, c: Cursor, realign: bool): (r: Result<((nat, nat), Cursor)>)
    requires Input(src, c)
    ensures r.Ok? ==> Ahead(src, r.value.1) < Ahead(src, c) && CursorOk(r.value.1)
  {
    var (_, c0) :- Bytes(src, c, if realign then 1 else 0);
    var (kind, c1) :- Bits(src, c0, 3);
    var (i, c2) :- Bits(src, c1, 16);
    var (j, c3) :- Bits(src, c2, 8);
    Ok(((kind, 256 * i + j), c3))
  }

  // the type and the length of a new block
  function ReadBlockStart(src: seq<nat>, st: Lzx): (r: Result<Lzx>)
    requires IsBytes(src) && StOk(st)
    ensures r.Ok? ==> StOk(r.value) && Ahead(src, r.value.cur) < Ahead(src, st.cur)
    ensures r.Ok? ==> SamePlace(st, r.value) && r.value.blockRemaining == r.value.blockLength
  {
    var (numbers, c) :- BlockNumbers(src, st.cur, st.blockType == UNCOMPRESSED && st.blockLength % 2 == 1);
    Ok(st.(blockType := numbers.0, blockLength := numbers.1, blockRemaining := numbers.1, cur := c))
  }

  function ReadAlignedTree(src: seq<nat>, st: Lzx): (r: Result<Lzx>)
    requires IsBytes(src) && StOk(st)
    ensures r.Ok? ==> StOk(r.value) && Ahead(src, r.value.cur) <= Ahead(src, st.cur)
    ensures r.Ok? ==> SamePlace(st, r.value) && SameBlock(st, r.value)
  {
    var (aligned, c) :- Numbers(src, st.cur, 3, ALIGNED_SYMBOLS);
    if Buildable(aligned, ALIGNED_BITS) then Ok(st.(alignedLens := aligned, cur := c)) else Fail(Decrunch)
  }

  // the individual block headers
  function ReadBlockHeader(src: seq<nat>, st: Lzx): (r: Result<Lzx>)
    requires IsBytes(src) && StOk(st)
    ensures r.Ok? ==> StOk(r.value) && Ahead(src, r.value.cur) <= Ahead(src, st.cur)
    ensures r.Ok? ==> SamePlace(st, r.value) && SameBlock(st, r.value)
    ensures r.Ok? ==> VERBATIM <= r.value.blockType <= UNCOMPRESSED
  {
    if st.blockType == ALIGNED then
      var st1 :- ReadAlignedTree(src, st);
      ReadTrees(src, st1)
    else if st.blockType == VERBATIM then ReadTrees(src, st)
    else if st.blockType == UNCOMPRESSED then ReadUncompressedHeader(src, st)
    else Fail(Decrunch)
  }

  // initialise a new block
  function ReadBlock(src: seq<nat>, st: Lzx): (r: Result<Lzx>)
    requires IsBytes(src) && StOk(st)
    ensures r.Ok? ==> StOk(r.value) && Ahead(src, r.value.cur) < Ahead(src, st.cur)
    ensures r.Ok? ==> SamePlace(st, r.value) && r.value.blockRemaining == r.value.blockLength
    ensures r.Ok? ==> VERBATIM <= r.value.blockType <= UNCOMPRESSED
  {
    var st1 :- ReadBlockStart(src, st);
    ReadBlockHeader(src, st1)
  }

  // ---------- match offsets ----------

  function ExtraBits(slot: nat): nat
  {
    if slot < 4 then 0 else if slot < 36 then slot / 2 - 1 else 17
  }

  function PositionBase(slot: nat): (base: nat)
    ensures base >= slot
  {
    if slot == 0 then 0 else PositionBase(slot - 1) + Pow2(ExtraBits(slot - 1))
  }

  // position_slots, by window bits - 15
  const POSITION_SLOTS: seq<nat> := [30, 32, 34, 36, 38, 42, 50, 66, 98, 162, 290]

  // verbatim bits, if any, and then an aligned symbol for the low three bits
  function AlignedOffset(src: seq<nat>, st: Lzx, extra: nat): (r: Result<(nat, Cursor)>)
    requires IsBytes(src) && StOk(st) && 3 <= extra <= 17
    ensures r.Ok? ==> Ahead(src, r.value.1) <= Ahead(src, st.cur) && CursorOk(r.value.1)
  {
    var (verbatim, c1) :- if extra > 3 then Bits(src, st.cur, extra - 3) else Ok((0, st.cur));
    var (aligned, c2) :- Symbol(src, st.alignedLens, c1);
    Ok((8 * verbatim + aligned, c2))
  }

  // the offset of a match with a position slot of 4 or more
  function LongOffset(src: seq<nat>, st: Lzx, slot: nat): (r: Result<(nat, Cursor)>)
    requires IsBytes(src) && StOk(st)
    requires slot >= 4
    ensures r.Ok? ==> Ahead(src, r.value.1) <= Ahead(src, st.cur) && CursorOk(r.value.1) && r.value.0 >= 2
  {
    var extra := ExtraBits(slot);
    var base := PositionBase(slot) - 2;
    if st.blockType == ALIGNED && extra >= 3 then
      var (low, c1) :- AlignedOffset(src, st, extra);
      Ok((base + low, c1))
    else
      var (verbatim, c1) :- Bits(src, st.cur, extra);
      Ok((base + verbatim, c1))
  }

  // the match offset of a position slot, and the repeated offsets after it
  function MatchOffset(src: seq<nat>, st: Lzx, slot: nat): (r: Result<(nat, Lzx)>)
    requires IsBytes(src) && StOk(st)
    ensures r.Ok? ==> Ahead(src, r.value.1.cur) <= Ahead(src, st.cur)
    ensures r.Ok? ==> StOk(r.value.1) && r.value.1 == st.(R0 := r.value.1.R0, R1 := r.value.1.R1, R2 := r.value.1.R2, cur := r.value.1.cur)
  {
    if slot == 0 then Ok((st.R0, st))
    else if slot == 1 then Ok((st.R1, st.(R0 := st.R1, R1 := st.R0)))
    else if slot == 2 then Ok((st.R2, st.(R0 := st.R2, R2 := st.R0)))
    else if slot == 3 then Ok((1, st.(R0 := 1, R1 := st.R0, R2 := st.R1)))
    else
      var (offset, c1) :- LongOffset(src, st, slot);
      Ok((offset, st.(R0 := offset, R1 := st.R0, R2 := st.R1, cur := c1)))
  }

  // ---------- literals and matches ----------

  const NUM_PRIMARY_LENGTHS := 7
  const MIN_MATCH := 2

  // the length of a match with the given length header
  function MatchLength(src: seq<nat>, st: Lzx, header: nat): (r: Result<(nat, Cursor)>)
    requires IsBytes(src) && StOk(st)
    ensures r.Ok? ==> Ahead(src, r.value.1) <= Ahead(src, st.cur) && CursorOk(r.value.1) && r.value.0 >= MIN_MATCH
  {
    if header != NUM_PRIMARY_LENGTHS then Ok((header + MIN_MATCH, st.cur))
    else if st.lengthEmpty then Fail(Decrunch)
    else
      var (footer, c) :- Symbol(src, st.lengthLens[..LENGTH_SYMBOLS], st.cur);
      Ok((header + footer + MIN_MATCH, c))
  }

  // the checks before a match is copied
  predicate MatchFits(st: Lzx, offset: nat, length: nat)
  {
    st.windowPosn + length <= st.p.windowSize &&
    (offset > st.windowPosn ==>
      // not beyond what has been written or the reference data, nor once round the window
      !(offset > st.offset && offset - st.windowPosn > st.p.refDataSize) &&
      offset - st.windowPosn <= st.p.windowSize)
  }

  // a match: NUM_CHARS + ((slot << 3) | length_header)
  function Match(src: seq<nat>, st: Lzx, element: nat): (r: Result<Lzx>)
    requires IsBytes(src) && StOk(st)
    ensures r.Ok? ==> StOk(r.value) && Ahead(src, r.value.cur) <= Ahead(src, st.cur)
    ensures r.Ok? ==> Decoded(st, r.value) && r.value.windowPosn > st.windowPosn
  {
    var (length, c1) :- MatchLength(src, st, element % 8);
    var (offset, st1) :- MatchOffset(src, st.(cur := c1), element / 8);
    if MatchFits(st, offset, length) then
      Ok(st1.(window := CopyMatch(st.window, st.windowPosn, offset, length), windowPosn := st.windowPosn + length))
    else Fail(Decrunch)
  }

  // only the window, the repeated offsets and the place in the input have changed
  predicate Decoded(st: Lzx, st': Lzx)
  {
    st'.p == st.p && st'.framePosn == st.framePosn && st'.frame == st.frame && st'.offset == st.offset &&
    st'.pending == st.pending && st'.headerRead == st.headerRead &&
    st'.intelFilesize == st.intelFilesize && st'.intelCurpos == st.intelCurpos &&
    st'.blockType == st.blockType && st'.blockLength == st.blockLength && st'.blockRemaining == st.blockRemaining &&
    st'.intelStarted == st.intelStarted && st'.mainLens == st.mainLens && st'.lengthLens == st.lengthLens &&
    st'.alignedLens == st.alignedLens && st'.lengthEmpty == st.lengthEmpty
  }

  // one literal or one match
  function Element(src: seq<nat>, st: Lzx): (r: Result<Lzx>)
    requires IsBytes(src) && StOk(st) && st.windowPosn < |st.window|
    ensures r.Ok? ==> StOk(r.value) && Ahead(src, r.value.cur) <= Ahead(src, st.cur)
    ensures r.Ok? ==> Decoded(st, r.value) && r.value.windowPosn > st.windowPosn
  {
    var (element, c) :- Symbol(src, st.mainLens[..MAIN_SYMBOLS], st.cur);
    if element < NUM_CHARS then
      Ok(st.(window := st.window[st.windowPosn := element], windowPosn := st.windowPosn + 1, cur := c))
    else Match(src, st.(cur := c), element - NUM_CHARS)
  }

  // Decodes at least run bytes; the second result is what is left of the run, which is negative
  // when the last match went past its end.
  function Run(src: seq<nat>, st: Lzx, run: int): (r: Result<(Lzx, int)>)
    requires IsBytes(src) && StOk(st) && st.windowPosn + run <= |st.window|
    ensures r.Ok? ==> StOk(r.value.0) && Ahead(src, r.value.0.cur) <= Ahead(src, st.cur)
    ensures r.Ok? ==> Decoded(st, r.value.0)
    ensures r.Ok? ==> r.value.0.windowPosn + r.value.1 == st.windowPosn + run && r.value.1 <= 0
    decreases run
  {
    if run <= 0 then Ok((st, run))
    else
      var st1 :- Element(src, st);
      Run(src, st1, run - (st1.windowPosn - st.windowPosn))
  }

  // data over the window from dest on
  function Spliced(w: seq<nat>, dest: nat, data: seq<nat>): (r: seq<nat>)
    requires dest + |data| <= |w|
    ensures |r| == |w|
  {
    w[..dest] + data + w[dest + |data|..]
  }

  // an uncompressed run
  function RawRun(src: seq<nat>, st: Lzx, run: nat): (r: Result<Lzx>)
    requires IsBytes(src) && StOk(st) && st.windowPosn + run <= |st.window|
    ensures r.Ok? ==> StOk(r.value) && Ahead(src, r.value.cur) <= Ahead(src, st.cur)
    ensures r.Ok? ==> Decoded(st, r.value) && r.value.windowPosn == st.windowPosn + run
  {
    var (data, c) :- Bytes(src, st.cur, run);
    Ok(st.(window := Spliced(st.window, st.windowPosn, data), windowPosn := st.windowPosn + run, cur := c))
  }

  // as much as the block has and the frame wants
  function BlockRun(src: seq<nat>, st: Lzx, run: nat): (r: Result<(Lzx, int)>)
    requires IsBytes(src) && StOk(st) && st.windowPosn + run <= |st.window|
    ensures r.Ok? ==> StOk(r.value.0) && Ahead(src, r.value.0.cur) <= Ahead(src, st.cur)
    ensures r.Ok? ==> Decoded(st, r.value.0)
    ensures r.Ok? ==> r.value.0.windowPosn + r.value.1 == st.windowPosn + run && r.value.1 <= 0
  {
    if st.blockType == VERBATIM || st.blockType == ALIGNED then Run(src, st, run)
    else if st.blockType == UNCOMPRESSED then
      var st1 :- RawRun(src, st, run);
      Ok((st1, 0))
    else Fail(Decrunch)
  }

  function NewBlock(src: seq<nat>, st: Lzx): (r: Result<Lzx>)
    requires IsBytes(src) && StOk(st)
    ensures r.Ok? ==> StOk(r.value) && SamePlace(st, r.value)
    ensures r.Ok? ==> Ahead(src, r.value.cur) <= Ahead(src, st.cur)
    ensures r.Ok? && st.blockRemaining == 0 ==> Ahead(src, r.value.cur) < Ahead(src, st.cur)
    ensures st.blockRemaining != 0 ==> r == Ok(st)
  {
    if st.blockRemaining == 0 then ReadBlock(src, st) else Ok(st)
  }

  function Min(a: nat, b: nat): nat
  {
    if a < b then a else b
  }

  // run bytes of the block, and what a last match that is too long takes from the rest of it
  function RunOfBlock(src: seq<nat>, st: Lzx, run: nat): (r: Result<Lzx>)
    requires IsBytes(src) && StOk(st) && run <= st.blockRemaining && st.windowPosn + run <= |st.window|
    ensures r.Ok? ==> StOk(r.value) && Ahead(src, r.value.cur) <= Ahead(src, st.cur) && SameFrame(st, r.value)
    ensures r.Ok? ==> r.value.windowPosn >= st.windowPosn + run
    ensures r.Ok? && run == st.blockRemaining ==> r.value.windowPosn == st.windowPosn + run
  {
    var (st1, rest) :- BlockRun(src, st.(blockRemaining := st.blockRemaining - run), run);
    if -rest > st1.blockRemaining then Fail(Decrunch)
    else Ok(st1.(blockRemaining := st1.blockRemaining + rest))
  }

  // one round of the block loop with todo bytes of the frame to go
  function BlockStep(src: seq<nat>, st: Lzx, todo: nat): (r: Result<(Lzx, nat)>)
    requires IsBytes(src) && StOk(st) && todo > 0 && st.windowPosn + todo <= |st.window|
    ensures r.Ok? ==> StOk(r.value.0) && r.value.1 <= todo
    ensures r.Ok? ==> Ahead(src, r.value.0.cur) <= Ahead(src, st.cur)
    ensures r.Ok? && r.value.1 == todo ==> Ahead(src, r.value.0.cur) < Ahead(src, st.cur)
    ensures r.Ok? && r.value.1 > 0 ==> r.value.0.windowPosn + r.value.1 == st.windowPosn + todo
    ensures r.Ok? ==> SameFrame(st, r.value.0)
  {
    var st1 :- NewBlock(src, st);
    var run := Min(st1.blockRemaining, todo);
    var st2 :- RunOfBlock(src, st1, run);
    Ok((st2, todo - run))
  }

  predicate SameFrame(st: Lzx, st': Lzx)
  {
    st'.p == st.p && st'.framePosn == st.framePosn && st'.frame == st.frame && st'.offset == st.offset &&
    st'.pending == st.pending && st'.headerRead == st.headerRead &&
    st'.intelFilesize == st.intelFilesize && st'.intelCurpos == st.intelCurpos
  }

  // while (bytes_todo > 0)
  function BlockLoop(src: seq<nat>, st: Lzx, todo: nat): (r: Result<Lzx>)
    requires IsBytes(src) && StOk(st) && (todo > 0 ==> st.windowPosn + todo <= |st.window|)
    ensures r.Ok? ==> StOk(r.value) && SameFrame(st, r.value)
    decreases Ahead(src, st.cur), todo
  {
    if todo == 0 then Ok(st)
    else
      var (st', todo') :- BlockStep(src, st, todo);
      BlockLoop(src, st', todo')
  }

  // ---------- frames ----------

  function Signed32(u: nat): int
  {
    if u >= IntelE8.TWO31 then u - IntelE8.TWO32 else u
  }

  // the 1-bit, or 33-bit, header of the stream
  function HeaderNumber(src: seq<nat>, c: Cursor): (r: Result<(int, Cursor)>)
    requires Input(src, c)
    ensures r.Ok? ==> CursorOk(r.value.1)
  {
    var (bit, c1) :- Bits(src, c, 1);
    if bit == 0 then Ok((0, c1))
    else
      var (i, c2) :- Bits(src, c1, 16);
      var (j, c3) :- Bits(src, c2, 16);
      Ok((Signed32(0x1_0000 * i + j), c3))
  }

  function ReadHeader(src: seq<nat>, st: Lzx): (r: Result<Lzx>)
    requires IsBytes(src) && StOk(st)
    ensures r.Ok? ==> r.value == st.(headerRead := true, intelFilesize := r.value.intelFilesize, cur := r.value.cur)
    ensures r.Ok? ==> StOk(r.value)
  {
    if st.headerRead then Ok(st)
    else
      var (size, c) :- HeaderNumber(src, st.cur);
      Ok(st.(headerRead := true, intelFilesize := size, cur := c))
  }

  // 32768 bytes, or what is left of a stream of known length
  function FrameSize(st: Lzx): nat
    requires st.p.length > 0 ==> st.offset <= st.p.length
  {
    if st.p.length > 0 && st.p.length - st.offset < FRAME_SIZE then st.p.length - st.offset else FRAME_SIZE
  }

  // re-align the input bit stream after a frame
  function Realign(src: seq<nat>, c: Cursor): (r: Result<Cursor>)
    requires Input(src, c)
    ensures r.Ok? ==> CursorOk(r.value)
  {
    EnsureKeeps(src, c, 16);
    match if c.left > 0 then Ensure(src, c, 16) else Some(c)
    case None => Fail(ReadError)
    case Some(c1) =>
      DropTakes(src, c1, c1.left % 16);
      Ok(Drop(c1, c1.left % 16))
  }

  // are calls to be translated in a frame of this size?
  predicate NeedsE8(st: Lzx, size: nat)
  {
    st.intelStarted && st.intelFilesize != 0 && st.frame <= 32768 && size > 10
  }

  // the bytes of the frame just decoded, as they are written
  function FrameBytes(st: Lzx, size: nat): (data: seq<nat>)
    requires StOk(st) && st.framePosn + size <= |st.window|
    ensures |data| == size
  {
    var data := st.window[st.framePosn..st.framePosn + size];
    if NeedsE8(st, size) then IntelE8.Transform(IntelE8.Decode, data, st.intelCurpos, st.intelFilesize) else data
  }

  function Wrapped(posn: nat, size: nat): nat
  {
    if posn == size then 0 else posn
  }

  // The state between two frames: everything decoded so far is offset + |pending| bytes, and the
  // window is used up to there.
  predicate FrameOk(st: Lzx)
  {
    StOk(st) && st.p.windowSize > 0 && st.p.windowSize % FRAME_SIZE == 0 &&
    st.windowPosn == st.framePosn < st.p.windowSize &&
    st.offset + |st.pending| == Limit(st.p, st.frame * FRAME_SIZE) &&
    (Limit(st.p, st.frame * FRAME_SIZE) == st.frame * FRAME_SIZE ==> st.framePosn % FRAME_SIZE == 0)
  }

  // n, or the length of the stream if that is known and less
  function Limit(p: Params, n: nat): nat
  {
    if p.length > 0 && p.length < n then p.length else n
  }

  lemma FrameFits(st: Lzx)
    requires FrameOk(st) && st.pending == []
    ensures st.p.length > 0 ==> st.offset <= st.p.length
    ensures st.framePosn + FrameSize(st) <= st.p.windowSize
    ensures st.offset + FrameSize(st) == Limit(st.p, (st.frame + 1) * FRAME_SIZE)
  {
    hide StOk;
  }

  lemma FrameDone(st: Lzx, st': Lzx)
    requires FrameOk(st) && st.pending == [] && StOk(st') && st'.p == st.p
    requires st.p.length > 0 ==> st.offset <= st.p.length
    requires st'.frame == st.frame + 1 && st'.offset == st.offset && |st'.pending| == FrameSize(st)
    requires st'.windowPosn == st'.framePosn == Wrapped(st.framePosn + FrameSize(st), st.p.windowSize)
    ensures FrameOk(st')
  {
    hide StOk;
    FrameFits(st);
  }

  // the position counters behind the frame
  function Advanced(st: Lzx, size: nat): Lzx
  {
    st.(intelCurpos := if st.intelFilesize != 0 then st.intelCurpos + size else st.intelCurpos,
        framePosn := Wrapped(st.framePosn + size, st.p.windowSize),
        windowPosn := Wrapped(st.windowPosn, st.p.windowSize),
        frame := st.frame + 1)
  }

  // the state of a stream that has just been opened
  function Initial(p: Params, window: seq<nat>): Lzx
  {
    Lzx(p, Cursor(0, 0, 0), window, 0, 0, 0, 0, 1, 1, 1, 0, 0, 0, false, 0, 0, false,
        seq(MAIN_SYMBOLS + SAFETY, _ => 0), seq(LENGTH_SYMBOLS + SAFETY, _ => 0), seq(ALIGNED_SYMBOLS, _ => 0),
        false, [])
  }

  lemma InitialOk(p: Params, window: seq<nat>)
    requires |window| == p.windowSize > 0 && p.windowSize % FRAME_SIZE == 0 && p.numOffsets <= MAIN_SYMBOLS - NUM_CHARS
    ensures FrameOk(Initial(p, window))
  {
  }

  // the checks and the bookkeeping when the blocks of a frame have been decoded
  function FinishFrame(src: seq<nat>, st: Lzx, size: nat): (r: Result<Lzx>)
    requires IsBytes(src) && StOk(st) && st.framePosn + size <= st.p.windowSize
    ensures r.Ok? ==>
      r.value.p == st.p && r.value.frame == st.frame + 1 && r.value.offset == st.offset && |r.value.pending| == size
    ensures r.Ok? ==>
      StOk(r.value) && r.value.windowPosn == r.value.framePosn == Wrapped(st.framePosn + size, st.p.windowSize)
  {
    // a match must not have run over the end of the frame
    if st.windowPosn - st.framePosn != size then Fail(Decrunch)
    else
      var c :- Realign(src, st.cur);
      var st1 := st.(cur := c);
      Ok(Advanced(st1.(pending := FrameBytes(st1, size)), size))
  }

  // the header and the blocks of a frame
  function DecodeBlocks(src: seq<nat>, st: Lzx, size: nat): (r: Result<Lzx>)
    requires IsBytes(src) && StOk(st) && st.windowPosn == st.framePosn && st.framePosn + size <= st.p.windowSize
    ensures r.Ok? ==> StOk(r.value) && r.value.p == st.p && r.value.framePosn == st.framePosn
    ensures r.Ok? ==> r.value.frame == st.frame && r.value.offset == st.offset
  {
    var st1 :- ReadHeader(src, st);
    BlockLoop(src, st1, st1.framePosn + size - st1.windowPosn)
  }

  lemma DecodeFrameOk(src: seq<nat>, st: Lzx, size: nat)
    requires IsBytes(src) && FrameOk(st) && st.pending == [] && st.framePosn + size <= st.p.windowSize
    requires (st.p.length > 0 ==> st.offset <= st.p.length) && size == FrameSize(st)
    requires DecodeBlocks(src, st, size).Ok?
    requires FinishFrame(src, DecodeBlocks(src, st, size).value, size).Ok?
    ensures FrameOk(FinishFrame(src, DecodeBlocks(src, st, size).value, size).value)
  {
    var st' := FinishFrame(src, DecodeBlocks(src, st, size).value, size).value;
    hide StOk, FrameOk, DecodeBlocks, FinishFrame, FrameSize, Wrapped;
    FrameDone(st, st');
  }

  // decode one more frame; its bytes become the pending ones
  function DecodeFrame(src: seq<nat>, st: Lzx): (r: Result<Lzx>)
    requires IsBytes(src) && FrameOk(st) && st.pending == []
    ensures r.Ok? ==> FrameOk(r.value) && r.value.p == st.p && r.value.frame == st.frame + 1
    ensures r.Ok? ==> r.value.offset == st.offset
  {
    FrameFits(st);
    var size := FrameSize(st);
    var st1 :- DecodeBlocks(src, st, size);
    var st2 :- FinishFrame(src, st1, size);
    DecodeFrameOk(src, st, size);
    Ok(st2)
  }
}
