// The LZX stream: lzxd_stream and lzxd_decompress, working in place on the window, the E8 buffer
// and the decode tables, against the decoder as a function.
module LzxStream {
  import opened Wrappers
  import opened Powers
  import opened CanonicalCode
  import opened HuffTable
  import opened HuffBuild
  import opened HuffSize
  import opened BitStream
  import opened BitReader
  import opened LzWindow
  import opened LzxSpec
  import opened LzxTables
  import opened LzxLens
  import opened LzxOutput

  // reference data is what the whole window holds before the stream starts
  function StreamParams(windowBits: nat, outputLength: nat, reference: bool): Params
    requires 15 <= windowBits <= 21
  {
    var size := Pow2(windowBits);
    Params(size, 8 * POSITION_SLOTS[windowBits - 15], outputLength, if reference then size else 0)
  }

  // zeros, and the data at the end
  function Padded(data: seq<nat>, size: nat): (content: seq<nat>)
    requires |data| <= size
    ensures |content| == size
  {
    seq(size - |data|, _ => 0) + data
  }

  class LzxdStream {
    const p: Params
    const reader: BitReader
    const window: array<nat>
    const e8Buf: array<nat>
    const pretreeTable: array<int>
    const mainTable: array<int>
    const lengthTable: array<int>
    const alignedTable: array<int>

    var mainLen: seq<nat>
    var lengthLen: seq<nat>
    var alignedLen: seq<nat>
    var lengthEmpty: bool

    var windowPosn: nat
    var framePosn: nat
    var frame: nat
    var offset: nat
    var R0: nat
    var R1: nat
    var R2: nat
    var blockType: nat
    var blockLength: nat
    var blockRemaining: nat
    var headerRead: bool
    var intelFilesize: int
    var intelCurpos: int
    var intelStarted: bool

    var oE8: bool          // o_ptr and o_end point into e8_buf, or else into the window
    var oPtr: nat
    var oEnd: nat
    var output: seq<nat>    // everything given to sys->write
    var error: Option<Error>

    // ---------- the state as a value ----------

    ghost predicate Separate()
    {
      window != e8Buf && window != reader.inbuf && e8Buf != reader.inbuf &&
      pretreeTable != mainTable && pretreeTable != lengthTable && pretreeTable != alignedTable &&
      mainTable != lengthTable && mainTable != alignedTable && lengthTable != alignedTable
    }

    ghost predicate Rooms()
    {
      pretreeTable.Length == PRETREE_ROOM && mainTable.Length == MAIN_TABLE &&
      lengthTable.Length == LENGTH_TABLE && alignedTable.Length == ALIGNED_TABLE &&
      e8Buf.Length == FRAME_SIZE && p.numOffsets <= MAX_OFFSETS
    }

    // the room behind the pretree table, which only a pretree that is refused can need
    ghost function Spare(): seq<int>
      reads pretreeTable
    {
      if pretreeTable.Length == PRETREE_ROOM then pretreeTable[PRETREE_TABLE..] else []
    }

    // everything but the decode tables is in order
    ghost predicate Core()
      reads this, reader, reader.inbuf, window, e8Buf
    {
      reader.Valid() && Separate() && Rooms() &&
      oPtr <= oEnd <= (if oE8 then e8Buf.Length else window.Length) &&
      StOk(St()) && NoCodesFrom(mainLen, NUM_CHARS + MAX_OFFSETS + SAFETY)
    }

    // main_table and length_table decode the code lengths
    ghost predicate TreesOk()
      reads `mainLen, `lengthLen, `lengthEmpty, mainTable, lengthTable
    {
      |mainLen| >= MAIN_SYMBOLS && |lengthLen| >= LENGTH_SYMBOLS &&
      TableFor(mainLen[..MAIN_SYMBOLS], MAIN_BITS, mainTable[..]) &&
      (!lengthEmpty ==> TableFor(lengthLen[..LENGTH_SYMBOLS], LENGTH_BITS, lengthTable[..]))
    }

    ghost predicate AlignedOk()
      reads `alignedLen, alignedTable
    {
      TableFor(alignedLen, ALIGNED_BITS, alignedTable[..])
    }

    // the tables of the current block are there
    ghost predicate Tables()
      reads this, mainTable, lengthTable, alignedTable
    {
      (blockType == VERBATIM || blockType == ALIGNED ==> TreesOk()) &&
      (blockType == ALIGNED ==> AlignedOk())
    }

    ghost predicate Valid()
      reads this, reader, reader.inbuf, window, e8Buf, mainTable, lengthTable, alignedTable
    {
      Core() && Tables()
    }

    function Pending(): seq<nat>
      reads `oE8, `oPtr, `oEnd, window, e8Buf
      requires oPtr <= oEnd <= (if oE8 then e8Buf.Length else window.Length)
    {
      if oE8 then e8Buf[oPtr..oEnd] else window[oPtr..oEnd]
    }

    ghost function St(): Lzx
      reads this, reader, reader.inbuf, window, e8Buf
      requires reader.Valid() && oPtr <= oEnd <= (if oE8 then e8Buf.Length else window.Length)
    {
      Lzx(p, reader.Cur(), window[..], windowPosn, framePosn, frame, offset, R0, R1, R2,
          blockType, blockLength, blockRemaining, headerRead, intelFilesize, intelCurpos, intelStarted,
          mainLen, lengthLen, alignedLen, lengthEmpty, Pending())
    }

    function Source(): seq<nat>
    {
      reader.Source()
    }

    // lzxd_init, and, as lzx_decompress does, the data that the window starts with
    constructor (file: seq<nat>, breaks: bool, windowBits: nat, inputBufferSize: nat, outputLength: nat, windowData: Option<seq<nat>>)
      requires IsBytes(file) && 15 <= windowBits <= 21 && inputBufferSize >= 1
      requires windowData.Some? ==> |windowData.value| <= Pow2(windowBits)
      ensures Valid() && fresh(reader) && fresh(reader.inbuf) && fresh(window) && fresh(e8Buf)
      ensures fresh(pretreeTable) && fresh(mainTable) && fresh(lengthTable) && fresh(alignedTable)
      ensures reader.file == file && reader.breaks == breaks && error.None? && output == []
      ensures FrameOk(St())
      ensures St() == Initial(StreamParams(windowBits, outputLength, windowData.Some?),
                              Padded(if windowData.Some? then windowData.value else [], Pow2(windowBits)))
    {
      hide Pow2, TableFor, NoCodesFrom, FrameOk, StOk, Rooms, Padded, Pending, Spare, Core, Valid, Tables, St, BitReader.Valid,
        BitReader.Cur, BitReader.BytesOk, Initial;
      var size := Pow2(windowBits);
      var data := if windowData.Some? then windowData.value else [];
      p := StreamParams(windowBits, outputLength, windowData.Some?);
      // the byte buffer holds whole words
      reader := new BitReader(file, breaks, if inputBufferSize % 2 == 0 then inputBufferSize else inputBufferSize + 1);
      var content := Padded(data, size);
      window := new nat[|content|](i requires 0 <= i < |content| => content[i]);
      e8Buf := new nat[FRAME_SIZE];
      pretreeTable := new int[PRETREE_ROOM];
      mainTable := new int[MAIN_TABLE];
      lengthTable := new int[LENGTH_TABLE];
      alignedTable := new int[ALIGNED_TABLE];
      mainLen := seq(MAIN_SYMBOLS + SAFETY, _ => 0);
      lengthLen := seq(LENGTH_SYMBOLS + SAFETY, _ => 0);
      alignedLen := seq(ALIGNED_SYMBOLS, _ => 0);
      lengthEmpty := false;
      windowPosn, framePosn, frame, offset := 0, 0, 0, 0;
      R0, R1, R2 := 1, 1, 1;
      blockType, blockLength, blockRemaining, headerRead := 0, 0, 0, false;
      intelFilesize, intelCurpos, intelStarted := 0, 0, false;
      oE8, oPtr, oEnd, output, error := true, 0, 0, [], None;
      new;
      WindowSizes(windowBits);
      assert window[..] == content;
      NewState();
    }

    // the state when the stream is opened
    lemma NewState()
      requires reader.Valid() && reader.Cur() == Cursor(0, 0, 0) && Separate() && oE8 && oPtr == 0 && oEnd == 0
      requires pretreeTable.Length == PRETREE_ROOM && mainTable.Length == MAIN_TABLE
      requires lengthTable.Length == LENGTH_TABLE
      requires alignedTable.Length == ALIGNED_TABLE && e8Buf.Length == FRAME_SIZE && p.numOffsets <= MAX_OFFSETS
      requires window.Length == p.windowSize > 0 && p.windowSize % FRAME_SIZE == 0
      requires windowPosn == framePosn == frame == offset == 0 && R0 == R1 == R2 == 1
      requires blockType == blockLength == blockRemaining == 0 && !headerRead && intelFilesize == intelCurpos == 0
      requires !intelStarted && mainLen == seq(MAIN_SYMBOLS + SAFETY, _ => 0) && !lengthEmpty
      requires lengthLen == seq(LENGTH_SYMBOLS + SAFETY, _ => 0) && alignedLen == seq(ALIGNED_SYMBOLS, _ => 0)
      ensures Valid() && FrameOk(St()) && St() == Initial(p, window[..])
    {
      hide NoCodesFrom, Pow2, StOk, TableFor, FrameOk;
      NoCodesYet();
      InitialOk(p, window[..]);
      InitialState();
      FrameState();
    }

    lemma InitialState()
      requires reader.Valid() && reader.Cur() == Cursor(0, 0, 0) && oE8 && oPtr == 0 && oEnd == 0
      requires windowPosn == framePosn == frame == offset == 0 && R0 == R1 == R2 == 1
      requires blockType == blockLength == blockRemaining == 0 && !headerRead && intelFilesize == intelCurpos == 0
      requires !intelStarted && mainLen == seq(MAIN_SYMBOLS + SAFETY, _ => 0) && !lengthEmpty
      requires lengthLen == seq(LENGTH_SYMBOLS + SAFETY, _ => 0) && alignedLen == seq(ALIGNED_SYMBOLS, _ => 0)
      ensures St() == Initial(p, window[..])
    {
    }

    lemma FrameState()
      requires reader.Valid() && oPtr <= oEnd <= (if oE8 then e8Buf.Length else window.Length) && FrameOk(St())
      ensures StOk(St())
    {
      hide Pow2, StOk;
    }

    // lzxd_init
    static method Init(file: seq<nat>, breaks: bool, windowBits: int, inputBufferSize: int, outputLength: int)
      returns (lzx: LzxdStream?)
      requires IsBytes(file)
      ensures lzx == null <==> !(15 <= windowBits <= 21) || outputLength < 0 || inputBufferSize <= 0
      ensures lzx != null ==>
        fresh(lzx) && lzx.Valid() && lzx.error.None? && lzx.output == [] &&
        lzx.reader.file == file && lzx.reader.breaks == breaks &&
        lzx.St() == Initial(StreamParams(windowBits, outputLength, false), Padded([], Pow2(windowBits)))
    {
      hide Pow2, StOk, FrameOk;
      // the window sizes of the format without deltas
      if windowBits < 15 || windowBits > 21 || outputLength < 0 || inputBufferSize <= 0 {
        return null;
      }
      lzx := new LzxdStream(file, breaks, windowBits, inputBufferSize, outputLength, None);
    }

    // ---------- block headers ----------

    // the code lengths of the main tree: the literals, and then the matches
    method ReadMainLensInto(last: nat) returns (res: Result<()>)
      requires Core() && last <= NUM_CHARS + MAX_OFFSETS
      modifies reader, reader.inbuf, pretreeTable, `mainLen
      ensures res.Ok? ==> Spare() == old(Spare())
      ensures var spec := ReadMainLens(Source(), old(mainLen), last, old(reader.Cur()));
        if res.Ok? then Core() && spec == Ok((mainLen, reader.Cur())) else spec == Fail(res.error)
    {
      hide NoCodesFrom, TableFor, ReadLens, Pow2, Ahead;
      var lens := ReadLensInto(reader, pretreeTable, mainLen, 0, NUM_CHARS);
      if lens.Fail? {
        return Fail(lens.error);
      }
      ghost var c, lens1 := reader.Cur(), lens.value;
      ReadLensTail(Source(), mainLen, 0, NUM_CHARS, old(reader.Cur()), NUM_CHARS + MAX_OFFSETS + SAFETY);
      lens := ReadLensInto(reader, pretreeTable, lens.value, NUM_CHARS, last);
      if lens.Fail? {
        return Fail(lens.error);
      }
      ReadLensTail(Source(), lens1, NUM_CHARS, last, c, NUM_CHARS + MAX_OFFSETS + SAFETY);
      mainLen := lens.value;
      res := Ok(());
    }

    // READ_LENGTHS(LENGTH, 0, LZX_NUM_SECONDARY_LENGTHS)
    method ReadLengthLens() returns (res: Result<()>)
      requires Core()
      modifies reader, reader.inbuf, pretreeTable, `lengthLen
      ensures res.Ok? ==> Spare() == old(Spare())
      ensures var spec := ReadLens(Source(), old(lengthLen), 0, LENGTH_SYMBOLS - 1, old(reader.Cur()));
        if res.Ok? then Core() && spec == Ok((lengthLen, reader.Cur())) else spec == Fail(res.error)
    {
      hide NoCodesFrom, TableFor, ReadLens, Pow2;
      var lens := ReadLensInto(reader, pretreeTable, lengthLen, 0, LENGTH_SYMBOLS - 1);
      if lens.Fail? {
        return Fail(lens.error);
      }
      lengthLen := lens.value;
      res := Ok(());
    }

    // BUILD_TABLE_MAYBE_EMPTY(LENGTH)
    method BuildLengthTable() returns (ok: bool)
      requires Core()
      modifies lengthTable, `lengthEmpty
      ensures Core()
      ensures var lens := lengthLen[..LENGTH_SYMBOLS];
        (ok <==> Buildable(lens, LENGTH_BITS) || AllZero(lens)) &&
        (ok ==> (lengthEmpty <==> !Buildable(lens, LENGTH_BITS))) &&
        (ok && !lengthEmpty ==> TableFor(lens, LENGTH_BITS, lengthTable[..]))
    {
      hide NoCodesFrom, TableFor, Buildable, Pow2, RoomFor, TableSize;
      lengthEmpty := false;
      LengthSize(lengthLen[..LENGTH_SYMBOLS]);
      ok := BuildTable(LENGTH_BITS, lengthLen[..LENGTH_SYMBOLS], lengthTable);
      if !ok {
        for i := 0 to LENGTH_SYMBOLS
          invariant forall k :: 0 <= k < i ==> lengthLen[k] == 0
        {
          if lengthLen[i] > 0 {
            assert lengthLen[..LENGTH_SYMBOLS][i] != 0;
            return;
          }
        }
        lengthEmpty := true;
        ok := true;
      }
    }

    // BUILD_TABLE(MAINTREE)
    method BuildMainTable() returns (ok: bool)
      requires Core()
      modifies mainTable
      ensures Core() && St() == old(St())
      ensures ok <==> Buildable(mainLen[..MAIN_SYMBOLS], MAIN_BITS)
      ensures ok ==> TableFor(mainLen[..MAIN_SYMBOLS], MAIN_BITS, mainTable[..])
    {
      hide NoCodesFrom, TableFor, Buildable, Pow2, RoomFor, TableSize;
      MainSizeOf(mainLen);
      ok := BuildTable(MAIN_BITS, mainLen[..MAIN_SYMBOLS], mainTable);
    }

    method ReadMainTreeInto() returns (res: Result<()>)
      requires Core()
      modifies reader, reader.inbuf, pretreeTable, mainTable, `mainLen, `intelStarted
      ensures res.Ok? ==> Spare() == old(Spare())
      ensures var spec := ReadMainTree(Source(), old(St()));
        if res.Ok? then
          Core() && TableFor(mainLen[..MAIN_SYMBOLS], MAIN_BITS, mainTable[..]) && spec == Ok(St())
        else spec == Fail(res.error)
    {
      hide NoCodesFrom, TableFor, ReadMainLens, Buildable, Pow2, Ahead, RoomFor, TableSize;
      res := ReadMainLensInto(NUM_CHARS + p.numOffsets);
      if res.Fail? {
        return;
      }
      var ok := BuildMainTable();
      if !ok {
        return Fail(Decrunch);
      }
      StartIntel();
      res := Ok(());
    }

    // does the block have a code for the literal 0xE8?
    method StartIntel()
      requires Core()
      modifies `intelStarted
      ensures Core() && St() == old(St()).(intelStarted := old(intelStarted) || mainLen[IntelE8.E8] != 0)
    {
      hide NoCodesFrom, Pending, Rooms, TableFor, Pow2;
      if mainLen[IntelE8.E8] != 0 {
        intelStarted := true;
      }
    }

    method ReadLengthTreeInto() returns (res: Result<()>)
      requires Core()
      modifies reader, reader.inbuf, pretreeTable, lengthTable, `lengthLen, `lengthEmpty
      ensures res.Ok? ==> Spare() == old(Spare())
      ensures var spec := ReadLengthTree(Source(), old(St()));
        if res.Ok? then
          Core() && (!lengthEmpty ==> TableFor(lengthLen[..LENGTH_SYMBOLS], LENGTH_BITS, lengthTable[..])) &&
          spec == Ok(St())
        else spec == Fail(res.error)
    {
      hide NoCodesFrom, TableFor, ReadLens, Buildable, Pow2;
      res := ReadLengthLens();
      if res.Fail? {
        return;
      }
      var ok := BuildLengthTable();
      if !ok {
        return Fail(Decrunch);
      }
      res := Ok(());
    }

    // the main and length trees of a compressed block
    method ReadTreesInto() returns (res: Result<()>)
      requires Core()
      modifies reader, reader.inbuf, pretreeTable, mainTable, lengthTable,
        `mainLen, `lengthLen, `lengthEmpty, `intelStarted
      ensures res.Ok? ==> Spare() == old(Spare())
      ensures var spec := ReadTrees(Source(), old(St()));
        if res.Ok? then Core() && TreesOk() && spec == Ok(St()) else spec == Fail(res.error)
    {
      hide NoCodesFrom, TableFor, ReadMainTree, ReadLengthTree, Pow2, SamePlace, SameBlock, Ahead;
      res := ReadMainTreeInto();
      if res.Fail? {
        return;
      }
      res := ReadLengthTreeInto();
    }

    method StoreOffsets(r0: nat, r1: nat, r2: nat)
      modifies `R0, `R1, `R2
      ensures R0 == r0 && R1 == r1 && R2 == r2
    {
      R0, R1, R2 := r0, r1, r2;
    }

    method SetOffsets(r0: nat, r1: nat, r2: nat)
      requires Core()
      modifies `R0, `R1, `R2, `intelStarted
      ensures Core() && St() == old(St()).(R0 := r0, R1 := r1, R2 := r2, intelStarted := true)
    {
      hide NoCodesFrom, Pending, Rooms, TableFor, Pow2;
      // raw bytes may hold calls
      intelStarted := true;
      StoreOffsets(r0, r1, r2);
    }

    // the header of an uncompressed block, from its alignment on
    method ReadUncompressedHeaderInto() returns (res: Result<()>)
      requires Core()
      modifies reader, reader.inbuf, `R0, `R1, `R2, `intelStarted
      ensures var spec := ReadUncompressedHeader(Source(), old(St()));
        if res.Ok? then Core() && spec == Ok(St()) else spec == Fail(res.error)
    {
      hide Rooms, TableFor, Pow2, Ahead, StoredOffsets, SamePlace, SameBlock;
      var R := ReadStoredOffsets(reader);
      if R.Fail? {
        return Fail(R.error);
      }
      SetOffsets(R.value[0], R.value[1], R.value[2]);
      res := Ok(());
    }

    method StoreBlock(kind: nat, length: nat)
      modifies `blockType, `blockLength, `blockRemaining
      ensures blockType == kind && blockLength == length && blockRemaining == length
    {
      blockType, blockLength, blockRemaining := kind, length, length;
    }

    method SetBlock(kind: nat, length: nat)
      requires Core()
      modifies `blockType, `blockLength, `blockRemaining
      ensures Core() && St() == old(St()).(blockType := kind, blockLength := length, blockRemaining := length)
    {
      hide NoCodesFrom, Pending, Rooms, TableFor, Pow2;
      StoreBlock(kind, length);
    }

    // the type and the length of a new block
    method ReadBlockStartInto() returns (res: Result<()>)
      requires Core()
      modifies reader, reader.inbuf, `blockType, `blockLength, `blockRemaining
      ensures var spec := ReadBlockStart(Source(), old(St()));
        if res.Ok? then Core() && spec == Ok(St()) else spec == Fail(res.error)
    {
      hide NoCodesFrom, Pending, Rooms, TableFor, Pow2, Ahead, BlockNumbers;
      var numbers := ReadBlockNumbers(reader, blockType == UNCOMPRESSED && blockLength % 2 == 1);
      if numbers.Fail? {
        return Fail(numbers.error);
      }
      SetBlock(numbers.value.0, numbers.value.1);
      res := Ok(());
    }

    method ReadAlignedTreeInto() returns (res: Result<()>)
      requires Core()
      modifies reader, reader.inbuf, alignedTable, `alignedLen
      ensures var spec := ReadAlignedTree(Source(), old(St()));
        if res.Ok? then Core() && AlignedOk() && spec == Ok(St()) else spec == Fail(res.error)
    {
      hide NoCodesFrom, TableFor, Pow2, Ahead, Numbers, Buildable, RoomFor, TableSize;
      var lens := ReadNumbers(reader, 3, ALIGNED_SYMBOLS);
      if lens.Fail? {
        return Fail(lens.error);
      }
      alignedLen := lens.value;
      NumbersBelow(Source(), old(reader.Cur()), 3, ALIGNED_SYMBOLS);
      EightIsPower();
      AlignedSize(alignedLen);
      var ok := BuildTable(ALIGNED_BITS, alignedLen, alignedTable);
      res := if ok then Ok(()) else Fail(Decrunch);
    }

    // what each type of block has in its header
    method ReadBlockHeaderInto() returns (res: Result<()>)
      requires Core()
      modifies reader, reader.inbuf, pretreeTable, mainTable, lengthTable, alignedTable,
        `mainLen, `lengthLen, `alignedLen, `lengthEmpty, `intelStarted, `R0, `R1, `R2
      ensures res.Ok? ==> Spare() == old(Spare())
      ensures var spec := ReadBlockHeader(Source(), old(St()));
        if res.Ok? then Valid() && spec == Ok(St()) else spec == Fail(res.error)
    {
      hide NoCodesFrom, TableFor, Pow2, Ahead, ReadAlignedTree, ReadTrees, ReadUncompressedHeader, SamePlace, SameBlock;
      if blockType == ALIGNED {
        res := ReadAlignedTreeInto();
        if res.Fail? {
          return;
        }
        res := ReadTreesInto();
      } else if blockType == VERBATIM {
        res := ReadTreesInto();
      } else if blockType == UNCOMPRESSED {
        res := ReadUncompressedHeaderInto();
      } else {
        res := Fail(Decrunch);
      }
    }

    // a new block: its numbers and then its trees or offsets
    method ReadBlockInto() returns (res: Result<()>)
      requires Core()
      modifies reader, reader.inbuf, pretreeTable, mainTable, lengthTable, alignedTable,
        `blockType, `blockLength, `blockRemaining,
        `mainLen, `lengthLen, `alignedLen, `lengthEmpty, `intelStarted, `R0, `R1, `R2
      ensures res.Ok? ==> Spare() == old(Spare())
      ensures var spec := ReadBlock(Source(), old(St()));
        if res.Ok? then Valid() && spec == Ok(St()) else spec == Fail(res.error)
    {
      hide NoCodesFrom, TableFor, Pow2, Ahead, ReadBlockStart, ReadBlockHeader, SamePlace, SameBlock;
      res := ReadBlockStartInto();
      if res.Fail? {
        return;
      }
      res := ReadBlockHeaderInto();
    }

    // ---------- literals and matches ----------

    method MatchLengthInto(header: nat) returns (res: Result<nat>)
      requires Valid() && (blockType == VERBATIM || blockType == ALIGNED)
      modifies reader, reader.inbuf
      ensures var spec := MatchLength(Source(), old(St()), header);
        if res.Ok? then Valid() && spec == Ok((res.value, reader.Cur())) && St() == old(St()).(cur := reader.Cur())
        else spec == Fail(res.error)
    {
      hide NoCodesFrom, TableFor, Pow2, Ahead, Symbol;
      if header != NUM_PRIMARY_LENGTHS {
        return Ok(header + MIN_MATCH);
      }
      if lengthEmpty {
        return Fail(Decrunch);
      }
      var footer := ReadSymbol(reader, LENGTH_BITS, lengthLen[..LENGTH_SYMBOLS], lengthTable);
      if footer.Fail? {
        return Fail(footer.error);
      }
      res := Ok(header + footer.value + MIN_MATCH);
    }

    // verbatim bits, if there are more than three extra bits, and an aligned symbol
    method AlignedOffsetInto(extra: nat) returns (res: Result<nat>)
      requires Valid() && blockType == ALIGNED && 3 <= extra <= 17
      modifies reader, reader.inbuf
      ensures var spec := AlignedOffset(Source(), old(St()), extra);
        if res.Ok? then Valid() && spec == Ok((res.value, reader.Cur())) && St() == old(St()).(cur := reader.Cur())
        else spec == Fail(res.error)
    {
      hide NoCodesFrom, Rooms, TableFor, Pow2, Ahead, Symbol, Bits, TreesOk;
      var verbatim := Ok(0);
      if extra > 3 {
        verbatim := ReadNumber(reader, extra - 3);
        if verbatim.Fail? {
          return Fail(verbatim.error);
        }
      }
      var aligned := ReadSymbol(reader, ALIGNED_BITS, alignedLen, alignedTable);
      if aligned.Fail? {
        return Fail(aligned.error);
      }
      res := Ok(8 * verbatim.value + aligned.value);
    }

    // the offset of a match with a position slot of 4 or more
    method LongOffsetInto(slot: nat) returns (res: Result<nat>)
      requires Valid() && slot >= 4
      modifies reader, reader.inbuf
      ensures var spec := LongOffset(Source(), old(St()), slot);
        if res.Ok? then Valid() && spec == Ok((res.value, reader.Cur())) && St() == old(St()).(cur := reader.Cur())
        else spec == Fail(res.error)
    {
      hide NoCodesFrom, Rooms, TableFor, Pow2, Ahead, AlignedOffset, Bits, PositionBase, TreesOk, AlignedOk;
      var extra := ExtraBits(slot);
      var matchOffset := PositionBase(slot) - 2;
      if blockType == ALIGNED && extra >= 3 {
        var low := AlignedOffsetInto(extra);
        if low.Fail? {
          return Fail(low.error);
        }
        matchOffset := matchOffset + low.value;
      } else {
        var verbatim := ReadNumber(reader, extra);
        if verbatim.Fail? {
          return Fail(verbatim.error);
        }
        matchOffset := matchOffset + verbatim.value;
      }
      res := Ok(matchOffset);
    }

    // a repeated offset, which moves to the front of the queue
    method RepeatedOffset(slot: nat) returns (matchOffset: nat)
      requires Valid() && slot <= 2
      modifies `R0, `R1, `R2
      ensures Valid() && MatchOffset(Source(), old(St()), slot) == Ok((matchOffset, St()))
    {
      hide NoCodesFrom, TableFor, Pow2, Ahead, LongOffset, TreesOk, AlignedOk;
      if slot == 0 {
        matchOffset := R0;
      } else if slot == 1 {
        matchOffset := R1;
        StoreOffsets(R1, R0, R2);
      } else {
        matchOffset := R2;
        StoreOffsets(R2, R1, R0);
      }
    }

    // a new offset goes to the front of the queue
    method PushOffset(matchOffset: nat)
      requires Valid()
      modifies `R0, `R1, `R2
      ensures Valid() && St() == old(St()).(R0 := matchOffset, R1 := old(R0), R2 := old(R1))
    {
      hide NoCodesFrom, Rooms, TableFor, Pow2, TreesOk, AlignedOk;
      StoreOffsets(matchOffset, R0, R1);
    }

    // the offset of a match, and the queue of the last three offsets after it
    method MatchOffsetInto(slot: nat) returns (res: Result<nat>)
      requires Valid()
      modifies reader, reader.inbuf, `R0, `R1, `R2
      ensures var spec := MatchOffset(Source(), old(St()), slot);
        if res.Ok? then Valid() && spec == Ok((res.value, St())) else spec == Fail(res.error)
    {
      hide NoCodesFrom, TableFor, Pow2, Ahead, LongOffset, TreesOk, AlignedOk, StOk;
      if slot <= 2 {
        var repeated := RepeatedOffset(slot);
        return Ok(repeated);
      }
      var matchOffset := 1;
      if slot > 3 {
        var offset := LongOffsetInto(slot);
        if offset.Fail? {
          return Fail(offset.error);
        }
        matchOffset := offset.value;
      }
      PushOffset(matchOffset);
      res := Ok(matchOffset);
    }

    // A match of this length may be copied to posn: it ends inside the window, does not go further than
    // once round it, and does not go past its start, unless by less than has been written or there is
    // reference data.
    static predicate Acceptable(p: Params, posn: nat, written: nat, offset: nat, length: nat)
    {
      posn + length <= p.windowSize && offset <= posn + p.windowSize &&
      (offset <= posn || offset <= written || offset <= posn + p.refDataSize)
    }

    // the checks of a match, and the copy
    method CopyIfFits(matchOffset: nat, matchLength: nat) returns (ok: bool)
      requires Valid() && oPtr == oEnd
      modifies window, `windowPosn
      ensures ok <==> MatchFits(old(St()), matchOffset, matchLength)
      ensures ok <==> Acceptable(p, old(windowPosn), offset, matchOffset, matchLength)
      ensures ok ==> Valid()
      ensures ok ==>
        St() == old(St()).(window := CopyMatch(old(window[..]), old(windowPosn), matchOffset, matchLength),
                           windowPosn := old(windowPosn) + matchLength)
    {
      hide NoCodesFrom, TableFor, Pow2, CopyMatch, TreesOk, AlignedOk;
      if windowPosn + matchLength > p.windowSize {
        return false;
      }
      if matchOffset > windowPosn {
        if matchOffset > offset && matchOffset - windowPosn > p.refDataSize {
          return false;
        }
        if matchOffset - windowPosn > p.windowSize {
          return false;
        }
      }
      CopyMatchInPlace(window, windowPosn, matchOffset, matchLength);
      windowPosn := windowPosn + matchLength;
      ok := true;
    }

    // a match: NUM_CHARS + ((slot << 3) | length_header)
    method MatchInto(element: nat) returns (res: Result<()>)
      requires Valid() && (blockType == VERBATIM || blockType == ALIGNED) && oPtr == oEnd
      modifies reader, reader.inbuf, window, `R0, `R1, `R2, `windowPosn
      ensures var spec := Match(Source(), old(St()), element);
        if res.Ok? then Valid() && spec == Ok(St()) else spec == Fail(res.error)
    {
      hide Rooms, TableFor, Pow2, Ahead, MatchLength, MatchOffset, CopyMatch, TreesOk, AlignedOk, StOk, Decoded, Acceptable;
      var matchLength := MatchLengthInto(element % 8);
      if matchLength.Fail? {
        return Fail(matchLength.error);
      }
      var matchOffset := MatchOffsetInto(element / 8);
      if matchOffset.Fail? {
        return Fail(matchOffset.error);
      }
      var ok := CopyIfFits(matchOffset.value, matchLength.value);
      res := if ok then Ok(()) else Fail(Decrunch);
    }

    method StoreLiteral(v: nat)
      requires Valid() && oPtr == oEnd && windowPosn < window.Length
      modifies window, `windowPosn
      ensures Valid() && St() == old(St()).(window := old(window[..])[old(windowPosn) := v], windowPosn := old(windowPosn) + 1)
    {
      hide NoCodesFrom, TableFor, Pow2, TreesOk, AlignedOk;
      assert St().pending == [];
      window[windowPosn] := v;
      windowPosn := windowPosn + 1;
      assert St().pending == [];
    }

    // one literal or one match
    method ElementInto() returns (res: Result<()>)
      requires Valid() && (blockType == VERBATIM || blockType == ALIGNED) && oPtr == oEnd
      requires windowPosn < window.Length
      modifies reader, reader.inbuf, window, `R0, `R1, `R2, `windowPosn
      ensures var spec := Element(Source(), old(St()));
        if res.Ok? then Valid() && spec == Ok(St()) else spec == Fail(res.error)
    {
      hide Rooms, Spare, NoCodesFrom, BitReader.Valid, BitReader.BytesOk, BitReader.Cur,
        TableFor, Pow2, Ahead, Symbol, Match, AlignedOk, Decoded;
      reader.SourceIsBytes();
      var mainElement := ReadSymbol(reader, MAIN_BITS, mainLen[..MAIN_SYMBOLS], mainTable);
      if mainElement.Fail? {
        return Fail(mainElement.error);
      }
      if mainElement.value < NUM_CHARS {
        StoreLiteral(mainElement.value);
        res := Ok(());
      } else {
        res := MatchInto(mainElement.value - NUM_CHARS);
      }
    }

    // ---------- blocks ----------

    // while (this_run > 0)
    method RunInto(run: nat) returns (res: Result<int>)
      requires Valid() && (blockType == VERBATIM || blockType == ALIGNED) && oPtr == oEnd
      requires St().windowPosn + run <= |St().window|
      modifies reader, reader.inbuf, window, `R0, `R1, `R2, `windowPosn
      ensures var spec := Run(Source(), old(St()), run);
        if res.Ok? then Valid() && spec == Ok((St(), res.value)) else spec == Fail(res.error)
    {
      hide Pending, Tables, Separate, Rooms, Spare, NoCodesFrom, BitReader.Valid, BitReader.BytesOk, BitReader.Cur,
        TableFor, Pow2, Ahead, Element, TreesOk, AlignedOk, StOk, Decoded;
      reader.SourceIsBytes();
      var thisRun: int := run;
      while thisRun > 0
        invariant Valid() && St().windowPosn + thisRun <= |St().window|
        invariant Run(Source(), St(), thisRun) == Run(Source(), old(St()), run)
      {
        ghost var st := St();
        var posn := windowPosn;
        var element := ElementInto();
        if element.Fail? {
          return Fail(element.error);
        }
        ElementKeeps(Source(), st);
        thisRun := thisRun - (windowPosn - posn);
      }
      res := Ok(thisRun);
    }

    // an uncompressed run: bytes are copied from the byte buffer, which is refilled when empty
    method RawRunInto(run: nat) returns (res: Result<()>)
      requires Valid() && oPtr == oEnd && windowPosn + run <= window.Length
      modifies reader, reader.inbuf, window, `windowPosn
      ensures var spec := RawRun(Source(), old(St()), run);
        if res.Ok? then Valid() && spec == Ok(St()) else spec == Fail(res.error)
    {
      hide NoCodesFrom, TableFor, Pow2, Ahead, TreesOk, AlignedOk, Spliced;
      assert St().pending == [];
      var ok := CopyRaw(reader, window, windowPosn, run);
      windowPosn := windowPosn + run;
      assert St().pending == [];
      res := if ok then Ok(()) else Fail(ReadError);
    }

    // decode at least run bytes of the block
    method BlockRunInto(run: nat) returns (res: Result<int>)
      requires Valid() && oPtr == oEnd && windowPosn + run <= window.Length
      modifies reader, reader.inbuf, window, `R0, `R1, `R2, `windowPosn
      ensures var spec := BlockRun(Source(), old(St()), run);
        if res.Ok? then Valid() && spec == Ok((St(), res.value)) else spec == Fail(res.error)
    {
      hide NoCodesFrom, TableFor, Pow2, Ahead, TreesOk, AlignedOk, Run, RawRun, Decoded, StOk;
      if blockType == VERBATIM || blockType == ALIGNED {
        res := RunInto(run);
      } else if blockType == UNCOMPRESSED {
        var raw := RawRunInto(run);
        res := if raw.Ok? then Ok(0) else Fail(raw.error);
      } else {
        res := Fail(Decrunch);
      }
    }

    // the header of the next block when the current one is used up
    method NewBlockInto() returns (res: Result<()>)
      requires Valid()
      modifies reader, reader.inbuf, pretreeTable, mainTable, lengthTable, alignedTable,
        `blockType, `blockLength, `blockRemaining,
        `mainLen, `lengthLen, `alignedLen, `lengthEmpty, `intelStarted, `R0, `R1, `R2
      ensures res.Ok? ==> Spare() == old(Spare())
      ensures var spec := NewBlock(Source(), old(St()));
        if res.Ok? then Valid() && spec == Ok(St()) else spec == Fail(res.error)
    {
      hide NoCodesFrom, TableFor, Pow2, Ahead, TreesOk, AlignedOk, ReadBlock, StOk, SamePlace;
      res := Ok(());
      if blockRemaining == 0 {
        res := ReadBlockInto();
      }
    }

    method SetRemaining(n: nat)
      requires Valid()
      modifies `blockRemaining
      ensures Valid() && St() == old(St()).(blockRemaining := n)
    {
      hide NoCodesFrom, TableFor, Pow2, TreesOk, AlignedOk;
      blockRemaining := n;
    }

    // run bytes of the block
    method RunOfBlockInto(run: nat) returns (res: Result<()>)
      requires Valid() && oPtr == oEnd && run <= blockRemaining && windowPosn + run <= window.Length
      modifies reader, reader.inbuf, window, `blockRemaining, `R0, `R1, `R2, `windowPosn
      ensures var spec := RunOfBlock(Source(), old(St()), run);
        if res.Ok? then Valid() && spec == Ok(St()) else spec == Fail(res.error)
    {
      hide Pending, Tables, Separate, Rooms, Spare, NoCodesFrom, BitReader.Valid, BitReader.BytesOk, BitReader.Cur,
        TableFor, Pow2, Ahead, TreesOk, AlignedOk, BlockRun, Decoded, SameFrame, StOk;
      reader.SourceIsBytes();
      // as if the run came out even
      SetRemaining(blockRemaining - run);
      var thisRun := BlockRunInto(run);
      if thisRun.Fail? {
        return Fail(thisRun.error);
      }
      // a last match that is too long takes the surplus from the rest of the block
      if thisRun.value < 0 {
        if -thisRun.value > blockRemaining {
          return Fail(Decrunch);
        }
        SetRemaining(blockRemaining + thisRun.value);
      }
      res := Ok(());
    }

    // one round of the loop over the blocks of a frame
    method BlockStepInto(bytesTodo: nat) returns (res: Result<nat>)
      requires Valid() && oPtr == oEnd && bytesTodo > 0 && windowPosn + bytesTodo <= window.Length
      modifies reader, reader.inbuf, pretreeTable, mainTable, lengthTable, alignedTable,
        `blockType, `blockLength, `blockRemaining, window, `windowPosn,
        `mainLen, `lengthLen, `alignedLen, `lengthEmpty, `intelStarted, `R0, `R1, `R2
      ensures res.Ok? ==> Spare() == old(Spare())
      ensures var spec := BlockStep(Source(), old(St()), bytesTodo);
        if res.Ok? then Valid() && spec == Ok((St(), res.value)) else spec == Fail(res.error)
    {
      hide Pending, Tables, Separate, Rooms, Spare, NoCodesFrom, BitReader.Valid, BitReader.BytesOk, BitReader.Cur,
        TableFor, Pow2, Ahead, TreesOk, AlignedOk, NewBlock, RunOfBlock, SamePlace, SameFrame, StOk;
      reader.SourceIsBytes();
      var started := NewBlockInto();
      if started.Fail? {
        return Fail(started.error);
      }
      // as much as the block has and the frame wants
      var run := if blockRemaining > bytesTodo then bytesTodo else blockRemaining;
      var done := RunOfBlockInto(run);
      res := if done.Ok? then Ok(bytesTodo - run) else Fail(done.error);
    }

    // while (bytes_todo > 0)
    method BlockLoopInto(todo: nat) returns (res: Result<()>)
      requires Valid() && oPtr == oEnd && (todo > 0 ==> windowPosn + todo <= window.Length)
      modifies reader, reader.inbuf, pretreeTable, mainTable, lengthTable, alignedTable,
        `blockType, `blockLength, `blockRemaining, window, `windowPosn,
        `mainLen, `lengthLen, `alignedLen, `lengthEmpty, `intelStarted, `R0, `R1, `R2
      ensures res.Ok? ==> Spare() == old(Spare())
      ensures var spec := BlockLoop(Source(), old(St()), todo);
        if res.Ok? then Valid() && spec == Ok(St()) else spec == Fail(res.error)
    {
      hide Spare, NoCodesFrom, TableFor, Pow2, Ahead, TreesOk, AlignedOk, BlockStep, SameFrame, StOk;
      var bytesTodo := todo;
      while bytesTodo > 0
        invariant Valid() && (bytesTodo > 0 ==> St().windowPosn + bytesTodo <= |St().window|)
        invariant BlockLoop(Source(), St(), bytesTodo) == BlockLoop(Source(), old(St()), todo)
        invariant Spare() == old(Spare())
        decreases Ahead(Source(), reader.Cur()), bytesTodo
      {
        ghost var st := St();
        var left := BlockStepInto(bytesTodo);
        if left.Fail? {
          return Fail(left.error);
        }
        BlockStepKeeps(Source(), st, bytesTodo);
        bytesTodo := left.value;
      }
      res := Ok(());
    }

    // ---------- frames ----------

    lemma WindowLength()
      requires Core()
      ensures window.Length == p.windowSize && windowPosn <= p.windowSize
    {
      hide NoCodesFrom, Pow2;
    }

    // the header of the stream comes once
    method ReadHeaderInto() returns (res: Result<()>)
      requires Valid()
      modifies reader, reader.inbuf, `headerRead, `intelFilesize
      ensures var spec := ReadHeader(Source(), old(St()));
        if res.Ok? then Valid() && spec == Ok(St()) else spec == Fail(res.error)
    {
      hide NoCodesFrom, TableFor, Pow2, Ahead, TreesOk, AlignedOk, HeaderNumber;
      if headerRead {
        return Ok(());
      }
      var size := ReadHeaderNumber(reader);
      if size.Fail? {
        return Fail(size.error);
      }
      intelFilesize := size.value;
      headerRead := true;
      res := Ok(());
    }

    method StoreOutput(e8: bool, ptr: nat, end: nat)
      modifies `oE8, `oPtr, `oEnd
      ensures oE8 == e8 && oPtr == ptr && oEnd == end
    {
      oE8, oPtr, oEnd := e8, ptr, end;
    }

    method SetOutput(e8: bool, ptr: nat, end: nat)
      requires Valid() && ptr <= end <= (if e8 then e8Buf.Length else window.Length)
      modifies `oE8, `oPtr, `oEnd
      ensures Valid()
      ensures St() == old(St()).(pending := if e8 then e8Buf[ptr..end] else window[ptr..end])
    {
      hide NoCodesFrom, Rooms, Separate, TableFor, Pow2, TreesOk, AlignedOk;
      StoreOutput(e8, ptr, end);
    }

    // a copy of the frame, in which the calls are translated
    method CopyE8(frameSize: nat)
      requires Valid() && oPtr == oEnd && framePosn + frameSize <= window.Length && 10 < frameSize <= FRAME_SIZE
      modifies e8Buf
      ensures Valid() && St() == old(St()) && frameSize <= e8Buf.Length
      ensures e8Buf[..frameSize] ==
              IntelE8.Transform(IntelE8.Decode, window[framePosn..framePosn + frameSize], intelCurpos, intelFilesize)
    {
      hide NoCodesFrom, TableFor, Pow2, TreesOk, AlignedOk, StOk, IntelE8.Transform;
      assert St().pending == [];
      CopyFrame(window, framePosn, e8Buf, frameSize);
      IntelE8.DecodeE8(e8Buf, frameSize, intelCurpos, intelFilesize);
      assert St().pending == [];
    }

    // o_ptr and o_end: the frame in the window, or a decoded copy of it in e8_buf
    method PrepareOutput(frameSize: nat)
      requires Valid() && oPtr == oEnd && framePosn + frameSize <= window.Length && frameSize <= FRAME_SIZE
      modifies e8Buf, `oE8, `oPtr, `oEnd
      ensures Valid() && St() == old(St()).(pending := FrameBytes(old(St()), frameSize))
    {
      hide Rooms, Separate, TableFor, Pow2, TreesOk, AlignedOk, StOk, FrameBytes, Pending, IntelE8.Transform;
      FrameBytesAre(St(), frameSize);
      if intelStarted && intelFilesize != 0 && frame <= 32768 && frameSize > 10 {
        CopyE8(frameSize);
        assert e8Buf[0..frameSize] == e8Buf[..frameSize];
        SetOutput(true, 0, frameSize);
      } else {
        SetOutput(false, framePosn, framePosn + frameSize);
      }
    }

    method StorePosition(curpos: int, posn: nat, start: nat, next: nat)
      modifies `intelCurpos, `framePosn, `windowPosn, `frame
      ensures intelCurpos == curpos && windowPosn == posn && framePosn == start && frame == next
    {
      intelCurpos, windowPosn, framePosn, frame := curpos, posn, start, next;
    }

    method SetPosition(curpos: int, posn: nat, start: nat)
      requires Valid() && posn <= p.windowSize
      modifies `intelCurpos, `framePosn, `windowPosn, `frame
      ensures Valid()
      ensures St() == old(St()).(intelCurpos := curpos, framePosn := start, windowPosn := posn, frame := old(frame) + 1)
    {
      hide NoCodesFrom, Rooms, Separate, TableFor, Pow2, TreesOk, AlignedOk, Pending;
      StorePosition(curpos, posn, start, frame + 1);
    }

    // the frame is done: count it, and begin again at the start of the window when its end is reached
    method Advance(frameSize: nat)
      requires Valid() && framePosn + frameSize <= window.Length
      modifies `intelCurpos, `framePosn, `windowPosn, `frame
      ensures Valid() && St() == Advanced(old(St()), frameSize)
    {
      hide Rooms, Separate, TableFor, Pow2, TreesOk, AlignedOk, StOk, Advanced;
      WindowLength();
      var curpos := if intelFilesize != 0 then intelCurpos + frameSize else intelCurpos;
      var posn := if windowPosn == window.Length then 0 else windowPosn;
      var start := if framePosn + frameSize == window.Length then 0 else framePosn + frameSize;
      AdvancedIs(St(), frameSize, curpos, posn, start);
      SetPosition(curpos, posn, start);
    }

    method RealignInto() returns (res: Result<()>)
      requires Valid()
      modifies reader, reader.inbuf
      ensures var spec := Realign(Source(), old(reader.Cur()));
        if res.Ok? then Valid() && spec.Ok? && St() == old(St()).(cur := spec.value) else spec == Fail(res.error)
    {
      hide NoCodesFrom, TableFor, Pow2, Ahead, TreesOk, AlignedOk, Realign;
      res := RealignReader(reader);
    }

    // the checks and the bookkeeping when the blocks of a frame have been decoded
    method FinishFrameInto(frameSize: nat) returns (res: Result<()>)
      requires Valid() && oPtr == oEnd && framePosn + frameSize <= p.windowSize && frameSize <= FRAME_SIZE
      modifies reader, reader.inbuf, e8Buf, `oE8, `oPtr, `oEnd,
        `intelCurpos, `framePosn, `windowPosn, `frame
      ensures var spec := FinishFrame(Source(), old(St()), frameSize);
        if res.Ok? then Valid() && spec == Ok(St()) else spec == Fail(res.error)
    {
      hide NoCodesFrom, TableFor, Pow2, Ahead, TreesOk, AlignedOk, Realign, FrameBytes, Advanced, StOk;
      WindowLength();
      // a match must not have run over the end of the frame
      if windowPosn - framePosn != frameSize {
        return Fail(Decrunch);
      }
      res := RealignInto();
      if res.Fail? {
        return;
      }
      PrepareOutput(frameSize);
      Advance(frameSize);
    }

    // the blocks of one frame
    method DecodeBlocksInto(frameSize: nat) returns (res: Result<()>)
      requires Valid() && oPtr == oEnd && windowPosn == framePosn && framePosn + frameSize <= p.windowSize
      modifies reader, reader.inbuf, pretreeTable, mainTable, lengthTable, alignedTable,
        `blockType, `blockLength, `blockRemaining, window, `windowPosn, `headerRead, `intelFilesize,
        `mainLen, `lengthLen, `alignedLen, `lengthEmpty, `intelStarted, `R0, `R1, `R2
      ensures res.Ok? ==> Spare() == old(Spare())
      ensures var spec := DecodeBlocks(Source(), old(St()), frameSize);
        if res.Ok? then Valid() && spec == Ok(St()) else spec == Fail(res.error)
    {
      hide NoCodesFrom, TableFor, Pow2, Ahead, TreesOk, AlignedOk, ReadHeader, BlockLoop, StOk, SameFrame;
      WindowLength();
      res := ReadHeaderInto();
      if res.Fail? {
        return;
      }
      res := BlockLoopInto(framePosn + frameSize - windowPosn);
    }

    // one more frame
    method DecodeFrameInto() returns (res: Result<()>)
      requires Valid() && FrameOk(St()) && oPtr == oEnd
      modifies reader, reader.inbuf, pretreeTable, mainTable, lengthTable, alignedTable,
        `blockType, `blockLength, `blockRemaining, window, `windowPosn, `headerRead, `intelFilesize,
        `mainLen, `lengthLen, `alignedLen, `lengthEmpty, `intelStarted, `R0, `R1, `R2,
        e8Buf, `oE8, `oPtr, `oEnd, `intelCurpos, `framePosn, `frame
      ensures res.Ok? ==> Spare() == old(Spare())
      ensures var spec := DecodeFrame(Source(), old(St()));
        if res.Ok? then Valid() && spec == Ok(St()) else spec == Fail(res.error)
    {
      hide NoCodesFrom, TableFor, Pow2, Ahead, TreesOk, AlignedOk, DecodeBlocks, FinishFrame, StOk;
      FrameFits(St());
      // 32768 bytes, or what is left of a stream of known length
      var frameSize := FRAME_SIZE;
      if p.length > 0 && p.length - offset < frameSize {
        frameSize := p.length - offset;
      }
      res := DecodeBlocksInto(frameSize);
      if res.Fail? {
        return;
      }
      res := FinishFrameInto(frameSize);
    }

    // ---------- output ----------

    method StoreWritten(data: seq<nat>)
      modifies `output, `oPtr, `offset
      ensures output == old(output) + data && oPtr == old(oPtr) + |data| && offset == old(offset) + |data|
    {
      output := output + data;
      oPtr := oPtr + |data|;
      offset := offset + |data|;
    }

    // sys->write
    method WriteOut(i: nat)
      requires Valid() && i <= oEnd - oPtr
      modifies `output, `oPtr, `offset
      ensures Valid() && St() == Write(old(St()), i)
      ensures output == old(output) + old(St()).pending[..i] && oPtr == old(oPtr) + i
    {
      hide NoCodesFrom, Rooms, TableFor, Pow2, TreesOk, AlignedOk, FrameOk;
      StoreWritten(Pending()[..i]);
    }

    // one more frame, of which up to out_bytes bytes are written
    method FrameOut(outBytes: nat) returns (res: Result<nat>)
      requires Valid() && FrameOk(St()) && oPtr == oEnd
      modifies this, reader, reader.inbuf, pretreeTable, mainTable, lengthTable, alignedTable, window, e8Buf
      ensures res.Ok? ==> Spare() == old(Spare())
      ensures error == old(error) && old(output) <= output
      ensures var spec := DecodeFrame(Source(), old(St()));
        if res.Ok? then
          spec.Ok? && Valid() && res.value == Min(outBytes, |spec.value.pending|) &&
          St() == Write(spec.value, res.value) && output == old(output) + spec.value.pending[..res.value]
        else spec == Fail(res.error)
    {
      hide Pending, Tables, Separate, Rooms, Spare, NoCodesFrom, BitReader.Valid, BitReader.BytesOk, BitReader.Cur,
        TableFor, Pow2, TreesOk, AlignedOk, StOk, DecodeFrame, FrameOk, Write;
      reader.SourceIsBytes();
      var done := DecodeFrameInto();
      if done.Fail? {
        return Fail(done.error);
      }
      PendingLength();
      var i := if outBytes < oEnd - oPtr then outBytes else oEnd - oPtr;
      WriteOut(i);
      res := Ok(i);
    }

    lemma PendingLength()
      requires Core()
      ensures |St().pending| == oEnd - oPtr
    {
      hide NoCodesFrom, Pow2, StOk;
    }

    // while (frame < end_frame); the result is the number of bytes left to output
    method FrameLoopInto(n: nat) returns (res: Result<nat>)
      requires Valid() && FrameOk(St()) && oPtr == oEnd
      modifies this, reader, reader.inbuf, pretreeTable, mainTable, lengthTable, alignedTable, window, e8Buf
      ensures res.Ok? ==> Spare() == old(Spare())
      ensures error == old(error) && old(output) <= output
      ensures var spec := FrameLoop(Source(), old(St()), n, EndFrame(old(St()), n));
        if res.Ok? then
          Valid() && FrameOk(St()) && spec.Ok? && spec.value.0 == St() && spec.value.2 == res.value &&
          output == old(output) + spec.value.1
        else spec == Fail(res.error)
    {
      hide Pending, Tables, Separate, Rooms, Spare, NoCodesFrom, BitReader.Valid, BitReader.BytesOk, BitReader.Cur,
        TableFor, Pow2, TreesOk, AlignedOk, StOk, DecodeFrame, FrameOk, Write, EndFrame;
      reader.SourceIsBytes();
      var outBytes := n;
      ghost var written := [];
      ghost var start := St();
      var endFrame := (offset + outBytes) / FRAME_SIZE + 1;
      EndFrameIs(start, n, endFrame);
      while frame < endFrame
        invariant Valid() && FrameOk(St()) && error == old(error) && Spare() == old(Spare())
        invariant frame < endFrame ==> oPtr == oEnd
        invariant output == old(output) + written
        invariant endFrame == EndFrame(St(), outBytes)
        invariant Joined(written, FrameLoop(Source(), St(), outBytes, endFrame)) ==
                  FrameLoop(Source(), start, n, endFrame)
        decreases endFrame - frame
      {
        ghost var st := St();
        PendingLength();
        LoopStep(Source(), st, outBytes, endFrame, written);
        var i := FrameOut(outBytes);
        if i.Fail? {
          return Fail(i.error);
        }
        PendingLength();
        written := written + DecodeFrame(Source(), st).value.pending[..i.value];
        outBytes := outBytes - i.value;
      }
      LoopEnd(Source(), St(), outBytes, endFrame, written);
      res := Ok(outBytes);
    }

    // the bytes of the last frame that nobody has asked for yet come first
    method Flush(outBytes: nat) returns (i: nat)
      requires Valid() && FrameOk(St())
      modifies `output, `oPtr, `offset
      ensures Valid() && i == Min(outBytes, |old(St()).pending|) && (i < outBytes ==> oPtr == oEnd)
      ensures St() == Write(old(St()), i) && FrameOk(St()) && output == old(output) + old(St()).pending[..i]
    {
      hide NoCodesFrom, TableFor, Pow2, TreesOk, AlignedOk, StOk, FrameOk, Write;
      PendingLength();
      WriteKeeps(St());
      i := if outBytes < oEnd - oPtr then outBytes else oEnd - oPtr;
      WriteOut(i);
    }

    // lzxd_decompress
    method Decompress(outBytes: nat) returns (res: Result<()>)
      requires error.None? ==> Valid() && FrameOk(St())
      modifies this, reader, reader.inbuf, pretreeTable, mainTable, lengthTable, alignedTable, window, e8Buf
      ensures res.Ok? ==> Spare() == old(Spare())
      ensures old(output) <= output
      ensures error == if res.Ok? then None else Some(res.error)
      ensures error.None? ==> Valid() && FrameOk(St())
      // a failed stream stays failed
      ensures old(error.Some?) ==> res == Fail(old(error).value) && output == old(output)
      ensures old(error.None?) ==>
        var spec := LzxOutput.Decompress(Source(), old(St()), outBytes);
        if res.Ok? then spec.Ok? && spec.value.0 == St() && output == old(output) + spec.value.1
        else spec == Fail(res.error)
    {
      hide Rooms, Spare, NoCodesFrom, BitReader.Valid, BitReader.BytesOk, BitReader.Cur,
        TableFor, Pow2, TreesOk, AlignedOk, StOk, FrameLoop, FrameOk, Write, EndFrame;
      if error.Some? {
        return Fail(error.value);
      }
      reader.SourceIsBytes();
      var i := Flush(outBytes);
      if i == outBytes {
        return Ok(());
      }
      var missing := FrameLoopInto(outBytes - i);
      if missing.Fail? {
        error := Some(missing.error);
        return Fail(missing.error);
      }
      // the stream was too short
      if missing.value > 0 {
        error := Some(Decrunch);
        return Fail(Decrunch);
      }
      res := Ok(());
    }
  }

  lemma EndFrameIs(st: Lzx, n: nat, endFrame: nat)
    requires endFrame == (st.offset + n) / FRAME_SIZE + 1
    ensures endFrame == EndFrame(st, n)
    ensures forall r: Result<(Lzx, seq<nat>, nat)> :: Joined([], r) == r
  {
    forall r: Result<(Lzx, seq<nat>, nat)> | r.Ok?
      ensures Joined([], r) == r
    {
      assert [] + r.value.1 == r.value.1;
    }
  }

  lemma WriteKeeps(st: Lzx)
    ensures forall i :: 0 <= i <= |st.pending| && FrameOk(st) ==> FrameOk(Write(st, i))
  {
    hide StOk;
  }

  // one round of the frame loop
  lemma LoopStep(src: seq<nat>, st: Lzx, n: nat, end: nat, written: seq<nat>)
    requires IsBytes(src) && FrameOk(st) && st.pending == [] && st.frame < end == EndFrame(st, n)
    ensures var r := DecodeFrame(src, st);
      if r.Fail? then Joined(written, FrameLoop(src, st, n, end)) == Fail(r.error)
      else
        var i := Min(n, |r.value.pending|);
        var st' := Write(r.value, i);
        FrameOk(st') && st'.frame == st.frame + 1 && EndFrame(st', n - i) == end && (st'.frame < end ==> st'.pending == []) &&
        Joined(written, FrameLoop(src, st, n, end)) ==
        Joined(written + r.value.pending[..i], FrameLoop(src, st', n - i, end))
  {
    hide DecodeFrame, FrameOk;
    var r := DecodeFrame(src, st);
    if r.Ok? {
      LoopUnfolds(src, st, n, end);
      var i := Min(n, |r.value.pending|);
      var st' := Write(r.value, i);
      if n < |r.value.pending| {
        LastFrame(src, st, n);
      }
      var rest := FrameLoop(src, st', n - i, end);
      if rest.Ok? {
        assert written + r.value.pending[..i] + rest.value.1 == written + (r.value.pending[..i] + rest.value.1);
      }
    }
  }

  lemma LoopEnd(src: seq<nat>, st: Lzx, n: nat, end: nat, written: seq<nat>)
    requires IsBytes(src) && FrameOk(st) && st.frame >= end
    ensures Joined(written, FrameLoop(src, st, n, end)) == Ok((st, written, n))
  {
    hide FrameOk;
    assert written + [] == written;
  }

  lemma AdvancedIs(st: Lzx, size: nat, curpos: int, posn: nat, start: nat)
    requires StOk(st) && st.framePosn + size <= st.p.windowSize
    requires curpos == (if st.intelFilesize != 0 then st.intelCurpos + size else st.intelCurpos)
    requires posn == Wrapped(st.windowPosn, st.p.windowSize)
    requires start == Wrapped(st.framePosn + size, st.p.windowSize)
    ensures Advanced(st, size) ==
            st.(intelCurpos := curpos, framePosn := start, windowPosn := posn, frame := st.frame + 1)
    ensures StOk(Advanced(st, size))
  {
    hide Pow2;
  }

  lemma FrameBytesAre(st: Lzx, size: nat)
    requires StOk(st) && st.framePosn + size <= |st.window|
    ensures var data := st.window[st.framePosn..st.framePosn + size];
      FrameBytes(st, size) ==
      if st.intelStarted && st.intelFilesize != 0 && st.frame <= 32768 && size > 10
      then IntelE8.Transform(IntelE8.Decode, data, st.intelCurpos, st.intelFilesize) else data
  {
    hide StOk, IntelE8.Transform;
  }

  lemma ElementKeeps(src: seq<nat>, st: Lzx)
    requires IsBytes(src) && StOk(st) && st.windowPosn < |st.window| && Element(src, st).Ok?
    ensures var st' := Element(src, st).value;
      st'.windowPosn > st.windowPosn && |st'.window| == |st.window| && st'.windowPosn <= |st'.window| &&
      st'.blockType == st.blockType
  {
    hide Element, Ahead, Pow2;
  }

  lemma BlockStepKeeps(src: seq<nat>, st: Lzx, todo: nat)
    requires IsBytes(src) && StOk(st) && todo > 0 && st.windowPosn + todo <= |st.window|
    requires BlockStep(src, st, todo).Ok?
    ensures var (st', todo') := BlockStep(src, st, todo).value;
      Ahead(src, st'.cur) <= Ahead(src, st.cur) && todo' <= todo &&
      (todo' == todo ==> Ahead(src, st'.cur) < Ahead(src, st.cur)) &&
      (todo' > 0 ==> st'.windowPosn + todo' <= |st'.window|)
  {
    hide BlockStep, Ahead, Pow2;
  }

  lemma SpliceMore(w: seq<nat>, dest: nat, src: seq<nat>, t: nat, m: nat, i: nat)
    requires dest + m + i <= |w| && t + m + i <= |src|
    ensures Spliced(Spliced(w, dest, src[t..t + m]), dest + m, src[t + m..t + m + i]) ==
            Spliced(w, dest, src[t..t + (m + i)])
  {
    assert src[t..t + m] + src[t + m..t + m + i] == src[t..t + (m + i)];
  }

  // the loop over the byte buffer that copies n bytes into the window
  method CopyRaw(r: BitReader, window: array<nat>, dest: nat, n: nat) returns (ok: bool)
    requires r.Valid() && window != r.inbuf && dest + n <= window.Length
    modifies r, r.inbuf, window
    ensures r.Valid() && (ok <==> Bytes(r.Source(), old(r.Cur()), n).Ok?)
    ensures ok ==>
      var (data, c) := Bytes(r.Source(), old(r.Cur()), n).value;
      r.Cur() == c && window[..] == Spliced(old(window[..]), dest, data)
  {
    hide Pow2, Spliced, BitReader.Valid, BitReader.BytesOk, BitReader.Cur;
    r.SourceIsBytes();
    r.InBounds();
    var rundest, thisRun := dest, n;
    ghost var t := r.Cur().taken;
    assert window[..] == Spliced(window[..], dest, r.Source()[t..t]) by {
      SpliceNothing(window[..], dest, r.Source(), t);
    }
    while thisRun > 0
      invariant 0 <= thisRun <= n && rundest == dest + (n - thisRun) && r.Valid()
      invariant t + (n - thisRun) <= |r.Source()|
      invariant r.Cur() == Cursor(t + (n - thisRun), old(r.Cur()).left, old(r.Cur()).pend)
      invariant window[..] == Spliced(old(window[..]), dest, r.Source()[t..t + (n - thisRun)])
      decreases thisRun, if r.iPtr == r.iEnd then 1 else 0
    {
      r.InBounds();
      if r.iEnd - r.iPtr == 0 {
        ok := r.Refill();
        if !ok {
          return;
        }
      } else {
        var i := CopyBuffered(r, window, rundest, thisRun);
        SpliceMore(old(window[..]), dest, r.Source(), t, n - thisRun, i);
        rundest := rundest + i;
        thisRun := thisRun - i;
      }
    }
    ok := true;
  }

  lemma SpliceNothing(w: seq<nat>, dest: nat, src: seq<nat>, t: nat)
    requires dest <= |w| && t <= |src|
    ensures Spliced(w, dest, src[t..t]) == w
  {
  }

  // as much of an n-byte run as the byte buffer holds
  method CopyBuffered(r: BitReader, window: array<nat>, dest: nat, n: nat) returns (i: nat)
    requires r.Valid() && window != r.inbuf && dest + n <= window.Length && n > 0 && r.iPtr < r.iEnd
    modifies r, window
    ensures r.Valid() && 0 < i <= n && old(r.Cur().taken) + i <= |r.Source()|
    ensures r.Cur() == old(Cursor(r.Cur().taken + i, r.Cur().left, r.Cur().pend))
    ensures window[..] == Spliced(old(window[..]), dest, r.Source()[old(r.Cur().taken)..old(r.Cur().taken) + i])
  {
    hide Pow2, Spliced, BitReader.Valid, BitReader.BytesOk, BitReader.Cur;
    i := r.iEnd - r.iPtr;
    if i > n {
      i := n;
    }
    r.BufferedBytes(i);
    CopyFromBuffer(r, window, dest, i);
    r.Skip(i);
  }

  // sys->copy(&window[frame_posn], data, frame_size)
  method CopyFrame(window: array<nat>, posn: nat, buf: array<nat>, n: nat)
    requires window != buf && posn + n <= window.Length && n <= buf.Length
    modifies buf
    ensures buf[..n] == window[posn..posn + n]
  {
    forall k | 0 <= k < n {
      buf[k] := window[posn + k];
    }
  }

  // sys->copy(i_ptr, rundest, i)
  method CopyFromBuffer(r: BitReader, window: array<nat>, dest: nat, n: nat)
    requires window != r.inbuf && dest + n <= window.Length && r.iPtr + n <= r.inbuf.Length
    modifies window
    ensures window[..] == Spliced(old(window[..]), dest, r.inbuf[r.iPtr..r.iPtr + n])
  {
    forall k | 0 <= k < n {
      window[dest + k] := r.inbuf[r.iPtr + k];
    }
  }

  lemma NoCodesYet()
    ensures NoCodesFrom(seq(MAIN_SYMBOLS + SAFETY, _ => 0), NUM_CHARS + MAX_OFFSETS + SAFETY)
  {
  }

  lemma MainSizeOf(lens: seq<nat>)
    requires |lens| >= MAIN_SYMBOLS && NoCodesFrom(lens, NUM_CHARS + MAX_OFFSETS + SAFETY)
    ensures RoomFor(lens[..MAIN_SYMBOLS], MAIN_BITS, MAIN_TABLE)
  {
    hide RoomFor;
    MainSize(lens[..MAIN_SYMBOLS]);
  }

  lemma EightIsPower()
    ensures Pow2(3) == 8
  {
  }

  lemma WindowSizes(bits: nat)
    requires 15 <= bits <= 21
    ensures Pow2(bits) >= FRAME_SIZE && Pow2(bits) % FRAME_SIZE == 0
    ensures 8 * POSITION_SLOTS[bits - 15] <= MAX_OFFSETS
  {
    Pow2Mono(15, bits);
    Pow2Multiple(15, bits);
    Pow2Values();
    hide Pow2;
  }
}
