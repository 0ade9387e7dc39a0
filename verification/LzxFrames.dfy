// Whole streams: the frames that LzxEncode writes, one behind the other, are decoded to their bytes.
module LzxFrames {
  import opened Wrappers
  import opened Powers
  import opened BitStream
  import opened BitPack
  import opened LzxSpec
  import opened LzxTokens
  import opened LzxBlocks
  import opened LzxEncode
  import opened LzxRoundTrip
  import opened LzxOutput

  // ---------- writing ----------

  // the file size of the E8 transform, as the header of the stream holds it
  predicate FileOk(file: Option<nat>)
  {
    file.Some? ==> file.value < IntelE8.TWO32
  }

  // the state when the header of the stream has been read, which the first frame does
  function WithHeader(st: Lzx, file: Option<nat>): Lzx
  {
    if st.headerRead then st
    else st.(headerRead := true, intelFilesize := if file.None? then 0 else Signed32(file.value))
  }

  function HeaderPart(st: Lzx, file: Option<nat>): seq<Bit>
  {
    if st.headerRead then [] else HeaderBits(file)
  }

  // between two frames, with everything written
  predicate AtFrame(st: Lzx)
  {
    FrameOk(st) && st.pending == [] && (st.blockType == UNCOMPRESSED ==> st.headerRead)
  }

  lemma FrameStart(st: Lzx, file: Option<nat>)
    requires AtFrame(st)
    ensures (st.p.length > 0 ==> st.offset <= st.p.length) && StOk(WithHeader(st, file))
    ensures st.windowPosn == st.framePosn && st.framePosn + FrameSize(st) <= st.p.windowSize == |st.window|
  {
    FrameFits(st);
    hide Pow2;
  }

  predicate OneOk(st: Lzx, file: Option<nat>, parts: seq<Part>)
  {
    AtFrame(st) && (FrameStart(st, file); PartsOk(WithHeader(st, file), parts, FrameSize(st)))
  }

  function FrameCode(st: Lzx, file: Option<nat>, parts: seq<Part>): (code: Code)
    requires OneOk(st, file, parts)
    ensures FillsWords(0, code)
  {
    hide StOk, FrameOk, PartsOk, PartsCode, FillsWords, HeaderBits;
    FrameStart(st, file);
    var bits := HeaderPart(st, file);
    Behind(bits, PartsCode(WithHeader(st, file), parts, FrameSize(st), |bits|))
  }

  function Behind(bits: seq<Bit>, code: Code): (r: Code)
    requires FillsWords(|bits|, code)
    ensures FillsWords(0, r)
  {
    Code(bits + code.bits, code.bytes)
  }

  // the state after the frame, with its bytes still to be written
  function FrameAfter(st: Lzx, file: Option<nat>, parts: seq<Part>): Lzx
    requires OneOk(st, file, parts)
  {
    hide StOk, FrameOk, PartsOk;
    FrameStart(st, file);
    var size := FrameSize(st);
    var st1 := AfterAll(WithHeader(st, file), parts, size);
    Advanced(st1.(pending := FrameBytes(st1, size)), size)
  }

  predicate FramesOk(st: Lzx, file: Option<nat>, frames: seq<seq<Part>>)
    decreases |frames|
  {
    frames == [] ||
    (OneOk(st, file, frames[0]) && FramesOk(Flushed(FrameAfter(st, file, frames[0])), file, frames[1..]))
  }

  // the bytes of the stream
  function FramesCode(st: Lzx, file: Option<nat>, frames: seq<seq<Part>>): seq<nat>
    requires FramesOk(st, file, frames)
    decreases |frames|
  {
    if frames == [] then []
    else
      Flush(FrameCode(st, file, frames[0])) +
      FramesCode(Flushed(FrameAfter(st, file, frames[0])), file, frames[1..])
  }

  // what the stream stands for
  function Meaning(st: Lzx, file: Option<nat>, frames: seq<seq<Part>>): seq<nat>
    requires FramesOk(st, file, frames)
    decreases |frames|
  {
    if frames == [] then []
    else
      var st1 := FrameAfter(st, file, frames[0]);
      st1.pending + Meaning(Flushed(st1), file, frames[1..])
  }

  function FinalState(st: Lzx, file: Option<nat>, frames: seq<seq<Part>>): Lzx
    requires FramesOk(st, file, frames)
    decreases |frames|
  {
    if frames == [] then st else FinalState(Flushed(FrameAfter(st, file, frames[0])), file, frames[1..])
  }

  // ---------- reading ----------

  lemma HeaderOfFrame(src: seq<nat>, st: Lzx, c: Cursor, file: Option<nat>, rest: seq<Bit>) returns (c': Cursor)
    requires StOk(st) && FileOk(file) && Holds(src, c, HeaderPart(st, file), rest)
    ensures StOk(st.(cur := c)) && ReadHeader(src, st.(cur := c)) == Ok(WithHeader(st, file).(cur := c'))
    ensures Reached(src, c, c', rest) && (st.headerRead ==> c' == c)
  {
    Pow2Values();
    hide StOk, Remaining, HeaderNumber, Pow2;
    StillOk(st, c);
    if st.headerRead {
      NothingIsRead(src, c, rest);
      c' := c;
    } else {
      HeaderIsRead(src, c, file, rest);
      c' := HeaderNumber(src, c).value.1;
    }
  }

  lemma StillFrame(st: Lzx, c: Cursor)
    requires FrameOk(st) && CursorOk(c)
    ensures FrameOk(st.(cur := c))
  {
    StillOk(st, c);
    hide StOk;
  }

  // the blocks of a frame, behind the header of the stream if it is the first one
  lemma BlocksAreRead(src: seq<nat>, st: Lzx, c: Cursor, file: Option<nat>, parts: seq<Part>, k: nat, tail: seq<nat>)
    returns (c': Cursor, k': nat, m: nat)
    requires OneOk(st, file, parts) && FileOk(file) && At(src, c, k, FrameCode(st, file, parts), tail)
    requires st.blockType == UNCOMPRESSED ==> c.left == 0
    ensures FrameOk(st.(cur := c)) && st.framePosn + FrameSize(st) <= st.p.windowSize && StOk(WithHeader(st, file))
    ensures var st1 := AfterAll(WithHeader(st, file), parts, FrameSize(st));
      DecodeBlocks(src, st.(cur := c), FrameSize(st)) == Ok(st1.(cur := c')) &&
      At(src, c', k', LastCode(m), tail) && (st1.blockType == UNCOMPRESSED ==> c'.left == 0)
  {
    hide StOk, PartsOk, PartsCode, ReadHeader, BlockLoop, WordBits, Remaining, LastCode, Limit, HeaderBits,
      LzxSpec.Ahead, AfterAll;
    FrameStart(st, file);
    StillFrame(st, c);
    var bits, size := HeaderPart(st, file), FrameSize(st);
    var code := PartsCode(WithHeader(st, file), parts, size, |bits|);
    TailBits(src, k, code.bytes, tail);
    assert bits + code.bits + WordBits(src, k) == bits + (code.bits + WordBits(src, k));
    var c1 := HeaderOfFrame(src, st, c, file, code.bits + WordBits(src, k));
    c', k', m := PartsAreRead(src, WithHeader(st, file), c1, parts, size, |bits|, k, tail);
  }

  lemma FinishIs(src: seq<nat>, st: Lzx, c: Cursor, size: nat, c': Cursor)
    requires IsBytes(src) && StOk(st.(cur := c)) && StOk(st) && st.framePosn + size <= st.p.windowSize
    requires st.windowPosn == st.framePosn + size && Realign(src, c) == Ok(c')
    ensures FinishFrame(src, st.(cur := c), size) ==
            Ok(Advanced(st.(pending := FrameBytes(st, size)), size).(cur := c'))
  {
    hide Realign, IntelE8.Transform, Wrapped;
  }

  // A frame that was written is decoded to what it stands for, and the reader is aligned behind it.
  lemma FrameIsRead(src: seq<nat>, st: Lzx, c: Cursor, file: Option<nat>, parts: seq<Part>, k: nat, tail: seq<nat>)
    returns (c': Cursor, k': nat)
    requires OneOk(st, file, parts) && FileOk(file) && At(src, c, k, FrameCode(st, file, parts), tail)
    requires st.blockType == UNCOMPRESSED ==> c.left == 0
    ensures FrameOk(st.(cur := c)) && Aligned(src, c', k', tail)
    ensures DecodeFrame(src, st.(cur := c)) == Ok(FrameAfter(st, file, parts).(cur := c'))
    ensures FrameAfter(st, file, parts).blockType == UNCOMPRESSED ==> c'.left == 0
    ensures AtFrame(Flushed(FrameAfter(st, file, parts)))
  {
    hide StOk, PartsOk, At, Aligned, FrameCode, LastCode, Limit, DecodeBlocks, FinishFrame, FrameBytes, Realign,
      WithHeader,
      LzxSpec.Ahead, AfterAll, FrameOk;
    var c1, k1, m := BlocksAreRead(src, st, c, file, parts, k, tail);
    AtInput(src, c1, k1, LastCode(m), tail);
    c' := EndIsRead(src, c1, k1, m, tail);
    k' := k1;
    FrameStart(st, file);
    HeaderKeeps(st, file);
    var size := FrameSize(st);
    var st1 := AfterAll(WithHeader(st, file), parts, size);
    StillOk(st1, c1);
    FinishIs(src, st1, c1, size, c');
    FrameAfterOk(st, file, parts);
  }

  lemma HeaderKeeps(st: Lzx, file: Option<nat>)
    ensures WithHeader(st, file) == st.(headerRead := true, intelFilesize := WithHeader(st, file).intelFilesize)
  {
  }

  // the state between two frames again
  lemma FrameAfterOk(st: Lzx, file: Option<nat>, parts: seq<Part>)
    requires OneOk(st, file, parts)
    ensures var r := FrameAfter(st, file, parts);
      FrameOk(r) && AtFrame(Flushed(r)) && r.p == st.p && r.frame == st.frame + 1 && r.offset == st.offset &&
      |r.pending| == FrameSize(st)
  {
    hide PartsOk, StOk, FrameOk, FrameBytes, Wrapped, Advanced, AfterAll;
    FrameStart(st, file);
    var r, st1 := FrameAfter(st, file, parts), AfterAll(WithHeader(st, file), parts, FrameSize(st));
    AdvancedOk(st1, FrameSize(st));
    FrameDone(st, r);
    FrameStays(r);
  }

  lemma AdvancedOk(st: Lzx, size: nat)
    requires StOk(st) && st.windowPosn == st.framePosn + size && st.framePosn + size <= |st.window|
    ensures var r := Advanced(st.(pending := FrameBytes(st, size)), size);
      StOk(r) && r.p == st.p && r.frame == st.frame + 1 && r.offset == st.offset && |r.pending| == size &&
      r.windowPosn == r.framePosn == Wrapped(st.framePosn + size, st.p.windowSize) && r.headerRead == st.headerRead
  {
    hide Pow2, FrameBytes;
  }

  lemma FrameStays(st: Lzx)
    requires FrameOk(st) && st.headerRead
    ensures AtFrame(Flushed(st))
  {
    hide StOk, Limit, FrameOk;
  }

  lemma AlignedCode(src: seq<nat>, c: Cursor, k: nat, code: Code, rest: seq<nat>) returns (k': nat)
    requires FillsWords(0, code) && |rest| >= 2 && Aligned(src, c, k, Flush(code) + rest)
    ensures At(src, c, k', code, rest)
  {
    hide Words, WordBits, Remaining;
    k' := FlushNext(src, k, code, rest);
  }

  lemma AlignedInput(src: seq<nat>, c: Cursor, k: nat, tail: seq<nat>)
    requires Aligned(src, c, k, tail)
    ensures Input(src, c) && |tail| >= 2
  {
    hide WordBits, Remaining;
  }

  // one frame, and then the others
  lemma FramesStep(src: seq<nat>, st: Lzx, st1: Lzx, n: nat)
    requires IsBytes(src) && FrameOk(st) && st.pending == [] && DecodeFrame(src, st) == Ok(st1)
    ensures FrameOk(Flushed(st1))
    ensures Frames(src, Flushed(st1), n).Ok? ==>
      Frames(src, st, n + 1) ==
      Ok((Frames(src, Flushed(st1), n).value.0, st1.pending + Frames(src, Flushed(st1), n).value.1))
  {
    hide FrameOk, DecodeFrame, Frames;
    FramesFirst(src, st, n);
  }

  // The frames that were written are decoded to what they stand for, one after the other.
  lemma {:induction false} FramesAreRead(src: seq<nat>, st: Lzx, c: Cursor, file: Option<nat>, frames: seq<seq<Part>>,
          k: nat,
                                         tail: seq<nat>) returns (c': Cursor)
    requires FramesOk(st, file, frames) && FileOk(file) && AtFrame(st) && |tail| >= 2
    requires Aligned(src, c, k, FramesCode(st, file, frames) + tail) && (st.blockType == UNCOMPRESSED ==> c.left == 0)
    ensures IsBytes(src) && FrameOk(st.(cur := c))
    ensures Frames(src, st.(cur := c), |frames|) == Ok((FinalState(st, file, frames).(cur := c'), Meaning(st, file, frames)))
    decreases |frames|
  {
    hide StOk, FrameOk, At, Aligned, OneOk, FrameCode, FrameAfter, Flush, DecodeFrame, LzxSpec.Ahead, Flushed, FileOk,
      FillsWords, IsBytes;
    AlignedInput(src, c, k, FramesCode(st, file, frames) + tail);
    StillFrame(st, c);
    if frames == [] {
      c' := c;
    } else {
      var st1 := FrameAfter(st, file, frames[0]);
      var rest := FramesCode(Flushed(st1), file, frames[1..]) + tail;
      assert FramesCode(st, file, frames) + tail == Flush(FrameCode(st, file, frames[0])) + rest;
      var k1 := AlignedCode(src, c, k, FrameCode(st, file, frames[0]), rest);
      var c2, k2 := FrameIsRead(src, st, c, file, frames[0], k1, rest);
      FlushedAt(st1, c2);
      c' := FramesAreRead(src, Flushed(st1), c2, file, frames[1..], k2, tail);
      FramesStep(src, st.(cur := c), st1.(cur := c2), |frames| - 1);
    }
  }

  lemma FlushedAt(st: Lzx, c: Cursor)
    ensures Flushed(st.(cur := c)) == Flushed(st).(cur := c) && Flushed(st).blockType == st.blockType
  {
  }

  // ---------- the stream as a file ----------

  lemma BytesTogether(a: seq<nat>, b: seq<nat>)
    requires IsBytes(a) && IsBytes(b)
    ensures IsBytes(a + b)
  {
  }

  lemma FlushIsBytes(code: Code)
    requires FillsWords(0, code) && IsBytes(code.bytes)
    ensures IsBytes(Flush(code))
  {
    WordsAreBytes(code.bits);
    hide Words;
    BytesTogether(Words(code.bits), code.bytes);
  }

  lemma RawIsBytes(st: Lzx, part: Part, todo: nat)
    requires StOk(st) && PartOk(st, part, todo)
    ensures RawPart(part).Some? ==> IsBytes(RawPart(part).value)
  {
    hide StOk, IntelE8.ToBytes;
  }

  lemma PartIsBytes(st: Lzx, part: Part, todo: nat, m: nat, next: Code)
    requires StOk(st) && PartOk(st, part, todo) && (st.blockType == UNCOMPRESSED ==> m == 0)
    requires FillsWords(NextM(st, part, todo, m), next) && IsBytes(next.bytes)
    ensures IsBytes(PartCode(st, part, todo, m, next).bytes)
  {
    hide StOk, PartOk, PartBits, Flush, Entered, RawPart;
    RawIsBytes(st, part, todo);
    BodyAligned(st, part, todo, m, next);
    PackIsBytes(PartBits(st, part, todo, m), RawPart(part), New(part) && NeedsPad(st), m, next);
  }

  lemma PackIsBytes(bits: seq<Bit>, raw: Option<seq<nat>>, pad: bool, m: nat, next: Code)
    requires (m + |bits| + if raw.None? then |next.bits| else 0) % 16 == 0 && (pad ==> m == 0)
    requires IsBytes(next.bytes) && (raw.Some? ==> FillsWords(0, next) && IsBytes(raw.value))
    ensures IsBytes(Pack(bits, raw, pad, m, next).bytes)
  {
    hide Words;
    var body := Pack(bits, raw, false, m, next);
    if raw.Some? {
      FlushIsBytes(next);
      BytesTogether(raw.value, Flush(next));
    }
    if pad {
      FlushIsBytes(body);
      BytesTogether([0], Flush(body));
    }
  }

  lemma {:induction false} PartsAreBytes(st: Lzx, parts: seq<Part>, todo: nat, m: nat)
    requires StOk(st) && PartsOk(st, parts, todo) && (st.blockType == UNCOMPRESSED ==> m == 0)
    ensures IsBytes(PartsCode(st, parts, todo, m).bytes)
    decreases |parts|
  {
    hide StOk, PartOk, PartCode, NextM, Entered;
    if todo > 0 {
      var st1, left, m1 := After(st, parts[0], todo), todo - Size(parts[0]), NextM(st, parts[0], todo, m);
      RawNextM(st, parts[0], todo, m);
      PartsAreBytes(st1, parts[1..], left, m1);
      PartIsBytes(st, parts[0], todo, m, PartsCode(st1, parts[1..], left, m1));
    }
  }

  lemma {:induction false} StreamIsBytes(st: Lzx, file: Option<nat>, frames: seq<seq<Part>>)
    requires FramesOk(st, file, frames)
    ensures IsBytes(FramesCode(st, file, frames))
    decreases |frames|
  {
    hide StOk, FrameOk, PartsOk, PartsCode, FrameAfter, Flush, HeaderBits;
    if frames != [] {
      FrameStart(st, file);
      PartsAreBytes(WithHeader(st, file), frames[0], FrameSize(st), |HeaderPart(st, file)|);
      FlushIsBytes(FrameCode(st, file, frames[0]));
      StreamIsBytes(Flushed(FrameAfter(st, file, frames[0])), file, frames[1..]);
      BytesTogether(Flush(FrameCode(st, file, frames[0])), FramesCode(Flushed(FrameAfter(st, file, frames[0])), file, frames[1..]));
    }
  }

  // Every stream that can be written, with the two zero bytes that the reader puts behind the file,
  // is decoded from its start to just what it stands for.
  lemma StreamIsRead(p: Params, window: seq<nat>, file: Option<nat>, frames: seq<seq<Part>>) returns (c': Cursor)
    requires |window| == p.windowSize > 0 && p.windowSize % FRAME_SIZE == 0 && p.numOffsets <= MAIN_SYMBOLS - NUM_CHARS
    requires FileOk(file) && FramesOk(Initial(p, window), file, frames)
    ensures var st, src := Initial(p, window), FramesCode(Initial(p, window), file, frames) + [0, 0];
      FrameOk(st) && IsBytes(src) &&
      Frames(src, st, |frames|) == Ok((FinalState(st, file, frames).(cur := c'), Meaning(st, file, frames)))
  {
    hide StOk, FrameOk, FramesOk, FramesCode, Meaning, FinalState, WordBits, Frames, Pow2;
    InitialOk(p, window);
    var st := Initial(p, window);
    var code := FramesCode(st, file, frames);
    var src := code + [0, 0];
    StreamIsBytes(st, file, frames);
    BytesTogether(code, [0, 0]);
    assert src[0..] == src;
    assert BitsOf(0, 0) == [];
    assert [] + WordBits(src, 0) == WordBits(src, 0);
    c' := FramesAreRead(src, st, Cursor(0, 0, 0), file, frames, 0, [0, 0]);
    assert st.(cur := Cursor(0, 0, 0)) == st;
  }

  // So any request that needs no more than these frames delivers the first bytes of it.
  lemma RequestIsServed(p: Params, window: seq<nat>, file: Option<nat>, frames: seq<seq<Part>>, n: nat)
    requires |window| == p.windowSize > 0 && p.windowSize % FRAME_SIZE == 0 && p.numOffsets <= MAIN_SYMBOLS - NUM_CHARS
    requires FileOk(file) && FramesOk(Initial(p, window), file, frames)
    requires Needed(Initial(p, window), n) <= |frames| && (p.length > 0 ==> n <= p.length)
    ensures var st, src := Initial(p, window), FramesCode(Initial(p, window), file, frames) + [0, 0];
      FrameOk(st) && IsBytes(src) && n <= |Meaning(st, file, frames)| &&
      Decompress(src, st, n).Ok? && Decompress(src, st, n).value.1 == Meaning(st, file, frames)[..n]
  {
    hide FrameOk, FramesOk, FramesCode, Meaning, FinalState, Decompress, Frames, Needed, IsBytes;
    var c' := StreamIsRead(p, window, file, frames);
    var st := Initial(p, window);
    FirstOfFrames(FramesCode(st, file, frames) + [0, 0], st, |frames|, n);
  }

  // a request that needs no more than k frames delivers their first bytes
  lemma FirstOfFrames(src: seq<nat>, st: Lzx, k: nat, n: nat)
    requires IsBytes(src) && FrameOk(st) && st.pending == [] && Frames(src, st, k).Ok? && Needed(st, n) <= k
    requires st.p.length > 0 ==> st.offset + n <= st.p.length
    ensures n <= |Frames(src, st, k).value.1|
    ensures Decompress(src, st, n).Ok? && Decompress(src, st, n).value.1 == Frames(src, st, k).value.1[..n]
  {
    hide FrameOk, Decompress, Frames, Needed, IsBytes;
    assert Flushed(st) == st;
    DecompressIs(src, st, n);
    FewerFrames(src, st, Needed(st, n), k);
    EnoughFrames(src, st, n);
    var bytes := Frames(src, st, Needed(st, n)).value.1;
    assert [] + bytes == bytes;
  }
}
