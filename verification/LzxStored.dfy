// Every data can be written as an LZX stream, for instance in uncompressed blocks of one frame each,
// with or without the E8 transform; the decoder gives it back.
module LzxStored {
  import opened Wrappers
  import opened Powers
  import opened BitStream
  import opened LzxSpec
  import opened LzxEncode
  import opened LzxFrames
  import opened LzxOutput

  // a file size that is positive as a signed number
  predicate SignedFile(file: Option<nat>)
  {
    file.Some? ==> file.value < IntelE8.TWO31
  }

  // what has to be in the window for the chunk to come out
  function Stored(st: Lzx, chunk: seq<nat>): (data: seq<nat>)
    ensures |data| == |chunk|
  {
    if st.intelFilesize != 0 && st.frame <= 32768 && |chunk| > 10
    then IntelE8.Transform(IntelE8.Encode, chunk, st.intelCurpos, st.intelFilesize)
    else chunk
  }

  // the chunk as the only block of its frame
  function StoredPart(st: Lzx, file: Option<nat>, chunk: seq<nat>): Part
  {
    Raw(Some(RawHead(|chunk|, 1, 1, 1)), Stored(WithHeader(st, file), chunk))
  }

  // The operands of earlier frames did not run ahead of the frames.
  predicate Ready(st: Lzx)
  {
    AtFrame(st) && st.blockRemaining == 0 && 0 <= st.intelCurpos <= st.frame * FRAME_SIZE &&
    (st.headerRead ==> 0 <= st.intelFilesize < IntelE8.TWO31)
  }

  lemma StoredBack(st: Lzx, chunk: seq<nat>)
    requires IsBytes(chunk) && |chunk| <= FRAME_SIZE
    requires 0 <= st.intelCurpos <= st.frame * FRAME_SIZE && 0 <= st.intelFilesize < IntelE8.TWO31
    ensures IsBytes(Stored(st, chunk))
    ensures st.intelFilesize != 0 && st.frame <= 32768 && |chunk| > 10 ==>
      IntelE8.Transform(IntelE8.Decode, Stored(st, chunk), st.intelCurpos, st.intelFilesize) == chunk
  {
    hide IntelE8.Transform;
    if st.intelFilesize != 0 && st.frame <= 32768 {
      IntelE8.TransformRoundTrip(IntelE8.Encode, chunk, st.intelCurpos, st.intelFilesize);
    }
  }

  // a part that is a whole block and leaves the stored chunk in the window
  predicate LeavesChunk(st: Lzx, part: Part, chunk: seq<nat>)
    requires StOk(st)
  {
    PartOk(st, part, |chunk|) && Size(part) == |chunk| && st.windowPosn + |chunk| <= |st.window| &&
    var st1 := After(st, part, |chunk|);
    st1.window == Spliced(st.window, st.windowPosn, Stored(st, chunk)) && st1.intelStarted && st1.blockRemaining == 0
  }

  lemma OnlyPart(st: Lzx, part: Part, todo: nat)
    requires StOk(st) && PartOk(st, part, todo) && Size(part) == todo > 0
    ensures PartsOk(st, [part], todo) && AfterAll(st, [part], todo) == After(st, part, todo)
  {
    hide StOk, PartOk, After;
    assert [part][1..] == [];
    assert PartsOk(After(st, part, todo), [], 0);
    assert AfterAll(After(st, part, todo), [], 0) == After(st, part, todo);
  }

  // A frame of such a part gives the chunk.
  lemma ChunkComesOut(st: Lzx, file: Option<nat>, chunk: seq<nat>, part: Part)
    requires Ready(st) && SignedFile(file) && IsBytes(chunk) && |chunk| == FrameSize(st) > 0
    requires StOk(WithHeader(st, file)) && LeavesChunk(WithHeader(st, file), part, chunk)
    ensures OneOk(st, file, [part])
    ensures var (r, st2) := (FrameAfter(st, file, [part]), After(WithHeader(st, file), part, |chunk|));
      r.pending == chunk && r.p == st.p && r.offset == st.offset && Ready(Flushed(r)) && r.headerRead &&
      r.mainLens == st2.mainLens && r.lengthLens == st2.lengthLens
  {
    hide Pow2, StOk, FrameOk, PartsOk, PartOk, After, AfterAll, Stored, IntelE8.Transform, Wrapped;
    var st1 := WithHeader(st, file);
    FrameStart(st, file);
    OnlyPart(st1, part, |chunk|);
    FrameAfterOk(st, file, [part]);
    HeaderKeeps(st, file);
    StoredBack(st1, chunk);
    var data, a := Stored(st1, chunk), st1.windowPosn;
    assert Spliced(st1.window, a, data)[a..a + |data|] == data;
    NoTransform(st1, chunk);
  }

  // a whole uncompressed block
  lemma OnePart(st: Lzx, h: RawHead, data: seq<nat>)
    requires StOk(st) && st.blockRemaining == 0 && IsBytes(data) && h == RawHead(|data|, 1, 1, 1)
    requires 0 < |data| <= FRAME_SIZE && st.windowPosn + |data| <= |st.window|
    ensures PartOk(st, Raw(Some(h), data), |data|)
    ensures After(st, Raw(Some(h), data), |data|) ==
      RawBegun(st, h).(blockRemaining := 0, windowPosn := st.windowPosn + |data|,
        window := Spliced(st.window, st.windowPosn, data))
  {
    hide Pow2, Spliced;
  }

  // A frame that is written like this gives the chunk.
  lemma FrameGives(st: Lzx, file: Option<nat>, chunk: seq<nat>)
    requires Ready(st) && SignedFile(file) && IsBytes(chunk) && |chunk| == FrameSize(st) > 0
    ensures OneOk(st, file, [StoredPart(st, file, chunk)])
    ensures var r := FrameAfter(st, file, [StoredPart(st, file, chunk)]);
      r.pending == chunk && r.p == st.p && r.offset == st.offset && Ready(Flushed(r)) && r.headerRead
  {
    hide Pow2, StOk, FrameOk, PartOk, After, Stored, OneOk, FrameAfter, Spliced;
    FrameStart(st, file);
    HeaderKeeps(st, file);
    var st1, part := WithHeader(st, file), StoredPart(st, file, chunk);
    StoredBack(st1, chunk);
    OnePart(st1, part.start.value, part.data);
    ChunkComesOut(st, file, chunk, part);
  }

  lemma NoTransform(st: Lzx, chunk: seq<nat>)
    ensures !(st.intelFilesize != 0 && st.frame <= 32768 && |chunk| > 10) ==> Stored(st, chunk) == chunk
  {
  }

  // an empty frame, which a request for all of the data decodes ahead
  lemma EmptyFrame(st: Lzx, file: Option<nat>)
    requires Ready(st) && FrameSize(st) == 0
    ensures FramesOk(st, file, [[]]) && Meaning(st, file, [[]]) == []
  {
    hide Pow2, StOk, FrameOk;
    FrameStart(st, file);
    assert OneOk(st, file, []);
    FrameAfterOk(st, file, []);
    var frames: seq<seq<Part>> := [[]];
    assert frames[1..] == [];
    assert FramesOk(Flushed(FrameAfter(st, file, [])), file, frames[1..]);
  }

  // one more frame in front
  lemma FrameBefore(st: Lzx, file: Option<nat>, parts: seq<Part>, later: seq<seq<Part>>)
    requires OneOk(st, file, parts) && FramesOk(Flushed(FrameAfter(st, file, parts)), file, later)
    ensures FramesOk(st, file, [parts] + later)
    ensures var st1 := FrameAfter(st, file, parts);
      Meaning(st, file, [parts] + later) == st1.pending + Meaning(Flushed(st1), file, later)
  {
    hide OneOk, FrameAfter;
    assert ([parts] + later)[1..] == later;
  }

  // For any data there are frames that can be written and stand for it.
  lemma {:induction false} DataIsStored(st: Lzx, file: Option<nat>, data: seq<nat>) returns (frames: seq<seq<Part>>)
    requires Ready(st) && SignedFile(file) && IsBytes(data) && st.p.length == st.offset + |data| && st.p.length > 0
    ensures FramesOk(st, file, frames) && Meaning(st, file, frames) == data
    ensures |frames| * FRAME_SIZE > |data|
    decreases |data|
  {
    hide FrameOk, OneOk, FrameAfter, StoredPart, AtFrame, FramesOk, Meaning;
    if data == [] {
      EmptyFrame(st, file);
      frames := [[]];
    } else {
      var n := FrameSize(st);
      var chunk, rest := data[..n], data[n..];
      FrameGives(st, file, chunk);
      var parts := [StoredPart(st, file, chunk)];
      var st1 := FrameAfter(st, file, parts);
      var later := DataIsStored(Flushed(st1), file, rest);
      frames := [parts] + later;
      FrameBefore(st, file, parts, later);
      assert data == chunk + rest;
    }
  }

  // Enough frames that stand for the data serve every request for its first bytes.
  lemma AllIsServed(p: Params, window: seq<nat>, file: Option<nat>, frames: seq<seq<Part>>, data: seq<nat>)
    requires |window| == p.windowSize > 0 && p.windowSize % FRAME_SIZE == 0 && p.numOffsets <= MAIN_SYMBOLS - NUM_CHARS
    requires FileOk(file) && FramesOk(Initial(p, window), file, frames) && Meaning(Initial(p, window), file, frames) == data
    requires p.length == |data| < |frames| * FRAME_SIZE
    ensures var st, src := Initial(p, window), FramesCode(Initial(p, window), file, frames) + [0, 0];
      FrameOk(st) && IsBytes(src) &&
      forall n :: 0 <= n <= |data| ==> Decompress(src, st, n).Ok? && Decompress(src, st, n).value.1 == data[..n]
  {
    hide StOk, FrameOk, Decompress, FramesOk, Meaning, FramesCode, Frames, Needed, Pow2;
    var st, src := Initial(p, window), FramesCode(Initial(p, window), file, frames) + [0, 0];
    var _ := StreamIsRead(p, window, file, frames);
    forall n | 0 <= n <= |data|
      ensures Decompress(src, st, n).Ok? && Decompress(src, st, n).value.1 == data[..n]
    {
      FewFrames(st, n, |data|, |frames|);
      RequestIsServed(p, window, file, frames, n);
    }
  }

  // Whatever the data, the window and the file size are: there is a file whose decoder gives any
  // first part of the data that is asked for.
  lemma EveryDataHasAStream(data: seq<nat>, p: Params, window: seq<nat>, file: Option<nat>) returns (code: seq<nat>)
    requires IsBytes(data) && data != [] && p.length == |data| && SignedFile(file)
    requires |window| == p.windowSize > 0 && p.windowSize % FRAME_SIZE == 0 && p.numOffsets <= MAIN_SYMBOLS - NUM_CHARS
    ensures IsBytes(code + [0, 0]) && FrameOk(Initial(p, window))
    ensures forall n :: 0 <= n <= |data| ==>
      Decompress(code + [0, 0], Initial(p, window), n).Ok? &&
      Decompress(code + [0, 0], Initial(p, window), n).value.1 == data[..n]
  {
    hide StOk, FrameOk, Decompress, FramesOk, Meaning, FramesCode, Pow2;
    InitialOk(p, window);
    var frames := DataIsStored(Initial(p, window), file, data);
    code := FramesCode(Initial(p, window), file, frames);
    AllIsServed(p, window, file, frames, data);
  }

  lemma FewFrames(st: Lzx, n: nat, length: nat, frames: nat)
    requires st.offset == 0 && st.frame == 0 && n <= length < frames * FRAME_SIZE
    ensures Needed(st, n) <= frames
  {
  }
}
