// All data can be written in verbatim blocks of literals as well, with complete codes: the decoder
// builds their trees from the pretree codes, decodes every symbol and gives the data back.
module LzxLiterals {
  import opened Wrappers
  import opened Powers
  import opened CanonicalCode
  import opened BitStream
  import opened LzxSpec
  import opened LzxTokens
  import opened LzxLengths
  import opened LzxBlocks
  import opened LzxTrees
  import opened LzxEncode
  import opened LzxFrames
  import opened LzxOutput
  import opened LzxStored

  // ---------- a complete code ----------

  // eight bits for every literal, and no code for anything else
  function Flat(n: nat): (lens: seq<nat>)
    requires n >= NUM_CHARS
    ensures |lens| == n
  {
    seq(NUM_CHARS, _ => 8) + seq(n - NUM_CHARS, _ => 0)
  }

  lemma FlatSum(n: nat, cap: nat)
    requires n >= NUM_CHARS && cap >= 8
    ensures Kraft(Flat(n), cap) == Pow2(MAX_BITS)
  {
    SmallWeights();
    hide Weight, Pow2;
    assert [] + seq(NUM_CHARS, _ => 8) == seq(NUM_CHARS, _ => 8);
    RepeatedWeigh([], NUM_CHARS, 8, cap);
    RepeatedWeigh(seq(NUM_CHARS, _ => 8), n - NUM_CHARS, 0, cap);
  }

  lemma FlatOk(n: nat)
    requires n >= NUM_CHARS
    ensures Buildable(Flat(n), MAIN_BITS) && Complete(Flat(n))
    ensures forall b :: 0 <= b < NUM_CHARS ==> Writable(Flat(n), b)
  {
    hide Kraft, Pow2, Writable;
    FlatSum(n, MAIN_BITS);
    FlatSum(n, MAX_BITS);
    forall b | 0 <= b < NUM_CHARS
      ensures Writable(Flat(n), b)
    {
      CompleteFits(Flat(n), b);
    }
  }

  // ---------- the trees ----------

  function Zeroes(n: nat): (lens: seq<nat>)
    ensures |lens| == n
  {
    seq(n, _ => 0)
  }

  // all codes of the main tree become those of the literals, and the length tree becomes empty
  function LiteralTrees(st: Lzx): Trees
    requires StOk(st) && LensReady(st)
  {
    TreesFor(st, Flat(|st.mainLens|), Zeroes(|st.lengthLens|))
  }

  lemma TreesAreLiteral(st: Lzx)
    requires StOk(st) && LensReady(st)
    ensures TreesOk(st, LiteralTrees(st)) && MainOf(st, LiteralTrees(st)) == Flat(|st.mainLens|)
    ensures LengthsOf(st, LiteralTrees(st)) == Zeroes(|st.lengthLens|)
  {
    hide RunOk, RunLens, TreesFor, Buildable, Pow2;
    FlatOk(MAIN_SYMBOLS);
    assert Flat(|st.mainLens|)[..MAIN_SYMBOLS] == Flat(MAIN_SYMBOLS);
    TreesBecome(st, Flat(|st.mainLens|), Zeroes(|st.lengthLens|));
  }

  // ---------- a block of literals ----------

  function Literals(data: seq<nat>): (tokens: seq<Token>)
    ensures |tokens| == |data|
  {
    seq(|data|, i requires 0 <= i < |data| => Byte(data[i]))
  }

  // Literals put their bytes into the window.
  lemma {:induction false} LiteralsApply(st: Lzx, data: seq<nat>)
    requires StOk(st) && IsBytes(data) && st.windowPosn + |data| <= |st.window|
    requires forall b :: 0 <= b < NUM_CHARS ==> Writable(MainLens(st), b)
    ensures TokensOk(st, Literals(data)) && TotalLength(Literals(data)) == |data|
    ensures ApplyAll(st, Literals(data)) ==
            st.(window := Spliced(st.window, st.windowPosn, data), windowPosn := st.windowPosn + |data|)
    decreases |data|
  {
    hide Writable, Pow2, Spliced;
    if data == [] {
      SpliceEmpty(st.window, st.windowPosn);
    } else {
      var st1 := Apply(st, Byte(data[0]), st.cur);
      assert MainLens(st1) == MainLens(st);
      assert Literals(data)[1..] == Literals(data[1..]);
      LiteralsApply(st1, data[1..]);
      SpliceFirst(st.window, st.windowPosn, data);
    }
  }

  lemma SpliceEmpty(w: seq<nat>, a: nat)
    requires a <= |w|
    ensures Spliced(w, a, []) == w
  {
  }

  lemma SpliceFirst(w: seq<nat>, a: nat, data: seq<nat>)
    requires data != [] && a + |data| <= |w|
    ensures Spliced(w[a := data[0]], a + 1, data[1..]) == Spliced(w, a, data)
  {
  }

  // a verbatim block for these bytes
  function LiteralBlock(st: Lzx, data: seq<nat>): Part
    requires StOk(st) && LensReady(st)
  {
    Compressed(Some(Head(VERBATIM, |data|, LiteralTrees(st))), Literals(data))
  }

  lemma OneBlock(st: Lzx, data: seq<nat>)
    requires StOk(st) && LensReady(st) && st.blockRemaining == 0 && IsBytes(data)
    requires 0 < |data| <= FRAME_SIZE && st.windowPosn + |data| <= |st.window|
    ensures PartOk(st, LiteralBlock(st, data), |data|) && Size(LiteralBlock(st, data)) == |data|
    ensures var r := After(st, LiteralBlock(st, data), |data|);
      r.window == Spliced(st.window, st.windowPosn, data) && r.blockRemaining == 0 && r.intelStarted &&
      r.mainLens == Flat(|st.mainLens|) && r.lengthLens == Zeroes(|st.lengthLens|)
  {
    hide Pow2, Spliced, Buildable, Writable, LiteralTrees, MainOf, LengthsOf, TokensOk, ApplyAll, Literals;
    TreesAreLiteral(st);
    var part := LiteralBlock(st, data);
    var st1 := Begun(st, part.head.value, st.cur);
    FlatOk(MAIN_SYMBOLS);
    assert MainLens(st1) == Flat(MAIN_SYMBOLS);
    LiteralsApply(Less(st1, 0).(blockRemaining := 0), data);
  }

  // ---------- frames of literals ----------

  predicate LiteralReady(st: Lzx)
  {
    Ready(st) && StOk(st) && LensReady(st)
  }

  // A frame of one block of literals, or an empty one.
  predicate LiteralFrame(parts: seq<Part>)
  {
    |parts| <= 1 && forall part :: part in parts ==> LiteralPart(part)
  }

  predicate LiteralPart(part: Part)
  {
    part.Compressed? && part.head.Some? && part.head.value.kind == VERBATIM &&
    Complete(part.head.value.trees.literals.pre) && Complete(part.head.value.trees.matches.pre) &&
    Complete(part.head.value.trees.lengths.pre) && forall t :: t in part.tokens ==> t.Byte?
  }

  lemma BlockIsLiteral(st: Lzx, data: seq<nat>)
    requires StOk(st) && LensReady(st)
    ensures LiteralPart(LiteralBlock(st, data))
  {
    hide Pretree, Changes, Kraft, Pow2;
    PretreeOk();
  }

  lemma LiteralFrameGives(st: Lzx, file: Option<nat>, chunk: seq<nat>) returns (part: Part)
    requires LiteralReady(st) && SignedFile(file) && IsBytes(chunk) && |chunk| == FrameSize(st) > 0
    ensures LiteralPart(part) && OneOk(st, file, [part])
    ensures var r := FrameAfter(st, file, [part]);
      r.pending == chunk && r.p == st.p && r.offset == st.offset && LiteralReady(Flushed(r)) && r.headerRead
  {
    hide Pow2, FrameOk, PartOk, After, Stored, OneOk, FrameAfter, Spliced, LiteralBlock, LiteralPart, Writable;
    FrameStart(st, file);
    HeaderKeeps(st, file);
    var st1 := WithHeader(st, file);
    StoredBack(st1, chunk);
    part := LiteralBlock(st1, Stored(st1, chunk));
    BlockIsLiteral(st1, Stored(st1, chunk));
    OneBlock(st1, Stored(st1, chunk));
    ChunkComesOut(st, file, chunk, part);
    ReadyAgain(Flushed(FrameAfter(st, file, [part])));
  }

  lemma ReadyAgain(st: Lzx)
    requires Ready(st) && |st.mainLens| >= NUM_CHARS && st.mainLens == Flat(|st.mainLens|)
    requires st.lengthLens == Zeroes(|st.lengthLens|)
    ensures LiteralReady(st)
  {
    hide Pow2;
  }

  // For any data there are frames of literals that can be written and stand for it.
  lemma {:induction false} DataIsLiteral(st: Lzx, file: Option<nat>, data: seq<nat>) returns (frames: seq<seq<Part>>)
    requires LiteralReady(st) && SignedFile(file) && IsBytes(data) && st.p.length == st.offset + |data| && st.p.length > 0
    ensures forall i :: 0 <= i < |frames| ==> LiteralFrame(frames[i])
    ensures FramesOk(st, file, frames) && Meaning(st, file, frames) == data
    ensures |frames| * FRAME_SIZE > |data|
    decreases |data|
  {
    hide FrameOk, OneOk, FrameAfter, AtFrame, LiteralPart, LensReady, StOk, FramesOk, Meaning;
    if data == [] {
      EmptyFrame(st, file);
      frames := [[]];
    } else {
      var n := FrameSize(st);
      var chunk, rest := data[..n], data[n..];
      var part := LiteralFrameGives(st, file, chunk);
      var st1 := FrameAfter(st, file, [part]);
      var later := DataIsLiteral(Flushed(st1), file, rest);
      frames := [[part]] + later;
      FrameBefore(st, file, [part], later);
      assert data == chunk + rest;
    }
  }

  // Whatever the data, the window and the file size are: there is a file of verbatim blocks of
  // literals, with complete codes, whose decoder gives any first part of the data that is asked for.
  lemma EveryDataHasLiterals(data: seq<nat>, p: Params, window: seq<nat>, file: Option<nat>)
    returns (frames: seq<seq<Part>>)
    requires IsBytes(data) && data != [] && p.length == |data| && SignedFile(file)
    requires |window| == p.windowSize > 0 && p.windowSize % FRAME_SIZE == 0 && p.numOffsets <= MAIN_SYMBOLS - NUM_CHARS
    ensures forall i :: 0 <= i < |frames| ==> LiteralFrame(frames[i])
    ensures FramesOk(Initial(p, window), file, frames)
    ensures var st, src := Initial(p, window), FramesCode(Initial(p, window), file, frames) + [0, 0];
      FrameOk(st) && IsBytes(src) &&
      forall n :: 0 <= n <= |data| ==> Decompress(src, st, n).Ok? && Decompress(src, st, n).value.1 == data[..n]
  {
    hide StOk, FrameOk, Decompress, FramesOk, Meaning, FramesCode, Pow2, LiteralFrame;
    InitialOk(p, window);
    InitialReady(p, window);
    frames := DataIsLiteral(Initial(p, window), file, data);
    AllIsServed(p, window, file, frames, data);
  }

  lemma InitialReady(p: Params, window: seq<nat>)
    requires FrameOk(Initial(p, window))
    ensures LiteralReady(Initial(p, window))
  {
    hide Pow2;
  }
}
