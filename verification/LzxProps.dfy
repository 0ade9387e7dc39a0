// What every successful frame of the LZX decoder keeps.
module LzxProps {
  import opened Powers
  import opened BitStream
  import opened LzWindow
  import opened LzxSpec

  // ---------- matches that run over ----------

  // a round of the block loop in which no match may go past the end of its run
  function StrictStep(src: seq<nat>, st: Lzx, todo: nat): (r: Result<(Lzx, nat)>)
    requires IsBytes(src) && StOk(st) && todo > 0 && st.windowPosn + todo <= |st.window|
  {
    var st1 :- NewBlock(src, st);
    var run := Min(st1.blockRemaining, todo);
    var (st2, rest) :- BlockRun(src, st1.(blockRemaining := st1.blockRemaining - run), run);
    if rest != 0 then Fail(Decrunch) else Ok((st2, todo - run))
  }

  lemma StrictStepIs(src: seq<nat>, st: Lzx, todo: nat)
    requires IsBytes(src) && StOk(st) && todo > 0 && st.windowPosn + todo <= |st.window|
    ensures StrictStep(src, st, todo).Ok? ==> BlockStep(src, st, todo) == StrictStep(src, st, todo)
    ensures StrictStep(src, st, todo).Ok? ==>
      var (st', todo') := StrictStep(src, st, todo).value;
      st'.windowPosn + todo' == st.windowPosn + todo && StOk(st') && todo' <= todo &&
      |st'.window| == |st.window| && Ahead(src, st'.cur) <= Ahead(src, st.cur) &&
      (todo' == todo ==> Ahead(src, st'.cur) < Ahead(src, st.cur))
  {
    hide NewBlock, BlockRun, Ahead;
    var r := StrictStep(src, st, todo);
    if r.Ok? {
      var st1 := NewBlock(src, st).value;
      var run := Min(st1.blockRemaining, todo);
      var st2 := BlockRun(src, st1.(blockRemaining := st1.blockRemaining - run), run).value.0;
      assert st2.(blockRemaining := st2.blockRemaining + 0) == st2;
    }
  }

  function StrictLoop(src: seq<nat>, st: Lzx, todo: nat): (r: Result<Lzx>)
    requires IsBytes(src) && StOk(st) && (todo > 0 ==> st.windowPosn + todo <= |st.window|)
    ensures r.Ok? ==> StOk(r.value) && r.value.windowPosn == st.windowPosn + todo
    decreases Ahead(src, st.cur), todo
  {
    if todo == 0 then Ok(st)
    else
      StrictStepIs(src, st, todo);
      var (st', todo') :- StrictStep(src, st, todo);
      StrictLoop(src, st', todo')
  }

  // an overrun that the block loop lets pass ends the loop, past the end of the frame
  lemma OverrunEndsLoop(src: seq<nat>, st: Lzx, todo: nat)
    requires IsBytes(src) && StOk(st) && todo > 0 && st.windowPosn + todo <= |st.window|
    requires BlockStep(src, st, todo).Ok? && StrictStep(src, st, todo).Fail?
    ensures BlockStep(src, st, todo).value.1 == 0
    ensures BlockStep(src, st, todo).value.0.windowPosn > st.windowPosn + todo
  {
    hide NewBlock, BlockRun, Ahead;
  }

  // The block loop reaches the end of the frame exactly when no match ran over the end of its
  // block or of the frame; then window_posn + bytes_todo has been the same at every round.
  lemma {:induction false} LoopIsStrict(src: seq<nat>, st: Lzx, todo: nat)
    requires IsBytes(src) && StOk(st) && (todo > 0 ==> st.windowPosn + todo <= |st.window|)
    ensures BlockLoop(src, st, todo).Ok? && BlockLoop(src, st, todo).value.windowPosn == st.windowPosn + todo <==>
            StrictLoop(src, st, todo).Ok?
    ensures StrictLoop(src, st, todo).Ok? ==> StrictLoop(src, st, todo) == BlockLoop(src, st, todo)
    decreases Ahead(src, st.cur), todo
  {
    hide StOk, BlockStep, StrictStep, Ahead, SameFrame;
    if todo > 0 {
      StrictStepIs(src, st, todo);
      var strict := StrictStep(src, st, todo);
      if strict.Ok? {
        LoopIsStrict(src, strict.value.0, strict.value.1);
      } else if BlockStep(src, st, todo).Ok? {
        OverrunEndsLoop(src, st, todo);
      }
    }
  }

  // does the last match of this round go past the end of its block or of the frame?
  predicate OverrunsHere(src: seq<nat>, st: Lzx, todo: nat)
    requires IsBytes(src) && StOk(st) && todo > 0 && st.windowPosn + todo <= |st.window|
  {
    var begun := NewBlock(src, st);
    begun.Ok? &&
    var st1 := begun.value;
    var run := Min(st1.blockRemaining, todo);
    var r := BlockRun(src, st1.(blockRemaining := st1.blockRemaining - run), run);
    r.Ok? && r.value.1 != 0
  }

  // does one of the next todo bytes' matches run over, with only strict rounds before it?
  predicate Overruns(src: seq<nat>, st: Lzx, todo: nat)
    requires IsBytes(src) && StOk(st) && (todo > 0 ==> st.windowPosn + todo <= |st.window|)
    decreases Ahead(src, st.cur), todo
  {
    todo > 0 &&
    (OverrunsHere(src, st, todo) ||
     (StrictStepIs(src, st, todo);
      var strict := StrictStep(src, st, todo);
      strict.Ok? && Overruns(src, strict.value.0, strict.value.1)))
  }

  lemma RoundOverruns(src: seq<nat>, st: Lzx, todo: nat)
    requires IsBytes(src) && StOk(st) && todo > 0 && st.windowPosn + todo <= |st.window|
    ensures OverrunsHere(src, st, todo) ==>
      StrictStep(src, st, todo).Fail? &&
      (BlockStep(src, st, todo) == Fail(Decrunch) ||
       (BlockStep(src, st, todo).Ok? && BlockStep(src, st, todo).value.1 == 0 &&
        BlockStep(src, st, todo).value.0.windowPosn > st.windowPosn + todo))
    ensures !OverrunsHere(src, st, todo) ==> BlockStep(src, st, todo) == StrictStep(src, st, todo)
  {
    StrictStepIs(src, st, todo);
    if OverrunsHere(src, st, todo) {
      if BlockStep(src, st, todo).Ok? {
        OverrunEndsLoop(src, st, todo);
      } else {
        OverrunFails(src, st, todo);
      }
    } else if StrictStep(src, st, todo).Fail? {
      SameFailure(src, st, todo);
    }
  }

  lemma OverrunFails(src: seq<nat>, st: Lzx, todo: nat)
    requires IsBytes(src) && StOk(st) && todo > 0 && st.windowPosn + todo <= |st.window|
    requires OverrunsHere(src, st, todo) && BlockStep(src, st, todo).Fail?
    ensures BlockStep(src, st, todo) == Fail(Decrunch)
  {
    hide NewBlock, BlockRun, Ahead;
  }

  lemma SameFailure(src: seq<nat>, st: Lzx, todo: nat)
    requires IsBytes(src) && StOk(st) && todo > 0 && st.windowPosn + todo <= |st.window|
    requires !OverrunsHere(src, st, todo) && StrictStep(src, st, todo).Fail?
    ensures BlockStep(src, st, todo) == StrictStep(src, st, todo)
  {
    hide NewBlock, BlockRun, Ahead;
  }

  // An overrun makes the block loop fail or end past the end of the frame; without one it is the
  // strict loop, with the same errors.
  lemma {:induction false} LoopOverruns(src: seq<nat>, st: Lzx, todo: nat)
    requires IsBytes(src) && StOk(st) && (todo > 0 ==> st.windowPosn + todo <= |st.window|)
    ensures Overruns(src, st, todo) ==>
      BlockLoop(src, st, todo) == Fail(Decrunch) ||
      (BlockLoop(src, st, todo).Ok? && BlockLoop(src, st, todo).value.windowPosn > st.windowPosn + todo)
    ensures !Overruns(src, st, todo) ==> BlockLoop(src, st, todo) == StrictLoop(src, st, todo)
    decreases Ahead(src, st.cur), todo
  {
    hide StOk, BlockStep, StrictStep, OverrunsHere, Ahead, SameFrame;
    if todo > 0 {
      StrictStepIs(src, st, todo);
      RoundOverruns(src, st, todo);
      var strict := StrictStep(src, st, todo);
      if strict.Ok? {
        LoopOverruns(src, strict.value.0, strict.value.1);
      }
    }
  }

  // In a frame whose header has been read, any match that runs past the end of its block or of the
  // frame ends in MSPACK_ERR_DECRUNCH; in any other frame the blocks are decoded strictly, to the
  // same state or with the same error.
  lemma FrameOverruns(src: seq<nat>, st: Lzx)
    requires IsBytes(src) && FrameOk(st) && st.pending == [] && ReadHeader(src, st).Ok?
    ensures st.p.length > 0 ==> st.offset <= st.p.length
    ensures var (st1, size) := (ReadHeader(src, st).value, FrameSize(st));
      st1.windowPosn + size <= |st1.window| &&
      (Overruns(src, st1, size) ==> DecodeFrame(src, st) == Fail(Decrunch)) &&
      (!Overruns(src, st1, size) ==>
         DecodeBlocks(src, st, size) == StrictLoop(src, st1, size) &&
         DecodeFrame(src, st) ==
         if StrictLoop(src, st1, size).Fail? then StrictLoop(src, st1, size)
         else FinishFrame(src, StrictLoop(src, st1, size).value, size))
  {
    hide StrictLoop, Overruns, StOk, DecodeBlocks, FinishFrame, ReadHeader;
    FrameFits(st);
    var size := FrameSize(st);
    assert StOk(st) && st.windowPosn == st.framePosn;
    BlocksOverrun(src, st, size);
    if DecodeBlocks(src, st, size).Ok? {
      var st2 := DecodeBlocks(src, st, size).value;
      if st2.windowPosn > st.windowPosn + size {
        FinishTooFar(src, st2, size);
      }
    }
  }

  lemma BlocksOverrun(src: seq<nat>, st: Lzx, size: nat)
    requires IsBytes(src) && StOk(st) && st.windowPosn == st.framePosn && st.framePosn + size <= st.p.windowSize
    requires ReadHeader(src, st).Ok?
    ensures var st1 := ReadHeader(src, st).value;
      StOk(st1) && st1.windowPosn + size <= |st1.window| &&
      var r := DecodeBlocks(src, st, size);
      (Overruns(src, st1, size) ==>
         r == Fail(Decrunch) || (r.Ok? && r.value.windowPosn > st.windowPosn + size)) &&
      (!Overruns(src, st1, size) ==> r == StrictLoop(src, st1, size))
  {
    hide BlockLoop, StrictLoop, Overruns, Bits;
    LoopOverruns(src, ReadHeader(src, st).value, size);
  }

  lemma FinishTooFar(src: seq<nat>, st: Lzx, size: nat)
    requires IsBytes(src) && StOk(st) && st.framePosn + size <= st.p.windowSize && st.windowPosn > st.framePosn + size
    ensures FinishFrame(src, st, size) == Fail(Decrunch)
  {
  }

  // A frame is decoded only if no match ran over.
  lemma FrameIsStrict(src: seq<nat>, st: Lzx)
    requires IsBytes(src) && FrameOk(st) && st.pending == [] && DecodeFrame(src, st).Ok?
    ensures (st.p.length > 0 ==> st.offset <= st.p.length) && ReadHeader(src, st).Ok?
    ensures var st1 := ReadHeader(src, st).value;
      st1.windowPosn + FrameSize(st) <= |st1.window| && !Overruns(src, st1, FrameSize(st)) &&
      StrictLoop(src, st1, FrameSize(st)).Ok? &&
      StrictLoop(src, st1, FrameSize(st)) == DecodeBlocks(src, st, FrameSize(st))
  {
    hide StrictLoop, Overruns, FinishFrame, StOk;
    FrameFits(st);
    assert ReadHeader(src, st).Ok?;
    FrameOverruns(src, st);
  }

  lemma BlocksAreStrict(src: seq<nat>, st: Lzx, size: nat)
    requires IsBytes(src) && StOk(st) && st.windowPosn == st.framePosn && st.framePosn + size <= st.p.windowSize
    requires DecodeBlocks(src, st, size).Ok? && DecodeBlocks(src, st, size).value.windowPosn == st.windowPosn + size
    ensures ReadHeader(src, st).Ok?
    ensures var st1 := ReadHeader(src, st).value;
      st1.windowPosn + size <= |st1.window| && StrictLoop(src, st1, size).Ok? &&
      StrictLoop(src, st1, size) == DecodeBlocks(src, st, size)
  {
    hide BlockLoop, StrictLoop;
    LoopIsStrict(src, ReadHeader(src, st).value, size);
  }

  // ---------- what a frame writes ----------

  // the windows agree before a and from b on
  predicate SameOutside(w: seq<nat>, w': seq<nat>, a: nat, b: nat)
  {
    |w| == |w'| && a <= b <= |w| && w[..a] == w'[..a] && w[b..] == w'[b..]
  }

  lemma SameOutsideTrans(w: seq<nat>, w1: seq<nat>, w2: seq<nat>, a: nat, m: nat, b: nat)
    requires SameOutside(w, w1, a, m) && SameOutside(w1, w2, m, b)
    ensures SameOutside(w, w2, a, b)
  {
    assert w2[..a] == w2[..m][..a] && w1[..a] == w1[..m][..a];
    assert w[b..] == w[m..][b - m..] && w1[b..] == w1[m..][b - m..];
  }

  lemma MatchWrites(src: seq<nat>, st: Lzx, element: nat)
    requires IsBytes(src) && StOk(st) && Match(src, st, element).Ok?
    ensures SameOutside(st.window, Match(src, st, element).value.window,
                        st.windowPosn, Match(src, st, element).value.windowPosn)
  {
    hide CopyMatch, MatchLength, MatchOffset, Ahead;
    var (length, c1) := MatchLength(src, st, element % 8).value;
    var offset := MatchOffset(src, st.(cur := c1), element / 8).value.0;
    CopyMatchElsewhere(st.window, st.windowPosn, offset, length);
  }

  lemma ElementWrites(src: seq<nat>, st: Lzx)
    requires IsBytes(src) && StOk(st) && st.windowPosn < |st.window| && Element(src, st).Ok?
    ensures SameOutside(st.window, Element(src, st).value.window, st.windowPosn, Element(src, st).value.windowPosn)
  {
    hide Match, Symbol, Ahead;
    var (element, c) := Symbol(src, st.mainLens[..MAIN_SYMBOLS], st.cur).value;
    if element >= NUM_CHARS {
      MatchWrites(src, st.(cur := c), element - NUM_CHARS);
    }
  }

  lemma {:induction false} RunWrites(src: seq<nat>, st: Lzx, run: int)
    requires IsBytes(src) && StOk(st) && st.windowPosn + run <= |st.window| && Run(src, st, run).Ok?
    ensures SameOutside(st.window, Run(src, st, run).value.0.window, st.windowPosn, Run(src, st, run).value.0.windowPosn)
    decreases run
  {
    hide Element, Ahead, SameOutside;
    if run <= 0 {
      assert SameOutside(st.window, st.window, st.windowPosn, st.windowPosn) by {
        SameOutsideRefl(st.window, st.windowPosn);
      }
    } else {
      var st1 := Element(src, st).value;
      ElementWrites(src, st);
      RunWrites(src, st1, run - (st1.windowPosn - st.windowPosn));
      var st2 := Run(src, st, run).value.0;
      SameOutsideTrans(st.window, st1.window, st2.window, st.windowPosn, st1.windowPosn, st2.windowPosn);
    }
  }

  lemma SameOutsideRefl(w: seq<nat>, a: nat)
    requires a <= |w|
    ensures SameOutside(w, w, a, a)
  {
  }

  lemma StepWrites(src: seq<nat>, st: Lzx, todo: nat)
    requires IsBytes(src) && StOk(st) && todo > 0 && st.windowPosn + todo <= |st.window|
    requires StrictStep(src, st, todo).Ok?
    ensures SameOutside(st.window, StrictStep(src, st, todo).value.0.window,
                        st.windowPosn, StrictStep(src, st, todo).value.0.windowPosn)
  {
    hide NewBlock, Run, Ahead;
    var st1 := NewBlock(src, st).value;
    var run := Min(st1.blockRemaining, todo);
    var st2 := st1.(blockRemaining := st1.blockRemaining - run);
    if st2.blockType != UNCOMPRESSED {
      RunWrites(src, st2, run);
    } else {
      RawWrites(src, st2, run);
    }
  }

  lemma RawWrites(src: seq<nat>, st: Lzx, run: nat)
    requires IsBytes(src) && StOk(st) && st.windowPosn + run <= |st.window| && RawRun(src, st, run).Ok?
    ensures SameOutside(st.window, RawRun(src, st, run).value.window, st.windowPosn, st.windowPosn + run)
  {
    hide Bytes, Ahead;
  }

  lemma {:induction false} LoopWrites(src: seq<nat>, st: Lzx, todo: nat)
    requires IsBytes(src) && StOk(st) && (todo > 0 ==> st.windowPosn + todo <= |st.window|)
    requires StrictLoop(src, st, todo).Ok?
    ensures SameOutside(st.window, StrictLoop(src, st, todo).value.window, st.windowPosn, st.windowPosn + todo)
    decreases Ahead(src, st.cur), todo
  {
    hide StOk, BlockStep, StrictStep, Ahead, SameFrame, SameOutside;
    PosnInWindow(st);
    if todo == 0 {
      SameOutsideRefl(st.window, st.windowPosn);
    } else {
      StrictStepIs(src, st, todo);
      var (st1, todo1) := StrictStep(src, st, todo).value;
      StepWrites(src, st, todo);
      LoopWrites(src, st1, todo1);
      var st2 := StrictLoop(src, st, todo).value;
      SameOutsideTrans(st.window, st1.window, st2.window, st.windowPosn, st1.windowPosn, st.windowPosn + todo);
    }
  }

  lemma PosnInWindow(st: Lzx)
    requires StOk(st)
    ensures st.windowPosn <= |st.window|
  {
  }

  // what is written out for the frame that st' has just got behind
  function FrameOutput(st: Lzx, st': Lzx, size: nat): seq<nat>
    requires st.framePosn + size <= |st'.window|
  {
    var bytes := st'.window[st.framePosn..st.framePosn + size];
    if st'.intelStarted && st'.intelFilesize != 0 && st.frame <= 32768 && size > 10
    then IntelE8.Transform(IntelE8.Decode, bytes, st.intelCurpos, st'.intelFilesize)
    else bytes
  }

  // A frame that is decoded adds exactly its own bytes: it writes the window from frame_posn to
  // frame_posn + frame_size and nowhere else, and these bytes, with the E8 transform undone if it
  // was applied, are what is to be written next.
  lemma FrameWrites(src: seq<nat>, st: Lzx)
    requires IsBytes(src) && FrameOk(st) && st.pending == [] && DecodeFrame(src, st).Ok?
    ensures st.p.length > 0 ==> st.offset <= st.p.length
    ensures SameOutside(st.window, DecodeFrame(src, st).value.window, st.framePosn, st.framePosn + FrameSize(st))
    ensures DecodeFrame(src, st).value.pending == FrameOutput(st, DecodeFrame(src, st).value, FrameSize(st))
  {
    hide DecodeFrame, StrictLoop, DecodeBlocks, FrameBytes, Realign, StOk, SameOutside, FrameOutput;
    FrameFits(st);
    FrameParts(src, st);
    BlocksWrite(src, st, FrameSize(st));
  }

  lemma FrameParts(src: seq<nat>, st: Lzx)
    requires IsBytes(src) && FrameOk(st) && st.pending == [] && DecodeFrame(src, st).Ok?
    ensures (st.p.length > 0 ==> st.offset <= st.p.length) && st.framePosn + FrameSize(st) <= st.p.windowSize
    ensures StOk(st) && st.windowPosn == st.framePosn
    ensures var size := FrameSize(st);
      DecodeBlocks(src, st, size).Ok? &&
      DecodeBlocks(src, st, size).value.windowPosn == st.windowPosn + size &&
      DecodeFrame(src, st).value.window == DecodeBlocks(src, st, size).value.window &&
      st.framePosn + size <= |DecodeFrame(src, st).value.window| &&
      DecodeFrame(src, st).value.pending == FrameOutput(st, DecodeFrame(src, st).value, size)
  {
    hide DecodeBlocks, FrameBytes, FrameOutput, Realign, StOk;
    FrameFits(st);
    var size := FrameSize(st);
    assert StOk(st) && st.windowPosn == st.framePosn;
    BlocksKeepCurpos(src, st, size);
    FinishOutput(src, DecodeBlocks(src, st, size).value, st, size);
  }

  lemma FinishOutput(src: seq<nat>, st1: Lzx, st: Lzx, size: nat)
    requires IsBytes(src) && StOk(st1) && st1.framePosn + size <= st1.p.windowSize && FinishFrame(src, st1, size).Ok?
    requires st1.framePosn == st.framePosn && st1.frame == st.frame && st1.intelCurpos == st.intelCurpos
    ensures var st' := FinishFrame(src, st1, size).value;
      st.framePosn + size <= |st'.window| && st'.pending == FrameOutput(st, st', size)
  {
    hide Realign, IntelE8.Transform;
  }

  lemma BlocksKeepCurpos(src: seq<nat>, st: Lzx, size: nat)
    requires IsBytes(src) && StOk(st) && st.windowPosn == st.framePosn && st.framePosn + size <= st.p.windowSize
    ensures DecodeBlocks(src, st, size).Ok? ==> DecodeBlocks(src, st, size).value.intelCurpos == st.intelCurpos
  {
    hide BlockLoop, StOk;
  }

  lemma BlocksWrite(src: seq<nat>, st: Lzx, size: nat)
    requires IsBytes(src) && StOk(st) && st.windowPosn == st.framePosn && st.framePosn + size <= st.p.windowSize
    requires DecodeBlocks(src, st, size).Ok? && DecodeBlocks(src, st, size).value.windowPosn == st.windowPosn + size
    ensures SameOutside(st.window, DecodeBlocks(src, st, size).value.window, st.framePosn, st.framePosn + size)
  {
    BlocksAreStrict(src, st, size);
    hide BlockLoop, StrictLoop, StOk, SameOutside, Bits;
    LoopWrites(src, ReadHeader(src, st).value, size);
  }

  // ---------- position slots ----------

  // position_base in closed form
  lemma {:induction false} PositionBaseLow(k: nat)
    requires 2 <= k <= 18
    ensures PositionBase(2 * k) == Pow2(k)
    ensures k < 18 ==> PositionBase(2 * k + 1) == Pow2(k) + Pow2(k - 1)
  {
    hide Pow2, PositionBase;
    if k == 2 {
      FirstPositionBases();
    } else {
      PositionBaseLow(k - 1);
      PositionBaseNext(k);
    }
  }

  lemma FirstPositionBases()
    ensures PositionBase(4) == Pow2(2) && PositionBase(5) == Pow2(2) + Pow2(1)
  {
    assert PositionBase(1) == 1 && PositionBase(2) == 2 && PositionBase(3) == 3;
    assert PositionBase(4) == 4 && PositionBase(5) == 6;
  }

  lemma PositionBaseNext(k: nat)
    requires 3 <= k <= 18
    requires PositionBase(2 * k - 2) == Pow2(k - 1) && PositionBase(2 * k - 1) == Pow2(k - 1) + Pow2(k - 2)
    ensures PositionBase(2 * k) == Pow2(k)
    ensures k < 18 ==> PositionBase(2 * k + 1) == Pow2(k) + Pow2(k - 1)
  {
    hide Pow2, PositionBase;
    Pow2Half(k);
    Pow2Half(k - 1);
    PositionBaseStep(2 * k);
    PositionBaseStep(2 * k + 1);
  }

  lemma PositionBaseStep(slot: nat)
    requires slot > 0
    ensures PositionBase(slot) == PositionBase(slot - 1) + Pow2(ExtraBits(slot - 1))
  {
  }

  lemma LargePowers()
    ensures Pow2(17) == 0x2_0000 && Pow2(18) == 0x4_0000 && Pow2(19) == 0x8_0000
    ensures Pow2(20) == 0x10_0000 && Pow2(21) == 0x20_0000 && Pow2(22) == 0x40_0000
    ensures Pow2(23) == 0x80_0000 && Pow2(24) == 0x100_0000 && Pow2(25) == 0x200_0000
  {
    Pow2Values();
    hide Pow2;
    Pow2Half(17);
    Pow2Half(18);
    Pow2Half(19);
    Pow2Half(20);
    Pow2Half(21);
    Pow2Half(22);
    Pow2Half(23);
    Pow2Half(24);
    Pow2Half(25);
  }

  lemma {:induction false} PositionBaseHigh(k: nat)
    ensures PositionBase(36 + k) == 0x4_0000 + 0x2_0000 * k
  {
    LargePowers();
    hide Pow2, PositionBase;
    if k == 0 {
      PositionBaseLow(18);
    } else {
      PositionBaseHigh(k - 1);
      PositionBaseStep(36 + k);
    }
  }

  // The number of position slots of a window is the first one whose base reaches the window size:
  // with its slots a stream can name every offset of the window.
  lemma SlotsReachWindow(bits: nat)
    requires 15 <= bits <= 25
    ensures PositionBase(POSITION_SLOTS[bits - 15]) == Pow2(bits)
  {
    LargePowers();
    hide Pow2, PositionBase;
    var slots := POSITION_SLOTS[bits - 15];
    if bits <= 18 {
      PositionBaseLow(bits);
    } else {
      PositionBaseHigh(slots - 36);
    }
  }

  // Every offset from 2 below a slot base on is named by exactly one slot and number of extra bits.
  lemma {:induction false} SlotForOffset(v: nat, slots: nat) returns (slot: nat)
    requires v < PositionBase(slots)
    ensures slot < slots && PositionBase(slot) <= v < PositionBase(slot) + Pow2(ExtraBits(slot))
  {
    hide Pow2, ExtraBits;
    if v >= PositionBase(slots - 1) {
      slot := slots - 1;
    } else {
      slot := SlotForOffset(v, slots - 1);
    }
  }

  lemma {:induction false} PositionBaseMono(s: nat, t: nat)
    requires s < t
    ensures PositionBase(s) + Pow2(ExtraBits(s)) <= PositionBase(t)
    decreases t
  {
    hide Pow2, ExtraBits;
    if s < t - 1 {
      PositionBaseMono(s, t - 1);
    }
  }

  lemma SlotUnique(v: nat, s: nat, t: nat)
    requires PositionBase(s) <= v < PositionBase(s) + Pow2(ExtraBits(s))
    requires PositionBase(t) <= v < PositionBase(t) + Pow2(ExtraBits(t))
    ensures s == t
  {
    hide PositionBase, Pow2, ExtraBits;
    if s < t {
      PositionBaseMono(s, t);
    } else if t < s {
      PositionBaseMono(t, s);
    }
  }

  // ---------- alignment ----------

  // a read that needs another word leaves at most 15 bits
  lemma LeftAfterRead(src: seq<nat>, c: Cursor, n: nat)
    requires Input(src, c) && 1 <= n <= 17 && Bits(src, c, n).Ok?
    ensures Bits(src, c, n).value.1.left == c.left - n || Bits(src, c, n).value.1.left <= 15
  {
    hide Pow2, CursorOk, IsBytes, Ahead, Word;
    if c.left < n && Fetch(src, c).Some? {
      var c1 := Fetch(src, c).value;
      assert c1.left == c.left + 16;
      assert Ensure(src, c, n) == Ensure(src, c1, n);
      if c1.left < n && Fetch(src, c1).Some? {
        assert Ensure(src, c1, n) == Ensure(src, Fetch(src, c1).value, n);
      }
    }
  }

  // The header of an uncompressed block is aligned by dropping at most 15 bits, or, when none are
  // left, a whole word; so the bytes read next are the ones behind the current word.
  lemma AlignDropsOneWord(src: seq<nat>, st: Lzx)
    requires IsBytes(src) && StOk(st) && ReadBlockStart(src, st).Ok?
    ensures ReadBlockStart(src, st).value.cur.left <= 15
  {
    hide Pow2, Bits, IsBytes, StOk, Ahead;
    CurInput(src, st);
    var c0 := Bytes(src, st.cur, if st.blockType == UNCOMPRESSED && st.blockLength % 2 == 1 then 1 else 0).value.1;
    LeftAfterRead(src, c0, 3);
    var c1 := Bits(src, c0, 3).value.1;
    LeftAfterRead(src, c1, 16);
    var c2 := Bits(src, c1, 16).value.1;
    LeftAfterRead(src, c2, 8);
  }

  lemma CurInput(src: seq<nat>, st: Lzx)
    requires IsBytes(src) && StOk(st)
    ensures Input(src, st.cur)
  {
  }
}
