// The LZX decoder against one growing sequence of bytes, its history: the window as it was when the
// stream was opened, and behind it every byte decoded since.  The window shows the last bytes of the
// history, a match repeats the bytes at a fixed distance in it, and what a frame writes out is its
// new bytes, with the operands of calls translated.
module LzxHistory {
  import opened Powers
  import opened BitStream
  import opened LzWindow
  import opened LzxSpec
  import opened LzxProps
  import opened LzxOutput
  import IntelE8

  // ---------- the window ----------

  // The window, in which the next byte goes to posn, holds the last bytes of h: the newest ones end
  // before posn, the oldest ones begin there.
  predicate Shows(w: seq<nat>, posn: nat, h: seq<nat>)
  {
    posn <= |w| <= |h| && w == h[|h| - posn..] + h[|h| - |w|..|h| - posn]
  }

  lemma ByteShown(w: seq<nat>, posn: nat, h: seq<nat>, q: nat)
    requires Shows(w, posn, h) && q < |w|
    ensures w[q] == if q < posn then h[|h| - posn + q] else h[|h| - posn + q - |w|]
  {
  }

  lemma Halves(w: seq<nat>, posn: nat, h: seq<nat>)
    requires Shows(w, posn, h)
    ensures posn <= |w| <= |h| && w[..posn] == h[|h| - posn..] && w[posn..] == h[|h| - |w|..|h| - posn]
  {
  }

  lemma Grown(h: seq<nat>, d: seq<nat>, a: nat, b: nat, size: nat)
    requires b == a + |d| && b <= size <= |h|
    ensures (h + d)[|h + d| - b..] == h[|h| - a..] + d
    ensures (h + d)[|h + d| - size..|h + d| - b] == h[|h| - size..|h| - a][b - a..]
  {
  }

  // bytes that are decoded into the window are shown
  lemma ShowsMore(w: seq<nat>, w': seq<nat>, a: nat, b: nat, h: seq<nat>)
    requires Shows(w, a, h) && SameOutside(w, w', a, b)
    ensures Shows(w', b, h + w'[a..b])
  {
    Halves(w, a, h);
    hide Shows;
    var newer, older := h[|h| - a..], h[|h| - |w|..|h| - a];
    NewAndOld(w, w', a, b, newer, older);
    Grown(h, w'[a..b], a, b, |w|);
    BothHalves(w', b, h + w'[a..b]);
  }

  lemma BothHalves(w: seq<nat>, posn: nat, h: seq<nat>)
    requires posn <= |w| <= |h| && w == h[|h| - posn..] + h[|h| - |w|..|h| - posn]
    ensures Shows(w, posn, h)
  {
  }

  lemma NewAndOld(w: seq<nat>, w': seq<nat>, a: nat, b: nat, newer: seq<nat>, older: seq<nat>)
    requires SameOutside(w, w', a, b) && w[..a] == newer && w[a..] == older
    ensures w' == newer + w'[a..b] + older[b - a..]
  {
    assert w[a..][b - a..] == w[b..];
  }

  // at the end of the window the next byte goes to its start
  lemma ShowsWrapped(w: seq<nat>, h: seq<nat>)
    requires Shows(w, |w|, h)
    ensures Shows(w, 0, h)
  {
  }

  // how far back a match with this offset reaches: an offset of 0, or one past the window's size,
  // comes from the place where the window goes round
  function Distance(offset: nat, size: nat): nat
  {
    if offset == 0 then size else if offset > size then offset - size else offset
  }

  lemma {:induction false} CopyDistance(w: seq<nat>, posn: nat, offset: nat, len: nat)
    requires posn + len <= |w| && 0 < |w| && offset <= |w| + posn
    ensures CopyMatch(w, posn, offset, len) == CopyMatch(w, posn, Distance(offset, |w|), len)
  {
    if len > 0 {
      CopyDistance(w, posn, offset, len - 1);
    }
  }

  // each of the last len bytes of h is the byte e places before it
  predicate Repeats(h: seq<nat>, len: nat, e: nat)
  {
    len + e <= |h| && forall j :: |h| - len <= j < |h| ==> h[j] == h[j - e]
  }

  // A match appends bytes to the history, each the one at the same distance before it.
  lemma CopyRepeats(w: seq<nat>, posn: nat, offset: nat, len: nat, h: seq<nat>)
    requires Shows(w, posn, h) && posn + len <= |w| && 0 < |w| && offset <= |w| + posn
    ensures 1 <= Distance(offset, |w|) <= |w|
    ensures var w' := CopyMatch(w, posn, offset, len);
      Shows(w', posn + len, h + w'[posn..posn + len]) &&
      Repeats(h + w'[posn..posn + len], len, Distance(offset, |w|))
  {
    hide CopyMatch, Shows;
    CopyDistance(w, posn, offset, len);
    var e := Distance(offset, |w|);
    var w' := CopyMatch(w, posn, e, len);
    CopyMatchElsewhere(w, posn, e, len);
    ShowsMore(w, w', posn, posn + len, h);
    ShowsFits(w, posn, h);
    var h' := h + w'[posn..posn + len];
    forall j | |h'| - len <= j < |h'|
      ensures h'[j] == h'[j - e]
    {
      OneRepeats(w, posn, e, len, h, j);
    }
  }

  lemma OneRepeats(w: seq<nat>, posn: nat, e: nat, len: nat, h: seq<nat>, j: nat)
    requires Shows(w, posn, h) && |w| <= |h| && posn + len <= |w| && 1 <= e <= |w| && |h| <= j < |h| + len
    ensures var h' := h + CopyMatch(w, posn, e, len)[posn..posn + len];
      h'[j] == h'[j - e]
  {
    hide CopyMatch, Shows;
    var p := posn + (j - |h|);
    CopyMatchIs(w, posn, e, len, p);
    if e <= p {
      if p - e < posn {
        CopyMatchIs(w, posn, e, len, p - e);
        ByteShown(w, posn, h, p - e);
      }
    } else {
      ByteShown(w, posn, h, |w| + p - e);
    }
  }

  lemma ShowsFits(w: seq<nat>, posn: nat, h: seq<nat>)
    requires Shows(w, posn, h)
    ensures posn <= |w| <= |h|
  {
  }

  // ---------- matches ----------

  // Which matches the decoder accepts, when their length and offset can be read: the match ends
  // inside the window; its offset does not go past the start of the window, or does not go past the
  // number of bytes written, or not further past the start than there is reference data; and it does
  // not go past the start by more than the window.
  lemma MatchAccepted(src: seq<nat>, st: Lzx, element: nat)
    requires IsBytes(src) && StOk(st) && MatchLength(src, st, element % 8).Ok?
    requires MatchOffset(src, st.(cur := MatchLength(src, st, element % 8).value.1), element / 8).Ok?
    ensures var (length, c) := MatchLength(src, st, element % 8).value;
      var offset := MatchOffset(src, st.(cur := c), element / 8).value.0;
      (Match(src, st, element).Ok? <==>
         st.windowPosn + length <= st.p.windowSize && offset <= st.windowPosn + st.p.windowSize &&
         (offset <= st.windowPosn || offset <= st.offset || offset <= st.windowPosn + st.p.refDataSize)) &&
      (Match(src, st, element).Fail? ==> Match(src, st, element) == Fail(Decrunch))
  {
    hide MatchLength, MatchOffset, CopyMatch, Ahead, Decoded;
  }

  // In the middle of a frame: the history ends with the part of the frame decoded so far, and the
  // frame begins where the number of bytes written goes round the window.
  predicate Inside(st: Lzx, h: seq<nat>)
  {
    StOk(st) && IsBytes(h) && st.p.windowSize > 0 &&
    st.framePosn == st.offset % st.p.windowSize && st.framePosn <= st.windowPosn &&
    |h| == st.p.windowSize + st.offset + (st.windowPosn - st.framePosn) && Shows(st.window, st.windowPosn, h)
  }

  // In such a state a match that reaches back by no more than the window's size is accepted exactly
  // if it ends inside the window and begins inside the stream or the reference data before it.
  lemma MatchInsideStream(src: seq<nat>, st: Lzx, element: nat, h: seq<nat>)
    requires IsBytes(src) && Inside(st, h) && MatchLength(src, st, element % 8).Ok?
    requires MatchOffset(src, st.(cur := MatchLength(src, st, element % 8).value.1), element / 8).Ok?
    ensures var (length, c) := MatchLength(src, st, element % 8).value;
      var offset := MatchOffset(src, st.(cur := c), element / 8).value.0;
      var decoded := |h| - st.p.windowSize;
      offset <= st.p.windowSize ==>
        (Match(src, st, element).Ok? <==>
           st.windowPosn + length <= st.p.windowSize && offset <= decoded + st.p.refDataSize)
  {
    hide MatchLength, MatchOffset, Match, Ahead, Decoded, Shows;
    MatchAccepted(src, st, element);
    if st.offset < st.p.windowSize {
      SmallRemainder(st.offset, st.p.windowSize);
    }
  }

  lemma SmallRemainder(n: nat, m: nat)
    requires n < m
    ensures n % m == n
  {
  }

  // a match that stays inside the window and the stream passes the decoder's checks
  lemma InsideFits(st: Lzx, h: seq<nat>, offset: nat, length: nat)
    requires Inside(st, h) && st.windowPosn + length <= st.p.windowSize
    requires offset <= st.p.windowSize && offset <= |h| - st.p.windowSize + st.p.refDataSize
    ensures MatchFits(st, offset, length)
  {
    hide StOk, IsBytes, Shows;
    if st.offset < st.p.windowSize {
      SmallRemainder(st.offset, st.p.windowSize);
    }
  }

  // What a match that is accepted does to the history.
  lemma MatchRepeats(src: seq<nat>, st: Lzx, element: nat, h: seq<nat>)
    requires IsBytes(src) && Inside(st, h) && Match(src, st, element).Ok?
    ensures MatchLength(src, st, element % 8).Ok?
    ensures MatchOffset(src, st.(cur := MatchLength(src, st, element % 8).value.1), element / 8).Ok?
    ensures var (length, c) := MatchLength(src, st, element % 8).value;
      var offset := MatchOffset(src, st.(cur := c), element / 8).value.0;
      var st' := Match(src, st, element).value;
      st'.windowPosn == st.windowPosn + length && Inside(st', h + st'.window[st.windowPosn..st'.windowPosn]) &&
      1 <= Distance(offset, st.p.windowSize) <= st.p.windowSize &&
      Repeats(h + st'.window[st.windowPosn..st'.windowPosn], length, Distance(offset, st.p.windowSize))
  {
    hide MatchLength, MatchOffset, CopyMatch, Ahead, Shows, Distance, Repeats, IsBytes;
    var (length, c) := MatchLength(src, st, element % 8).value;
    var offset := MatchOffset(src, st.(cur := c), element / 8).value.0;
    CopyRepeats(st.window, st.windowPosn, offset, length, h);
    RepeatsBytes(h, Match(src, st, element).value.window[st.windowPosn..st.windowPosn + length],
                 Distance(offset, st.p.windowSize));
  }

  // repeated bytes are bytes
  lemma {:induction false} RepeatsBytes(h: seq<nat>, d: seq<nat>, e: nat)
    requires IsBytes(h) && 1 <= e <= |h| && Repeats(h + d, |d|, e)
    ensures IsBytes(h + d)
    decreases |d|
  {
    if d == [] {
      assert h + d == h;
    } else {
      var last := |d| - 1;
      assert (h + d)[..|h| + last] == h + d[..last];
      FewerRepeat(h, d, e);
      RepeatsBytes(h, d[..last], e);
      var b := (h + d)[|h| + last - e];
      assert b == (h + d[..last])[|h| + last - e] < 256;
      assert (h + d)[|h| + last] == b;
      assert h + d == h + d[..last] + [b];
    }
  }

  lemma FewerRepeat(h: seq<nat>, d: seq<nat>, e: nat)
    requires d != [] && 1 <= e <= |h| && Repeats(h + d, |d|, e)
    ensures Repeats(h + d[..|d| - 1], |d| - 1, e)
  {
    var h' := h + d[..|d| - 1];
    forall j | |h| <= j < |h'|
      ensures h'[j] == h'[j - e]
    {
      assert h'[j] == (h + d)[j] && h'[j - e] == (h + d)[j - e];
    }
  }

  // ---------- every step of a frame ----------

  // a literal appends its byte, a match repeats one to 257 bytes
  lemma ElementKeeps(src: seq<nat>, st: Lzx, h: seq<nat>) returns (h': seq<nat>)
    requires IsBytes(src) && Inside(st, h) && st.windowPosn < |st.window| && Element(src, st).Ok?
    ensures h <= h' && Inside(Element(src, st).value, h')
  {
    hide Match, Symbol, Ahead, Shows, IsBytes;
    var (element, c) := Symbol(src, st.mainLens[..MAIN_SYMBOLS], st.cur).value;
    h' := h + Element(src, st).value.window[st.windowPosn..Element(src, st).value.windowPosn];
    if element < NUM_CHARS {
      LiteralKeeps(st.window, st.windowPosn, element, h);
    } else {
      MatchRepeats(src, st.(cur := c), element - NUM_CHARS, h);
    }
  }

  lemma LiteralKeeps(w: seq<nat>, posn: nat, b: nat, h: seq<nat>)
    requires Shows(w, posn, h) && posn < |w| && b < 256 && IsBytes(h)
    ensures var w' := w[posn := b];
      w'[posn..posn + 1] == [b] && Shows(w', posn + 1, h + [b]) && IsBytes(h + [b])
  {
    ShowsMore(w, w[posn := b], posn, posn + 1, h);
  }

  lemma {:induction false} RunKeeps(src: seq<nat>, st: Lzx, run: int, h: seq<nat>) returns (h': seq<nat>)
    requires IsBytes(src) && Inside(st, h) && st.windowPosn + run <= |st.window| && Run(src, st, run).Ok?
    ensures h <= h' && Inside(Run(src, st, run).value.0, h')
    decreases run
  {
    hide Element, Ahead, Inside, StOk;
    InsideOk(st, h);
    if run <= 0 {
      h' := h;
    } else {
      var st1 := Element(src, st).value;
      var h1 := ElementKeeps(src, st, h);
      InsideOk(st1, h1);
      h' := RunKeeps(src, st1, run - (st1.windowPosn - st.windowPosn), h1);
    }
  }

  lemma InsideOk(st: Lzx, h: seq<nat>)
    requires Inside(st, h)
    ensures StOk(st) && st.windowPosn <= |st.window| == st.p.windowSize
  {
  }

  lemma RawRunKeeps(src: seq<nat>, st: Lzx, run: nat, h: seq<nat>) returns (h': seq<nat>)
    requires IsBytes(src) && Inside(st, h) && st.windowPosn + run <= |st.window| && RawRun(src, st, run).Ok?
    ensures h <= h' && Inside(RawRun(src, st, run).value, h')
  {
    hide Ahead, Shows;
    var data, a := Bytes(src, st.cur, run).value.0, st.windowPosn;
    RawWrites(src, st, run);
    var w' := RawRun(src, st, run).value.window;
    ShowsMore(st.window, w', a, a + run, h);
    assert w'[a..a + run] == data;
    h' := h + data;
  }

  lemma RunOfBlockKeeps(src: seq<nat>, st: Lzx, run: nat, h: seq<nat>) returns (h': seq<nat>)
    requires IsBytes(src) && Inside(st, h) && run <= st.blockRemaining && st.windowPosn + run <= |st.window|
    requires RunOfBlock(src, st, run).Ok?
    ensures h <= h' && Inside(RunOfBlock(src, st, run).value, h')
  {
    hide Run, RawRun, Ahead, Shows, IsBytes;
    var st1 := st.(blockRemaining := st.blockRemaining - run);
    if st.blockType == UNCOMPRESSED {
      h' := RawRunKeeps(src, st1, run, h);
    } else {
      h' := RunKeeps(src, st1, run, h);
    }
  }

  lemma BlockStepKeeps(src: seq<nat>, st: Lzx, todo: nat, h: seq<nat>) returns (h': seq<nat>)
    requires IsBytes(src) && Inside(st, h) && todo > 0 && st.windowPosn + todo <= |st.window|
    requires BlockStep(src, st, todo).Ok?
    ensures h <= h' && Inside(BlockStep(src, st, todo).value.0, h')
  {
    hide NewBlock, RunOfBlock, Ahead, Shows, IsBytes;
    var st1 := NewBlock(src, st).value;
    h' := RunOfBlockKeeps(src, st1, Min(st1.blockRemaining, todo), h);
  }

  lemma {:induction false} BlockLoopKeeps(src: seq<nat>, st: Lzx, todo: nat, h: seq<nat>) returns (h': seq<nat>)
    requires IsBytes(src) && Inside(st, h) && (todo > 0 ==> st.windowPosn + todo <= |st.window|)
    requires BlockLoop(src, st, todo).Ok?
    ensures h <= h' && Inside(BlockLoop(src, st, todo).value, h')
    decreases Ahead(src, st.cur), todo
  {
    hide StOk, BlockStep, Ahead, Inside;
    InsideOk(st, h);
    if todo == 0 {
      h' := h;
    } else {
      var (st1, todo1) := BlockStep(src, st, todo).value;
      var h1 := BlockStepKeeps(src, st, todo, h);
      InsideOk(st1, h1);
      h' := BlockLoopKeeps(src, st1, todo1, h1);
    }
  }

  // ---------- between two frames ----------

  // The history ends with what is not written yet; the next frame begins where the number of decoded
  // bytes goes round the window; and intel_curpos is that number if there is a file size.
  predicate Placed(st: Lzx, h: seq<nat>)
  {
    FrameOk(st) && IsBytes(h) && Shows(st.window, st.framePosn, h) &&
    var decoded := st.offset + |st.pending|;
    |h| == st.p.windowSize + decoded && st.framePosn == decoded % st.p.windowSize &&
    -0x8000_0000 <= st.intelFilesize < 0x8000_0000 &&
    (!st.headerRead ==> decoded == 0 && st.intelFilesize == 0) &&
    st.intelCurpos == if st.intelFilesize != 0 then decoded else 0
  }

  lemma InitialPlaced(p: Params, window: seq<nat>)
    requires |window| == p.windowSize > 0 && p.windowSize % FRAME_SIZE == 0 && p.numOffsets <= MAIN_SYMBOLS - NUM_CHARS
    requires IsBytes(window)
    ensures Placed(Initial(p, window), window)
  {
    InitialOk(p, window);
    SmallRemainder(0, p.windowSize);
  }

  lemma WritePlaced(st: Lzx, h: seq<nat>, n: nat)
    requires Placed(st, h) && n <= |st.pending|
    ensures Placed(Write(st, n), h)
  {
    hide FrameOk, Shows, IsBytes;
  }

  // the file size of the stream's header has 32 bits
  lemma HeaderInRange(src: seq<nat>, c: Cursor)
    requires Input(src, c) && HeaderNumber(src, c).Ok?
    ensures -0x8000_0000 <= HeaderNumber(src, c).value.0 < 0x8000_0000
  {
    Pow2Values();
    hide Pow2, Bits, IsBytes, CursorOk;
  }

  // how many bytes the next frame has, with this many written before it; an unknown length is 0
  function FrameBytesDue(length: nat, written: nat): int
  {
    if length > 0 && length < written + 32768 then length - written else 32768
  }

  lemma StartOfFrame(st: Lzx, h: seq<nat>)
    requires Placed(st, h) && st.pending == []
    ensures Inside(st, h) && (st.p.length > 0 ==> st.offset <= st.p.length)
    ensures StOk(st) && st.windowPosn == st.framePosn && st.framePosn + FrameSize(st) <= st.p.windowSize
    ensures FrameSize(st) <= FRAME_SIZE && FrameSize(st) == FrameBytesDue(st.p.length, st.offset)
  {
    hide Shows, IsBytes;
    FrameFits(st);
  }

  // behind the blocks of a frame
  predicate BlocksDone(st: Lzx, st1: Lzx)
  {
    st1.p == st.p && st1.framePosn == st.framePosn && st1.frame == st.frame && st1.offset == st.offset &&
    st1.headerRead && st1.intelCurpos == st.intelCurpos && -0x8000_0000 <= st1.intelFilesize < 0x8000_0000 &&
    (st.headerRead ==> st1.intelFilesize == st.intelFilesize)
  }

  lemma BlocksKeep(src: seq<nat>, st: Lzx, h: seq<nat>) returns (h': seq<nat>)
    requires IsBytes(src) && Placed(st, h) && st.pending == []
    requires (st.p.length > 0 ==> st.offset <= st.p.length) && st.framePosn + FrameSize(st) <= st.p.windowSize
    requires StOk(st) && st.windowPosn == st.framePosn && DecodeBlocks(src, st, FrameSize(st)).Ok?
    ensures h <= h' && Inside(DecodeBlocks(src, st, FrameSize(st)).value, h')
    ensures BlocksDone(st, DecodeBlocks(src, st, FrameSize(st)).value)
  {
    hide BlockLoop, Shows, StOk, IsBytes, HeaderNumber, FrameSize;
    StartOfFrame(st, h);
    if !st.headerRead {
      CurInput(src, st);
      HeaderInRange(src, st.cur);
    }
    var st1 := ReadHeader(src, st).value;
    InsideOk(st, h);
    h' := BlockLoopKeeps(src, st1, FrameSize(st), h);
  }

  // What a frame adds to the history, and what it writes out for that: its new bytes, in which, if
  // there may be calls, the number behind every call is translated according to the call's place in the
  // whole output.
  lemma FrameInHistory(src: seq<nat>, st: Lzx, h: seq<nat>) returns (h': seq<nat>)
    requires IsBytes(src) && Placed(st, h) && st.pending == [] && DecodeFrame(src, st).Ok?
    ensures h <= h' && Placed(DecodeFrame(src, st).value, h') && DecodeFrame(src, st).value.headerRead
    ensures st.headerRead ==> DecodeFrame(src, st).value.intelFilesize == st.intelFilesize
    ensures var st' := DecodeFrame(src, st).value;
      |st'.pending| == |h'| - |h| == FrameBytesDue(st.p.length, st.offset) &&
      if st'.intelStarted && st'.intelFilesize != 0 && st.frame <= 32768 && |st'.pending| > 10
      then IntelE8.Translated(h'[|h|..], st'.pending, st.offset, st'.intelFilesize)
      else st'.pending == h'[|h|..]
  {
    hide DecodeBlocks, FinishFrame, FrameBytes, Shows, IsBytes, FrameOk, FrameSize, Inside;
    StartOfFrame(st, h);
    h' := BlocksKeep(src, st, h);
    EndOfFrame(src, st, DecodeBlocks(src, st, FrameSize(st)).value, FrameSize(st), h, h');
  }

  // the frame that has just been decoded is the end of the history
  lemma FrameShown(st: Lzx, size: nat, h: seq<nat>, h': seq<nat>)
    requires h <= h' && Inside(st, h') && |h| == st.p.windowSize + st.offset && st.windowPosn == st.framePosn + size
    ensures st.windowPosn <= |st.window| && st.window[st.framePosn..st.windowPosn] == h'[|h|..]
  {
    hide StOk, IsBytes;
    InsideOk(st, h');
    Halves(st.window, st.windowPosn, h');
    assert |h'| == |h| + size;
    assert st.window[st.framePosn..st.windowPosn] == st.window[..st.windowPosn][st.framePosn..];
  }

  lemma EndOfFrame(src: seq<nat>, st: Lzx, st1: Lzx, size: nat, h: seq<nat>, h': seq<nat>)
    requires IsBytes(src) && Placed(st, h) && st.pending == [] && h <= h' && Inside(st1, h') && BlocksDone(st, st1)
    requires StOk(st1) && st1.framePosn + size <= st1.p.windowSize && size <= FRAME_SIZE
    requires FinishFrame(src, st1, size).Ok? && FrameOk(FinishFrame(src, st1, size).value)
    ensures var st' := FinishFrame(src, st1, size).value;
      Placed(st', h') && |st'.pending| == |h'| - |h| == size && st'.headerRead &&
      st'.intelFilesize == st1.intelFilesize &&
      if st'.intelStarted && st'.intelFilesize != 0 && st.frame <= 32768 && |st'.pending| > 10
      then IntelE8.Translated(h'[|h|..], st'.pending, st.offset, st'.intelFilesize)
      else st'.pending == h'[|h|..]
  {
    hide FinishFrame, IntelE8.Translated, FrameOk, FrameBytes, Wrapped, Shows, IsBytes, StOk;
    Finished(src, st1, size);
    var st' := FinishFrame(src, st1, size).value;
    InsideOk(st1, h');
    FrameShown(st1, size, h, h');
    OutputOf(st, st1, size, h, h');
    PlacedBehind(st, st1, size, h, h', st');
  }

  lemma Finished(src: seq<nat>, st: Lzx, size: nat)
    requires IsBytes(src) && StOk(st) && st.framePosn + size <= st.p.windowSize && FinishFrame(src, st, size).Ok?
    ensures var st' := FinishFrame(src, st, size).value;
      st.windowPosn == st.framePosn + size && st'.pending == FrameBytes(st, size) &&
      st'.intelStarted == st.intelStarted && st'.offset == st.offset && Advances(st, size, st')
  {
    hide Realign, IntelE8.Transform;
  }

  predicate Advances(st: Lzx, size: nat, st': Lzx)
  {
    st'.p == st.p && st'.window == st.window && st'.framePosn == Wrapped(st.framePosn + size, st.p.windowSize) &&
    st'.intelFilesize == st.intelFilesize && st'.headerRead == st.headerRead &&
    st'.intelCurpos == if st.intelFilesize != 0 then st.intelCurpos + size else st.intelCurpos
  }

  lemma PlacedBehind(st: Lzx, st1: Lzx, size: nat, h: seq<nat>, h': seq<nat>, st': Lzx)
    requires Placed(st, h) && st.pending == [] && Inside(st1, h') && BlocksDone(st, st1)
    requires st1.windowPosn == st1.framePosn + size <= |st1.window| && |h'| == |h| + size
    requires FrameOk(st') && Advances(st1, size, st') && st'.offset == st1.offset && |st'.pending| == size
    ensures Placed(st', h')
  {
    hide Shows, IsBytes, FrameOk, StOk;
    InsideOk(st1, h');
    NextPlace(st.offset, st1.framePosn, size, st1.p.windowSize);
    if st1.windowPosn == |st1.window| {
      ShowsWrapped(st1.window, h');
    }
  }

  // the bytes of the frame, as they are written
  lemma OutputOf(st: Lzx, st1: Lzx, size: nat, h: seq<nat>, h': seq<nat>)
    requires Placed(st, h) && st.pending == [] && h <= h' && Inside(st1, h') && BlocksDone(st, st1) && size <= FRAME_SIZE
    requires StOk(st1) && st1.framePosn + size == st1.windowPosn <= |st1.window|
    requires st1.window[st1.framePosn..st1.windowPosn] == h'[|h|..]
    ensures
      if st1.intelStarted && st1.intelFilesize != 0 && st.frame <= 32768 && size > 10
      then IntelE8.Translated(h'[|h|..], FrameBytes(st1, size), st.offset, st1.intelFilesize)
      else FrameBytes(st1, size) == h'[|h|..]
  {
    hide Shows, FrameOk, StOk, IsBytes, IntelE8.Transform, IntelE8.Translated;
    BytesBehind(h', |h|);
    if st1.intelFilesize != 0 && st.frame <= 32768 {
      OffsetBound(st);
      assert |h'[|h|..]| == size;
      IntelE8.TransformTranslates(h'[|h|..], st.offset, st1.intelFilesize);
    }
  }

  lemma BytesBehind(h: seq<nat>, n: nat)
    requires IsBytes(h) && n <= |h|
    ensures IsBytes(h[n..])
  {
  }

  lemma OffsetBound(st: Lzx)
    requires FrameOk(st)
    ensures st.offset + |st.pending| <= st.frame * 32768
  {
    hide StOk;
  }

  // where the next frame begins
  lemma NextPlace(n: nat, f: nat, size: nat, m: nat)
    requires m > 0 && f == n % m && f + size <= m
    ensures (n + size) % m == if f + size == m then 0 else f + size
  {
    if f + size == m {
      DivUnique(n + size, m, n / m + 1, 0);
    } else {
      DivUnique(n + size, m, n / m, f + size);
    }
  }

  // ---------- requests ----------

  lemma {:induction false} FrameLoopKeeps(src: seq<nat>, st: Lzx, n: nat, endFrame: nat, h: seq<nat>)
    returns (h': seq<nat>)
    requires IsBytes(src) && Placed(st, h) && FrameLoop(src, st, n, endFrame).Ok?
    ensures h <= h' && Placed(FrameLoop(src, st, n, endFrame).value.0, h')
    decreases endFrame - st.frame
  {
    hide DecodeFrame, FrameOk, Shows, IntelE8.Translated, IsBytes;
    if st.frame >= endFrame {
      h' := h;
    } else {
      var st1 := DecodeFrame(src, st).value;
      var h1 := FrameInHistory(src, st, h);
      var i := Min(n, |st1.pending|);
      WritePlaced(st1, h1, i);
      h' := FrameLoopKeeps(src, Write(st1, i), n - i, endFrame, h1);
    }
  }

  // However the output is asked for, the state is placed behind one history that only grows.
  lemma DecompressKeeps(src: seq<nat>, st: Lzx, n: nat, h: seq<nat>) returns (h': seq<nat>)
    requires IsBytes(src) && Placed(st, h) && Decompress(src, st, n).Ok?
    ensures h <= h' && Placed(Decompress(src, st, n).value.0, h')
  {
    hide FrameLoop, Placed;
    PlacedOk(st, h);
    var i := Min(n, |st.pending|);
    WritePlaced(st, h, i);
    h' := h;
    if i < n {
      var st1 := Write(st, i);
      h' := FrameLoopKeeps(src, st1, n - i, EndFrame(st1, n - i), h);
    }
  }

  lemma PlacedOk(st: Lzx, h: seq<nat>)
    requires Placed(st, h)
    ensures FrameOk(st)
  {
  }

  // Without an E8 transform the output of whole frames is what they add to the history.
  lemma {:induction false} FramesInHistory(src: seq<nat>, st: Lzx, k: nat, h: seq<nat>) returns (h': seq<nat>)
    requires IsBytes(src) && Placed(st, h) && st.pending == [] && Frames(src, st, k).Ok?
    ensures var (st', out) := Frames(src, st, k).value;
      h <= h' && Placed(st', h') && |out| == |h'| - |h| && (k > 0 ==> st'.headerRead) &&
      (st'.intelFilesize == 0 ==> out == h'[|h|..])
  {
    hide DecodeFrame, FrameOk, Shows, IntelE8.Translated, IsBytes;
    if k == 0 {
      h' := h;
    } else {
      var (st1, front) := Frames(src, st, k - 1).value;
      var h1 := FramesInHistory(src, st, k - 1, h);
      h' := FrameInHistory(src, st1, h1);
      var st2 := DecodeFrame(src, st1).value;
      WritePlaced(st2, h', |st2.pending|);
      assert h'[|h|..] == h1[|h|..] + h'[|h1|..];
    }
  }
}
