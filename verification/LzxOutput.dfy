// lzxd_decompress: delivering any number of decoded bytes on request.  Requests are served from
// whole frames, so bytes can be left over from one request to the next, and a request that ends on
// a frame boundary decodes one frame ahead.  The result is the same however the output is asked for.
module LzxOutput {
  import opened BitStream
  import opened LzxSpec

  // write n of the pending bytes
  function Write(st: Lzx, n: nat): (r: Lzx)
    requires n <= |st.pending|
    ensures FrameOk(st) ==> FrameOk(r)
  {
    st.(pending := st.pending[n..], offset := st.offset + n)
  }

  // the frame number at which a request for n more bytes stops
  function EndFrame(st: Lzx, n: nat): nat
  {
    (st.offset + n) / FRAME_SIZE + 1
  }

  // while (lzx->frame < end_frame); the result is the state, the bytes written, and how many of
  // the requested bytes are missing
  function FrameLoop(src: seq<nat>, st: Lzx, n: nat, endFrame: nat): (r: Result<(Lzx, seq<nat>, nat)>)
    requires IsBytes(src) && FrameOk(st)
    ensures r.Ok? ==> FrameOk(r.value.0)
    decreases endFrame - st.frame
  {
    if st.frame >= endFrame then Ok((st, [], n))
    else if st.pending != [] then Fail(Decrunch)    // a frame that is not written out
    else
      var st1 :- DecodeFrame(src, st);
      var i := Min(n, |st1.pending|);
      var (st2, rest, missing) :- FrameLoop(src, Write(st1, i), n - i, endFrame);
      Ok((st2, st1.pending[..i] + rest, missing))
  }

  // what the frame loop gives when written has been written before
  function Joined(written: seq<nat>, r: Result<(Lzx, seq<nat>, nat)>): Result<(Lzx, seq<nat>, nat)>
  {
    if r.Fail? then r else Ok((r.value.0, written + r.value.1, r.value.2))
  }

  lemma LoopUnfolds(src: seq<nat>, st: Lzx, n: nat, end: nat)
    requires IsBytes(src) && FrameOk(st) && st.pending == [] && st.frame < end && DecodeFrame(src, st).Ok?
    ensures var st1 := DecodeFrame(src, st).value;
      var i := Min(n, |st1.pending|);
      FrameLoop(src, st, n, end) == Joined(st1.pending[..i], FrameLoop(src, Write(st1, i), n - i, end))
  {
    hide FrameOk, DecodeFrame;
  }

  lemma LoopOver(src: seq<nat>, st: Lzx, n: nat, end: nat)
    requires IsBytes(src) && FrameOk(st) && st.frame >= end
    ensures FrameLoop(src, st, n, end) == Ok((st, [], n))
  {
    hide FrameOk;
  }

  // lzxd_decompress: the state afterwards and the bytes written
  function Decompress(src: seq<nat>, st: Lzx, n: nat): (r: Result<(Lzx, seq<nat>)>)
    requires IsBytes(src) && FrameOk(st)
    ensures r.Ok? ==> FrameOk(r.value.0)
  {
    // the bytes of the last frame that nobody has asked for yet come first
    var i := Min(n, |st.pending|);
    var st1 := Write(st, i);
    if i == n then Ok((st1, st.pending[..i]))
    else
      var (st2, written, missing) :- FrameLoop(src, st1, n - i, EndFrame(st1, n - i));
      if missing > 0 then Fail(Decrunch) else Ok((st2, st.pending[..i] + written))
  }

  // ---------- the simple form: frames one after the other ----------

  // everything decoded has been written
  function Flushed(st: Lzx): (r: Lzx)
    ensures FrameOk(st) ==> FrameOk(r)
  {
    Write(st, |st.pending|)
  }

  // the next k frames, with all their bytes
  function Frames(src: seq<nat>, st: Lzx, k: nat): (r: Result<(Lzx, seq<nat>)>)
    requires IsBytes(src) && FrameOk(st) && st.pending == []
    ensures r.Ok? ==> FrameOk(r.value.0) && r.value.0.pending == [] && r.value.0.p == st.p
    ensures r.Ok? ==> r.value.0.frame == st.frame + k && r.value.0.offset == st.offset + |r.value.1|
  {
    if k == 0 then Ok((st, []))
    else
      var (st1, front) :- Frames(src, st, k - 1);
      var st2 :- DecodeFrame(src, st1);
      Ok((Flushed(st2), front + st2.pending))
  }

  // what comes out when more frames follow
  function Then(src: seq<nat>, r: Result<(Lzx, seq<nat>)>, k: nat): Result<(Lzx, seq<nat>)>
    requires IsBytes(src) && (r.Ok? ==> FrameOk(r.value.0) && r.value.0.pending == [])
  {
    if r.Fail? then r
    else
      var more := Frames(src, r.value.0, k);
      if more.Fail? then more else Ok((more.value.0, r.value.1 + more.value.1))
  }

  lemma {:induction false} FramesAdd(src: seq<nat>, st: Lzx, j: nat, k: nat)
    requires IsBytes(src) && FrameOk(st) && st.pending == []
    ensures Frames(src, st, j + k) == Then(src, Frames(src, st, j), k)
  {
    hide FrameOk, DecodeFrame;
    if k == 0 {
      if Frames(src, st, j).Ok? {
        assert Frames(src, st, j).value.1 + [] == Frames(src, st, j).value.1;
      }
    } else {
      FramesAdd(src, st, j, k - 1);
      assert j + k - 1 == j + (k - 1);
      if Frames(src, st, j + k).Ok? {
        var (st1, front) := Frames(src, st, j).value;
        var (st2, back) := Frames(src, st1, k - 1).value;
        var last := DecodeFrame(src, st2).value.pending;
        assert front + back + last == front + (back + last);
      }
    }
  }

  function OneFrame(src: seq<nat>, st: Lzx): Result<(Lzx, seq<nat>)>
    requires IsBytes(src) && FrameOk(st) && st.pending == []
  {
    var r := DecodeFrame(src, st);
    if r.Fail? then Fail(r.error) else Ok((Flushed(r.value), r.value.pending))
  }

  // one frame, then the others
  lemma FramesFirst(src: seq<nat>, st: Lzx, k: nat)
    requires IsBytes(src) && FrameOk(st) && st.pending == []
    ensures Frames(src, st, k + 1) == Then(src, OneFrame(src, st), k)
  {
    hide FrameOk, DecodeFrame;
    FramesAdd(src, st, 1, k);
    assert Frames(src, st, 0) == Ok((st, []));
    if DecodeFrame(src, st).Ok? {
      assert [] + DecodeFrame(src, st).value.pending == DecodeFrame(src, st).value.pending;
    }
  }

  // ---------- any request is a piece of the frames ----------

  // the state in which the bytes of rest, the last ones decoded, have not been written
  function Unwritten(st: Lzx, rest: seq<nat>): Lzx
    requires st.pending == [] && |rest| <= st.offset
  {
    st.(pending := rest, offset := st.offset - |rest|)
  }

  // the frame loop for n bytes delivers them from k frames, and only the last of these can be
  // written in part
  ghost predicate LoopDelivers(src: seq<nat>, st: Lzx, n: nat, end: nat, k: nat)
    requires IsBytes(src) && FrameOk(st) && st.pending == []
  {
    var r := FrameLoop(src, st, n, end);
    var frames := Frames(src, st, k);
    if frames.Fail? then r == Fail(frames.error)
    else
      var (f, bytes) := frames.value;
      var i := Min(n, |bytes|);
      r == Ok((Unwritten(f, bytes[i..]), bytes[..i], n - i))
  }

  lemma NoFrame(src: seq<nat>, st: Lzx, n: nat, end: nat)
    requires IsBytes(src) && FrameOk(st) && st.pending == [] && st.frame >= end
    ensures LoopDelivers(src, st, n, end, 0)
  {
    hide FrameOk;
    assert Unwritten(st, []) == st;
  }

  lemma FailingFrame(src: seq<nat>, st: Lzx, n: nat, end: nat, k: nat)
    requires IsBytes(src) && FrameOk(st) && st.pending == [] && st.frame < end && k > 0
    requires DecodeFrame(src, st).Fail?
    ensures LoopDelivers(src, st, n, end, k)
  {
    hide FrameOk, DecodeFrame;
    FramesFirst(src, st, k - 1);
  }

  lemma {:induction false} FrameLoopIs(src: seq<nat>, st: Lzx, n: nat, k: nat)
    requires IsBytes(src) && FrameOk(st) && st.pending == []
    requires k == if st.frame < EndFrame(st, n) then EndFrame(st, n) - st.frame else 0
    ensures LoopDelivers(src, st, n, EndFrame(st, n), k)
    decreases k
  {
    hide FrameOk, DecodeFrame, LoopDelivers, FrameLoop, Frames;
    if k == 0 {
      NoFrame(src, st, n, EndFrame(st, n));
    } else if DecodeFrame(src, st).Fail? {
      FailingFrame(src, st, n, EndFrame(st, n), k);
    } else {
      var st1 := DecodeFrame(src, st).value;
      if n >= |st1.pending| {
        FrameLoopIs(src, Flushed(st1), n - |st1.pending|, k - 1);
        WholeFrame(src, st, n, EndFrame(st, n), k);
      } else {
        LastFrame(src, st, n);
        PartFrame(src, st, n);
      }
    }
  }

  lemma LastFrame(src: seq<nat>, st: Lzx, n: nat)
    requires IsBytes(src) && FrameOk(st) && st.pending == [] && DecodeFrame(src, st).Ok?
    requires n < |DecodeFrame(src, st).value.pending|
    ensures EndFrame(st, n) <= st.frame + 1
  {
    hide StOk, DecodeFrame;
  }

  lemma SplitAt(a: seq<nat>, b: seq<nat>, i: nat)
    requires i <= |b|
    ensures (a + b)[..|a| + i] == a + b[..i] && (a + b)[|a| + i..] == b[i..]
  {
  }

  lemma Whole(a: seq<nat>)
    ensures a + [] == a && [] + a == a && a[..|a|] == a
  {
  }

  lemma PartFrame(src: seq<nat>, st: Lzx, n: nat)
    requires IsBytes(src) && FrameOk(st) && st.pending == [] && DecodeFrame(src, st).Ok?
    requires n < |DecodeFrame(src, st).value.pending|
    ensures LoopDelivers(src, st, n, st.frame + 1, 1)
  {
    hide FrameOk, DecodeFrame, FrameLoop;
    LoopUnfolds(src, st, n, st.frame + 1);
    FramesFirst(src, st, 0);
    var st1 := DecodeFrame(src, st).value;
    Whole(st1.pending);
    Whole(st1.pending[..n]);
    assert Frames(src, st, 1) == Ok((Flushed(st1), st1.pending));
    LoopOver(src, Write(st1, n), 0, st.frame + 1);
  }

  lemma WholeFrame(src: seq<nat>, st: Lzx, n: nat, end: nat, k: nat)
    requires IsBytes(src) && FrameOk(st) && st.pending == [] && DecodeFrame(src, st).Ok? && k > 0
    requires st.frame < end && n >= |DecodeFrame(src, st).value.pending|
    requires LoopDelivers(src, Flushed(DecodeFrame(src, st).value), n - |DecodeFrame(src, st).value.pending|, end, k - 1)
    ensures LoopDelivers(src, st, n, end, k)
  {
    hide FrameOk, DecodeFrame, Frames, FrameLoop, Unwritten;
    LoopUnfolds(src, st, n, end);
    FramesFirst(src, st, k - 1);
    var st1 := DecodeFrame(src, st).value;
    Whole(st1.pending);
    if Frames(src, Flushed(st1), k - 1).Ok? {
      var (f, bytes) := Frames(src, Flushed(st1), k - 1).value;
      SplitAt(st1.pending, bytes, Min(n - |st1.pending|, |bytes|));
    }
  }

  // the number of frames a request for n bytes decodes; a request that ends on a frame boundary
  // decodes the frame behind it as well
  function Needed(st: Lzx, n: nat): nat
  {
    if n <= |st.pending| || EndFrame(st, n) <= st.frame then 0 else EndFrame(st, n) - st.frame
  }

  // what a request delivers from k frames
  function Deliver(src: seq<nat>, st: Lzx, n: nat, k: nat): Result<(Lzx, seq<nat>)>
    requires IsBytes(src) && FrameOk(st)
  {
    var frames := Frames(src, Flushed(st), k);
    if frames.Fail? then Fail(frames.error)
    else
      var bytes := st.pending + frames.value.1;
      if |bytes| < n then Fail(Decrunch)
      else Ok((Unwritten(frames.value.0, bytes[n..]), bytes[..n]))
  }

  // A request delivers the left-over bytes followed by the frames it needs, up to its length, and
  // leaves the rest for later; it fails exactly when a frame fails or the stream ends too early.
  lemma DecompressIs(src: seq<nat>, st: Lzx, n: nat)
    requires IsBytes(src) && FrameOk(st)
    ensures Decompress(src, st, n) == Deliver(src, st, n, Needed(st, n))
  {
    hide FrameOk, DecodeFrame;
    if n <= |st.pending| {
      assert Frames(src, Flushed(st), 0) == Ok((Flushed(st), []));
      assert st.pending + [] == st.pending;
      assert Unwritten(Flushed(st), st.pending[n..]) == Write(st, n);
    } else {
      var f := Flushed(st);
      var m := n - |st.pending|;
      assert EndFrame(f, m) == EndFrame(st, n);
      FrameLoopIs(src, f, m, Needed(st, n));
      assert Write(st, Min(n, |st.pending|)) == f;
      assert st.pending[..|st.pending|] == st.pending;
      if Frames(src, f, Needed(st, n)).Ok? {
        var bytes := Frames(src, f, Needed(st, n)).value.1;
        if m <= |bytes| {
          assert (st.pending + bytes)[..n] == st.pending + bytes[..m];
          assert (st.pending + bytes)[n..] == bytes[m..];
        }
      }
    }
  }

  // fewer frames deliver a prefix of what more frames do
  lemma FewerFrames(src: seq<nat>, st: Lzx, j: nat, k: nat)
    requires IsBytes(src) && FrameOk(st) && st.pending == [] && j <= k && Frames(src, st, k).Ok?
    ensures Frames(src, st, j).Ok? && Frames(src, st, j).value.1 <= Frames(src, st, k).value.1
    ensures Frames(src, Frames(src, st, j).value.0, k - j).Ok?
  {
    hide FrameOk, DecodeFrame;
    FramesAdd(src, st, j, k - j);
  }

  // the frames up to the one that byte offset + n lies in hold that byte, unless the stream ends
  lemma EnoughFrames(src: seq<nat>, st: Lzx, n: nat)
    requires IsBytes(src) && FrameOk(st) && Frames(src, Flushed(st), Needed(st, n)).Ok?
    requires st.p.length > 0 ==> st.offset + n <= st.p.length
    ensures |st.pending| + |Frames(src, Flushed(st), Needed(st, n)).value.1| >= n
  {
    hide StOk;
    var f := Frames(src, Flushed(st), Needed(st, n)).value.0;
    assert FrameOk(f) && f.p == st.p;
    if n > |st.pending| {
      assert f.frame >= EndFrame(st, n);
      assert f.frame * FRAME_SIZE >= EndFrame(st, n) * FRAME_SIZE >= st.offset + n;
    }
  }

  lemma WithinStream(src: seq<nat>, st: Lzx, n: nat)
    requires IsBytes(src) && FrameOk(st) && Decompress(src, st, n).Ok?
    ensures st.p.length > 0 ==> st.offset + n <= st.p.length
  {
    DecompressIs(src, st, n);
    hide StOk, Decompress;
    var f := Frames(src, Flushed(st), Needed(st, n)).value.0;
    assert FrameOk(f) && f.p == st.p;
  }

  lemma FirstPart(src: seq<nat>, st: Lzx, n1: nat, n2: nat)
    requires IsBytes(src) && FrameOk(st) && Decompress(src, st, n1 + n2).Ok?
    ensures Decompress(src, st, n1).Ok?
    ensures Decompress(src, st, n1).value.1 <= Decompress(src, st, n1 + n2).value.1
    ensures Needed(st, n1) <= Needed(st, n1 + n2)
  {
    hide FrameOk, Decompress, Needed, EndFrame, Frames, DecodeFrame, IsBytes;
    WithinStream(src, st, n1 + n2);
    DecompressIs(src, st, n1);
    DecompressIs(src, st, n1 + n2);
    NeededMono(st, n1, n1 + n2);
    FewerFrames(src, Flushed(st), Needed(st, n1), Needed(st, n1 + n2));
    EnoughFrames(src, st, n1);
  }

  lemma NeededMono(st: Lzx, n: nat, m: nat)
    requires n <= m
    ensures Needed(st, n) <= Needed(st, m)
  {
  }

  // after the first part, the second needs no more than the rest of the frames; it is one less
  // when the bytes left over end it exactly on a frame boundary
  lemma SecondNeeds(src: seq<nat>, st: Lzx, n1: nat, n2: nat)
    requires IsBytes(src) && FrameOk(st) && Decompress(src, st, n1).Ok?
    ensures var st1 := Decompress(src, st, n1).value.0;
      st1.offset == st.offset + n1 && st1.frame == st.frame + Needed(st, n1) && st1.p == st.p
    ensures var st1 := Decompress(src, st, n1).value.0;
      Needed(st, n1) + Needed(st1, n2) <= Needed(st, n1 + n2) &&
      (n2 > |st1.pending| ==> Needed(st, n1) + Needed(st1, n2) == Needed(st, n1 + n2))
  {
    DecompressIs(src, st, n1);
    NeededMono(st, n1, n1 + n2);
    hide FrameOk, Decompress, DecodeFrame;
    var bytes := st.pending + Frames(src, Flushed(st), Needed(st, n1)).value.1;
    var st1 := Decompress(src, st, n1).value.0;
    assert st1.pending == bytes[n1..];
    if n2 > |st1.pending| {
      assert n1 + n2 > |st.pending|;
      assert EndFrame(st1, n2) == EndFrame(st, n1 + n2);
    }
  }

  // two deliveries in a row are one
  lemma DeliverTwice(src: seq<nat>, st: Lzx, n1: nat, n2: nat, j: nat, k: nat)
    requires IsBytes(src) && FrameOk(st) && Deliver(src, st, n1, j).Ok? && FrameOk(Deliver(src, st, n1, j).value.0)
    ensures var st1 := Deliver(src, st, n1, j).value.0;
      var second := Deliver(src, st1, n2, k);
      var both := Deliver(src, st, n1 + n2, j + k);
      both ==
      if second.Fail? then second
      else Ok((second.value.0, Deliver(src, st, n1, j).value.1 + second.value.1))
  {
    hide FrameOk, DecodeFrame, Frames;
    var f := Flushed(st);
    FramesAdd(src, f, j, k);
    var (f1, b1) := Frames(src, f, j).value;
    var st1 := Deliver(src, st, n1, j).value.0;
    var bytes := st.pending + b1;
    assert Flushed(st1) == f1;
    if Frames(src, f1, k).Ok? {
      var b2 := Frames(src, f1, k).value.1;
      assert st.pending + (b1 + b2) == bytes + b2;
      assert bytes[n1..] + b2 == (bytes + b2)[n1..];
      if |bytes + b2| >= n1 + n2 {
        assert (bytes + b2)[n1..][n2..] == (bytes + b2)[n1 + n2..];
        assert (bytes + b2)[..n1 + n2] == bytes[..n1] + (bytes[n1..] + b2)[..n2];
      }
    }
  }

  lemma SecondPart(src: seq<nat>, st: Lzx, n1: nat, n2: nat)
    requires IsBytes(src) && FrameOk(st) && Decompress(src, st, n1 + n2).Ok? && Decompress(src, st, n1).Ok?
    ensures var st1 := Decompress(src, st, n1).value.0;
      Decompress(src, st1, n2).Ok? &&
      Decompress(src, st, n1 + n2).value.1 == Decompress(src, st, n1).value.1 + Decompress(src, st1, n2).value.1
  {
    hide FrameOk, Decompress, DecodeFrame, Needed, EndFrame, Frames, IsBytes, Deliver;
    var st1 := Decompress(src, st, n1).value.0;
    WithinStream(src, st, n1 + n2);
    DecompressIs(src, st, n1);
    DecompressIs(src, st, n1 + n2);
    DecompressIs(src, st1, n2);
    SecondNeeds(src, st, n1, n2);
    var j, k, m := Needed(st, n1), Needed(st1, n2), Needed(st, n1 + n2);
    SecondDelivers(src, st, n1, n2, j, k, m);
  }

  // the rest of the frames of a delivery delivers the rest of its bytes
  lemma SecondDelivers(src: seq<nat>, st: Lzx, n1: nat, n2: nat, j: nat, k: nat, m: nat)
    requires IsBytes(src) && FrameOk(st) && Deliver(src, st, n1, j).Ok? && Deliver(src, st, n1 + n2, m).Ok? && j + k <= m
    requires st.p.length > 0 ==> st.offset + (n1 + n2) <= st.p.length
    requires var st1 := Deliver(src, st, n1, j).value.0;
      FrameOk(st1) && k == Needed(st1, n2) && st1.offset == st.offset + n1 && st1.p == st.p
    ensures var second := Deliver(src, Deliver(src, st, n1, j).value.0, n2, k);
      second.Ok? &&
      Deliver(src, st, n1 + n2, m).value.1 == Deliver(src, st, n1, j).value.1 + second.value.1
  {
    hide FrameOk, DecodeFrame, Needed, EndFrame, Frames, IsBytes;
    var st1 := Deliver(src, st, n1, j).value.0;
    DeliverTwice(src, st, n1, n2, j, k);
    FewerFrames(src, Flushed(st), j + k, m);
    FramesAdd(src, Flushed(st), j, k);
    assert Flushed(st1) == Frames(src, Flushed(st), j).value.0;
    EnoughFrames(src, st1, n2);
  }

  // Whatever one request can deliver, two requests for its parts deliver too, and they write the
  // same bytes.
  lemma SplitRequest(src: seq<nat>, st: Lzx, n1: nat, n2: nat)
    requires IsBytes(src) && FrameOk(st) && Decompress(src, st, n1 + n2).Ok?
    ensures Decompress(src, st, n1).Ok?
    ensures Decompress(src, Decompress(src, st, n1).value.0, n2).Ok?
    ensures Decompress(src, st, n1 + n2).value.1 ==
            Decompress(src, st, n1).value.1 + Decompress(src, Decompress(src, st, n1).value.0, n2).value.1
  {
    hide FrameOk, Decompress;
    FirstPart(src, st, n1, n2);
    SecondPart(src, st, n1, n2);
  }

  // Does a joint request for n1 and n2 bytes need one frame more than the two in a row, of which the
  // first leads to st1?  It does when the second one is served from the left-over bytes alone, takes
  // all of them and ends on a frame boundary.
  predicate JointNeedsMore(st: Lzx, st1: Lzx, n1: nat, n2: nat)
  {
    n1 + n2 > |st.pending| && n2 == |st1.pending| && st1.offset + n2 == st1.frame * FRAME_SIZE
  }

  lemma JointNeeds(src: seq<nat>, st: Lzx, n1: nat, n2: nat)
    requires IsBytes(src) && FrameOk(st) && Decompress(src, st, n1).Ok?
    ensures var st1 := Decompress(src, st, n1).value.0;
      Needed(st, n1 + n2) == Needed(st, n1) + Needed(st1, n2) + if JointNeedsMore(st, st1, n1, n2) then 1 else 0
  {
    hide StOk, Decompress;
    SecondNeeds(src, st, n1, n2);
    NeededMono(st, n1, n1 + n2);
    var st1 := Decompress(src, st, n1).value.0;
    assert FrameOk(st1);
    if n2 <= |st1.pending| && n1 + n2 > |st.pending| {
      assert st1.offset + n2 <= st1.frame * FRAME_SIZE;
    }
  }

  // one more frame, decoded but not written
  lemma DeliverAhead(src: seq<nat>, st: Lzx)
    requires IsBytes(src) && FrameOk(st)
    ensures var r := DecodeFrame(src, Flushed(st));
      Deliver(src, st, |st.pending|, 1) == if r.Fail? then Fail(r.error) else Ok((r.value, st.pending))
  {
    hide FrameOk, DecodeFrame;
    FramesFirst(src, Flushed(st), 0);
    var r := DecodeFrame(src, Flushed(st));
    if r.Ok? {
      Whole(r.value.pending);
      assert Frames(src, Flushed(r.value), 0) == Ok((Flushed(r.value), []));
      SplitAt(st.pending, r.value.pending, 0);
      Whole(st.pending);
      assert r.value.pending[0..] == r.value.pending;
      assert Unwritten(Flushed(r.value), r.value.pending) == r.value;
    }
  }

  // Conversely, two requests can be joined: they write the same bytes and lead to the same state,
  // except that a joint request that ends with the left-over bytes on a frame boundary decodes
  // one frame more, and fails if that frame does.
  lemma JoinRequests(src: seq<nat>, st: Lzx, n1: nat, n2: nat)
    requires IsBytes(src) && FrameOk(st) && Decompress(src, st, n1).Ok?
    requires Decompress(src, Decompress(src, st, n1).value.0, n2).Ok?
    ensures var (st1, first) := Decompress(src, st, n1).value;
      var (st2, second) := Decompress(src, st1, n2).value;
      if JointNeedsMore(st, st1, n1, n2) then
        FrameOk(st2) && st2.pending == [] &&
        var ahead := DecodeFrame(src, st2);
        Decompress(src, st, n1 + n2) == if ahead.Fail? then Fail(ahead.error) else Ok((ahead.value, first + second))
      else Decompress(src, st, n1 + n2) == Ok((st2, first + second))
  {
    hide FrameOk, Decompress, DecodeFrame, Needed, EndFrame, Frames, Deliver, IsBytes;
    var st1 := Decompress(src, st, n1).value.0;
    DecompressIs(src, st, n1);
    DecompressIs(src, st, n1 + n2);
    DecompressIs(src, st1, n2);
    JointNeeds(src, st, n1, n2);
    if JointNeedsMore(st, st1, n1, n2) {
      AllLeftOver(src, st1);
      DeliverAhead(src, st1);
      DeliverTwice(src, st, n1, n2, Needed(st, n1), 1);
    } else {
      DeliverTwice(src, st, n1, n2, Needed(st, n1), Needed(st1, n2));
    }
  }

  lemma AllLeftOver(src: seq<nat>, st: Lzx)
    requires IsBytes(src) && FrameOk(st)
    ensures Decompress(src, st, |st.pending|) == Ok((Flushed(st), st.pending)) && Needed(st, |st.pending|) == 0
  {
    hide FrameOk;
    Whole(st.pending);
  }
}
