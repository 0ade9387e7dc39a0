// Code lengths that leave the range 0..16: when lzxd_read_lens lets that happen, and a stream on which
// it does.
module LzxStray {
  import opened Powers
  import opened CanonicalCode
  import opened BitStream
  import opened BitPack
  import opened HuffRead
  import opened LzxSpec
  import opened LzxTokens
  import opened LzxLengths

  // from index x on
  predicate InRange(lens: seq<nat>, x: nat, y: nat)
  {
    forall i :: x <= i < y && i < |lens| ==> lens[i] <= 16
  }

  // After pretree code 19 a second symbol is read, which can be 17, 18 or 19 as well.
  lemma DeltaRange(oldLen: nat, z: nat)
    requires oldLen <= 16 && z < PRETREE_SYMBOLS
    ensures Delta(oldLen, z) <= 16 <==> z <= oldLen + 17
  {
  }

  // does the run of equal lengths at x get a length that is out of range?
  predicate StraysAt(src: seq<nat>, pre: seq<nat>, lens: seq<nat>, x: nat, c: Cursor)
    requires Input(src, c) && x < |lens|
  {
    var first := Symbol(src, pre, c);
    first.Ok? && first.value.0 == 19 &&
    var count := Bits(src, first.value.1, 1);
    count.Ok? &&
    var second := Symbol(src, pre, count.value.1);
    second.Ok? && second.value.0 > lens[x] + 17
  }

  // One pretree symbol keeps code lengths in 0..16, except exactly when it is a run of equal lengths
  // whose second symbol is larger than the old length plus 17.
  lemma RoundInRange(src: seq<nat>, pre: seq<nat>, lens: seq<nat>, x: nat, c: Cursor)
    requires Input(src, c) && x + SAFETY <= |lens| && |pre| == PRETREE_SYMBOLS && InRange(lens, x, |lens|)
    requires LensStep(src, pre, lens, x, c).Ok?
    ensures var (lens', x', _) := LensStep(src, pre, lens, x, c).value;
      (InRange(lens', x, x') <==> !StraysAt(src, pre, lens, x, c)) && InRange(lens', x', |lens'|) &&
      lens'[..x] == lens[..x] && x' <= |lens|
  {
    hide Symbol, Bits, Delta, Ahead, Pow2;
    SmallPowers();
    var (z, c1) := Symbol(src, pre, c).value;
    DeltaRange(lens[x], z);
    if z == 19 {
      var (y, c2) := Bits(src, c1, 1).value;
      var z' := Symbol(src, pre, c2).value.0;
      DeltaRange(lens[x], z');
      assert Fill(lens, x, y + 4, Delta(lens[x], z'))[x] == Delta(lens[x], z');
    }
  }

  // does any round stray?
  predicate StraysIn(src: seq<nat>, pre: seq<nat>, lens: seq<nat>, x: nat, last: nat, c: Cursor)
    requires Input(src, c) && last + SAFETY <= |lens| + 1
    decreases last - x
  {
    x < last &&
    (StraysAt(src, pre, lens, x, c) ||
     var step := LensStep(src, pre, lens, x, c);
     step.Ok? && StraysIn(src, pre, step.value.0, step.value.1, last, step.value.2))
  }

  lemma {:induction false} LoopInRange(src: seq<nat>, pre: seq<nat>, lens: seq<nat>, x: nat, last: nat, c: Cursor)
    requires Input(src, c) && last + SAFETY <= |lens| + 1 && |pre| == PRETREE_SYMBOLS && InRange(lens, x, |lens|)
    requires LensLoop(src, pre, lens, x, last, c).Ok?
    ensures var lens' := LensLoop(src, pre, lens, x, last, c).value.0;
      (InRange(lens', x, |lens'|) <==> !StraysIn(src, pre, lens, x, last, c)) && (x <= |lens| ==> lens'[..x] == lens[..x])
    decreases last - x
  {
    hide LensStep, StraysAt, Ahead;
    if x < last {
      RoundInRange(src, pre, lens, x, c);
      var (lens1, x1, c1) := LensStep(src, pre, lens, x, c).value;
      LoopInRange(src, pre, lens1, x1, last, c1);
      var lens' := LensLoop(src, pre, lens, x, last, c).value.0;
      SamePrefix(lens', lens1, x, x1);
    }
  }

  lemma SamePrefix(s: seq<nat>, s': seq<nat>, x: nat, y: nat)
    requires x <= y <= |s| == |s'| && s[..y] == s'[..y]
    ensures s[..x] == s'[..x] && (InRange(s, x, y) <==> InRange(s', x, y))
    ensures InRange(s, x, |s|) <==> InRange(s, x, y) && InRange(s, y, |s|)
  {
    assert forall i :: 0 <= i < y ==> s[i] == s[..y][i] == s'[..y][i] == s'[i];
  }

  predicate AllLengths(lens: seq<nat>)
  {
    InRange(lens, 0, |lens|)
  }

  // does any round of this call stray?
  predicate Strays(src: seq<nat>, lens: seq<nat>, first: nat, last: nat, c: Cursor)
    requires Input(src, c) && last + SAFETY <= |lens| + 1
  {
    var numbers := Numbers(src, c, 4, PRETREE_SYMBOLS);
    numbers.Ok? && Buildable(numbers.value.0, PRETREE_BITS) &&
    StraysIn(src, numbers.value.0, lens, first, last, numbers.value.1)
  }

  // A successful lzxd_read_lens keeps all code lengths in 0..16 if and only if none of its runs of
  // equal lengths has a second symbol larger than the length before plus 17.
  lemma LengthsInRange(src: seq<nat>, lens: seq<nat>, first: nat, last: nat, c: Cursor)
    requires Input(src, c) && first <= last && last + SAFETY <= |lens| + 1 && AllLengths(lens)
    requires ReadLens(src, lens, first, last, c).Ok?
    ensures AllLengths(ReadLens(src, lens, first, last, c).value.0) <==> !Strays(src, lens, first, last, c)
  {
    hide LensLoop, StraysIn, Numbers, Buildable, Ahead;
    var (pre, c1) := Numbers(src, c, 4, PRETREE_SYMBOLS).value;
    LoopInRange(src, pre, lens, first, last, c1);
    var lens' := ReadLens(src, lens, first, last, c).value.0;
    SamePrefix(lens', lens, 0, first);
    SamePrefix(lens', lens', 0, |lens'|);
    SplitRange(lens', first);
  }

  lemma SplitRange(lens: seq<nat>, x: nat)
    requires x <= |lens|
    ensures InRange(lens, 0, |lens|) <==> InRange(lens, 0, x) && InRange(lens, x, |lens|)
  {
  }

  // ---------- a stream on which it happens ----------

  // the pretree with codes for 0 and 19 only
  function StrayPretree(): seq<nat>
  {
    [1] + seq(18, _ => 0) + [1]
  }

  lemma StrayPretreeOk()
    ensures |StrayPretree()| == PRETREE_SYMBOLS && Buildable(StrayPretree(), PRETREE_BITS)
    ensures forall i :: 0 <= i < PRETREE_SYMBOLS ==> StrayPretree()[i] < 16
    ensures Writable(StrayPretree(), 0) && Writable(StrayPretree(), 19)
  {
    var pre := StrayPretree();
    Pow2Values();
    forall cap: nat | cap >= 1
      ensures Kraft(pre, cap) == 65536
    {
      assert pre[..19] == [1] + seq(18, _ => 0);
      RepeatedWeigh([1], 18, 0, cap);
      assert [1][..0] == [];
    }
    CodeFits(pre, 0);
    CodeFits(pre, 19);
  }

  // a run of four lengths that become -19 + 17, and changes by 0 for the other literals
  function StrayOps(): seq<LensOp>
  {
    [Same(0, 19)] + seq(NUM_CHARS - 4, _ => Change(0))
  }

  lemma {:induction false} NoChanges(pre: seq<nat>, n: nat, x: nat, last: nat)
    requires Writable(pre, 0) && x + n == last
    ensures OpsOk(pre, seq(n, _ => Change(0)), x, last)
    decreases n
  {
    hide Writable;
    if n > 0 {
      NoChanges(pre, n - 1, x + 1, last);
      assert seq(n, _ => Change(0))[1..] == seq(n - 1, _ => Change(0));
    }
  }

  lemma {:induction false} ApplyKeepsPrefix(pre: seq<nat>, lens: seq<nat>, x: nat, last: nat, ops: seq<LensOp>)
    requires OpsOk(pre, ops, x, last) && last + SAFETY <= |lens| + 1 && x <= |lens|
    ensures ApplyOps(pre, lens, x, last, ops)[..x] == lens[..x]
    decreases |ops|
  {
    hide Writable, Delta;
    if ops != [] {
      OpFits(pre, ops[0]);
      var lens1, x1 := ApplyOp(lens, x, ops[0]), x + Count(ops[0]);
      ApplyKeepsPrefix(pre, lens1, x1, last, ops[1..]);
      var lens' := ApplyOps(pre, lens, x, last, ops);
      SamePrefix(lens', lens1, x, x1);
    }
  }

  // A new stream can begin its main tree so that lzxd_read_lens stores the length 254 four times.
  lemma StrayLength() returns (src: seq<nat>)
    ensures IsBytes(src)
    ensures var r := ReadLens(src, seq(MAIN_SYMBOLS + SAFETY, _ => 0), 0, NUM_CHARS, Cursor(0, 0, 0));
      r.Ok? && r.value.0[..4] == [254, 254, 254, 254]
  {
    hide RunOk, RunBits, RunLens, StrayPretree, StrayOps, Remaining, ReadLens, Words;
    var r := LensRun(StrayPretree(), StrayOps());
    StrayRun(r);
    var lens: seq<nat> := seq(MAIN_SYMBOLS + SAFETY, _ => 0);
    var bits := RunBits(r, 0, NUM_CHARS);
    src := PaddedStream(bits);
    RunIsRead(src, r, lens, 0, NUM_CHARS, Cursor(0, 0, 0), ZeroBits(Gap(|bits|) + 16));
  }

  lemma StrayRun(r: LensRun)
    requires r == LensRun(StrayPretree(), StrayOps())
    ensures RunOk(r, 0, NUM_CHARS)
    ensures RunLens(r, seq(MAIN_SYMBOLS + SAFETY, _ => 0), 0, NUM_CHARS)[..4] == [254, 254, 254, 254]
  {
    hide Writable, Buildable, Pow2, Kraft, StrayPretree;
    StrayPretreeOk();
    NoChanges(r.pre, NUM_CHARS - 4, 4, NUM_CHARS);
    assert r.ops[1..] == seq(NUM_CHARS - 4, _ => Change(0));
    var lens: seq<nat> := seq(MAIN_SYMBOLS + SAFETY, _ => 0);
    var lens1 := ApplyOp(lens, 0, r.ops[0]);
    assert Delta(0, 19) == 254;
    ApplyKeepsPrefix(r.pre, lens1, 4, NUM_CHARS, r.ops[1..]);
    assert lens1[..4] == [254, 254, 254, 254];
  }

  // a stream that starts with these bits
  lemma PaddedStream(bits: seq<Bit>) returns (src: seq<nat>)
    ensures Holds(src, Cursor(0, 0, 0), bits, ZeroBits(Gap(|bits|) + 16))
  {
    var all := bits + ZeroBits(Gap(|bits|) + 16);
    src := Words(all);
    WordsAreBytes(all);
    hide Words;
    assert src[0..] == Words(all) + [];
    WordsHoldBits(src, 0, all, []);
    assert WordBits(src, |src|) == [];
    assert BitsOf(0, 0) == [];
    assert all + [] == all;
    assert [] + all == all;
  }
}
