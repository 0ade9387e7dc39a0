// Code lengths that change to any others: a complete pretree, with whose symbols every length can
// become any other one, and so the trees of a block any trees that can be built.
module LzxTrees {
  import opened Powers
  import opened CanonicalCode
  import opened HuffRead
  import opened LzxSpec
  import opened LzxTokens
  import opened LzxLengths
  import opened LzxBlocks

  // ---------- complete codes ----------

  // all codes together fill the code space
  predicate Complete(lens: seq<nat>)
  {
    Kraft(lens, MAX_BITS) == Pow2(MAX_BITS)
  }

  // a pretree with a code for every change of a length
  function Pretree(): (pre: seq<nat>)
    ensures |pre| == PRETREE_SYMBOLS
  {
    seq(15, _ => 4) + seq(2, _ => 5) + seq(3, _ => 0)
  }

  lemma SmallWeights()
    ensures Weight(0) == 0 && Weight(4) == 4096 && Weight(5) == 2048 && Weight(8) == 256 && Pow2(MAX_BITS) == 65536
  {
    Pow2Values();
    Pow2Half(12);
  }

  lemma PretreeSum(cap: nat)
    requires cap >= 5
    ensures Kraft(Pretree(), cap) == Pow2(MAX_BITS)
  {
    SmallWeights();
    hide Weight, Pow2;
    assert [] + seq(15, _ => 4) == seq(15, _ => 4);
    RepeatedWeigh([], 15, 4, cap);
    RepeatedWeigh(seq(15, _ => 4), 2, 5, cap);
    RepeatedWeigh(seq(15, _ => 4) + seq(2, _ => 5), 3, 0, cap);
  }

  lemma PretreeOk()
    ensures Buildable(Pretree(), PRETREE_BITS) && Complete(Pretree())
    ensures forall i :: 0 <= i < PRETREE_SYMBOLS ==> Pretree()[i] < 16
    ensures forall z :: 0 <= z <= 16 ==> Writable(Pretree(), z)
  {
    hide Kraft, Pow2, Writable;
    PretreeSum(PRETREE_BITS);
    PretreeSum(MAX_BITS);
    forall z | 0 <= z <= 16
      ensures Writable(Pretree(), z)
    {
      CompleteFits(Pretree(), z);
    }
  }

  // a symbol of a complete code can be written
  lemma CompleteFits(lens: seq<nat>, s: nat)
    requires Complete(lens) && Coded(lens, s)
    ensures Writable(lens, s)
  {
    hide Kraft, Pow2, CanonicalCode.Code;
    CodeFits(lens, s);
  }

  // ---------- the trees ----------

  // lengths that can be changed to any others, with nothing behind the first n
  predicate Changeable(lens: seq<nat>, n: nat)
  {
    forall i :: 0 <= i < |lens| ==> lens[i] <= 16 && (i >= n ==> lens[i] == 0)
  }

  predicate LensReady(st: Lzx)
    requires StOk(st)
  {
    Changeable(st.mainLens, MainLast(st)) && Changeable(st.lengthLens, LENGTH_SYMBOLS - 1)
  }

  function ChangeRun(lens: seq<nat>, target: seq<nat>, first: nat, last: nat): LensRun
    requires first <= last <= |lens| && |lens| == |target|
    requires forall i :: first <= i < last ==> lens[i] <= 16 && target[i] <= 16
  {
    LensRun(Pretree(), Changes(lens, target, first, last))
  }

  lemma ChangeRunOk(lens: seq<nat>, target: seq<nat>, first: nat, last: nat)
    requires first <= last <= |lens| && |lens| == |target| && last + SAFETY <= |lens| + 1
    requires forall i :: first <= i < last ==> lens[i] <= 16 && target[i] <= 16
    ensures RunOk(ChangeRun(lens, target, first, last), first, last)
    ensures RunLens(ChangeRun(lens, target, first, last), lens, first, last) ==
            lens[..first] + target[first..last] + lens[last..]
  {
    hide Writable, Buildable, Pretree;
    PretreeOk();
    forall i | first <= i < last
      ensures Writable(Pretree(), DeltaOf(lens[i], target[i]))
    {
      DeltaInverse(lens[i], target[i]);
    }
    ChangesSuffice(Pretree(), lens, target, first, last);
  }

  // the runs that lead to these lengths
  function TreesFor(st: Lzx, main: seq<nat>, lengths: seq<nat>): Trees
    requires StOk(st) && LensReady(st) && |main| == |st.mainLens| && |lengths| == |st.lengthLens|
    requires Changeable(main, MainLast(st)) && Changeable(lengths, LENGTH_SYMBOLS - 1)
  {
    Trees([], ChangeRun(st.mainLens, main, 0, NUM_CHARS), ChangeRun(st.mainLens, main, NUM_CHARS, MainLast(st)),
          ChangeRun(st.lengthLens, lengths, 0, LENGTH_SYMBOLS - 1))
  }

  // the two parts of the main tree
  lemma MainBecomes(lens: seq<nat>, main: seq<nat>, last: nat)
    requires NUM_CHARS <= last && last + SAFETY <= |lens| + 1 && last <= |lens| == |main|
    requires Changeable(lens, last) && Changeable(main, last)
    ensures var (r1, r2) := (ChangeRun(lens, main, 0, NUM_CHARS), ChangeRun(lens, main, NUM_CHARS, last));
      RunOk(r1, 0, NUM_CHARS) && RunOk(r2, NUM_CHARS, last) &&
      RunLens(r2, RunLens(r1, lens, 0, NUM_CHARS), NUM_CHARS, last) == main
  {
    hide RunOk, RunLens, Changes;
    ChangeRunOk(lens, main, 0, NUM_CHARS);
    var half := lens[..0] + main[0..NUM_CHARS] + lens[NUM_CHARS..];
    JoinedParts(lens, main, NUM_CHARS, last);
    SameChanges(lens, half, main, NUM_CHARS, last);
    ChangeRunOk(half, main, NUM_CHARS, last);
  }

  lemma JoinedParts(lens: seq<nat>, main: seq<nat>, n: nat, last: nat)
    requires n <= last <= |lens| == |main| && forall i :: last <= i < |lens| ==> lens[i] == main[i]
    ensures var half := lens[..0] + main[0..n] + lens[n..];
      |half| == |lens| && (forall i :: n <= i < |lens| ==> half[i] == lens[i]) &&
      half[..n] + main[n..last] + half[last..] == main
  {
  }

  lemma LengthsBecome(lens: seq<nat>, lengths: seq<nat>, last: nat)
    requires last + SAFETY <= |lens| + 1 && last <= |lens| == |lengths|
    requires Changeable(lens, last) && Changeable(lengths, last)
    ensures var r := ChangeRun(lens, lengths, 0, last);
      RunOk(r, 0, last) && RunLens(r, lens, 0, last) == lengths
  {
    hide RunOk, RunLens;
    ChangeRunOk(lens, lengths, 0, last);
    assert lens[..0] + lengths[0..last] + lens[last..] == lengths;
  }

  // The trees of a block can become any that can be built.
  lemma TreesBecome(st: Lzx, main: seq<nat>, lengths: seq<nat>)
    requires StOk(st) && LensReady(st) && |main| == |st.mainLens| && |lengths| == |st.lengthLens|
    requires Changeable(main, MainLast(st)) && Changeable(lengths, LENGTH_SYMBOLS - 1)
    requires Buildable(main[..MAIN_SYMBOLS], MAIN_BITS)
    requires Buildable(lengths[..LENGTH_SYMBOLS], LENGTH_BITS) || AllZero(lengths[..LENGTH_SYMBOLS])
    ensures TreesOk(st, TreesFor(st, main, lengths))
    ensures MainOf(st, TreesFor(st, main, lengths)) == main && LengthsOf(st, TreesFor(st, main, lengths)) == lengths
  {
    hide RunOk, RunLens, ChangeRun, Buildable, Pow2;
    MainBecomes(st.mainLens, main, MainLast(st));
    LengthsBecome(st.lengthLens, lengths, LENGTH_SYMBOLS - 1);
  }
}
