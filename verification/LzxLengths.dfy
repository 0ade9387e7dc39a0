// Code lengths as they are written with a pretree, in any of the ways that the format has, and that
// lzxd_read_lens gets back what they stand for.
module LzxLengths {
  import opened Powers
  import opened CanonicalCode
  import opened BitStream
  import opened HuffRead
  import opened LzxSpec
  import opened LzxTokens

  lemma WritableSymbol(lens: seq<nat>, s: nat)
    requires Writable(lens, s)
    ensures s < |lens|
  {
    hide Pow2, Code;
  }

  function NumbersBits(vals: seq<nat>, width: nat): seq<Bit>
  {
    if vals == [] then [] else NumbersBits(vals[..|vals| - 1], width) + BitsOf(vals[|vals| - 1], width)
  }

  lemma {:induction false} NumbersAreRead(src: seq<nat>, c: Cursor, width: nat, vals: seq<nat>, rest: seq<nat>)
    requires width <= 17 && forall i :: 0 <= i < |vals| ==> vals[i] < Pow2(width)
    requires Holds(src, c, NumbersBits(vals, width), rest)
    ensures Numbers(src, c, width, |vals|).Ok?
    ensures var (vals', c') := Numbers(src, c, width, |vals|).value;
      vals' == vals && Reached(src, c, c', rest)
    decreases |vals|
  {
    hide Bits, BitsOf, Remaining, Pow2;
    if vals == [] {
      NothingIsRead(src, c, rest);
    } else {
      var front, last := vals[..|vals| - 1], vals[|vals| - 1];
      assert NumbersBits(front, width) + BitsOf(last, width) + rest ==
             NumbersBits(front, width) + (BitsOf(last, width) + rest);
      NumbersAreRead(src, c, width, front, BitsOf(last, width) + rest);
      var c1 := Numbers(src, c, width, |vals| - 1).value.1;
      NumberIsRead(src, c1, width, last, rest);
    }
  }

  // one length changed by a number modulo 17, a run of 4 to 19 or of 20 to 51 zeros, or a run of 4 or
  // 5 lengths that become equal
  datatype LensOp = Change(z: nat) | Zeros(y: nat) | ManyZeros(y: nat) | Same(y: nat, z: nat)

  predicate OpOk(pre: seq<nat>, op: LensOp)
  {
    match op
    case Change(z) => z <= 16 && Writable(pre, z)
    case Zeros(y) => y < 16 && Writable(pre, 17)
    case ManyZeros(y) => y < 32 && Writable(pre, 18)
    case Same(y, z) => y < 2 && Writable(pre, 19) && Writable(pre, z)
  }

  function OpBits(pre: seq<nat>, op: LensOp): seq<Bit>
    requires |pre| == PRETREE_SYMBOLS && OpOk(pre, op)
  {
    match op
    case Change(z) => CodeBits(pre, z)
    case Zeros(y) => CodeBits(pre, 17) + BitsOf(y, 4)
    case ManyZeros(y) => CodeBits(pre, 18) + BitsOf(y, 5)
    case Same(y, z) => CodeBits(pre, 19) + (BitsOf(y, 1) + CodeBits(pre, z))
  }

  function Count(op: LensOp): (n: nat)
    ensures n > 0
  {
    match op
    case Change(_) => 1
    case Zeros(y) => y + 4
    case ManyZeros(y) => y + 20
    case Same(y, _) => y + 4
  }

  function ApplyOp(lens: seq<nat>, x: nat, op: LensOp): (r: seq<nat>)
    requires x + Count(op) <= |lens|
    ensures |r| == |lens|
  {
    match op
    case Change(z) => lens[x := Delta(lens[x], z)]
    case Zeros(_) => Fill(lens, x, Count(op), 0)
    case ManyZeros(_) => Fill(lens, x, Count(op), 0)
    case Same(_, z) => Fill(lens, x, Count(op), Delta(lens[x], z))
  }

  // do the runs cover x up to last, none of them starting later?  The last one may end later.
  predicate OpsOk(pre: seq<nat>, ops: seq<LensOp>, x: nat, last: nat)
    decreases |ops|
  {
    if x >= last then ops == []
    else ops != [] && OpOk(pre, ops[0]) && OpsOk(pre, ops[1..], x + Count(ops[0]), last)
  }

  function OpsBits(pre: seq<nat>, ops: seq<LensOp>): seq<Bit>
    requires |pre| == PRETREE_SYMBOLS && forall i :: 0 <= i < |ops| ==> OpOk(pre, ops[i])
  {
    if ops == [] then [] else OpBits(pre, ops[0]) + OpsBits(pre, ops[1..])
  }

  function ApplyOps(pre: seq<nat>, lens: seq<nat>, x: nat, last: nat, ops: seq<LensOp>): (r: seq<nat>)
    requires OpsOk(pre, ops, x, last) && last + SAFETY <= |lens| + 1
    ensures |r| == |lens|
    decreases |ops|
  {
    if ops == [] then lens
    else
      OpFits(pre, ops[0]);
      ApplyOps(pre, ApplyOp(lens, x, ops[0]), x + Count(ops[0]), last, ops[1..])
  }

  lemma OpFits(pre: seq<nat>, op: LensOp)
    requires OpOk(pre, op)
    ensures Count(op) <= 51
  {
    hide Writable;
  }

  lemma {:induction false} AllOpsOk(pre: seq<nat>, ops: seq<LensOp>, x: nat, last: nat)
    requires OpsOk(pre, ops, x, last)
    ensures forall i :: 0 <= i < |ops| ==> OpOk(pre, ops[i])
    decreases |ops|
  {
    hide OpOk;
    if ops != [] {
      AllOpsOk(pre, ops[1..], x + Count(ops[0]), last);
      assert forall i :: 1 <= i < |ops| ==> ops[i] == ops[1..][i - 1];
    }
  }

  lemma SmallPowers()
    ensures Pow2(0) == 1 && Pow2(1) == 2 && Pow2(4) == 16 && Pow2(5) == 32
  {
  }

  // One run is read back as what it stands for.
  lemma OpIsRead(src: seq<nat>, pre: seq<nat>, lens: seq<nat>, x: nat, op: LensOp, c: Cursor, rest: seq<nat>)
    requires |pre| == PRETREE_SYMBOLS && OpOk(pre, op) && x + SAFETY <= |lens| && x + Count(op) <= |lens|
    requires Holds(src, c, OpBits(pre, op), rest)
    ensures LensStep(src, pre, lens, x, c).Ok?
    ensures var (lens', x', c') := LensStep(src, pre, lens, x, c).value;
      lens' == ApplyOp(lens, x, op) && x' == x + Count(op) && Reached(src, c, c', rest)
  {
    SmallPowers();
    hide Symbol, Bits, BitsOf, CodeBits, Writable, Remaining, Pow2, Delta, Fill;
    match op {
      case Change(z) =>
        SymbolIsRead(src, pre, c, z, rest);
      case Zeros(y) =>
        var count := BitsOf(y, 4);
        assert CodeBits(pre, 17) + count + rest == CodeBits(pre, 17) + (count + rest);
        SymbolIsRead(src, pre, c, 17, count + rest);
        NumberIsRead(src, Symbol(src, pre, c).value.1, 4, y, rest);
      case ManyZeros(y) =>
        var count := BitsOf(y, 5);
        assert CodeBits(pre, 18) + count + rest == CodeBits(pre, 18) + (count + rest);
        SymbolIsRead(src, pre, c, 18, count + rest);
        NumberIsRead(src, Symbol(src, pre, c).value.1, 5, y, rest);
      case Same(y, z) =>
        WritableSymbol(pre, z);
        var count, value := BitsOf(y, 1), CodeBits(pre, z);
        assert CodeBits(pre, 19) + (count + value) + rest == CodeBits(pre, 19) + (count + (value + rest));
        SymbolIsRead(src, pre, c, 19, count + (value + rest));
        var c1 := Symbol(src, pre, c).value.1;
        NumberIsRead(src, c1, 1, y, value + rest);
        SymbolIsRead(src, pre, Bits(src, c1, 1).value.1, z, rest);
    }
  }

  lemma {:induction false} OpsAreRead(src: seq<nat>, pre: seq<nat>, lens: seq<nat>, x: nat, last: nat, ops: seq<LensOp>,
                                      c: Cursor, rest: seq<nat>)
    requires |pre| == PRETREE_SYMBOLS && OpsOk(pre, ops, x, last) && last + SAFETY <= |lens| + 1
    requires forall i :: 0 <= i < |ops| ==> OpOk(pre, ops[i])
    requires Holds(src, c, OpsBits(pre, ops), rest)
    ensures LensLoop(src, pre, lens, x, last, c).Ok?
    ensures var (lens', c') := LensLoop(src, pre, lens, x, last, c).value;
      lens' == ApplyOps(pre, lens, x, last, ops) && Reached(src, c, c', rest)
    decreases |ops|
  {
    hide LensStep, OpBits, OpOk, ApplyOp, Remaining, Pow2;
    if ops == [] {
      NothingIsRead(src, c, rest);
    } else {
      var later := OpsBits(pre, ops[1..]);
      assert OpBits(pre, ops[0]) + later + rest == OpBits(pre, ops[0]) + (later + rest);
      OpFits(pre, ops[0]);
      OpIsRead(src, pre, lens, x, ops[0], c, later + rest);
      var (lens', x', c') := LensStep(src, pre, lens, x, c).value;
      OpsAreRead(src, pre, lens', x', last, ops[1..], c', rest);
    }
  }

  // ---------- whole runs of code lengths ----------

  // a pretree and the runs that are written with it
  datatype LensRun = LensRun(pre: seq<nat>, ops: seq<LensOp>)

  predicate RunOk(r: LensRun, first: nat, last: nat)
  {
    |r.pre| == PRETREE_SYMBOLS && (forall i :: 0 <= i < |r.pre| ==> r.pre[i] < 16) &&
    Buildable(r.pre, PRETREE_BITS) && OpsOk(r.pre, r.ops, first, last)
  }

  function RunBits(r: LensRun, first: nat, last: nat): seq<Bit>
    requires RunOk(r, first, last)
  {
    AllOpsOk(r.pre, r.ops, first, last);
    NumbersBits(r.pre, 4) + OpsBits(r.pre, r.ops)
  }

  // the code lengths after the run
  function RunLens(r: LensRun, lens: seq<nat>, first: nat, last: nat): (lens': seq<nat>)
    requires RunOk(r, first, last) && last + SAFETY <= |lens| + 1
    ensures |lens'| == |lens|
  {
    ApplyOps(r.pre, lens, first, last, r.ops)
  }

  // Code lengths that were written with a pretree are read back.
  lemma RunIsRead(src: seq<nat>, r: LensRun, lens: seq<nat>, first: nat, last: nat, c: Cursor, rest: seq<nat>)
    requires RunOk(r, first, last) && last + SAFETY <= |lens| + 1 && Holds(src, c, RunBits(r, first, last), rest)
    ensures ReadLens(src, lens, first, last, c).Ok?
    ensures var (lens', c') := ReadLens(src, lens, first, last, c).value;
      lens' == RunLens(r, lens, first, last) && Reached(src, c, c', rest)
  {
    SmallPowers();
    hide Numbers, LensLoop, NumbersBits, OpsBits, OpsOk, OpOk, ApplyOps, Buildable, Remaining, Pow2;
    AllOpsOk(r.pre, r.ops, first, last);
    var later := OpsBits(r.pre, r.ops);
    assert NumbersBits(r.pre, 4) + later + rest == NumbersBits(r.pre, 4) + (later + rest);
    NumbersAreRead(src, c, 4, r.pre, later + rest);
    OpsAreRead(src, r.pre, lens, first, last, r.ops, Numbers(src, c, 4, PRETREE_SYMBOLS).value.1, rest);
  }

  // ---------- every length can be written ----------

  // the symbol that changes one code length to another
  function DeltaOf(oldLen: nat, newLen: nat): nat
    requires oldLen <= 16 && newLen <= 16
  {
    if oldLen >= newLen then oldLen - newLen else oldLen + 17 - newLen
  }

  lemma DeltaInverse(oldLen: nat, newLen: nat)
    requires oldLen <= 16 && newLen <= 16
    ensures DeltaOf(oldLen, newLen) <= 16 && Delta(oldLen, DeltaOf(oldLen, newLen)) == newLen
  {
  }

  // one symbol for every code length from x to last
  function Changes(lens: seq<nat>, target: seq<nat>, x: nat, last: nat): (ops: seq<LensOp>)
    requires x <= last <= |lens| && |lens| == |target|
    requires forall i :: x <= i < last ==> lens[i] <= 16 && target[i] <= 16
    ensures |ops| == last - x
    ensures forall i :: 0 <= i < |ops| ==> ops[i] == Change(DeltaOf(lens[x + i], target[x + i]))
    decreases last - x
  {
    if x == last then [] else [Change(DeltaOf(lens[x], target[x]))] + Changes(lens, target, x + 1, last)
  }

  // With a pretree that has codes for them, changes alone lead from any code lengths to any others.
  lemma {:induction false} ChangesSuffice(pre: seq<nat>, lens: seq<nat>, target: seq<nat>, x: nat, last: nat)
    requires x <= last && last + SAFETY <= |lens| + 1 && |lens| == |target|
    requires forall i :: x <= i < last ==> lens[i] <= 16 && target[i] <= 16 && Writable(pre, DeltaOf(lens[i], target[i]))
    ensures OpsOk(pre, Changes(lens, target, x, last), x, last)
    ensures ApplyOps(pre, lens, x, last, Changes(lens, target, x, last)) == lens[..x] + target[x..last] + lens[last..]
    decreases last - x
  {
    hide Writable, Delta, DeltaOf;
    if x == last {
      assert lens[..x] + target[x..x] + lens[x..] == lens;
    } else {
      DeltaInverse(lens[x], target[x]);
      var lens1 := lens[x := target[x]];
      ChangesSuffice(pre, lens1, target, x + 1, last);
      SameChanges(lens, lens1, target, x + 1, last);
      OneChanged(lens, target, x, last);
    }
  }

  lemma OneChanged(lens: seq<nat>, target: seq<nat>, x: nat, last: nat)
    requires x < last <= |lens| == |target|
    ensures var lens1 := lens[x := target[x]];
      lens1[..x + 1] + target[x + 1..last] + lens1[last..] == lens[..x] + target[x..last] + lens[last..]
  {
  }

  lemma SameChanges(lens: seq<nat>, lens': seq<nat>, target: seq<nat>, x: nat, last: nat)
    requires x <= last <= |lens| && |lens| == |target| == |lens'|
    requires forall i :: x <= i < last ==> lens[i] == lens'[i] <= 16 && target[i] <= 16
    ensures Changes(lens, target, x, last) == Changes(lens', target, x, last)
  {
    hide DeltaOf;
  }
}
