// The two-level decode table that make_decode_table builds: 2^nbits direct entries, followed by a
// binary tree for the longer codes that lives in the same array.
module HuffTable {
  import opened Powers
  import opened CanonicalCode

  const EMPTY := 0xFFFF

  // Tree node number base + k hangs below the array entry at, which stands for the bit prefix of
  // the given depth; its two children are the entries 2 * (base + k) and 2 * (base + k) + 1.
  datatype Node = Node(depth: nat, prefix: nat, at: nat)
  datatype Tree = Tree(nbits: nat, base: nat, nodes: seq<Node>)

  predicate Used(tr: Tree, i: int)
  {
    0 <= i < Pow2(tr.nbits) || 2 * tr.base <= i < 2 * (tr.base + |tr.nodes|)
  }

  // the bit prefix that entry i stands for
  function Depth(tr: Tree, i: int): nat
    requires Used(tr, i)
  {
    if i < Pow2(tr.nbits) then tr.nbits else tr.nodes[i / 2 - tr.base].depth + 1
  }

  function Prefix(tr: Tree, i: int): nat
    requires Used(tr, i)
  {
    if i < Pow2(tr.nbits) then i else 2 * tr.nodes[i / 2 - tr.base].prefix + i % 2
  }

  // the first 16-bit number with prefix p of depth d
  function First(d: nat, p: nat): nat
  {
    if d <= MAX_BITS then p * Pow2(MAX_BITS - d) else 0
  }

  // the first d bits of the 16-bit number v
  function Top(v: nat, d: nat): nat
    requires d <= MAX_BITS
  {
    DivNonNegative(v, Pow2(MAX_BITS - d));
    v / Pow2(MAX_BITS - d)
  }

  // Entry i of t is right when the codes own the 16-bit numbers below done: it is empty and none
  // of its numbers is owned, or it names the symbol whose code owns all its numbers, or it names
  // the tree node below it.
  predicate EntryOk(lens: seq<nat>, tr: Tree, t: seq<int>, done: nat, cap: nat, i: int)
    requires Used(tr, i) && i < |t|
  {
    var d, p, e := Depth(tr, i), Prefix(tr, i), t[i];
    tr.nbits <= d <= cap && p < Pow2(d) &&
    if e == EMPTY then
      done <= First(d, p)
    else if 0 <= e < |lens| then
      SymbolOwns(lens, e, d, p, done)
    else
      tr.base <= e < tr.base + |tr.nodes| && tr.nodes[e - tr.base].at == i && d < cap
  }

  predicate SymbolOwns(lens: seq<nat>, s: nat, d: nat, p: nat, done: nat)
    requires s < |lens|
  {
    Coded(lens, s) && lens[s] <= d <= MAX_BITS &&
    Start(lens, s) <= First(d, p) &&
    First(d, p) + Pow2(MAX_BITS - d) <= Start(lens, s) + Weight(lens[s]) <= done
  }

  predicate NodeOk(tr: Tree, t: seq<int>, k: nat)
    requires k < |tr.nodes|
  {
    var n := tr.nodes[k];
    Used(tr, n.at) && n.at < |t| && t[n.at] == tr.base + k && tr.nbits <= n.depth &&
    n.depth == Depth(tr, n.at) && n.prefix == Prefix(tr, n.at)
  }

  predicate Shape(lens: seq<nat>, tr: Tree, t: seq<int>)
  {
    1 <= tr.nbits < MAX_BITS &&
    |lens| <= tr.base && Pow2(tr.nbits) <= 2 * tr.base &&
    tr.base + |tr.nodes| <= EMPTY &&
    Pow2(tr.nbits) <= |t| && (tr.nodes != [] ==> 2 * (tr.base + |tr.nodes|) <= |t|)
  }

  predicate Distinct(nodes: seq<Node>)
  {
    forall j, k :: 0 <= j < k < |nodes| ==> nodes[j].depth != nodes[k].depth || nodes[j].prefix != nodes[k].prefix
  }

  // t is a table of tr in which the codes of length up to cap own the 16-bit numbers below done
  ghost predicate TableInv(lens: seq<nat>, tr: Tree, t: seq<int>, done: nat, cap: nat)
  {
    Shape(lens, tr, t) && cap <= MAX_BITS && Distinct(tr.nodes) &&
    (forall k {:trigger NodeOk(tr, t, k)} :: 0 <= k < |tr.nodes| ==> NodeOk(tr, t, k)) &&
    (forall i {:trigger EntryOk(lens, tr, t, done, cap, i)} :: Used(tr, i) ==> EntryOk(lens, tr, t, done, cap, i))
  }

  // t decodes the code with the given lengths
  ghost predicate TableFor(lens: seq<nat>, nbits: nat, t: seq<int>)
  {
    exists tr: Tree :: tr.nbits == nbits && TableInv(lens, tr, t, Pow2(MAX_BITS), MAX_BITS)
  }

  // ---------- growing the tree ----------

  // no two entries stand for the same bit prefix
  lemma SlotsInjective(lens: seq<nat>, tr: Tree, t: seq<int>, done: nat, cap: nat, i: int, j: int)
    requires TableInv(lens, tr, t, done, cap)
    requires Used(tr, i) && Used(tr, j)
    requires Depth(tr, i) == Depth(tr, j) && Prefix(tr, i) == Prefix(tr, j)
    ensures i == j
  {
    SlotNode(lens, tr, t, done, cap, i);
    SlotNode(lens, tr, t, done, cap, j);
    if i >= Pow2(tr.nbits) && j >= Pow2(tr.nbits) {
      SameNode(tr.nodes, i / 2 - tr.base, j / 2 - tr.base);
    }
  }

  lemma SlotNode(lens: seq<nat>, tr: Tree, t: seq<int>, done: nat, cap: nat, i: int)
    requires TableInv(lens, tr, t, done, cap) && Used(tr, i)
    ensures i >= Pow2(tr.nbits) ==> 0 <= i / 2 - tr.base < |tr.nodes| && Depth(tr, i) > tr.nbits
    ensures i < Pow2(tr.nbits) ==> Depth(tr, i) == tr.nbits
  {
    if i >= Pow2(tr.nbits) {
      assert NodeOk(tr, t, i / 2 - tr.base);
    }
  }

  lemma SameNode(nodes: seq<Node>, j: nat, k: nat)
    requires Distinct(nodes) && j < |nodes| && k < |nodes|
    requires nodes[j].depth == nodes[k].depth && nodes[j].prefix == nodes[k].prefix
    ensures j == k
  {
  }

  function Grow(tr: Tree, leaf: int): Tree
    requires Used(tr, leaf)
  {
    tr.(nodes := tr.nodes + [Node(Depth(tr, leaf), Prefix(tr, leaf), leaf)])
  }

  function GrowTable(tr: Tree, t: seq<int>, leaf: int): seq<int>
    requires Used(tr, leaf) && 2 * (tr.base + |tr.nodes| + 1) <= |t| && leaf < |t|
  {
    var next := tr.base + |tr.nodes|;
    t[2 * next := EMPTY][2 * next + 1 := EMPTY][leaf := next]
  }

  lemma GrowKeepsSlots(tr: Tree, leaf: int, i: int)
    requires Used(tr, leaf) && Used(tr, i)
    ensures Used(Grow(tr, leaf), i)
    ensures Depth(Grow(tr, leaf), i) == Depth(tr, i) && Prefix(Grow(tr, leaf), i) == Prefix(tr, i)
  {
  }

  lemma ChildFirst(d: nat, p: nat, b: nat)
    requires d < MAX_BITS && p < Pow2(d) && b <= 1
    ensures 2 * p + b < Pow2(d + 1)
    ensures First(d + 1, 2 * p + b) == First(d, p) + b * Pow2(MAX_BITS - d - 1) >= First(d, p)
  {
    var w := Pow2(MAX_BITS - d - 1);
    assert Pow2(MAX_BITS - d) == 2 * w;
    MulDouble(p, w);
    MulDist(2 * p, b, w);
  }

  lemma GrowKeepsEntry(lens: seq<nat>, tr: Tree, t: seq<int>, done: nat, cap: nat, leaf: int, i: int)
    requires Shape(lens, tr, t) && 2 * (tr.base + |tr.nodes| + 1) <= |t| && tr.base + |tr.nodes| < EMPTY
    requires Used(tr, leaf) && t[leaf] == EMPTY && Used(tr, i)
    requires EntryOk(lens, tr, t, done, cap, i) && Depth(tr, leaf) < cap
    ensures Used(Grow(tr, leaf), i) && EntryOk(lens, Grow(tr, leaf), GrowTable(tr, t, leaf), done, cap, i)
  {
    GrowKeepsSlots(tr, leaf, i);
    var t' := GrowTable(tr, t, leaf);
    if i == leaf {
      assert t'[i] == tr.base + |tr.nodes|;
    } else {
      assert t'[i] == t[i];
    }
  }

  lemma GrowAddsEmpty(lens: seq<nat>, tr: Tree, t: seq<int>, done: nat, cap: nat, leaf: int, i: int)
    requires Shape(lens, tr, t) && 2 * (tr.base + |tr.nodes| + 1) <= |t| && tr.base + |tr.nodes| < EMPTY
    requires Used(tr, leaf) && t[leaf] == EMPTY && EntryOk(lens, tr, t, done, cap, leaf)
    requires Depth(tr, leaf) < cap <= MAX_BITS
    requires i / 2 == tr.base + |tr.nodes|
    ensures Used(Grow(tr, leaf), i) && EntryOk(lens, Grow(tr, leaf), GrowTable(tr, t, leaf), done, cap, i)
    ensures GrowTable(tr, t, leaf)[i] == EMPTY
  {
    var tr', t' := Grow(tr, leaf), GrowTable(tr, t, leaf);
    var d, p := Depth(tr, leaf), Prefix(tr, leaf);
    assert leaf < 2 * (tr.base + |tr.nodes|);
    assert t'[i] == EMPTY;
    assert tr'.nodes[i / 2 - tr.base] == Node(d, p, leaf);
    ChildFirst(d, p, i % 2);
    assert Depth(tr', i) == d + 1 && Prefix(tr', i) == 2 * p + i % 2;
  }

  lemma GrowKeepsNode(lens: seq<nat>, tr: Tree, t: seq<int>, leaf: int, k: nat)
    requires Shape(lens, tr, t) && 2 * (tr.base + |tr.nodes| + 1) <= |t| && tr.base + |tr.nodes| < EMPTY
    requires Used(tr, leaf) && t[leaf] == EMPTY
    requires k < |tr.nodes| && NodeOk(tr, t, k)
    ensures NodeOk(Grow(tr, leaf), GrowTable(tr, t, leaf), k)
  {
    GrowKeepsSlots(tr, leaf, tr.nodes[k].at);
  }

  lemma GrowKeepsDistinct(lens: seq<nat>, tr: Tree, t: seq<int>, done: nat, cap: nat, leaf: int)
    requires TableInv(lens, tr, t, done, cap)
    requires Used(tr, leaf) && t[leaf] == EMPTY
    ensures Distinct(Grow(tr, leaf).nodes)
  {
    forall k | 0 <= k < |tr.nodes|
      ensures tr.nodes[k].depth != Depth(tr, leaf) || tr.nodes[k].prefix != Prefix(tr, leaf)
    {
      assert NodeOk(tr, t, k);
      if tr.nodes[k].depth == Depth(tr, leaf) && tr.nodes[k].prefix == Prefix(tr, leaf) {
        SlotsInjective(lens, tr, t, done, cap, tr.nodes[k].at, leaf);
      }
    }
  }

  // hanging a new node below the empty entry leaf
  lemma GrowKeepsTable(lens: seq<nat>, tr: Tree, t: seq<int>, done: nat, cap: nat, leaf: int)
    requires TableInv(lens, tr, t, done, cap)
    requires Used(tr, leaf) && t[leaf] == EMPTY && Depth(tr, leaf) < cap
    requires 2 * (tr.base + |tr.nodes| + 1) <= |t| && tr.base + |tr.nodes| < EMPTY
    ensures TableInv(lens, Grow(tr, leaf), GrowTable(tr, t, leaf), done, cap)
  {
    var tr', t' := Grow(tr, leaf), GrowTable(tr, t, leaf);
    GrowKeepsDistinct(lens, tr, t, done, cap, leaf);
    assert EntryOk(lens, tr, t, done, cap, leaf);
    forall k | 0 <= k < |tr'.nodes|
      ensures NodeOk(tr', t', k)
    {
      if k < |tr.nodes| {
        GrowKeepsNode(lens, tr, t, leaf, k);
      } else {
        GrowKeepsSlots(tr, leaf, leaf);
      }
    }
    forall i | Used(tr', i)
      ensures EntryOk(lens, tr', t', done, cap, i)
    {
      if Used(tr, i) {
        GrowKeepsEntry(lens, tr, t, done, cap, leaf, i);
      } else {
        GrowAddsEmpty(lens, tr, t, done, cap, leaf, i);
      }
    }
  }

  // ---------- adding the next code ----------

  // path leads, from a direct entry down, along the bits of the 16-bit number v; every entry on
  // it but the last one names the tree node below it
  ghost predicate Path(tr: Tree, t: seq<int>, v: nat, path: seq<int>)
  {
    |path| > 0 && tr.nbits + |path| <= MAX_BITS + 1 &&
    (forall j :: 0 <= j < |path| ==> OnPath(tr, t, v, j, path[j])) &&
    (forall j :: 0 <= j < |path| - 1 ==> t[path[j]] != EMPTY)
  }

  predicate OnPath(tr: Tree, t: seq<int>, v: nat, j: nat, i: int)
  {
    tr.nbits + j <= MAX_BITS && Used(tr, i) && i < |t| &&
    Depth(tr, i) == tr.nbits + j && Prefix(tr, i) == Top(v, tr.nbits + j)
  }

  // the depth-d prefix of v and its interval
  lemma PrefixInterval(v: nat, d: nat)
    requires d <= MAX_BITS
    ensures First(d, Top(v, d)) <= v < First(d, Top(v, d)) + Pow2(MAX_BITS - d)
    ensures v % Pow2(MAX_BITS - d) == 0 ==> First(d, Top(v, d)) == v
  {
    DivMod(v, Pow2(MAX_BITS - d));
  }

  lemma PrefixOfFirst(d: nat, p: nat)
    requires d <= MAX_BITS
    ensures Top(First(d, p), d) == p && First(d, p) % Pow2(MAX_BITS - d) == 0
  {
    DivUnique(First(d, p), Pow2(MAX_BITS - d), p, 0);
  }

  // one more bit of v
  lemma PrefixStep(v: nat, d: nat)
    requires d < MAX_BITS
    ensures Top(v, d + 1) == 2 * Top(v, d) + Top(v, d + 1) % 2
  {
    DivDiv(v, Pow2(MAX_BITS - d - 1), 2);
    assert Pow2(MAX_BITS - d) == Pow2(MAX_BITS - d - 1) * 2;
  }

  // an entry whose interval holds the first number that is not owned names no symbol
  lemma NotOwnedYet(lens: seq<nat>, tr: Tree, t: seq<int>, done: nat, cap: nat, i: int)
    requires Used(tr, i) && i < |t| && cap <= MAX_BITS && EntryOk(lens, tr, t, done, cap, i)
    requires Prefix(tr, i) == Top(done, Depth(tr, i))
    requires |lens| <= EMPTY
    ensures t[i] != EMPTY ==> tr.base <= t[i] < tr.base + |tr.nodes| && Depth(tr, i) < cap
  {
    PrefixInterval(done, Depth(tr, i));
    hide Pow2, Top, First, Start, Depth, Prefix, Weight;
  }

  // the entry one bit further down
  lemma PathStep(lens: seq<nat>, tr: Tree, t: seq<int>, done: nat, cap: nat, v: nat, j: nat, i: int)
    requires TableInv(lens, tr, t, done, cap) && OnPath(tr, t, v, j, i)
    requires tr.base <= t[i] < tr.base + |tr.nodes|
    requires tr.nbits + j < MAX_BITS
    ensures OnPath(tr, t, v, j + 1, 2 * t[i] + Top(v, tr.nbits + j + 1) % 2)
  {
    hide Pow2, Top, First, Start;
    assert EntryOk(lens, tr, t, done, cap, i) && NodeOk(tr, t, t[i] - tr.base);
    PrefixStep(v, tr.nbits + j);
    ChildSlot(lens, tr, t, t[i] - tr.base, Top(v, tr.nbits + j + 1) % 2);
  }

  lemma ChildSlot(lens: seq<nat>, tr: Tree, t: seq<int>, k: nat, b: nat)
    requires Shape(lens, tr, t) && k < |tr.nodes| && b <= 1
    requires NodeOk(tr, t, k)
    ensures Used(tr, 2 * (tr.base + k) + b) && 2 * (tr.base + k) + b < |t|
    ensures Depth(tr, 2 * (tr.base + k) + b) == tr.nodes[k].depth + 1
    ensures Prefix(tr, 2 * (tr.base + k) + b) == 2 * tr.nodes[k].prefix + b
  {
    hide Pow2;
    assert (2 * (tr.base + k) + b) / 2 == tr.base + k;
  }

  lemma PathGrows(lens: seq<nat>, tr: Tree, t: seq<int>, v: nat, path: seq<int>, leaf: int)
    requires Shape(lens, tr, t) && Path(tr, t, v, path) && leaf == path[|path| - 1]
    requires 2 * (tr.base + |tr.nodes| + 1) <= |t| && tr.base + |tr.nodes| < EMPTY
    ensures Path(Grow(tr, leaf), GrowTable(tr, t, leaf), v, path)
    ensures GrowTable(tr, t, leaf)[leaf] == tr.base + |tr.nodes|
  {
    hide Pow2, Top;
    var tr', t' := Grow(tr, leaf), GrowTable(tr, t, leaf);
    assert OnPath(tr, t, v, |path| - 1, path[|path| - 1]);
    forall j | 0 <= j < |path|
      ensures OnPath(tr', t', v, j, path[j]) && (path[j] == leaf || t'[path[j]] == t[path[j]])
    {
      assert OnPath(tr, t, v, j, path[j]);
      GrowKeepsSlots(tr, leaf, path[j]);
    }
  }

  // an empty entry other than the one the new code takes does not start where the new code does
  lemma EmptyElsewhere(lens: seq<nat>, tr: Tree, t: seq<int>, done: nat, cap: nat, path: seq<int>, i: int)
    requires TableInv(lens, tr, t, done, cap) && Path(tr, t, done, path)
    requires cap == tr.nbits + |path| - 1
    requires Used(tr, i) && i != path[|path| - 1] && t[i] == EMPTY
    ensures First(Depth(tr, i), Prefix(tr, i)) != done
  {
    hide Pow2, Top, First, Start, Depth, Prefix;
    assert EntryOk(lens, tr, t, done, cap, i);
    var d, p := Depth(tr, i), Prefix(tr, i);
    if First(d, p) == done {
      PrefixOfFirst(d, p);
      var j := d - tr.nbits;
      assert OnPath(tr, t, done, j, path[j]);
      SlotsInjective(lens, tr, t, done, cap, i, path[j]);
    }
  }

  // ... so it lies behind the new code
  lemma EmptyBehind(lens: seq<nat>, tr: Tree, t: seq<int>, done: nat, cap: nat, path: seq<int>, i: int)
    requires TableInv(lens, tr, t, done, cap) && Path(tr, t, done, path)
    requires cap == tr.nbits + |path| - 1 && done % Pow2(MAX_BITS - cap) == 0
    requires Used(tr, i) && i != path[|path| - 1] && t[i] == EMPTY
    ensures done + Pow2(MAX_BITS - cap) <= First(Depth(tr, i), Prefix(tr, i))
  {
    EmptyElsewhere(lens, tr, t, done, cap, path, i);
    hide Pow2, Top, First, Start, Depth, Prefix, Path;
    assert EntryOk(lens, tr, t, done, cap, i);
    FirstBehind(done, cap, Depth(tr, i), Prefix(tr, i));
  }

  lemma FirstBehind(done: nat, cap: nat, d: nat, p: nat)
    requires d <= cap <= MAX_BITS && done % Pow2(MAX_BITS - cap) == 0 && done < First(d, p)
    ensures done + Pow2(MAX_BITS - cap) <= First(d, p)
  {
    hide Pow2, First;
    PrefixOfFirst(d, p);
    MultipleOfSmaller(First(d, p), MAX_BITS - cap, MAX_BITS - d);
    MultipleGap(done, First(d, p), Pow2(MAX_BITS - cap));
  }

  // the entry at the end of the path of symbol s can take the symbol
  lemma PlaceHere(lens: seq<nat>, tr: Tree, t: seq<int>, done: nat, leaf: int, s: nat)
    requires Coded(lens, s) && done == Start(lens, s) && Used(tr, leaf) && leaf < |t|
    requires |lens| <= EMPTY && EntryOk(lens, tr, t, done, lens[s], leaf)
    requires Depth(tr, leaf) == lens[s] && Prefix(tr, leaf) == Top(done, lens[s])
    ensures t[leaf] == EMPTY && done % Pow2(MAX_BITS - lens[s]) == 0
    ensures EntryOk(lens, tr, t[leaf := s], done + Weight(lens[s]), lens[s], leaf)
  {
    NotOwnedYet(lens, tr, t, done, lens[s], leaf);
    PlaceAligned(lens, |lens|, lens[s], s);
    PrefixInterval(done, lens[s]);
    hide Pow2, Top, First, Depth, Prefix, Used;
  }

  // writing symbol s, the next in canonical order, to the end of its path
  lemma PlaceSymbol(lens: seq<nat>, tr: Tree, t: seq<int>, done: nat, path: seq<int>, s: nat)
    requires Coded(lens, s) && done == Start(lens, s)
    requires TableInv(lens, tr, t, done, lens[s]) && Path(tr, t, done, path)
    requires lens[s] == tr.nbits + |path| - 1
    ensures t[path[|path| - 1]] == EMPTY
    ensures TableInv(lens, tr, t[path[|path| - 1] := s], done + Weight(lens[s]), lens[s])
  {
    hide Pow2, Top, First, Start, Depth, Prefix;
    var cap, leaf := lens[s], path[|path| - 1];
    assert OnPath(tr, t, done, |path| - 1, leaf) && EntryOk(lens, tr, t, done, cap, leaf);
    PlaceHere(lens, tr, t, done, leaf, s);
    var t' := t[leaf := s];
    forall k | 0 <= k < |tr.nodes|
      ensures NodeOk(tr, t', k)
    {
      assert NodeOk(tr, t, k);
    }
    forall i | Used(tr, i)
      ensures EntryOk(lens, tr, t', done + Weight(cap), cap, i)
    {
      assert EntryOk(lens, tr, t, done, cap, i);
      if i != leaf && t[i] == EMPTY {
        EmptyBehind(lens, tr, t, done, cap, path, i);
      }
    }
  }
}
