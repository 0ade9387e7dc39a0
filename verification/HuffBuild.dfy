// make_decode_table: building the decode table of a canonical code.
module HuffBuild {
  import opened Powers
  import opened CanonicalCode
  import opened HuffTable
  import opened HuffSize

  lemma NeverEmpty(lens: seq<nat>, tr: Tree, t: seq<int>, i: int)
    requires TableInv(lens, tr, t, Pow2(MAX_BITS), MAX_BITS) && Used(tr, i)
    ensures i < |t| && t[i] != EMPTY
  {
    assert EntryOk(lens, tr, t, Pow2(MAX_BITS), MAX_BITS, i);
    FirstBelow(Depth(tr, i), Prefix(tr, i));
  }

  lemma FirstBelow(d: nat, p: nat)
    requires d <= MAX_BITS && p < Pow2(d)
    ensures First(d, p) < Pow2(MAX_BITS)
  {
    hide Pow2;
    Pow2Add(d, MAX_BITS - d);
    MulMono(p + 1, Pow2(d), Pow2(MAX_BITS - d));
    MulDist(p, 1, Pow2(MAX_BITS - d));
  }

  // ---------- the direct entries ----------

  // direct entry i holds the symbol whose code owns all 16-bit numbers with prefix i
  predicate DirectOk(lens: seq<nat>, nbits: nat, e: int, i: nat)
    requires nbits <= MAX_BITS
  {
    0 <= e < |lens| && Coded(lens, e) && lens[e] <= nbits &&
    Start(lens, e) <= First(nbits, i) &&
    First(nbits, i) + Pow2(MAX_BITS - nbits) <= Start(lens, e) + Weight(lens[e])
  }

  method FillRun(table: array<int>, start: nat, count: nat, sym: nat)
    requires start + count <= table.Length
    modifies table
    ensures forall i :: start <= i < start + count ==> table[i] == sym
    ensures forall i :: 0 <= i < table.Length && !(start <= i < start + count) ==> table[i] == old(table[i])
  {
    var leaf, fill := start, count;
    while fill > 0
      invariant leaf + fill == start + count && start <= leaf
      invariant forall i :: start <= i < leaf ==> table[i] == sym
      invariant forall i :: 0 <= i < table.Length && !(start <= i < leaf) ==> table[i] == old(table[i])
    {
      fill := fill - 1;
      table[leaf] := sym;
      leaf := leaf + 1;
    }
  }

  // pos counts direct entries, place counts 16-bit numbers
  predicate AtPlace(lens: seq<nat>, nbits: nat, pos: nat, len: nat, sym: nat)
    requires nbits <= MAX_BITS
  {
    First(nbits, pos) == Place(lens, len, sym)
  }

  lemma DirectStep(lens: seq<nat>, nbits: nat, pos: nat, s: nat)
    requires 1 <= nbits < MAX_BITS && Coded(lens, s) && lens[s] <= nbits
    requires AtPlace(lens, nbits, pos, lens[s], s)
    ensures AtPlace(lens, nbits, pos + Pow2(nbits - lens[s]), lens[s], s + 1)
    ensures forall i :: pos <= i < pos + Pow2(nbits - lens[s]) ==> DirectOk(lens, nbits, s, i)
  {
    var u, m := Pow2(MAX_BITS - nbits), Pow2(nbits - lens[s]);
    Pow2Add(nbits - lens[s], MAX_BITS - nbits);
    assert Weight(lens[s]) == m * u;
    PlaceStep(lens, |lens|, lens[s], s);
    MulDist(pos, m, u);
    forall i | pos <= i < pos + m
      ensures DirectOk(lens, nbits, s, i)
    {
      MulMono(pos, i, u);
      MulMono(i + 1, pos + m, u);
      MulDist(i, 1, u);
    }
  }

  // past the end of the direct entries the codes up to nbits own too many numbers
  lemma DirectOverrun(lens: seq<nat>, nbits: nat, pos: nat, len: nat, sym: nat)
    requires 1 <= nbits < MAX_BITS && len <= nbits
    requires AtPlace(lens, nbits, pos, len, sym) && pos > Pow2(nbits)
    ensures Kraft(lens, nbits) > Pow2(MAX_BITS)
  {
    hide Pow2, PlaceTo, Kraft;
    Pow2Add(nbits, MAX_BITS - nbits);
    MulMono(Pow2(nbits) + 1, pos, Pow2(MAX_BITS - nbits));
    MulDist(Pow2(nbits), 1, Pow2(MAX_BITS - nbits));
    PlaceMono(lens, |lens|, len, sym, nbits + 1, 0);
    PlaceIsKraft(lens, nbits);
  }

  predicate DirectFilled(lens: seq<nat>, nbits: nat, t: seq<int>, pos: nat)
    requires nbits <= MAX_BITS
  {
    pos <= Pow2(nbits) <= |t| && forall i :: 0 <= i < pos ==> DirectOk(lens, nbits, t[i], i)
  }

  // the codes of one length
  method FillLength(nbits: nat, length: seq<nat>, table: array<int>, bitNum: nat, bitMask: nat, from: nat)
    returns (ok: bool, pos: nat)
    requires 1 <= nbits < MAX_BITS && 1 <= bitNum <= nbits && bitMask == Pow2(nbits - bitNum)
    requires DirectFilled(length, nbits, table[..], from) && AtPlace(length, nbits, from, bitNum, 0)
    modifies table
    ensures ok ==> DirectFilled(length, nbits, table[..], pos) && AtPlace(length, nbits, pos, bitNum, |length|)
    ensures !ok ==> Kraft(length, nbits) > Pow2(MAX_BITS)
    ensures forall i :: Pow2(nbits) <= i < table.Length ==> table[i] == old(table[i])
  {
    pos := from;
    for sym := 0 to |length|
      invariant DirectFilled(length, nbits, table[..], pos)
      invariant AtPlace(length, nbits, pos, bitNum, sym)
      invariant forall i :: Pow2(nbits) <= i < table.Length ==> table[i] == old(table[i])
    {
      PlaceStep(length, |length|, bitNum, sym);
      if length[sym] == bitNum {
        var leaf := pos;
        DirectStep(length, nbits, pos, sym);
        pos := pos + bitMask;
        if pos > Pow2(nbits) {
          DirectOverrun(length, nbits, pos, bitNum, sym + 1);
          return false, pos;
        }
        FillRun(table, leaf, bitMask, sym);
      }
    }
    return true, pos;
  }

  method FillDirect(nbits: nat, length: seq<nat>, table: array<int>) returns (ok: bool, pos: nat)
    requires 1 <= nbits < MAX_BITS && Pow2(nbits) <= table.Length
    modifies table
    ensures ok <==> Kraft(length, nbits) <= Pow2(MAX_BITS)
    ensures ok ==> DirectFilled(length, nbits, table[..], pos)
    ensures ok ==> First(nbits, pos) == Kraft(length, nbits)
    ensures forall i :: Pow2(nbits) <= i < table.Length ==> table[i] == old(table[i])
  {
    hide Kraft, PlaceTo, DirectOk, First;
    pos, ok := 0, true;
    var bitMask := Pow2(nbits) / 2;
    var bitNum := 1;
    PlaceFirst(length, |length|);
    Pow2Half(nbits);
    assert First(nbits, 0) == 0 by {
      FirstZero(nbits);
    }
    while bitNum <= nbits
      invariant 1 <= bitNum <= nbits + 1
      invariant bitNum <= nbits ==> bitMask == Pow2(nbits - bitNum)
      invariant DirectFilled(length, nbits, table[..], pos) && AtPlace(length, nbits, pos, bitNum, 0)
      invariant forall i :: Pow2(nbits) <= i < table.Length ==> table[i] == old(table[i])
    {
      ok, pos := FillLength(nbits, length, table, bitNum, bitMask, pos);
      if !ok {
        return;
      }
      PlaceNextLength(length, |length|, bitNum, |length|);
      bitMask := bitMask / 2;
      bitNum := bitNum + 1;
    }
    PlaceIsKraft(length, nbits);
    DirectNotOver(nbits, pos);
  }

  lemma FirstZero(nbits: nat)
    ensures First(nbits, 0) == 0
  {
  }

  lemma DirectNotOver(nbits: nat, pos: nat)
    requires nbits <= MAX_BITS && pos <= Pow2(nbits)
    ensures First(nbits, pos) <= Pow2(MAX_BITS)
  {
    hide Pow2;
    Pow2Add(nbits, MAX_BITS - nbits);
    MulMono(pos, Pow2(nbits), Pow2(MAX_BITS - nbits));
  }

  // ---------- the tree for the longer codes ----------

  lemma HigherCap(lens: seq<nat>, tr: Tree, t: seq<int>, done: nat, cap: nat, cap': nat)
    requires TableInv(lens, tr, t, done, cap) && cap <= cap' <= MAX_BITS
    ensures TableInv(lens, tr, t, done, cap')
  {
    forall i | Used(tr, i)
      ensures EntryOk(lens, tr, t, done, cap', i)
    {
      assert EntryOk(lens, tr, t, done, cap, i);
    }
  }

  // the position as the second phase counts it, with 16 bits more
  function Scaled(place: nat, nbits: nat): nat
  {
    place * Pow2(nbits)
  }

  // what the shifts of the scaled position say about the 16-bit number done
  lemma ScaledPrefix(done: nat, nbits: nat, d: nat)
    requires nbits <= MAX_BITS && d <= MAX_BITS
    ensures Scaled(done, nbits) / Pow2(MAX_BITS - d + nbits) == Top(done, d)
  {
    Pow2Add(MAX_BITS - d, nbits);
    DivScale(done, Pow2(MAX_BITS - d), Pow2(nbits));
  }

  lemma PathStart(tr: Tree, t: seq<int>, done: nat, leaf: int)
    requires 1 <= tr.nbits < MAX_BITS && Pow2(tr.nbits) <= |t|
    requires done < Pow2(MAX_BITS) && leaf == Top(done, tr.nbits)
    ensures Path(tr, t, done, [leaf])
  {
    Pow2Add(tr.nbits, MAX_BITS - tr.nbits);
    PrefixInterval(done, tr.nbits);
    hide Top;
    if leaf >= Pow2(tr.nbits) {
      MulMono(Pow2(tr.nbits), leaf, Pow2(MAX_BITS - tr.nbits));
    }
    assert OnPath(tr, t, done, 0, leaf);
  }

  // A code has been placed below every node, or, for the nodes above the given depth, the code that
  // starts at done is about to be.
  ghost predicate Entered(tr: Tree, done: nat, depth: nat)
  {
    forall k {:trigger tr.nodes[k]} :: 0 <= k < |tr.nodes| ==>
      var n := tr.nodes[k];
      First(n.depth, n.prefix) < done || (First(n.depth, n.prefix) == done && n.depth < depth)
  }

  // The state of the second phase: the codes before the place that owns done are in the table, and
  // the nodes are those that they need.
  ghost predicate Growing(lens: seq<nat>, tr: Tree, t: seq<int>, done: nat, cap: nat)
  {
    cap <= MAX_BITS && TableInv(lens, tr, t, done, cap) && Entered(tr, done, 0) &&
    |tr.nodes| == NodesTo(lens, tr.nbits, cap, done)
  }

  // the next code starts at done: is it the first one with its first d bits?
  predicate Starts(done: nat, d: nat)
    requires d <= MAX_BITS
  {
    done % Pow2(MAX_BITS - d) == 0
  }

  // an entry on the path of the next code is unused exactly when no code went that way before
  lemma UnusedIsFresh(lens: seq<nat>, tr: Tree, t: seq<int>, done: nat, cap: nat, path: seq<int>, leaf: int)
    requires TableInv(lens, tr, t, done, cap)
    requires Path(tr, t, done, path) && leaf == path[|path| - 1] && tr.nbits + |path| <= cap
    requires Entered(tr, done, tr.nbits + |path| - 1)
    ensures 0 <= leaf < |t| && (t[leaf] == EMPTY <==> Starts(done, tr.nbits + |path| - 1))
  {
    hide Pow2, Top, First;
    var d := tr.nbits + |path| - 1;
    assert OnPath(tr, t, done, |path| - 1, leaf) && EntryOk(lens, tr, t, done, cap, leaf);
    PrefixInterval(done, d);
    NotOwnedYet(lens, tr, t, done, cap, leaf);
    if t[leaf] == EMPTY {
      PrefixOfFirst(d, Top(done, d));
    } else {
      var k := t[leaf] - tr.base;
      assert NodeOk(tr, t, k) && tr.nodes[k].depth == d;
    }
  }

  lemma GrowEnters(tr: Tree, done: nat, leaf: int, depth: nat)
    requires Used(tr, leaf) && Entered(tr, done, depth) && Depth(tr, leaf) == depth <= MAX_BITS
    requires Prefix(tr, leaf) == Top(done, depth) && Starts(done, depth)
    ensures Entered(Grow(tr, leaf), done, depth + 1)
  {
    PrefixInterval(done, depth);
    hide Pow2, Top, First, Depth, Prefix;
  }

  lemma GrowPath(lens: seq<nat>, tr: Tree, t: seq<int>, done: nat, cap: nat, path: seq<int>, leaf: int)
    requires TableInv(lens, tr, t, done, cap)
    requires Path(tr, t, done, path) && leaf == path[|path| - 1] && tr.nbits + |path| <= cap
    requires tr.base + |tr.nodes| < EMPTY && 2 * (tr.base + |tr.nodes| + 1) <= |t|
    requires t[leaf] == EMPTY && Entered(tr, done, tr.nbits + |path| - 1) && Starts(done, tr.nbits + |path| - 1)
    ensures Used(tr, leaf)
    ensures TableInv(lens, Grow(tr, leaf), GrowTable(tr, t, leaf), done, cap)
    ensures Path(Grow(tr, leaf), GrowTable(tr, t, leaf), done, path)
    ensures GrowTable(tr, t, leaf)[leaf] == tr.base + |tr.nodes|
    ensures Entered(Grow(tr, leaf), done, tr.nbits + |path|)
  {
    hide Pow2, Top, Entered, Starts;
    assert OnPath(tr, t, done, |path| - 1, leaf);
    GrowKeepsTable(lens, tr, t, done, cap, leaf);
    GrowEnters(tr, done, leaf, tr.nbits + |path| - 1);
    PathGrows(lens, tr, t, done, path, leaf);
  }

  lemma EnteredMore(tr: Tree, done: nat, depth: nat, depth': nat)
    requires Entered(tr, done, depth) && depth <= depth'
    ensures Entered(tr, done, depth')
  {
    hide First;
  }

  // the tables agree but for the direct entries and those of the tree below node number next
  ghost predicate SameElsewhere(nbits: nat, base: nat, next: nat, t: seq<int>, t': seq<int>)
  {
    |t| == |t'| && forall i :: Pow2(nbits) <= i < |t| && !(2 * base <= i < 2 * next) ==> t'[i] == t[i]
  }

  lemma SameTrans(nbits: nat, base: nat, next: nat, next': nat, t: seq<int>, t': seq<int>, t'': seq<int>)
    requires SameElsewhere(nbits, base, next, t, t') && SameElsewhere(nbits, base, next', t', t'') && next <= next'
    ensures SameElsewhere(nbits, base, next', t, t'')
  {
  }

  lemma SameRefl(nbits: nat, base: nat, next: nat, t: seq<int>)
    ensures SameElsewhere(nbits, base, next, t, t)
  {
  }

  // if this path has not been taken yet, allocate two entries
  method Allocate(length: seq<nat>, table: array<int>, leaf: int, nextSymbol: nat,
                  ghost done: nat, ghost cap: nat, ghost tr: Tree, ghost path: seq<int>)
    returns (next': nat, ghost tr': Tree)
    requires TableInv(length, tr, table[..], done, cap)
    requires Path(tr, table[..], done, path) && leaf == path[|path| - 1] && tr.nbits + |path| <= cap
    requires nextSymbol == tr.base + |tr.nodes| && Entered(tr, done, tr.nbits + |path| - 1)
    requires Starts(done, tr.nbits + |path| - 1) ==> NodeRoom(nextSymbol, 1, table.Length)
    modifies table
    ensures TableInv(length, tr', table[..], done, cap) && tr'.nbits == tr.nbits && tr'.base == tr.base
    ensures Path(tr', table[..], done, path) && table[..][leaf] != EMPTY
    ensures Entered(tr', done, tr.nbits + |path|)
    ensures next' == tr.base + |tr'.nodes|
    ensures |tr'.nodes| == |tr.nodes| + if Starts(done, tr.nbits + |path| - 1) then 1 else 0
    ensures SameElsewhere(tr.nbits, tr.base, next', old(table[..]), table[..])
  {
    tr', next' := tr, nextSymbol;
    UnusedIsFresh(length, tr, table[..], done, cap, path, leaf);
    hide TableInv, Path, Pow2, Top, OnPath, Entered, Starts;
    if table[leaf] == EMPTY {
      ghost var t := table[..];
      GrowPath(length, tr, t, done, cap, path, leaf);
      table[2 * nextSymbol] := EMPTY;
      table[2 * nextSymbol + 1] := EMPTY;
      table[leaf] := nextSymbol;
      assert table[..] == GrowTable(tr, t, leaf);
      next' := nextSymbol + 1;
      tr' := Grow(tr, leaf);
    } else {
      EnteredMore(tr, done, tr.nbits + |path| - 1, tr.nbits + |path|);
    }
  }

  lemma PathExtends(tr: Tree, t: seq<int>, v: nat, path: seq<int>, leaf: int)
    requires Path(tr, t, v, path) && t[path[|path| - 1]] != EMPTY && OnPath(tr, t, v, |path|, leaf)
    ensures Path(tr, t, v, path + [leaf])
  {
    hide Pow2, Top, Depth, Prefix;
    var path' := path + [leaf];
    forall j | 0 <= j < |path'|
      ensures OnPath(tr, t, v, j, path'[j]) && 0 <= path'[j] < |t| && (j < |path'| - 1 ==> t[path'[j]] != EMPTY)
    {
      if j < |path| {
        assert OnPath(tr, t, v, j, path[j]);
      }
    }
  }

  lemma NextOnPath(lens: seq<nat>, tr: Tree, t: seq<int>, done: nat, cap: nat, path: seq<int>, leaf: int)
    requires TableInv(lens, tr, t, done, cap)
    requires Path(tr, t, done, path) && leaf == path[|path| - 1] && tr.nbits + |path| <= MAX_BITS
    requires t[leaf] != EMPTY
    ensures Path(tr, t, done, path + [2 * t[leaf] + Top(done, tr.nbits + |path|) % 2])
  {
    hide Pow2, Top;
    assert OnPath(tr, t, done, |path| - 1, leaf) && EntryOk(lens, tr, t, done, cap, leaf);
    NotOwnedYet(lens, tr, t, done, cap, leaf);
    PathStep(lens, tr, t, done, cap, done, |path| - 1, leaf);
    PathExtends(tr, t, done, path, 2 * t[leaf] + Top(done, tr.nbits + |path|) % 2);
  }

  lemma PathLeaf(tr: Tree, t: seq<int>, v: nat, path: seq<int>)
    requires Path(tr, t, v, path)
    ensures 0 <= path[|path| - 1] < |t|
  {
    hide Pow2, Top, Depth, Prefix;
    assert OnPath(tr, t, v, |path| - 1, path[|path| - 1]);
  }

  // one level down: allocate if needed, then select left or right for the next bit
  method Descend(nbits: nat, length: seq<nat>, table: array<int>, bitNum: nat, fill: nat, pos: nat,
                 leaf: int, nextSymbol: nat, ghost done: nat, ghost tr: Tree, ghost path: seq<int>)
    returns (leaf': int, next': nat, ghost tr': Tree)
    requires TableInv(length, tr, table[..], done, bitNum) && tr.nbits == nbits && pos == Scaled(done, nbits)
    requires Path(tr, table[..], done, path) && |path| == fill + 1 && leaf == path[fill]
    requires nbits + fill < bitNum <= MAX_BITS && nextSymbol == tr.base + |tr.nodes|
    requires Entered(tr, done, nbits + fill)
    requires Starts(done, nbits + fill) ==> NodeRoom(nextSymbol, 1, table.Length)
    modifies table
    ensures TableInv(length, tr', table[..], done, bitNum) && tr'.nbits == nbits && tr'.base == tr.base
    ensures Path(tr', table[..], done, path + [leaf']) && Entered(tr', done, nbits + fill + 1)
    ensures next' == tr.base + |tr'.nodes|
    ensures |tr'.nodes| == |tr.nodes| + if Starts(done, nbits + fill) then 1 else 0
    ensures SameElsewhere(tr.nbits, tr.base, next', old(table[..]), table[..])
  {
    hide TableInv, Path, Entered, Starts, Pow2, Top, SameElsewhere, NodeRoom;
    next', tr' := Allocate(length, table, leaf, nextSymbol, done, bitNum, tr, path);
    NextOnPath(length, tr', table[..], done, bitNum, path, leaf);
    ScaledPrefix(done, nbits, nbits + fill + 1);
    PathLeaf(tr', table[..], done, path);
    leaf' := 2 * table[leaf];
    if pos / Pow2(15 - fill) % 2 == 1 {
      leaf' := leaf' + 1;
    }
  }

  // room for a number of nodes from node number base on
  predicate NodeRoom(base: nat, nodes: nat, size: nat)
  {
    base + nodes <= EMPTY && (nodes > 0 ==> 2 * (base + nodes) <= size)
  }

  lemma {:induction false} FreshMono(done: nat, nbits: nat, d: nat, cap: nat)
    requires d <= cap <= MAX_BITS
    ensures Fresh(done, nbits, d) <= Fresh(done, nbits, cap)
    decreases cap
  {
    hide Pow2;
    if d < cap {
      FreshMono(done, nbits, d, cap - 1);
    }
  }

  // room for the next node on the path of the code
  lemma FreshRoom(done: nat, nbits: nat, d: nat, cap: nat, first: nat, size: nat)
    requires nbits <= d < cap <= MAX_BITS && NodeRoom(first, Fresh(done, nbits, cap), size)
    ensures Fresh(done, nbits, d + 1) == Fresh(done, nbits, d) + if Starts(done, d) then 1 else 0
    ensures Starts(done, d) ==> NodeRoom(first + Fresh(done, nbits, d), 1, size)
  {
    hide Pow2;
    FreshMono(done, nbits, d + 1, cap);
  }

  // the path of one code longer than nbits
  method MakePath(nbits: nat, length: seq<nat>, table: array<int>, bitNum: nat, pos: nat,
                  nextSymbol: nat, ghost done: nat, ghost tr: Tree)
    returns (leaf: int, next': nat, ghost tr': Tree, ghost path: seq<int>)
    requires TableInv(length, tr, table[..], done, bitNum) && tr.nbits == nbits < bitNum <= MAX_BITS
    requires done < Pow2(MAX_BITS) && pos == Scaled(done, nbits)
    requires nextSymbol == tr.base + |tr.nodes| && Entered(tr, done, nbits)
    requires NodeRoom(nextSymbol, Fresh(done, nbits, bitNum), table.Length)
    modifies table
    ensures TableInv(length, tr', table[..], done, bitNum) && tr'.nbits == nbits && tr'.base == tr.base
    ensures Path(tr', table[..], done, path) && |path| == bitNum - nbits + 1 && leaf == path[|path| - 1]
    ensures Entered(tr', done, bitNum)
    ensures next' == tr.base + |tr'.nodes| && |tr'.nodes| == |tr.nodes| + Fresh(done, nbits, bitNum)
    ensures SameElsewhere(tr.nbits, tr.base, next', old(table[..]), table[..])
  {
    hide TableInv, Path, Entered, Starts, Pow2, Top, Scaled, Fresh, SameElsewhere, NodeRoom;
    TableShape(length, tr, table[..], done, bitNum);
    SameRefl(nbits, tr.base, nextSymbol, table[..]);
    ScaledPrefix(done, nbits, nbits);
    PathStart(tr, table[..], done, Top(done, nbits));
    NoneFresh(done, nbits);
    leaf := pos / Pow2(16);
    path := [leaf];
    next', tr' := nextSymbol, tr;
    for fill := 0 to bitNum - nbits
      invariant TableInv(length, tr', table[..], done, bitNum) && tr'.nbits == nbits && tr'.base == tr.base
      invariant Path(tr', table[..], done, path) && |path| == fill + 1 && leaf == path[|path| - 1]
      invariant Entered(tr', done, nbits + fill)
      invariant next' == tr.base + |tr'.nodes| && |tr'.nodes| == |tr.nodes| + Fresh(done, nbits, nbits + fill)
      invariant SameElsewhere(tr.nbits, tr.base, next', old(table[..]), table[..])
    {
      FreshRoom(done, nbits, nbits + fill, bitNum, nextSymbol, table.Length);
      ghost var before, next := table[..], next';
      leaf, next', tr' := Descend(nbits, length, table, bitNum, fill, pos, leaf, next', done, tr', path);
      SameTrans(nbits, tr.base, next, next', old(table[..]), before, table[..]);
      path := path + [leaf];
    }
  }

  lemma TableShape(lens: seq<nat>, tr: Tree, t: seq<int>, done: nat, cap: nat)
    requires TableInv(lens, tr, t, done, cap)
    ensures Shape(lens, tr, t)
  {
  }

  lemma NoneFresh(done: nat, nbits: nat)
    requires nbits <= MAX_BITS
    ensures Fresh(done, nbits, nbits) == 0
  {
  }

  // the path of one long code, and its symbol at the end of it
  method InsertCode(nbits: nat, length: seq<nat>, table: array<int>, bitNum: nat, sym: nat, pos: nat,
                    nextSymbol: nat, ghost done: nat, ghost tr: Tree)
    returns (next': nat, ghost tr': Tree)
    requires Growing(length, tr, table[..], done, bitNum) && tr.nbits == nbits
    requires Coded(length, sym) && length[sym] == bitNum > nbits
    requires done == Start(length, sym) < Pow2(MAX_BITS) && pos == Scaled(done, nbits)
    requires nextSymbol == tr.base + |tr.nodes| && sym != EMPTY
    requires NodeRoom(tr.base, NodesTo(length, nbits, bitNum, done + Weight(bitNum)), table.Length)
    modifies table
    ensures Growing(length, tr', table[..], done + Weight(bitNum), bitNum)
    ensures tr'.nbits == nbits && tr'.base == tr.base
    ensures next' == tr.base + |tr'.nodes| >= nextSymbol
    ensures SameElsewhere(tr.nbits, tr.base, next', old(table[..]), table[..])
  {
    hide TableInv, Path, Entered, Pow2, Top, PlaceTo, Weight, Scaled, NodesTo, Fresh, SameElsewhere, Used;
    TableShape(length, tr, table[..], done, bitNum);
    CodeAddsNodes(length, nbits, bitNum, bitNum, sym);
    EnteredMore(tr, done, 0, nbits);
    var leaf;
    ghost var path;
    leaf, next', tr', path := MakePath(nbits, length, table, bitNum, pos, nextSymbol, done, tr);
    ghost var t := table[..];
    PlaceSymbol(length, tr', t, done, path, sym);
    PathLeafUsed(tr', t, done, path, leaf);
    CodeEnters(tr', done, bitNum, Weight(bitNum));
    table[leaf] := sym;
    assert table[..] == t[leaf := sym];
    SymbolElsewhere(tr', t, leaf, sym);
    SameTrans(nbits, tr.base, next', next', old(table[..]), t, table[..]);
  }

  lemma SymbolElsewhere(tr: Tree, t: seq<int>, leaf: int, sym: nat)
    requires 0 <= leaf < |t| && Used(tr, leaf)
    ensures SameElsewhere(tr.nbits, tr.base, tr.base + |tr.nodes|, t, t[leaf := sym])
  {
  }

  lemma CodeEnters(tr: Tree, done: nat, depth: nat, w: nat)
    requires Entered(tr, done, depth) && 1 <= depth <= MAX_BITS && w == Weight(depth)
    ensures Entered(tr, done + w, 0)
  {
    hide Pow2, First;
  }

  lemma PathLeafUsed(tr: Tree, t: seq<int>, done: nat, path: seq<int>, leaf: int)
    requires Path(tr, t, done, path) && leaf == path[|path| - 1]
    ensures 0 <= leaf < |t| && Used(tr, leaf)
  {
    assert OnPath(tr, t, done, |path| - 1, leaf);
  }

  // ---------- make_decode_table ----------

  // room for everything that is written
  ghost predicate RoomFor(lens: seq<nat>, nbits: nat, size: nat)
  {
    TableSize(lens, nbits) <= size && TreeBase(lens, nbits) + Nodes(lens, nbits) <= EMPTY
  }

  lemma DirectRoom(lens: seq<nat>, nbits: nat, size: nat)
    requires 1 <= nbits && RoomFor(lens, nbits, size)
    ensures Pow2(nbits) <= size && NodeRoom(TreeBase(lens, nbits), Nodes(lens, nbits), size) && |lens| <= EMPTY
  {
    Pow2Half(nbits);
    hide Pow2, NodesTo;
  }

  // is entry i among those that are used?
  predicate InUse(lens: seq<nat>, nbits: nat, i: int)
  {
    0 <= i < Pow2(nbits) || 2 * TreeBase(lens, nbits) <= i < 2 * (TreeBase(lens, nbits) + Nodes(lens, nbits))
  }

  // TableSize is one past the last entry in use
  lemma LastInUse(lens: seq<nat>, nbits: nat)
    requires 1 <= nbits
    ensures InUse(lens, nbits, TableSize(lens, nbits) - 1)
    ensures forall i :: InUse(lens, nbits, i) ==> i < TableSize(lens, nbits)
  {
    Pow2Half(nbits);
    hide Pow2, NodesTo;
  }

  // unused, a symbol or a node
  predicate IsEntry(lens: seq<nat>, nbits: nat, e: int)
  {
    e == EMPTY || 0 <= e < |lens| || TreeBase(lens, nbits) <= e < TreeBase(lens, nbits) + Nodes(lens, nbits)
  }

  ghost predicate AllWritten(lens: seq<nat>, nbits: nat, t: seq<int>)
  {
    forall i :: InUse(lens, nbits, i) ==> i < |t| && IsEntry(lens, nbits, t[i])
  }

  // with all its nodes a table is written everywhere
  lemma AllNodesWritten(lens: seq<nat>, tr: Tree, t: seq<int>, done: nat, cap: nat)
    requires TableInv(lens, tr, t, done, cap) && tr.base == TreeBase(lens, tr.nbits)
    requires |tr.nodes| == Nodes(lens, tr.nbits)
    ensures AllWritten(lens, tr.nbits, t)
  {
    hide Pow2, NodesTo, TreeBase, Depth, Prefix, First, Start;
    forall i | InUse(lens, tr.nbits, i)
      ensures i < |t| && IsEntry(lens, tr.nbits, t[i])
    {
      assert Used(tr, i) && EntryOk(lens, tr, t, done, cap, i);
    }
  }

  lemma DirectWithin(lens: seq<nat>, nbits: nat, e: int, i: nat)
    requires nbits < MAX_BITS && DirectOk(lens, nbits, e, i)
    ensures SymbolOwns(lens, e, nbits, i, Kraft(lens, nbits))
  {
    PlaceStep(lens, |lens|, lens[e], e);
    PlaceMono(lens, |lens|, lens[e], e + 1, nbits + 1, 0);
    PlaceIsKraft(lens, nbits);
  }

  // the direct part alone, with the entries from pos on empty, is a table of the codes up to nbits
  lemma DirectIsTable(lens: seq<nat>, nbits: nat, t: seq<int>, pos: nat)
    requires 1 <= nbits < MAX_BITS && DirectFilled(lens, nbits, t, pos)
    requires First(nbits, pos) == Kraft(lens, nbits)
    requires forall i :: pos <= i < Pow2(nbits) ==> t[i] == EMPTY
    requires TreeBase(lens, nbits) <= EMPTY
    ensures TableInv(lens, Tree(nbits, TreeBase(lens, nbits), []), t, Kraft(lens, nbits), nbits)
  {
    var tr := Tree(nbits, TreeBase(lens, nbits), []);
    Pow2Half(nbits);
    hide Pow2, Kraft;
    forall i | Used(tr, i)
      ensures EntryOk(lens, tr, t, Kraft(lens, nbits), nbits, i)
    {
      if i < pos {
        DirectWithin(lens, nbits, t[i], i);
      } else {
        MulMono(pos, i, Pow2(MAX_BITS - nbits));
      }
    }
  }

  method MarkUnused(table: array<int>, pos: nat, tableMask: nat)
    requires pos <= tableMask <= table.Length
    modifies table
    ensures forall i :: pos <= i < tableMask ==> table[i] == EMPTY
    ensures forall i :: 0 <= i < table.Length && !(pos <= i < tableMask) ==> table[i] == old(table[i])
  {
    for sym := pos to tableMask
      invariant forall i :: pos <= i < sym ==> table[i] == EMPTY
      invariant forall i :: 0 <= i < table.Length && !(pos <= i < sym) ==> table[i] == old(table[i])
    {
      table[sym] := EMPTY;
    }
  }

  // the second phase just before the place (len, sym)
  ghost predicate AtLong(lens: seq<nat>, tr: Tree, t: seq<int>, pos: nat, cap: nat, len: nat, sym: nat)
  {
    Growing(lens, tr, t, Place(lens, len, sym), cap) &&
    pos == Scaled(Place(lens, len, sym), tr.nbits) && Place(lens, len, sym) <= Pow2(MAX_BITS)
  }

  lemma BeforeEnd(lens: seq<nat>, len: nat, sym: nat)
    requires len <= MAX_BITS
    ensures Place(lens, len, sym) <= Kraft(lens, len) <= Kraft(lens, MAX_BITS)
  {
    PlaceMono(lens, |lens|, len, sym, len + 1, 0);
    PlaceIsKraft(lens, len);
    KraftMono(lens, len, MAX_BITS);
  }

  // the nodes up to the next code are among those that there is room for
  lemma LongRoom(lens: seq<nat>, nbits: nat, len: nat, sym: nat)
    requires nbits < len <= MAX_BITS && sym < |lens| && lens[sym] == len
    requires Place(lens, len, sym) < Pow2(MAX_BITS)
    ensures NodesTo(lens, nbits, len, Place(lens, len, sym) + Weight(len)) <= Nodes(lens, nbits)
  {
    hide Kraft, PlaceTo, Pow2, NodesTo, Weight;
    LongPlace(lens, len, sym);
    BeforeEnd(lens, len, sym + 1);
    NodesMono(lens, nbits, len, Place(lens, len, sym) + Weight(len), MAX_BITS, End(lens));
  }

  lemma ScaledStep(q: nat, w: nat, nbits: nat)
    ensures Scaled(q + w, nbits) == Scaled(q, nbits) + Scaled(w, nbits)
  {
    MulDist(q, w, Pow2(nbits));
  }

  lemma ScaledFull(q: nat, nbits: nat)
    requires q <= Pow2(MAX_BITS)
    ensures Scaled(q, nbits) >= Scaled(Pow2(MAX_BITS), nbits) <==> q == Pow2(MAX_BITS)
  {
    hide Pow2;
    if q < Pow2(MAX_BITS) {
      MulMono(q + 1, Pow2(MAX_BITS), Pow2(nbits));
      MulDist(q, 1, Pow2(nbits));
    }
  }

  // where the next code of length len ends: not past 2^16, unless the codes own too many numbers
  lemma LongPlace(lens: seq<nat>, len: nat, sym: nat)
    requires 1 <= len <= MAX_BITS && sym < |lens| && lens[sym] == len
    requires Place(lens, len, sym) <= Pow2(MAX_BITS)
    ensures Place(lens, len, sym) == Pow2(MAX_BITS) ==> Kraft(lens, MAX_BITS) > Pow2(MAX_BITS)
    ensures Place(lens, len, sym) < Pow2(MAX_BITS) ==> Place(lens, len, sym) + Weight(len) <= Pow2(MAX_BITS)
    ensures Place(lens, len, sym + 1) == Place(lens, len, sym) + Weight(len)
  {
    hide Kraft, PlaceTo, Pow2;
    PlaceStep(lens, |lens|, len, sym);
    PlaceMono(lens, |lens|, len, sym + 1, MAX_BITS + 1, 0);
    PlaceIsKraft(lens, MAX_BITS);
    PlaceAligned(lens, |lens|, len, sym);
    Pow2Multiple(MAX_BITS - len, MAX_BITS);
    if Place(lens, len, sym) < Pow2(MAX_BITS) {
      MultipleGap(Place(lens, len, sym), Pow2(MAX_BITS), Pow2(MAX_BITS - len));
    }
  }

  // the table is built as far as the codes allow
  ghost predicate Finished(lens: seq<nat>, tr: Tree, t: seq<int>)
  {
    |tr.nodes| == Nodes(lens, tr.nbits) && AllWritten(lens, tr.nbits, t)
  }

  // no room for the next code: the nodes are those of the codes that were placed
  lemma LongOverflow(lens: seq<nat>, tr: Tree, t: seq<int>, len: nat, sym: nat)
    requires tr.nbits < len <= MAX_BITS && sym < |lens| && lens[sym] == len
    requires Growing(lens, tr, t, Pow2(MAX_BITS), len) && Place(lens, len, sym) == Pow2(MAX_BITS)
    requires tr.base == TreeBase(lens, tr.nbits)
    ensures Kraft(lens, MAX_BITS) > Pow2(MAX_BITS) && Finished(lens, tr, t)
  {
    hide TableInv, Entered, Kraft, PlaceTo, Pow2, NodesTo, AllWritten, Weight, TreeBase;
    LongPlace(lens, len, sym);
    BeforeEnd(lens, len, sym);
    NodesBelow(lens, tr.nbits, len, MAX_BITS, Pow2(MAX_BITS));
    AllNodesWritten(lens, tr, t, Pow2(MAX_BITS), len);
  }

  // the codes of one length
  method AddLength(nbits: nat, length: seq<nat>, table: array<int>, bitNum: nat, bitMask: nat,
                   tableMask: nat, from: nat, firstNode: nat, ghost tr: Tree)
    returns (ok: bool, pos: nat, nextSymbol: nat, ghost tr': Tree)
    requires AtLong(length, tr, table[..], from, bitNum, bitNum, 0) && tr.nbits == nbits
    requires 1 <= nbits < bitNum <= MAX_BITS && firstNode == tr.base + |tr.nodes|
    requires tr.base == TreeBase(length, nbits) && RoomFor(length, nbits, table.Length)
    requires bitMask == Scaled(Weight(bitNum), nbits) && tableMask == Scaled(Pow2(MAX_BITS), nbits)
    modifies table
    ensures ok ==> AtLong(length, tr', table[..], pos, bitNum, bitNum, |length|)
    ensures !ok ==> Kraft(length, MAX_BITS) > Pow2(MAX_BITS) && Finished(length, tr', table[..])
    ensures tr'.nbits == nbits && tr'.base == tr.base && nextSymbol == tr.base + |tr'.nodes| >= firstNode
    ensures SameElsewhere(nbits, tr.base, nextSymbol, old(table[..]), table[..])
  {
    hide TableInv, Entered, Pow2, PlaceTo, Kraft, Weight, Scaled, NodesTo, Finished, TreeBase, RoomFor, SameElsewhere;
    DirectRoom(length, nbits, table.Length);
    SameRefl(nbits, tr.base, firstNode, table[..]);
    pos, nextSymbol, tr' := from, firstNode, tr;
    for sym := 0 to |length|
      invariant AtLong(length, tr', table[..], pos, bitNum, bitNum, sym)
      invariant tr'.nbits == nbits && tr'.base == tr.base && nextSymbol == tr.base + |tr'.nodes| >= firstNode
      invariant SameElsewhere(nbits, tr.base, nextSymbol, old(table[..]), table[..])
    {
      PlaceStep(length, |length|, bitNum, sym);
      if length[sym] == bitNum {
        ScaledFull(Place(length, bitNum, sym), nbits);
        if pos >= tableMask {
          LongOverflow(length, tr', table[..], bitNum, sym);
          return false, pos, nextSymbol, tr';
        }
        LongPlace(length, bitNum, sym);
        LongRoom(length, nbits, bitNum, sym);
        ScaledStep(Place(length, bitNum, sym), Weight(bitNum), nbits);
        ghost var before, next := table[..], nextSymbol;
        nextSymbol, tr' := InsertCode(nbits, length, table, bitNum, sym, pos, nextSymbol,
          Place(length, bitNum, sym), tr');
        SameTrans(nbits, tr.base, next, nextSymbol, old(table[..]), before, table[..]);
        pos := pos + bitMask;
      }
    }
    ok := true;
  }

  // the longest code length when length len comes next
  function Cap(len: nat): nat
  {
    if len <= MAX_BITS then len else MAX_BITS
  }

  // on to the next length: the codes so far are those up to this length, and no node is deeper
  lemma NextLength(lens: seq<nat>, tr: Tree, t: seq<int>, pos: nat, len: nat)
    requires AtLong(lens, tr, t, pos, len, len, |lens|) && len <= MAX_BITS
    ensures AtLong(lens, tr, t, pos, Cap(len + 1), len + 1, 0)
  {
    PlaceNextLength(lens, |lens|, len, |lens|);
    PlaceIsKraft(lens, len);
    hide TableInv, Entered, PlaceTo, Pow2, Kraft, NodesTo;
    HigherCap(lens, tr, t, Place(lens, len, |lens|), len, Cap(len + 1));
    NodesBelow(lens, tr.nbits, len, Cap(len + 1), Place(lens, len, |lens|));
  }

  lemma LongStart(lens: seq<nat>, nbits: nat, t: seq<int>, pos: nat)
    requires 1 <= nbits < MAX_BITS && DirectFilled(lens, nbits, t, pos)
    requires First(nbits, pos) == Kraft(lens, nbits) <= Pow2(MAX_BITS)
    requires forall i :: pos <= i < Pow2(nbits) ==> t[i] == EMPTY
    requires TreeBase(lens, nbits) <= EMPTY
    ensures AtLong(lens, Tree(nbits, TreeBase(lens, nbits), []), t, pos * 0x1_0000, Cap(nbits + 1), nbits + 1, 0)
  {
    var tr := Tree(nbits, TreeBase(lens, nbits), []);
    DirectIsTable(lens, nbits, t, pos);
    PlaceIsKraft(lens, nbits);
    Pow2Values();
    Pow2Add(MAX_BITS - nbits, nbits);
    assert NodesTo(lens, nbits, nbits, Kraft(lens, nbits)) == 0;
    hide TableInv, PlaceTo, Pow2, Kraft, NodesTo;
    HigherCap(lens, tr, t, Kraft(lens, nbits), nbits, nbits + 1);
    NodesBelow(lens, nbits, nbits, nbits + 1, Kraft(lens, nbits));
    MulAssoc(pos, Pow2(MAX_BITS - nbits), Pow2(nbits));
  }

  // all codes are in
  lemma LongEnd(lens: seq<nat>, tr: Tree, t: seq<int>, pos: nat)
    requires AtLong(lens, tr, t, pos, Cap(MAX_BITS + 1), MAX_BITS + 1, 0) && tr.base == TreeBase(lens, tr.nbits)
    ensures Kraft(lens, MAX_BITS) <= Pow2(MAX_BITS) && Finished(lens, tr, t)
    ensures pos == Scaled(Pow2(MAX_BITS), tr.nbits) <==> Kraft(lens, MAX_BITS) == Pow2(MAX_BITS)
    ensures Kraft(lens, MAX_BITS) == Pow2(MAX_BITS) ==> TableFor(lens, tr.nbits, t)
  {
    hide TableInv, Entered, PlaceTo, Pow2, Kraft, Scaled, NodesTo, AllWritten;
    PlaceIsKraft(lens, MAX_BITS);
    ScaledFull(Place(lens, MAX_BITS + 1, 0), tr.nbits);
    AllNodesWritten(lens, tr, t, Place(lens, MAX_BITS + 1, 0), MAX_BITS);
  }

  // the codes up to nbits own pos direct entries' worth of numbers
  lemma DirectIsFullWhen(lens: seq<nat>, nbits: nat, pos: nat)
    requires nbits <= MAX_BITS && First(nbits, pos) == Kraft(lens, nbits)
    ensures pos <= Pow2(nbits) ==> (pos == Pow2(nbits) <==> Kraft(lens, nbits) == Pow2(MAX_BITS))
  {
    hide Pow2, Kraft;
    Pow2Add(nbits, MAX_BITS - nbits);
    if pos < Pow2(nbits) {
      MulMono(pos + 1, Pow2(nbits), Pow2(MAX_BITS - nbits));
      MulDist(pos, 1, Pow2(MAX_BITS - nbits));
    }
  }

  // the codes of one length, and on to the next length
  method AddLengthAndStep(nbits: nat, length: seq<nat>, table: array<int>, bitNum: nat, bitMask: nat,
                          tableMask: nat, from: nat, firstNode: nat, ghost tr: Tree)
    returns (ok: bool, pos: nat, nextSymbol: nat, mask: nat, ghost tr': Tree)
    requires AtLong(length, tr, table[..], from, Cap(bitNum), bitNum, 0) && tr.nbits == nbits
    requires 1 <= nbits < bitNum <= MAX_BITS && firstNode == tr.base + |tr.nodes|
    requires tr.base == TreeBase(length, nbits) && RoomFor(length, nbits, table.Length)
    requires bitMask == Scaled(Weight(bitNum), nbits) && tableMask == Scaled(Pow2(MAX_BITS), nbits)
    modifies table
    ensures ok ==> AtLong(length, tr', table[..], pos, Cap(bitNum + 1), bitNum + 1, 0)
    ensures ok && bitNum < MAX_BITS ==> mask == Scaled(Weight(bitNum + 1), nbits)
    ensures !ok ==> Kraft(length, MAX_BITS) > Pow2(MAX_BITS) && Finished(length, tr', table[..])
    ensures tr'.nbits == nbits && tr'.base == tr.base && nextSymbol == tr.base + |tr'.nodes| >= firstNode
    ensures SameElsewhere(nbits, tr.base, nextSymbol, old(table[..]), table[..])
  {
    hide TableInv, Pow2, PlaceTo, Kraft, Scaled, Weight, AtLong, RoomFor, TreeBase, Finished, SameElsewhere;
    ok, pos, nextSymbol, tr' :=
      AddLength(nbits, length, table, bitNum, bitMask, tableMask, from, firstNode, tr);
    mask := bitMask / 2;
    if ok {
      NextLength(length, tr', table[..], pos, bitNum);
      HalveMask(bitNum, nbits);
    }
  }

  // the codes of the lengths nbits + 1 .. 16
  method AddLengths(nbits: nat, length: seq<nat>, table: array<int>, from: nat, firstNode: nat, ghost start: Tree)
    returns (ok: bool, pos: nat, nextSymbol: nat, ghost tr: Tree)
    requires 1 <= nbits < MAX_BITS && RoomFor(length, nbits, table.Length)
    requires start.nbits == nbits && start.base == TreeBase(length, nbits) == firstNode && start.nodes == []
    requires AtLong(length, start, table[..], from, Cap(nbits + 1), nbits + 1, 0)
    modifies table
    ensures tr.nbits == nbits && tr.base == start.base && nextSymbol == tr.base + |tr.nodes|
    ensures ok ==> AtLong(length, tr, table[..], pos, Cap(MAX_BITS + 1), MAX_BITS + 1, 0)
    ensures !ok ==> Kraft(length, MAX_BITS) > Pow2(MAX_BITS) && Finished(length, tr, table[..])
    ensures SameElsewhere(nbits, start.base, nextSymbol, old(table[..]), table[..])
  {
    hide Pow2, Kraft, Scaled, Weight, AtLong, RoomFor, TreeBase, Cap, Finished, SameElsewhere;
    ScaledIs(nbits);
    SameRefl(nbits, start.base, firstNode, table[..]);
    var tableMask := Pow2(nbits) * 0x1_0000;
    var bitMask: nat := Pow2(15);
    ok, pos, nextSymbol, tr := true, from, firstNode, start;
    var bitNum := nbits + 1;
    while bitNum <= MAX_BITS
      invariant nbits < bitNum <= MAX_BITS + 1
      invariant bitNum <= MAX_BITS ==> bitMask == Scaled(Weight(bitNum), nbits)
      invariant ok && AtLong(length, tr, table[..], pos, Cap(bitNum), bitNum, 0)
      invariant tr.nbits == nbits && tr.base == start.base && nextSymbol == tr.base + |tr.nodes|
      invariant SameElsewhere(nbits, start.base, nextSymbol, old(table[..]), table[..])
    {
      ghost var before, next := table[..], nextSymbol;
      ok, pos, nextSymbol, bitMask, tr :=
        AddLengthAndStep(nbits, length, table, bitNum, bitMask, tableMask, pos, nextSymbol, tr);
      SameTrans(nbits, start.base, next, nextSymbol, old(table[..]), before, table[..]);
      if !ok {
        return;
      }
      bitNum := bitNum + 1;
    }
  }

  // the second phase: codes longer than nbits
  method AddLongCodes(nbits: nat, length: seq<nat>, table: array<int>, direct: nat) returns (r: int)
    requires 1 <= nbits < MAX_BITS && RoomFor(length, nbits, table.Length)
    requires DirectFilled(length, nbits, table[..], direct) && direct < Pow2(nbits)
    requires First(nbits, direct) == Kraft(length, nbits) < Pow2(MAX_BITS)
    requires forall i :: direct <= i < Pow2(nbits) ==> table[i] == EMPTY
    modifies table
    ensures r == 0 || r == 1
    ensures r == 0 <==> Kraft(length, MAX_BITS) == Pow2(MAX_BITS)
    ensures r == 0 ==> TableFor(length, nbits, table[..])
    ensures AllWritten(length, nbits, table[..])
    ensures forall i :: 0 <= i < table.Length && !InUse(length, nbits, i) ==> table[i] == old(table[i])
  {
    hide TableFor, Pow2, Kraft, AtLong, DirectFilled, First, Cap, Scaled, NodesTo, AllWritten, TreeBase, RoomFor;
    DirectRoom(length, nbits, table.Length);
    LongStart(length, nbits, table[..], direct);
    ScaledIs(nbits);
    ghost var tr := Tree(nbits, TreeBase(length, nbits), []);
    var nextSymbol := if Pow2(nbits) / 2 < |length| then |length| else Pow2(nbits) / 2;
    assert nextSymbol == TreeBase(length, nbits) by {
      BaseIs(length, nbits);
    }
    var ok, pos;
    ok, pos, nextSymbol, tr := AddLengths(nbits, length, table, direct * 0x1_0000, nextSymbol, tr);
    if !ok {
      return 1;
    }
    LongEnd(length, tr, table[..], pos);
    r := if pos == Pow2(nbits) * 0x1_0000 then 0 else 1;
  }

  lemma BaseIs(lens: seq<nat>, nbits: nat)
    ensures TreeBase(lens, nbits) == if Pow2(nbits) / 2 < |lens| then |lens| else Pow2(nbits) / 2
  {
  }

  lemma ScaledIs(nbits: nat)
    requires nbits < MAX_BITS
    ensures Scaled(Pow2(MAX_BITS), nbits) == Pow2(nbits) * 0x1_0000
    ensures Pow2(15) == Scaled(Weight(nbits + 1), nbits)
  {
    Pow2Values();
    Pow2Add(15 - nbits, nbits);
  }

  lemma HalveMask(len: nat, nbits: nat)
    requires 1 <= len <= MAX_BITS
    ensures len < MAX_BITS ==> Scaled(Weight(len), nbits) / 2 == Scaled(Weight(len + 1), nbits)
  {
    if len < MAX_BITS {
      Pow2Half(MAX_BITS - len);
      hide Pow2;
      HalfProduct(Weight(len + 1), Pow2(nbits));
    }
  }

  lemma HalfProduct(w: nat, p: nat)
    ensures (2 * w) * p / 2 == w * p
  {
    assert (2 * w) * p == 2 * (w * p);
  }

  // make_decode_table: builds a decode table from code lengths; returns 0 for OK, 1 for an error.
  // Whether it does or not, only the entries in use change, the last of which is TableSize - 1; and
  // unless the short codes already own too many numbers all of these have been written, whatever
  // they held before.
  method MakeDecodeTable(nbits: nat, length: seq<nat>, table: array<int>) returns (r: int)
    requires 1 <= nbits < MAX_BITS && RoomFor(length, nbits, table.Length)
    modifies table
    ensures r == 0 || r == 1
    ensures r == 0 <==> Buildable(length, nbits)
    ensures r == 0 ==> TableFor(length, nbits, table[..])
    ensures forall i :: 0 <= i < table.Length && !InUse(length, nbits, i) ==> table[i] == old(table[i])
    ensures Kraft(length, nbits) <= Pow2(MAX_BITS) ==> AllWritten(length, nbits, table[..])
  {
    DirectRoom(length, nbits, table.Length);
    hide TableInv, TableFor, Pow2, Kraft, DirectOk, First, TreeBase, NodesTo, AllWritten, RoomFor;
    var ok, pos := FillDirect(nbits, length, table);
    if !ok {
      return 1;
    }
    DirectIsFullWhen(length, nbits, pos);
    if pos == Pow2(nbits) {
      DirectIsFull(length, nbits, table[..], pos);
      return 0;
    }
    MarkUnused(table, pos, Pow2(nbits));
    r := AddLongCodes(nbits, length, table, pos);
  }

  lemma DirectIsFull(lens: seq<nat>, nbits: nat, t: seq<int>, pos: nat)
    requires 1 <= nbits < MAX_BITS && DirectFilled(lens, nbits, t, pos) && pos == Pow2(nbits)
    requires First(nbits, pos) == Kraft(lens, nbits) == Pow2(MAX_BITS)
    requires TreeBase(lens, nbits) <= EMPTY
    ensures TableFor(lens, nbits, t) && AllWritten(lens, nbits, t)
  {
    hide TableInv, Pow2, Kraft, AllWritten;
    DirectIsTable(lens, nbits, t, pos);
    NodesBelow(lens, nbits, nbits, MAX_BITS, End(lens));
    assert NodesTo(lens, nbits, nbits, End(lens)) == 0;
    hide NodesTo;
    var tr := Tree(nbits, TreeBase(lens, nbits), []);
    HigherCap(lens, tr, t, Kraft(lens, nbits), nbits, MAX_BITS);
    AllNodesWritten(lens, tr, t, Kraft(lens, nbits), MAX_BITS);
  }
}
