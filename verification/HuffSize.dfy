// How much of its table make_decode_table uses: the number of tree nodes it allocates for given code
// lengths, whether it accepts them or not, and when the documented table size is enough for them.
module HuffSize {
  import opened Powers
  import opened CanonicalCode

  // the first tree node number
  function TreeBase(lens: seq<nat>, nbits: nat): nat
  {
    if Pow2(nbits) / 2 < |lens| then |lens| else Pow2(nbits) / 2
  }

  // where the codes end: a code that would start at 2^16 is refused
  function End(lens: seq<nat>): nat
  {
    if Kraft(lens, MAX_BITS) <= Pow2(MAX_BITS) then Kraft(lens, MAX_BITS) else Pow2(MAX_BITS)
  }

  function CeilDiv(x: nat, w: nat): nat
    requires w > 0
  {
    DivNonNegative(x + w - 1, w);
    (x + w - 1) / w
  }

  // the 16-bit numbers below p that codes longer than d own
  function Above(lens: seq<nat>, d: nat, p: nat): nat
  {
    if p > Kraft(lens, d) then p - Kraft(lens, d) else 0
  }

  // the nodes of depth d when the codes so far own the numbers below p
  function NodesAt(lens: seq<nat>, d: nat, p: nat): nat
    requires d <= MAX_BITS
  {
    CeilDiv(Above(lens, d, p), Pow2(MAX_BITS - d))
  }

  // the nodes of the depths nbits .. cap - 1
  function NodesTo(lens: seq<nat>, nbits: nat, cap: nat, p: nat): nat
    requires cap <= MAX_BITS
  {
    if cap <= nbits then 0 else NodesTo(lens, nbits, cap - 1, p) + NodesAt(lens, cap - 1, p)
  }

  // all nodes that building a table of these lengths allocates
  function Nodes(lens: seq<nat>, nbits: nat): nat
  {
    NodesTo(lens, nbits, MAX_BITS, End(lens))
  }

  // one past the last entry of the table that is used
  function TableSize(lens: seq<nat>, nbits: nat): nat
  {
    if Nodes(lens, nbits) == 0 then Pow2(nbits) else 2 * (TreeBase(lens, nbits) + Nodes(lens, nbits))
  }

  // ---------- one more code ----------

  // does a code that starts at p come as the first one below its prefix of depth d?
  function Fresh(p: nat, nbits: nat, cap: nat): nat
    requires cap <= MAX_BITS
  {
    if cap <= nbits then 0 else Fresh(p, nbits, cap - 1) + if p % Pow2(MAX_BITS - (cap - 1)) == 0 then 1 else 0
  }

  lemma CeilStep(x: nat, v: nat, w: nat)
    requires 0 < v <= w && w % v == 0 && x % v == 0
    ensures CeilDiv(x + v, w) == CeilDiv(x, w) + if x % w == 0 then 1 else 0
  {
    var q, r := x / w, x % w;
    DivMod(x, w);
    if r == 0 {
      DivUnique(x + v + w - 1, w, q + 1, v - 1);
      DivUnique(x + w - 1, w, q, w - 1);
    } else {
      Remainder(x, w, v);
      MultipleGap(r, w, v);
      DivUnique(x + w - 1, w, q + 1, r - 1);
      DivUnique(x + v + w - 1, w, q + 1, r + v - 1);
    }
  }

  // a multiple of v has, over a multiple of v, a remainder that is one
  lemma Remainder(x: nat, w: nat, v: nat)
    requires v > 0 && w > 0 && x % v == 0 && w % v == 0
    ensures (x % w) % v == 0
  {
    var q := x / w;
    DivMod(x, w);
    MultipleTimes(q, w, v);
    MultipleSum(x, q * w, v);
    assert x - q * w == x % w;
  }

  lemma MultipleTimes(q: nat, w: nat, v: nat)
    requires v > 0 && w % v == 0
    ensures (q * w) % v == 0
  {
    var k := w / v;
    DivMod(w, v);
    assert q * w == (q * k) * v;
    DivUnique(q * w, v, q * k, 0);
  }

  lemma CeilZero(w: nat)
    requires w > 0
    ensures CeilDiv(0, w) == 0
  {
    DivUnique(w - 1, w, 0, w - 1);
  }

  lemma CeilMono(x: nat, y: nat, w: nat)
    requires w > 0 && x <= y
    ensures CeilDiv(x, w) <= CeilDiv(y, w)
  {
    var q, q' := (x + w - 1) / w, (y + w - 1) / w;
    DivMod(x + w - 1, w);
    DivMod(y + w - 1, w);
    if q' < q {
      MulMono(q' + 1, q, w);
      MulDist(q', 1, w);
    }
  }

  // the codes up to length d fill whole prefixes of depth d
  lemma KraftAligned(lens: seq<nat>, d: nat)
    requires 1 <= d <= MAX_BITS
    ensures Kraft(lens, d) % Pow2(MAX_BITS - d) == 0
  {
    PlaceIsKraft(lens, d);
    PlaceNextLength(lens, |lens|, d, |lens|);
    PlaceAligned(lens, |lens|, d, |lens|);
  }

  // the place (len, sym) lies behind the codes up to d
  lemma KraftBefore(lens: seq<nat>, d: nat, len: nat, sym: nat)
    requires d < len
    ensures Kraft(lens, d) <= Place(lens, len, sym)
  {
    PlaceIsKraft(lens, d);
    PlaceMono(lens, |lens|, d + 1, 0, len, sym);
  }

  lemma KraftMono(lens: seq<nat>, d: nat, e: nat)
    requires d <= e
    ensures Kraft(lens, d) <= Kraft(lens, e)
  {
    PlaceIsKraft(lens, e);
    KraftBefore(lens, d, e + 1, 0);
  }

  // a code of length len at p adds a node of depth d if no code before it shares its first d bits
  lemma NodesAtStep(lens: seq<nat>, d: nat, len: nat, sym: nat)
    requires 1 <= d < len <= MAX_BITS
    ensures var p := Place(lens, len, sym);
      NodesAt(lens, d, p + Weight(len)) ==
      NodesAt(lens, d, p) + if p % Pow2(MAX_BITS - d) == 0 then 1 else 0
  {
    var p, k, w, v := Place(lens, len, sym), Kraft(lens, d), Pow2(MAX_BITS - d), Pow2(MAX_BITS - len);
    KraftBefore(lens, d, len, sym);
    KraftAligned(lens, d);
    PlaceAligned(lens, |lens|, len, sym);
    Pow2Multiple(MAX_BITS - len, MAX_BITS - d);
    Pow2Mono(MAX_BITS - len, MAX_BITS - d);
    hide Pow2, Kraft, PlaceTo, CeilDiv;
    MultipleOfFactors(k, w, v);
    MultipleSum(p, k, v);
    CeilStep(p - k, v, w);
    if p % w == 0 {
      MultipleSum(p, k, w);
    } else if (p - k) % w == 0 {
      MultipleSum(p - k, k, w);
    }
  }

  lemma MultipleOfFactors(k: nat, w: nat, v: nat)
    requires v > 0 && w > 0 && k % w == 0 && w % v == 0
    ensures k % v == 0
  {
    DivMod(k, w);
    MultipleTimes(k / w, w, v);
  }

  lemma {:induction false} CodeAddsNodes(lens: seq<nat>, nbits: nat, cap: nat, len: nat, sym: nat)
    requires 1 <= nbits && cap <= len <= MAX_BITS
    ensures var p := Place(lens, len, sym);
      NodesTo(lens, nbits, cap, p + Weight(len)) == NodesTo(lens, nbits, cap, p) + Fresh(p, nbits, cap)
  {
    hide Pow2, Kraft, PlaceTo, NodesAt, Weight;
    if cap > nbits {
      CodeAddsNodes(lens, nbits, cap - 1, len, sym);
      NodesAtStep(lens, cap - 1, len, sym);
    }
  }

  lemma NodesAtZero(lens: seq<nat>, d: nat, p: nat)
    requires d <= MAX_BITS && p <= Kraft(lens, d)
    ensures NodesAt(lens, d, p) == 0
  {
    CeilZero(Pow2(MAX_BITS - d));
  }

  lemma NodesAtMono(lens: seq<nat>, d: nat, p: nat, q: nat)
    requires d <= MAX_BITS && p <= q
    ensures NodesAt(lens, d, p) <= NodesAt(lens, d, q)
  {
    CeilMono(Above(lens, d, p), Above(lens, d, q), Pow2(MAX_BITS - d));
  }

  lemma {:induction false} NodesMono(lens: seq<nat>, nbits: nat, cap: nat, p: nat, cap': nat, q: nat)
    requires cap <= cap' <= MAX_BITS && p <= q
    ensures NodesTo(lens, nbits, cap, p) <= NodesTo(lens, nbits, cap', q)
    decreases cap'
  {
    hide Pow2, NodesAt;
    if cap' > nbits {
      if cap < cap' {
        NodesMono(lens, nbits, cap, p, cap' - 1, q);
      } else {
        NodesMono(lens, nbits, cap - 1, p, cap' - 1, q);
        NodesAtMono(lens, cap - 1, p, q);
      }
    }
  }

  // no nodes of the depths from len on when no code longer than len has been placed
  lemma {:induction false} NodesBelow(lens: seq<nat>, nbits: nat, len: nat, cap: nat, p: nat)
    requires len <= cap <= MAX_BITS && p <= Kraft(lens, len)
    ensures NodesTo(lens, nbits, cap, p) == NodesTo(lens, nbits, len, p)
    decreases cap
  {
    hide Pow2, Kraft, NodesAt;
    if cap > nbits && cap > len {
      NodesBelow(lens, nbits, len, cap - 1, p);
      KraftMono(lens, len, cap - 1);
      NodesAtZero(lens, cap - 1, p);
    }
  }

  // ---------- the nodes are the prefixes of the codes ----------

  // the code is placed: those before it leave room for it
  predicate Placed(lens: seq<nat>, s: nat)
  {
    Coded(lens, s) && Start(lens, s) < Pow2(MAX_BITS)
  }

  // the different first d bits of the placed codes that are longer than d
  function Prefixes(lens: seq<nat>, d: nat): set<nat>
    requires d <= MAX_BITS
  {
    set s | 0 <= s < |lens| && Placed(lens, s) && lens[s] > d :: FirstBits(lens, s, d)
  }

  function FirstBits(lens: seq<nat>, s: nat, d: nat): nat
    requires s < |lens| && d <= MAX_BITS
  {
    DivNonNegative(Start(lens, s), Pow2(MAX_BITS - d));
    Start(lens, s) / Pow2(MAX_BITS - d)
  }

  function PrefixesFrom(lens: seq<nat>, nbits: nat, cap: nat): nat
    requires cap <= MAX_BITS
  {
    if cap <= nbits then 0 else PrefixesFrom(lens, nbits, cap - 1) + |Prefixes(lens, cap - 1)|
  }

  function Range(a: nat, b: nat): set<nat>
    decreases b - a
  {
    if a < b then {a} + Range(a + 1, b) else {}
  }

  lemma {:induction false} RangeSize(a: nat, b: nat)
    ensures |Range(a, b)| == if a <= b then b - a else 0
    ensures forall i :: i in Range(a, b) <==> a <= i < b
    decreases b - a
  {
    if a < b {
      RangeSize(a + 1, b);
    }
  }

  lemma CeilOver(q: nat, e: nat, w: nat)
    requires w > 0
    ensures q < CeilDiv(e, w) <==> q * w < e
  {
    var c := CeilDiv(e, w);
    DivMod(e + w - 1, w);
    if q < c {
      MulMono(q + 1, c, w);
      MulDist(q, 1, w);
    } else {
      MulMono(c, q, w);
    }
  }

  lemma CeilShift(a: nat, x: nat, w: nat)
    requires w > 0
    ensures CeilDiv(a * w + x, w) == a + CeilDiv(x, w)
  {
    var c := CeilDiv(x, w);
    DivMod(x + w - 1, w);
    MulDist(a, c, w);
    DivUnique(a * w + x + w - 1, w, a + c, (x + w - 1) % w);
  }

  // the prefix of a placed code lies between the shorter codes and the end
  lemma PrefixInRange(lens: seq<nat>, d: nat, s: nat)
    requires 1 <= d <= MAX_BITS && Placed(lens, s) && lens[s] > d
    ensures Kraft(lens, d) <= Start(lens, s) < End(lens)
    ensures Kraft(lens, d) / Pow2(MAX_BITS - d) <= FirstBits(lens, s, d) < CeilDiv(End(lens), Pow2(MAX_BITS - d))
  {
    var v, w := Start(lens, s), Pow2(MAX_BITS - d);
    KraftBefore(lens, d, lens[s], s);
    PlaceStep(lens, |lens|, lens[s], s);
    PlaceMono(lens, |lens|, lens[s], s + 1, MAX_BITS + 1, 0);
    PlaceIsKraft(lens, MAX_BITS);
    hide Kraft, PlaceTo, Pow2, CeilDiv;
    QuotientBetween(Kraft(lens, d), v, End(lens), w);
  }

  lemma QuotientBetween(k: nat, v: nat, e: nat, w: nat)
    requires w > 0 && k <= v < e
    ensures k / w <= v / w < CeilDiv(e, w)
  {
    hide CeilDiv;
    DivMod(v, w);
    DivNonNegative(v, w);
    CeilOver(v / w, e, w);
    DivMono(k, v, w);
  }

  lemma DivMono(x: nat, y: nat, w: nat)
    requires w > 0 && x <= y
    ensures x / w <= y / w
  {
    DivMod(x, w);
    DivMod(y, w);
    if y / w < x / w {
      MulMono(y / w + 1, x / w, w);
      MulDist(y / w, 1, w);
    }
  }

  // and every prefix there is the one of a placed code
  lemma PrefixIsTaken(lens: seq<nat>, d: nat, q: nat)
    requires 1 <= d <= MAX_BITS
    requires Kraft(lens, d) / Pow2(MAX_BITS - d) <= q < CeilDiv(End(lens), Pow2(MAX_BITS - d))
    ensures q in Prefixes(lens, d)
  {
    hide Kraft, PlaceTo, Pow2, CeilDiv, Start, Decodes;
    var k, w := Kraft(lens, d), Pow2(MAX_BITS - d);
    CeilOver(q, End(lens), w);
    KraftAligned(lens, d);
    DivMod(k, w);
    MulMono(k / w, q, w);
    var s := OwnerBelow(lens, q * w);
    OwnerStarts(lens, d, q, s);
    DivUnique(q * w, w, q, 0);
  }

  // every number below the end belongs to a placed code
  lemma OwnerBelow(lens: seq<nat>, v: nat) returns (s: nat)
    requires v < End(lens)
    ensures s < |lens| && Decodes(lens, s, v)
    ensures Placed(lens, s) || Start(lens, s) != v
  {
    PlaceIsKraft(lens, MAX_BITS);
    s := OwnerOf(lens, MAX_BITS + 1, 0, v);
  }

  lemma OwnerStarts(lens: seq<nat>, d: nat, q: nat, s: nat)
    requires 1 <= d <= MAX_BITS && Decodes(lens, s, q * Pow2(MAX_BITS - d)) && Kraft(lens, d) <= q * Pow2(MAX_BITS - d)
    ensures lens[s] > d && Start(lens, s) == q * Pow2(MAX_BITS - d)
  {
    var v, len := q * Pow2(MAX_BITS - d), lens[s];
    if len <= d {
      PlaceStep(lens, |lens|, len, s);
      PlaceMono(lens, |lens|, len, s + 1, d + 1, 0);
      PlaceIsKraft(lens, d);
    } else {
      PlaceAligned(lens, |lens|, len, s);
      Pow2Multiple(MAX_BITS - len, MAX_BITS - d);
      MultipleTimes(q, Pow2(MAX_BITS - d), Pow2(MAX_BITS - len));
      hide Pow2, PlaceTo, Kraft;
      if Start(lens, s) < v {
        MultipleGap(Start(lens, s), v, Pow2(MAX_BITS - len));
      }
    }
  }

  lemma PrefixesAre(lens: seq<nat>, d: nat)
    requires 1 <= d <= MAX_BITS
    ensures Kraft(lens, d) / Pow2(MAX_BITS - d) >= 0
    ensures Prefixes(lens, d) ==
            Range(Kraft(lens, d) / Pow2(MAX_BITS - d), CeilDiv(End(lens), Pow2(MAX_BITS - d)))
  {
    var k, w := Kraft(lens, d), Pow2(MAX_BITS - d);
    DivNonNegative(k, w);
    var a, b := k / w, CeilDiv(End(lens), w);
    RangeSize(a, b);
    hide Pow2, Kraft, CeilDiv, Range, FirstBits, Placed, End;
    forall q | q in Prefixes(lens, d)
      ensures q in Range(a, b)
    {
      var s :| 0 <= s < |lens| && Placed(lens, s) && lens[s] > d && q == FirstBits(lens, s, d);
      PrefixInRange(lens, d, s);
    }
    forall q | q in Range(a, b)
      ensures q in Prefixes(lens, d)
    {
      PrefixIsTaken(lens, d, q);
    }
  }

  lemma PrefixesCounted(lens: seq<nat>, d: nat)
    requires 1 <= d <= MAX_BITS
    ensures |Prefixes(lens, d)| == NodesAt(lens, d, End(lens))
  {
    PrefixesAre(lens, d);
    KraftAligned(lens, d);
    hide Pow2, Kraft, CeilDiv, Prefixes, Range, End;
    RangeSize(Kraft(lens, d) / Pow2(MAX_BITS - d), CeilDiv(End(lens), Pow2(MAX_BITS - d)));
    MultiplesBetween(Kraft(lens, d), End(lens), Pow2(MAX_BITS - d));
  }

  // from a multiple k of w up to e
  lemma MultiplesBetween(k: nat, e: nat, w: nat)
    requires w > 0 && k % w == 0
    ensures CeilDiv(if e > k then e - k else 0, w) == if k / w <= CeilDiv(e, w) then CeilDiv(e, w) - k / w else 0
  {
    DivMod(k, w);
    DivNonNegative(k, w);
    CeilZero(w);
    hide CeilDiv;
    if e > k {
      CeilShift(k / w, e - k, w);
    } else {
      CeilShift(k / w, 0, w);
      CeilMono(e, k, w);
    }
  }

  // The number of nodes is the number of different prefixes, of the depths from nbits on, of the
  // codes that are placed.
  lemma {:induction false} NodesArePrefixes(lens: seq<nat>, nbits: nat, cap: nat)
    requires 1 <= nbits && cap <= MAX_BITS
    ensures NodesTo(lens, nbits, cap, End(lens)) == PrefixesFrom(lens, nbits, cap)
  {
    hide Prefixes, NodesAt, End;
    if cap > nbits {
      NodesArePrefixes(lens, nbits, cap - 1);
      PrefixesCounted(lens, cap - 1);
    }
  }

  // ---------- nodes and codes in balance ----------

  lemma HalfCeil(x: nat, v: nat)
    requires v > 0
    ensures 2 * CeilDiv(x, 2 * v) <= CeilDiv(x, v) + 1
    ensures x % (2 * v) == 0 ==> CeilDiv(x, v) == 2 * CeilDiv(x, 2 * v)
  {
    hide CeilDiv;
    DivMod(x, 2 * v);
    DivNonNegative(x, 2 * v);
    HalfCeilParts(x, v, x / (2 * v), x % (2 * v));
  }

  lemma HalfCeilParts(x: nat, v: nat, q: nat, r: nat)
    requires r < 2 * v && x == q * (2 * v) + r
    ensures 2 * CeilDiv(x, 2 * v) <= CeilDiv(x, v) + 1
    ensures r == 0 ==> CeilDiv(x, v) == 2 * CeilDiv(x, 2 * v)
  {
    hide CeilDiv;
    MulDouble(q, v);
    CeilShift(q, r, 2 * v);
    CeilShift(2 * q, r, v);
    SmallCeil(r, v);
  }

  lemma SmallCeil(r: nat, v: nat)
    requires r < 2 * v
    ensures CeilDiv(r, 2 * v) == if r == 0 then 0 else 1
    ensures CeilDiv(r, v) == if r == 0 then 0 else if r <= v then 1 else 2
  {
    if r == 0 {
      CeilZero(2 * v);
      CeilZero(v);
    } else {
      DivUnique(r + 2 * v - 1, 2 * v, 1, r - 1);
      if r <= v {
        DivUnique(r + v - 1, v, 1, r - 1);
      } else {
        DivUnique(r + v - 1, v, 2, r - v - 1);
      }
    }
  }

  lemma CeilLess(x: nat, n: nat, v: nat)
    requires v > 0
    ensures CeilDiv(if x > n * v then x - n * v else 0, v) + n >= CeilDiv(x, v)
    ensures x >= n * v ==> CeilDiv(if x > n * v then x - n * v else 0, v) + n == CeilDiv(x, v)
  {
    CeilZero(v);
    if x > n * v {
      CeilShift(n, x - n * v, v);
    } else {
      CeilShift(n, 0, v);
      CeilMono(x, n * v, v);
    }
  }

  // the codes of length len
  function CountOf(lens: seq<nat>, len: nat): nat
  {
    CountTo(lens, |lens|, len)
  }

  lemma KraftNext(lens: seq<nat>, d: nat)
    requires d < MAX_BITS
    ensures Kraft(lens, d + 1) == Kraft(lens, d) + CountOf(lens, d + 1) * Weight(d + 1)
  {
    PlaceIsKraft(lens, d);
    PlaceIsKraft(lens, d + 1);
    PlaceCounts(lens, |lens|, d + 1, |lens|);
    PlaceNextLength(lens, |lens|, d + 1, |lens|);
  }

  lemma {:induction false} LongNext(lens: seq<nat>, n: nat, d: nat)
    requires n <= |lens| && d < MAX_BITS
    ensures LongCodes(lens[..n], d) == LongCodes(lens[..n], d + 1) + CountTo(lens, n, d + 1)
  {
    if n > 0 {
      LongNext(lens, n - 1, d);
      assert lens[..n][..n - 1] == lens[..n - 1];
    }
  }

  // every node has two entries below it: nodes, codes, and at the end unused ones
  lemma LevelStep(lens: seq<nat>, d: nat)
    requires 1 <= d < MAX_BITS
    ensures var e := End(lens);
      2 * NodesAt(lens, d, e) <= NodesAt(lens, d + 1, e) + CountOf(lens, d + 1) + 1 &&
      (e == Pow2(MAX_BITS) ==> 2 * NodesAt(lens, d, e) <= NodesAt(lens, d + 1, e) + CountOf(lens, d + 1)) &&
      (e == Pow2(MAX_BITS) == Kraft(lens, MAX_BITS) ==>
         2 * NodesAt(lens, d, e) == NodesAt(lens, d + 1, e) + CountOf(lens, d + 1))
  {
    hide Pow2, Kraft, CeilDiv, CountOf, Weight;
    var e, n, v := End(lens), CountOf(lens, d + 1), Pow2(MAX_BITS - (d + 1));
    LevelFacts(lens, d);
    HalveLevel(Kraft(lens, d), Kraft(lens, d + 1), e, n, v);
  }

  lemma LevelFacts(lens: seq<nat>, d: nat)
    requires 1 <= d < MAX_BITS
    ensures var v := Pow2(MAX_BITS - (d + 1));
      Kraft(lens, d + 1) == Kraft(lens, d) + CountOf(lens, d + 1) * v && Pow2(MAX_BITS - d) == 2 * v &&
      Kraft(lens, d + 1) <= Kraft(lens, MAX_BITS) && (Pow2(MAX_BITS) - Kraft(lens, d)) % (2 * v) == 0
  {
    hide Pow2, Kraft, CountOf;
    KraftNext(lens, d);
    KraftMono(lens, d + 1, MAX_BITS);
    Pow2Half(MAX_BITS - d);
    KraftAligned(lens, d);
    Pow2Multiple(MAX_BITS - d, MAX_BITS);
    MultipleSum(Pow2(MAX_BITS), Kraft(lens, d), Pow2(MAX_BITS - d));
  }

  lemma HalveLevel(k: nat, k': nat, e: nat, n: nat, v: nat)
    requires v > 0 && k' == k + n * v
    ensures var c := CeilDiv(if e > k then e - k else 0, 2 * v);
      var c' := CeilDiv(if e > k' then e - k' else 0, v);
      2 * c <= c' + n + 1 &&
      (e > k && (e - k) % (2 * v) == 0 ==> 2 * c <= c' + n && (e >= k' ==> 2 * c == c' + n)) &&
      (e <= k ==> c == 0 && (e >= k' ==> c' + n == 0))
  {
    var x := if e > k then e - k else 0;
    MulMono(0, n, v);
    HalfCeil(x, v);
    CeilLess(x, n, v);
    CeilZero(v);
    CeilZero(2 * v);
    hide CeilDiv;
    if e >= k' && e <= k && n > 0 {
      MulMono(1, n, v);
    }
  }

  lemma {:induction false} LevelsAddUp(lens: seq<nat>, nbits: nat, cap: nat)
    requires 1 <= nbits <= cap <= MAX_BITS
    ensures var e, long := End(lens), LongCodes(lens, nbits) - LongCodes(lens, cap);
      var sum := NodesTo(lens, nbits, cap, e) + NodesAt(lens, nbits, e);
      sum <= NodesAt(lens, cap, e) + long + (cap - nbits) &&
      (e == Pow2(MAX_BITS) ==> sum <= NodesAt(lens, cap, e) + long) &&
      (e == Pow2(MAX_BITS) == Kraft(lens, MAX_BITS) ==> sum == NodesAt(lens, cap, e) + long)
    decreases cap
  {
    hide Pow2, Kraft, NodesAt, End;
    if cap > nbits {
      LevelsAddUp(lens, nbits, cap - 1);
      LevelStep(lens, cap - 1);
      LongNext(lens, |lens|, cap - 1);
      assert lens[..|lens|] == lens;
    }
  }

  // There are fewer nodes than long codes, up to one for each level when the codes do not own every
  // number.
  lemma NodesBalance(lens: seq<nat>, nbits: nat)
    requires 1 <= nbits <= MAX_BITS
    ensures var open := NodesAt(lens, nbits, End(lens));
      Nodes(lens, nbits) + open <= LongCodes(lens, nbits) + (MAX_BITS - nbits) &&
      (Kraft(lens, MAX_BITS) >= Pow2(MAX_BITS) ==> Nodes(lens, nbits) + open <= LongCodes(lens, nbits)) &&
      (Kraft(lens, MAX_BITS) == Pow2(MAX_BITS) ==> Nodes(lens, nbits) + open == LongCodes(lens, nbits)) &&
      (Nodes(lens, nbits) > 0 ==> open > 0)
  {
    LevelsAddUp(lens, nbits, MAX_BITS);
    NodesAtZero(lens, MAX_BITS, End(lens));
    LongCodesEnd(lens);
    hide Pow2, Kraft, NodesAt;
    NoneOpen(lens, nbits);
  }

  lemma {:induction false} LongCodesEnd(lens: seq<nat>)
    ensures LongCodes(lens, MAX_BITS) == 0
  {
    if lens != [] {
      LongCodesEnd(lens[..|lens| - 1]);
    }
  }

  lemma NoneOpen(lens: seq<nat>, nbits: nat)
    requires nbits <= MAX_BITS
    ensures NodesAt(lens, nbits, End(lens)) == 0 ==> Nodes(lens, nbits) == 0
  {
    if NodesAt(lens, nbits, End(lens)) == 0 {
      var w := Pow2(MAX_BITS - nbits);
      CeilOver(0, Above(lens, nbits, End(lens)), w);
      hide Pow2, Kraft, CeilDiv;
      NodesBelow(lens, nbits, nbits, MAX_BITS, End(lens));
    }
  }

  // ---------- the documented size ----------

  // (1 << nbits) + (nsyms * 2)
  function DocumentedSize(lens: seq<nat>, nbits: nat): nat
  {
    Pow2(nbits) + 2 * |lens|
  }

  // Whether the lengths are accepted or not, everything is written within the documented size if and
  // only if the placed codes have no more prefixes, from nbits bits on, than there are symbols, nor
  // than half the direct entries.
  lemma DocumentedSizeExact(lens: seq<nat>, nbits: nat)
    requires 1 <= nbits <= MAX_BITS
    ensures TableSize(lens, nbits) <= DocumentedSize(lens, nbits) <==>
      PrefixesFrom(lens, nbits, MAX_BITS) <= if Pow2(nbits) / 2 < |lens| then Pow2(nbits) / 2 else |lens|
  {
    NodesArePrefixes(lens, nbits, MAX_BITS);
    Pow2Half(nbits);
    hide Pow2, NodesTo;
  }

  lemma {:induction false} LongCodesFewer(lens: seq<nat>, nbits: nat)
    ensures LongCodes(lens, nbits) <= LongCodes(lens, 0) <= |lens|
  {
    if lens != [] {
      LongCodesFewer(lens[..|lens| - 1], nbits);
    }
  }

  // With at most 2^(nbits-1) coded symbols, the documented size is enough for all lengths that own
  // every number, so for all that are accepted, and for those that own too many; the tree then has
  // fewer nodes than there are long codes.
  lemma DocumentedSizeSuffices(lens: seq<nat>, nbits: nat)
    requires 1 <= nbits <= MAX_BITS && LongCodes(lens, 0) <= Pow2(nbits - 1)
    requires Kraft(lens, nbits) >= Pow2(MAX_BITS) || Kraft(lens, MAX_BITS) >= Pow2(MAX_BITS)
    ensures TableSize(lens, nbits) <= DocumentedSize(lens, nbits)
    ensures Nodes(lens, nbits) == 0 || Nodes(lens, nbits) < LongCodes(lens, nbits)
  {
    KraftMono(lens, nbits, MAX_BITS);
    NodesBalance(lens, nbits);
    LongCodesFewer(lens, nbits);
    Pow2Half(nbits);
    hide Pow2, Kraft, LongCodes, NodesTo;
  }
}
