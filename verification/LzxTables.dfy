// The decode tables of the LZX stream and their sizes.
module LzxTables {
  import opened Powers
  import opened CanonicalCode
  import opened HuffSize
  import opened HuffBuild
  import opened BitStream
  import opened LzxSpec

  // the sizes of the tables: (1 << TABLEBITS) + (MAXSYMBOLS * 2)
  const PRETREE_TABLE := 104
  const MAIN_TABLE := 9248
  const LENGTH_TABLE := 4596
  const ALIGNED_TABLE := 144

  // window sizes up to 2^21 have at most 50 position slots
  const MAX_OFFSETS := 400

  // the entries that every pretree fits in, including those that are refused
  const PRETREE_ROOM := 122

  // Every pretree fits in PRETREE_ROOM entries; it fits in the table of the stream if and only if its
  // codes have at most 20 prefixes of 6 bits or more, and all pretrees that are accepted do.
  lemma PretreeSize(lens: seq<nat>)
    requires |lens| == PRETREE_SYMBOLS
    ensures RoomFor(lens, PRETREE_BITS, PRETREE_ROOM)
    ensures TableSize(lens, PRETREE_BITS) <= PRETREE_TABLE <==> PrefixesFrom(lens, PRETREE_BITS, MAX_BITS) <= 20
    ensures Buildable(lens, PRETREE_BITS) ==> TableSize(lens, PRETREE_BITS) <= PRETREE_TABLE
  {
    hide Pow2, Kraft, NodesTo, LongCodes, PrefixesFrom, NodesAt;
    TableValues();
    NodesBalance(lens, PRETREE_BITS);
    LongCodesFewer(lens, PRETREE_BITS);
    DocumentedSizeExact(lens, PRETREE_BITS);
    if Buildable(lens, PRETREE_BITS) {
      DocumentedSizeSuffices(lens, PRETREE_BITS);
    }
  }

  lemma TableValues()
    ensures Pow2(5) == 32 && Pow2(6) == 64 && Pow2(7) == 128 && Pow2(12) == 4096
  {
    Pow2Values();
  }

  // A pretree of 20 codes of 15 bits, as a stream can hold it, is refused, but not before 25 nodes
  // are allocated and the table is written up to entry 113, nine behind its last one.
  lemma PretreeOverflow()
    ensures var lens := seq(PRETREE_SYMBOLS, _ => 15);
      !Buildable(lens, PRETREE_BITS) && Nodes(lens, PRETREE_BITS) == 25 &&
      TableSize(lens, PRETREE_BITS) == 114 > PRETREE_TABLE && Kraft(lens, PRETREE_BITS) <= Pow2(MAX_BITS)
  {
    var lens := seq(PRETREE_SYMBOLS, _ => 15);
    TableValues();
    Pow2Values();
    forall cap: nat
      ensures Kraft(lens, cap) == if cap >= 15 then 40 else 0
    {
      SameLengths(20, 15, cap);
    }
    assert End(lens) == 40;
    hide Kraft;
    NodesOfLevel(lens, 6, 10, 1);
    NodesOfLevel(lens, 7, 9, 1);
    NodesOfLevel(lens, 8, 8, 1);
    NodesOfLevel(lens, 9, 7, 1);
    NodesOfLevel(lens, 10, 6, 1);
    NodesOfLevel(lens, 11, 5, 2);
    NodesOfLevel(lens, 12, 4, 3);
    NodesOfLevel(lens, 13, 3, 5);
    NodesOfLevel(lens, 14, 2, 10);
    NodesAtZero(lens, 15, 40);
    hide NodesAt, Pow2;
    assert NodesTo(lens, 6, 7, 40) == 1;
    assert NodesTo(lens, 6, 9, 40) == 3;
    assert NodesTo(lens, 6, 11, 40) == 5;
    assert NodesTo(lens, 6, 13, 40) == 10;
    assert NodesTo(lens, 6, 15, 40) == 25;
  }

  lemma NodesOfLevel(lens: seq<nat>, d: nat, bits: nat, nodes: nat)
    requires d + bits == MAX_BITS && Kraft(lens, d) == 0 && nodes > 0
    requires (nodes - 1) * Pow2(bits) < 40 <= nodes * Pow2(bits)
    ensures NodesAt(lens, d, 40) == nodes
  {
    hide Pow2;
    CeilOver(nodes - 1, 40, Pow2(bits));
    CeilOver(nodes, 40, Pow2(bits));
  }

  lemma {:induction false} SameLengths(n: nat, len: nat, cap: nat)
    requires 1 <= len <= MAX_BITS
    ensures Kraft(seq(n, _ => len), cap) == if len <= cap then n * Weight(len) else 0
  {
    hide Weight;
    if n > 0 {
      SameLengths(n - 1, len, cap);
      assert seq(n, _ => len)[..n - 1] == seq(n - 1, _ => len);
      MulDist(n - 1, 1, Weight(len));
    }
  }

  // ---------- the other tables always fit ----------

  lemma {:induction false} LongCodesBelow(lens: seq<nat>, nbits: nat, k: nat)
    requires forall i :: k <= i < |lens| ==> lens[i] == 0
    ensures LongCodes(lens, nbits) <= k
  {
    if lens != [] {
      LongCodesBelow(lens[..|lens| - 1], nbits, if |lens| <= k && k > 0 then k - 1 else k);
    }
  }

  // from index k on there are no codes
  predicate NoCodesFrom(lens: seq<nat>, k: nat)
  {
    forall i :: k <= i < |lens| ==> lens[i] == 0
  }

  // With the position slots of a regular window, every main tree fits.
  lemma MainSize(lens: seq<nat>)
    requires |lens| == MAIN_SYMBOLS && NoCodesFrom(lens, NUM_CHARS + MAX_OFFSETS + SAFETY)
    ensures RoomFor(lens, MAIN_BITS, MAIN_TABLE)
  {
    hide Pow2, Kraft, NodesTo, LongCodes, NodesAt;
    TableValues();
    LongCodesBelow(lens, MAIN_BITS, NUM_CHARS + MAX_OFFSETS + SAFETY);
    NodesBalance(lens, MAIN_BITS);
  }

  // each code owns at least one number
  lemma {:induction false} LongCodesOwn(lens: seq<nat>, nbits: nat)
    requires nbits <= MAX_BITS
    ensures Kraft(lens, MAX_BITS) >= Kraft(lens, nbits) + LongCodes(lens, nbits)
  {
    if lens != [] {
      LongCodesOwn(lens[..|lens| - 1], nbits);
    }
  }

  // Every length tree fits: with so few symbols either the codes own every number, or many of them
  // share their first 12 bits.
  lemma LengthSize(lens: seq<nat>)
    requires |lens| == LENGTH_SYMBOLS
    ensures RoomFor(lens, LENGTH_BITS, LENGTH_TABLE)
  {
    TableValues();
    Pow2Values();
    LongCodesOwn(lens, LENGTH_BITS);
    LongCodesFewer(lens, LENGTH_BITS);
    NodesBalance(lens, LENGTH_BITS);
    if Kraft(lens, MAX_BITS) < Pow2(MAX_BITS) {
      CeilOver(NodesAt(lens, LENGTH_BITS, End(lens)), Above(lens, LENGTH_BITS, End(lens)), 16);
    }
    hide Pow2, Kraft, NodesTo, LongCodes, NodesAt;
  }

  lemma {:induction false} NoLongCodes(lens: seq<nat>, nbits: nat)
    requires forall i :: 0 <= i < |lens| ==> lens[i] <= nbits
    ensures nbits <= MAX_BITS ==> Kraft(lens, nbits) == Kraft(lens, MAX_BITS)
  {
    if lens != [] {
      NoLongCodes(lens[..|lens| - 1], nbits);
    }
  }

  // the aligned tree has no long codes
  lemma AlignedSize(lens: seq<nat>)
    requires |lens| == ALIGNED_SYMBOLS && forall i :: 0 <= i < |lens| ==> lens[i] < 8
    ensures RoomFor(lens, ALIGNED_BITS, ALIGNED_TABLE)
  {
    hide Pow2, Kraft, NodesTo, LongCodes, NodesAt;
    TableValues();
    NoLongCodes(lens, ALIGNED_BITS);
    NodesAtZero(lens, ALIGNED_BITS, End(lens));
    NodesBalance(lens, ALIGNED_BITS);
  }

  // ---------- what the decoder reads ----------

  lemma {:induction false} NumbersBelow(src: seq<nat>, c: Cursor, width: nat, n: nat)
    requires Input(src, c) && width <= 17 && Numbers(src, c, width, n).Ok?
    ensures forall i :: 0 <= i < n ==> Numbers(src, c, width, n).value.0[i] < Pow2(width)
  {
    hide Pow2, Ahead, Bits;
    if n > 0 {
      NumbersBelow(src, c, width, n - 1);
    }
  }

  // a run of code lengths can end a little behind last, and no later
  lemma {:induction false} LensLoopTail(src: seq<nat>, pre: seq<nat>, lens: seq<nat>, x: nat, last: nat, c: Cursor)
    requires Input(src, c) && last + SAFETY <= |lens| + 1 && LensLoop(src, pre, lens, x, last, c).Ok?
    ensures LensLoop(src, pre, lens, x, last, c).value.0[last + SAFETY - 1..] == lens[last + SAFETY - 1..]
    decreases last - x
  {
    hide LensStep, Ahead;
    if x < last {
      LensStepTail(src, pre, lens, x, c);
      var (lens', x', c') := LensStep(src, pre, lens, x, c).value;
      LensLoopTail(src, pre, lens', x', last, c');
      SameTail(lens, lens', x + 51, last + SAFETY - 1);
    }
  }

  lemma LensStepTail(src: seq<nat>, pre: seq<nat>, lens: seq<nat>, x: nat, c: Cursor)
    requires Input(src, c) && x + SAFETY <= |lens| && LensStep(src, pre, lens, x, c).Ok?
    ensures LensStep(src, pre, lens, x, c).value.0[x + 51..] == lens[x + 51..]
  {
    hide Symbol, Bits, Delta, Ahead;
    assert Pow2(1) == 2 && Pow2(4) == 16 && Pow2(5) == 32;
    hide Pow2;
  }

  lemma SameTail(s: seq<nat>, s': seq<nat>, a: nat, b: nat)
    requires a <= b <= |s| == |s'| && s[a..] == s'[a..]
    ensures s[b..] == s'[b..]
  {
    assert s[b..] == s[a..][b - a..] && s'[b..] == s'[a..][b - a..];
  }

  lemma ReadLensTail(src: seq<nat>, lens: seq<nat>, first: nat, last: nat, c: Cursor, k: nat)
    requires Input(src, c) && last + SAFETY <= k + 1 <= |lens| + 1 && ReadLens(src, lens, first, last, c).Ok?
    requires NoCodesFrom(lens, k)
    ensures NoCodesFrom(ReadLens(src, lens, first, last, c).value.0, k)
  {
    hide LensLoop, Numbers, Buildable, Ahead;
    var (pre, c1) := Numbers(src, c, 4, PRETREE_SYMBOLS).value;
    LensLoopTail(src, pre, lens, first, last, c1);
    var lens' := ReadLens(src, lens, first, last, c).value.0;
    SameTail(lens, lens', last + SAFETY - 1, k);
    forall i | k <= i < |lens'|
      ensures lens'[i] == 0
    {
      assert lens'[i] == lens'[k..][i - k] == lens[k..][i - k];
    }
  }
}
