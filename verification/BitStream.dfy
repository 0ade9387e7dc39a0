// The input of the LZX decoder as a pure bit stream: 16-bit little-endian words, the most
// significant bit of each first.  This is the specification that the buffered reader meets.
module BitStream {
  import opened Wrappers
  import opened Powers

  // Where the reader is: taken bytes of the input have been consumed, and of the words among them
  // the last left bits, with the value pend, have not been used yet.
  datatype Cursor = Cursor(taken: nat, left: nat, pend: nat)

  predicate CursorOk(c: Cursor)
  {
    c.left <= 32 && c.pend < Pow2(c.left)
  }

  predicate IsBytes(src: seq<nat>)
  {
    forall i :: 0 <= i < |src| ==> src[i] < 256
  }

  function Word(src: seq<nat>, k: nat): nat
    requires k + 2 <= |src|
  {
    src[k] + 256 * src[k + 1]
  }

  // x << n, before any bit is cut off
  function Shl(x: nat, n: nat): nat
  {
    x * Pow2(n)
  }

  // one more word
  function Fetch(src: seq<nat>, c: Cursor): Option<Cursor>
  {
    if c.taken + 2 <= |src|
    then Some(Cursor(c.taken + 2, c.left + 16, Shl(c.pend, 16) + Word(src, c.taken)))
    else None
  }

  // at least n unused bits
  function Ensure(src: seq<nat>, c: Cursor, n: nat): (r: Option<Cursor>)
    ensures r.Some? ==> r.value.left >= n
    decreases if n > c.left then n - c.left else 0
  {
    if c.left >= n then Some(c)
    else
      match Fetch(src, c)
      case None => None
      case Some(c') => Ensure(src, c', n)
  }

  // the value of the next n of the unused bits
  function Peek(c: Cursor, n: nat): nat
    requires n <= c.left
  {
    DivNonNegative(c.pend, Pow2(c.left - n));
    c.pend / Pow2(c.left - n)
  }

  function Drop(c: Cursor, n: nat): Cursor
    requires n <= c.left
  {
    Cursor(c.taken, c.left - n, c.pend % Pow2(c.left - n))
  }

  function ReadBits(src: seq<nat>, c: Cursor, n: nat): Option<(nat, Cursor)>
  {
    match Ensure(src, c, n)
    case None => None
    case Some(c') => Some((Peek(c', n), Drop(c', n)))
  }

  // ---------- the bits themselves ----------

  type Bit = b: nat | b < 2

  // the n low bits of v, the highest first
  function BitsOf(v: nat, n: nat): (bits: seq<Bit>)
    ensures |bits| == n
  {
    if n == 0 then [] else BitsOf(v / 2, n - 1) + [v % 2]
  }

  // the bits of the words from byte k on
  function WordBits(src: seq<nat>, k: nat): seq<Bit>
    decreases |src| - k
  {
    if k + 2 <= |src| then BitsOf(Word(src, k), 16) + WordBits(src, k + 2) else []
  }

  // everything that is still to be read
  function Remaining(src: seq<nat>, c: Cursor): seq<Bit>
  {
    BitsOf(c.pend, c.left) + WordBits(src, c.taken)
  }

  lemma {:induction false} BitsOfConcat(x: nat, n: nat, y: nat, m: nat)
    requires y < Pow2(m)
    ensures BitsOf(Shl(x, m) + y, n + m) == BitsOf(x, n) + BitsOf(y, m)
  {
    if m == 0 {
    } else {
      HalfSum(x, y, Pow2(m - 1));
      Pow2Half(m);
      hide Pow2;
      BitsOfConcat(x, n, y / 2, m - 1);
    }
  }

  lemma HalfSum(x: nat, y: nat, p: nat)
    ensures (x * (2 * p) + y) / 2 == x * p + y / 2 && (x * (2 * p) + y) % 2 == y % 2
  {
    MulDouble(x, p);
    assert x * (2 * p) == 2 * (x * p);
  }

  lemma WordBelow(src: seq<nat>, k: nat)
    requires IsBytes(src) && k + 2 <= |src|
    ensures Word(src, k) < Pow2(16)
  {
    Pow2Values();
  }

  lemma FetchKeeps(src: seq<nat>, c: Cursor)
    requires IsBytes(src) && CursorOk(c) && c.left <= 16 && Fetch(src, c).Some?
    ensures CursorOk(Fetch(src, c).value)
    ensures Remaining(src, Fetch(src, c).value) == Remaining(src, c)
  {
    hide Pow2, BitsOf, Word, Shl, WordBits;
    var w := Word(src, c.taken);
    WordBelow(src, c.taken);
    BelowConcat(c.pend, c.left, w, 16);
    FetchedBits(src, c, w);
  }

  lemma FetchedBits(src: seq<nat>, c: Cursor, w: nat)
    requires c.taken + 2 <= |src| && w == Word(src, c.taken) < Pow2(16)
    ensures BitsOf(Shl(c.pend, 16) + w, c.left + 16) + WordBits(src, c.taken + 2) ==
            BitsOf(c.pend, c.left) + WordBits(src, c.taken)
  {
    hide Pow2, BitsOf, Word, Shl;
    BitsOfConcat(c.pend, c.left, w, 16);
    ConcatAssoc(BitsOf(c.pend, c.left), BitsOf(w, 16), WordBits(src, c.taken + 2));
  }

  lemma ConcatAssoc<T>(a: seq<T>, b: seq<T>, c: seq<T>)
    ensures a + b + c == a + (b + c)
  {
  }

  lemma BelowConcat(x: nat, n: nat, y: nat, m: nat)
    requires x < Pow2(n) && y < Pow2(m)
    ensures Shl(x, m) + y < Pow2(n + m)
  {
    Pow2Add(n, m);
    hide Pow2;
    MulMono(x + 1, Pow2(n), Pow2(m));
    MulDist(x, 1, Pow2(m));
  }

  lemma {:induction false} EnsureKeeps(src: seq<nat>, c: Cursor, n: nat)
    requires IsBytes(src) && CursorOk(c) && n <= 17
    ensures Ensure(src, c, n).Some? <==> |Remaining(src, c)| >= n
    ensures Ensure(src, c, n).Some? ==>
      CursorOk(Ensure(src, c, n).value) && Remaining(src, Ensure(src, c, n).value) == Remaining(src, c)
    decreases if n > c.left then n - c.left else 0
  {
    hide Pow2, BitsOf;
    if c.left < n && Fetch(src, c).Some? {
      FetchKeeps(src, c);
      EnsureKeeps(src, Fetch(src, c).value, n);
    }
  }

  // PEEK_BITS(n), REMOVE_BITS(n): the next n bits
  lemma DropTakes(src: seq<nat>, c: Cursor, n: nat)
    requires CursorOk(c) && n <= c.left
    ensures Peek(c, n) < Pow2(n) && CursorOk(Drop(c, n))
    ensures BitsOf(Peek(c, n), n) == Remaining(src, c)[..n]
    ensures Remaining(src, Drop(c, n)) == Remaining(src, c)[n..]
  {
    hide Pow2, BitsOf, Shl, WordBits;
    var hi, lo := Peek(c, n), Drop(c, n).pend;
    SplitBits(c.pend, c.left, n, hi, lo);
    BitsOfConcat(hi, n, lo, c.left - n);
    ConcatAssoc(BitsOf(hi, n), BitsOf(lo, c.left - n), WordBits(src, c.taken));
    SliceConcat(BitsOf(hi, n), BitsOf(lo, c.left - n) + WordBits(src, c.taken));
  }

  lemma SliceConcat<T>(a: seq<T>, b: seq<T>)
    ensures (a + b)[..|a|] == a && (a + b)[|a|..] == b
  {
  }

  lemma SplitBits(v: nat, len: nat, n: nat, hi: nat, lo: nat)
    requires n <= len && v < Pow2(len)
    requires hi == v / Pow2(len - n) && lo == v % Pow2(len - n)
    ensures hi < Pow2(n) && lo < Pow2(len - n) && v == Shl(hi, len - n) + lo
  {
    DivMod(v, Pow2(len - n));
    Pow2Add(n, len - n);
    hide Pow2;
    if hi >= Pow2(n) {
      MulMono(Pow2(n), hi, Pow2(len - n));
    }
  }

  // READ_BITS(n) is the next n bits, and they are gone from the stream afterwards; it fails
  // exactly when the stream holds fewer.
  lemma ReadBitsIsNextBits(src: seq<nat>, c: Cursor, n: nat)
    requires IsBytes(src) && CursorOk(c) && n <= 17
    ensures ReadBits(src, c, n).Some? <==> |Remaining(src, c)| >= n
    ensures ReadBits(src, c, n).Some? ==>
      var (v, c') := ReadBits(src, c, n).value;
      v < Pow2(n) && BitsOf(v, n) == Remaining(src, c)[..n] &&
      CursorOk(c') && Remaining(src, c') == Remaining(src, c)[n..]
  {
    hide Pow2, BitsOf, Remaining, CursorOk;
    EnsureKeeps(src, c, n);
    if Ensure(src, c, n).Some? {
      DropTakes(src, Ensure(src, c, n).value, n);
    }
  }

  // a number is determined by its bits
  lemma {:induction false} BitsOfInjective(v: nat, w: nat, n: nat)
    requires v < Pow2(n) && w < Pow2(n) && BitsOf(v, n) == BitsOf(w, n)
    ensures v == w
  {
    if n > 0 {
      assert BitsOf(v, n)[n - 1] == v % 2 && BitsOf(w, n)[n - 1] == w % 2;
      assert BitsOf(v, n)[..n - 1] == BitsOf(v / 2, n - 1);
      assert BitsOf(w, n)[..n - 1] == BitsOf(w / 2, n - 1);
      BitsOfInjective(v / 2, w / 2, n - 1);
    }
  }

  // ---------- bitwise or ----------

  function BitOr(x: nat, y: nat): nat
  {
    if x == 0 then y
    else if y == 0 then x
    else 2 * BitOr(x / 2, y / 2) + if x % 2 == 1 || y % 2 == 1 then 1 else 0
  }

  // numbers without a common bit: the or is the sum
  lemma {:induction false} OrIsSum(x: nat, y: nat, k: nat)
    requires x % Pow2(k) == 0 && y < Pow2(k)
    ensures BitOr(x, y) == x + y
  {
    if k > 0 && x > 0 && y > 0 {
      Pow2Half(k);
      hide Pow2;
      HalfMultiple(x, Pow2(k - 1));
      OrIsSum(x / 2, y / 2, k - 1);
    }
  }

  lemma HalfMultiple(x: nat, p: nat)
    requires p > 0 && x % (2 * p) == 0
    ensures x % 2 == 0 && (x / 2) % p == 0
  {
    var q := x / (2 * p);
    DivMod(x, 2 * p);
    assert q * (2 * p) == 2 * (q * p);
    DivUnique(x / 2, p, q, 0);
  }
}
