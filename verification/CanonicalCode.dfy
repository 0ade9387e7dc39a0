// Canonical Huffman codes given by their lengths, with the assignment rule of section 3.2.2 of
// RFC 1951: shorter codes come first, and codes of one length are consecutive in symbol order.
//
// All codes are read as intervals of 16-bit numbers: the code of symbol s, of length L, owns the
// 2^(16-L) numbers whose first L bits are that code.  The interval starts where the codes before
// it, by length and then by symbol, end.
module CanonicalCode {
  import opened Powers

  const MAX_BITS := 16

  predicate Coded(lens: seq<nat>, s: nat)
  {
    s < |lens| && 1 <= lens[s] <= MAX_BITS
  }

  // the number of 16-bit numbers that a code of length len owns; 0 for lengths that are not coded
  function Weight(len: nat): nat
  {
    if 1 <= len <= MAX_BITS then Pow2(MAX_BITS - len) else 0
  }

  // the weight of the codes that come before the place (len, sym) in the canonical order, among
  // the first n symbols
  function PlaceTo(lens: seq<nat>, n: nat, len: nat, sym: nat): nat
    requires n <= |lens|
  {
    if n == 0 then 0
    else
      PlaceTo(lens, n - 1, len, sym) +
      if lens[n - 1] < len || (lens[n - 1] == len && n - 1 < sym) then Weight(lens[n - 1]) else 0
  }

  function Place(lens: seq<nat>, len: nat, sym: nat): nat
  {
    PlaceTo(lens, |lens|, len, sym)
  }

  // the first 16-bit number of the interval of symbol s
  function Start(lens: seq<nat>, s: nat): nat
    requires s < |lens|
  {
    Place(lens, lens[s], s)
  }

  // the 16-bit number v begins with the code of s
  predicate Decodes(lens: seq<nat>, s: nat, v: nat)
  {
    Coded(lens, s) && Start(lens, s) <= v < Start(lens, s) + Weight(lens[s])
  }

  // Kraft sum, in units of 2^-16, of the codes of length 1..cap
  function Kraft(lens: seq<nat>, cap: nat): nat
  {
    if lens == [] then 0
    else
      var last := lens[|lens| - 1];
      Kraft(lens[..|lens| - 1], cap) + if last <= cap then Weight(last) else 0
  }

  lemma {:induction false} RepeatedWeigh(lens: seq<nat>, n: nat, len: nat, cap: nat)
    ensures Kraft(lens + seq(n, _ => len), cap) == Kraft(lens, cap) + if len <= cap then n * Weight(len) else 0
  {
    if n == 0 {
      assert lens + seq(0, _ => len) == lens;
    } else {
      var all := lens + seq(n, _ => len);
      assert all[..|all| - 1] == lens + seq(n - 1, _ => len);
      hide Weight;
      RepeatedWeigh(lens, n - 1, len, cap);
      MulDist(n - 1, 1, Weight(len));
    }
  }

  // the number of symbols with a code longer than nbits
  function LongCodes(lens: seq<nat>, nbits: nat): nat
  {
    if lens == [] then 0
    else
      var last := lens[|lens| - 1];
      LongCodes(lens[..|lens| - 1], nbits) + if nbits < last <= MAX_BITS then 1 else 0
  }

  // A table of nbits direct lookups can be built: the codes it looks up directly fill it, or they
  // leave room and all codes together fill it.
  predicate Buildable(lens: seq<nat>, nbits: nat)
  {
    Kraft(lens, nbits) == Pow2(MAX_BITS) ||
    (Kraft(lens, nbits) < Pow2(MAX_BITS) && Kraft(lens, MAX_BITS) == Pow2(MAX_BITS))
  }

  // ---------- walking through the canonical order ----------

  lemma {:induction false} PlaceFirst(lens: seq<nat>, n: nat)
    requires n <= |lens|
    ensures PlaceTo(lens, n, 1, 0) == 0
  {
    if n > 0 {
      PlaceFirst(lens, n - 1);
    }
  }

  lemma {:induction false} PlaceStep(lens: seq<nat>, n: nat, len: nat, sym: nat)
    requires sym < |lens| && n <= |lens|
    ensures PlaceTo(lens, n, len, sym + 1) ==
            PlaceTo(lens, n, len, sym) + if sym < n && lens[sym] == len then Weight(len) else 0
  {
    if n > 0 {
      PlaceStep(lens, n - 1, len, sym);
    }
  }

  lemma {:induction false} PlaceNextLength(lens: seq<nat>, n: nat, len: nat, sym: nat)
    requires n <= |lens| && n <= sym
    ensures PlaceTo(lens, n, len, sym) == PlaceTo(lens, n, len + 1, 0)
  {
    if n > 0 {
      PlaceNextLength(lens, n - 1, len, sym);
    }
  }

  lemma {:induction false} PlaceMono(lens: seq<nat>, n: nat, len: nat, sym: nat, len': nat, sym': nat)
    requires n <= |lens|
    requires len < len' || (len == len' && sym <= sym')
    ensures PlaceTo(lens, n, len, sym) <= PlaceTo(lens, n, len', sym')
  {
    if n > 0 {
      PlaceMono(lens, n - 1, len, sym, len', sym');
    }
  }

  lemma AlignedStep(x: nat, l: nat, len: nat)
    requires 1 <= l <= len <= MAX_BITS && x % Pow2(MAX_BITS - len) == 0
    ensures (x + Weight(l)) % Pow2(MAX_BITS - len) == 0
  {
    Pow2Multiple(MAX_BITS - len, MAX_BITS - l);
    MultipleSum(x, Weight(l), Pow2(MAX_BITS - len));
  }

  lemma {:induction false} PlaceAligned(lens: seq<nat>, n: nat, len: nat, sym: nat)
    requires n <= |lens| && len <= MAX_BITS
    ensures PlaceTo(lens, n, len, sym) % Pow2(MAX_BITS - len) == 0
  {
    if n == 0 {
      DivUnique(0, Pow2(MAX_BITS - len), 0, 0);
    } else {
      PlaceAligned(lens, n - 1, len, sym);
      if 1 <= lens[n - 1] <= len {
        AlignedStep(PlaceTo(lens, n - 1, len, sym), lens[n - 1], len);
      }
    }
  }

  lemma {:induction false} PlaceIsKraftTo(lens: seq<nat>, n: nat, cap: nat)
    requires n <= |lens|
    ensures PlaceTo(lens, n, cap + 1, 0) == Kraft(lens[..n], cap)
  {
    if n > 0 {
      PlaceIsKraftTo(lens, n - 1, cap);
      assert lens[..n][..n - 1] == lens[..n - 1];
    }
  }

  // the place after the last code of length cap is the Kraft sum up to cap
  lemma PlaceIsKraft(lens: seq<nat>, cap: nat)
    ensures Place(lens, cap + 1, 0) == Kraft(lens, cap)
  {
    PlaceIsKraftTo(lens, |lens|, cap);
    assert lens[..|lens|] == lens;
  }

  // ---------- the code is a prefix code ----------

  // Of two coded symbols the earlier one, by length and then by symbol, has its interval end
  // where or before the other one starts.
  lemma IntervalsDisjoint(lens: seq<nat>, s: nat, t: nat)
    requires Coded(lens, s) && Coded(lens, t)
    requires lens[s] < lens[t] || (lens[s] == lens[t] && s < t)
    ensures Start(lens, s) + Weight(lens[s]) <= Start(lens, t)
  {
    PlaceStep(lens, |lens|, lens[s], s);
    PlaceMono(lens, |lens|, lens[s], s + 1, lens[t], t);
  }

  // At most one symbol decodes a 16-bit number.
  lemma DecodesUnique(lens: seq<nat>, s: nat, t: nat, v: nat)
    requires Decodes(lens, s, v) && Decodes(lens, t, v)
    ensures s == t
  {
    if lens[s] < lens[t] || (lens[s] == lens[t] && s < t) {
      IntervalsDisjoint(lens, s, t);
    } else if lens[t] < lens[s] || (lens[s] == lens[t] && t < s) {
      IntervalsDisjoint(lens, t, s);
    }
  }

  // every number below a place is owned by a code before it
  lemma {:induction false} OwnerOf(lens: seq<nat>, len: nat, sym: nat, v: nat) returns (s: nat)
    requires 1 <= len <= MAX_BITS + 1 && sym <= |lens| && v < Place(lens, len, sym)
    requires len == MAX_BITS + 1 ==> sym == 0
    ensures Decodes(lens, s, v)
    decreases len, sym
  {
    hide Pow2, PlaceTo;
    s := 0;
    if sym == 0 {
      if len == 1 {
        PlaceFirst(lens, |lens|);
      } else {
        PlaceNextLength(lens, |lens|, len - 1, |lens|);
        s := OwnerOf(lens, len - 1, |lens|, v);
      }
    } else {
      PlaceStep(lens, |lens|, len, sym - 1);
      if v < Place(lens, len, sym - 1) {
        s := OwnerOf(lens, len, sym - 1, v);
      } else {
        s := sym - 1;
      }
    }
  }

  // ---------- the algorithm of RFC 1951, section 3.2.2 ----------

  // bl_count[len]: the number of codes of length len among the first n symbols
  function CountTo(lens: seq<nat>, n: nat, len: nat): nat
    requires n <= |lens|
  {
    if n == 0 then 0 else CountTo(lens, n - 1, len) + if lens[n - 1] == len then 1 else 0
  }

  // next_code[len]: the smallest code of length len (bl_count[0] is taken as 0)
  function FirstCode(lens: seq<nat>, len: nat): nat
  {
    if len <= 1 then 0
    else 2 * (FirstCode(lens, len - 1) + CountTo(lens, |lens|, len - 1))
  }

  // the code the RFC assigns to s: the smallest one of its length plus the number of earlier
  // symbols of that length
  function Code(lens: seq<nat>, s: nat): nat
    requires s < |lens|
  {
    FirstCode(lens, lens[s]) + CountTo(lens, s, lens[s])
  }

  lemma {:induction false} PlaceCounts(lens: seq<nat>, n: nat, len: nat, sym: nat)
    requires n <= |lens| && 1 <= len <= MAX_BITS
    ensures PlaceTo(lens, n, len, sym) ==
            PlaceTo(lens, n, len, 0) + CountTo(lens, if n <= sym then n else sym, len) * Weight(len)
  {
    if n > 0 {
      PlaceCounts(lens, n - 1, len, sym);
      var c := CountTo(lens, if n - 1 <= sym then n - 1 else sym, len);
      MulDist(c, 1, Weight(len));
      hide Pow2, Weight;
    }
  }

  lemma {:induction false} FirstCodePlace(lens: seq<nat>, len: nat)
    requires 1 <= len <= MAX_BITS
    ensures Place(lens, len, 0) == FirstCode(lens, len) * Weight(len)
  {
    if len == 1 {
      PlaceFirst(lens, |lens|);
    } else {
      FirstCodePlace(lens, len - 1);
      PlaceCounts(lens, |lens|, len - 1, |lens|);
      PlaceNextLength(lens, |lens|, len - 1, |lens|);
      var f, c, w := FirstCode(lens, len - 1), CountTo(lens, |lens|, len - 1), Weight(len);
      assert Weight(len - 1) == 2 * w;
      MulDist(f, c, 2 * w);
      MulDouble(f + c, w);
    }
  }

  lemma Interval(v: nat, w: nat, c: nat)
    requires w > 0
    ensures c * w <= v < c * w + w <==> v / w == c
  {
    if c * w <= v < c * w + w {
      DivUnique(v, w, c, v - c * w);
    }
  }

  // The interval of a symbol is the one its RFC 1951 code stands for: a 16-bit number is decoded
  // to s exactly when its first lens[s] bits are the code the RFC assigns to s.
  lemma DecodesIsRfcCode(lens: seq<nat>, s: nat, v: nat)
    requires Coded(lens, s)
    ensures Start(lens, s) == Code(lens, s) * Pow2(MAX_BITS - lens[s])
    ensures Decodes(lens, s, v) <==> v / Pow2(MAX_BITS - lens[s]) == Code(lens, s)
  {
    var len := lens[s];
    var w := Pow2(MAX_BITS - len);
    FirstCodePlace(lens, len);
    PlaceCounts(lens, |lens|, len, s);
    var c := Code(lens, s);
    MulDist(FirstCode(lens, len), CountTo(lens, s, len), w);
    Interval(v, w, c);
  }

  // A number below 2^16 that begins with the code of a symbol longer than nbits does not exist
  // when the codes up to nbits already own every number.
  lemma LongCodesIgnored(lens: seq<nat>, nbits: nat, s: nat, v: nat)
    requires Kraft(lens, nbits) == Pow2(MAX_BITS) && v < Pow2(MAX_BITS)
    requires Decodes(lens, s, v)
    ensures lens[s] <= nbits
  {
    hide Pow2, Kraft, PlaceTo, Weight;
    if lens[s] > nbits {
      PlaceIsKraft(lens, nbits);
      PlaceMono(lens, |lens|, nbits + 1, 0, lens[s], s);
    }
  }
}
