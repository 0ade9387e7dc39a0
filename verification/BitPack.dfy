// Bits packed into the 16-bit little-endian words that the LZX decoder reads them from.
module BitPack {
  import opened Powers
  import opened BitStream

  // the number with these bits, the highest first
  function ValueOf(bits: seq<Bit>): nat
  {
    if bits == [] then 0 else 2 * ValueOf(bits[..|bits| - 1]) + bits[|bits| - 1]
  }

  lemma {:induction false} ValueHasBits(bits: seq<Bit>)
    ensures ValueOf(bits) < Pow2(|bits|) && BitsOf(ValueOf(bits), |bits|) == bits
  {
    if bits != [] {
      ValueHasBits(bits[..|bits| - 1]);
      assert bits == bits[..|bits| - 1] + [bits[|bits| - 1]];
    }
  }

  function Words(bits: seq<Bit>): (bytes: seq<nat>)
    requires |bits| % 16 == 0
    ensures |bytes| == |bits| / 8
  {
    if bits == [] then []
    else
      var v := ValueOf(bits[..16]);
      [v % 256, v / 256] + Words(bits[16..])
  }

  lemma {:induction false} WordsAreBytes(bits: seq<Bit>)
    requires |bits| % 16 == 0
    ensures IsBytes(Words(bits))
  {
    if bits != [] {
      ValueHasBits(bits[..16]);
      Pow2Values();
      hide ValueOf, BitsOf, Pow2;
      WordsAreBytes(bits[16..]);
    }
  }

  lemma LessOneWord(n: nat)
    requires n % 16 == 0 && n > 0
    ensures n >= 16 && (n - 16) % 16 == 0 && n / 8 == 2 + (n - 16) / 8
  {
  }

  // Packed bits are the bits of the words.
  lemma {:induction false} WordsHoldBits(src: seq<nat>, k: nat, bits: seq<Bit>, rest: seq<nat>)
    requires |bits| % 16 == 0 && k <= |src| && src[k..] == Words(bits) + rest
    ensures k + |bits| / 8 <= |src| && src[k + |bits| / 8..] == rest
    ensures WordBits(src, k) == bits + WordBits(src, k + |bits| / 8)
    decreases |bits|
  {
    if bits == [] {
      assert src[k..] == rest;
    } else {
      hide Words, WordBits;
      LessOneWord(|bits|);
      var first, others, k' := bits[..16], bits[16..], k + |bits| / 8;
      assert bits == first + others;
      FirstWord(src, k, bits, rest);
      assert k + 2 + |others| / 8 == k';
      WordsHoldBits(src, k + 2, others, rest);
      ConcatAssoc(first, others, WordBits(src, k'));
    }
  }

  lemma FirstWord(src: seq<nat>, k: nat, bits: seq<Bit>, rest: seq<nat>)
    requires |bits| % 16 == 0 && |bits| >= 16 && (|bits| - 16) % 16 == 0
    requires k <= |src| && src[k..] == Words(bits) + rest
    ensures k + 2 <= |src| && src[k + 2..] == Words(bits[16..]) + rest
    ensures WordBits(src, k) == bits[..16] + WordBits(src, k + 2)
  {
    hide ValueOf, BitsOf, Pow2;
    var v := ValueOf(bits[..16]);
    var others := Words(bits[16..]);
    assert Words(bits) == [v % 256, v / 256] + others;
    hide Words;
    ConcatAssoc([v % 256, v / 256], others, rest);
    WordThere(src, k, v, others + rest);
    ValueHasBits(bits[..16]);
  }

  lemma WordThere(src: seq<nat>, k: nat, v: nat, rest: seq<nat>)
    requires k <= |src| && src[k..] == [v % 256, v / 256] + rest
    ensures k + 2 <= |src| && Word(src, k) == v && src[k + 2..] == rest
  {
    assert |src[k..]| == 2 + |rest|;
    assert src[k] == src[k..][0] && src[k + 1] == src[k..][1];
    assert src[k + 2..] == src[k..][2..];
  }

  function ZeroBits(n: nat): (bits: seq<Bit>)
    ensures |bits| == n
  {
    seq(n, _ => 0)
  }

  // the number of bits up to the next word
  function Gap(n: nat): (g: nat)
    ensures (n + g) % 16 == 0 && g < 16
  {
    (16 - n % 16) % 16
  }
}
