// The order in which a PVRTC texture stores its words: the bits of the two coordinates are
// interleaved, and the bits that one of them has in excess come on top.
module PvrtcTwiddle {
  import opened Powers
  import opened BitStream

  // sizes 2^a by 2^b
  function Twiddle(a: nat, b: nat, x: nat, y: nat): nat
  {
    if a == 0 then y
    else if b == 0 then x
    else 4 * Twiddle(a - 1, b - 1, x / 2, y / 2) + 2 * (x % 2) + y % 2
  }

  // and back
  function Untwiddle(a: nat, b: nat, t: nat): (nat, nat)
  {
    if a == 0 then (0, t)
    else if b == 0 then (t, 0)
    else
      var (x, y) := Untwiddle(a - 1, b - 1, t / 4);
      (2 * x + t / 2 % 2, 2 * y + t % 2)
  }

  // TwiddleUV is a bijection from the positions of a 2^a by 2^b grid to [0, 2^a * 2^b), and
  // Untwiddle is its inverse.
  lemma {:induction false} TwiddleInverse(a: nat, b: nat, x: nat, y: nat)
    requires x < Pow2(a) && y < Pow2(b)
    ensures Twiddle(a, b, x, y) < Pow2(a) * Pow2(b)
    ensures Untwiddle(a, b, Twiddle(a, b, x, y)) == (x, y)
  {
    hide Pow2, Twiddle, Untwiddle;
    if a > 0 && b > 0 {
      FourTimes(Pow2(a - 1), Pow2(b - 1));
      Pow2Half(a);
      Pow2Half(b);
      BitBack(x);
      BitBack(y);
      TwiddleInverse(a - 1, b - 1, x / 2, y / 2);
      var t, u := Twiddle(a - 1, b - 1, x / 2, y / 2), Twiddle(a, b, x, y);
      Interleaved(a, b, x / 2, y / 2, x % 2, y % 2);
      Digits(t, x, y);
      UntwiddleIs(a, b, u);
    } else {
      OnePosition(a, b, x, y);
    }
  }

  lemma OnePosition(a: nat, b: nat, x: nat, y: nat)
    requires (a == 0 || b == 0) && x < Pow2(a) && y < Pow2(b)
    ensures Twiddle(a, b, x, y) < Pow2(a) * Pow2(b) && Untwiddle(a, b, Twiddle(a, b, x, y)) == (x, y)
  {
    hide Pow2;
    PowZero();
  }

  lemma BitBack(x: nat)
    ensures 2 * (x / 2) + x % 2 == x && 0 <= x % 2 < 2
  {
  }

  lemma {:induction false} UntwiddleInverse(a: nat, b: nat, t: nat)
    requires t < Pow2(a) * Pow2(b)
    ensures Untwiddle(a, b, t).0 < Pow2(a) && Untwiddle(a, b, t).1 < Pow2(b)
    ensures Twiddle(a, b, Untwiddle(a, b, t).0, Untwiddle(a, b, t).1) == t
  {
    hide Pow2, Twiddle, Untwiddle;
    if a > 0 && b > 0 {
      FourTimes(Pow2(a - 1), Pow2(b - 1));
      Pow2Half(a);
      Pow2Half(b);
      Quarter(t, Pow2(a - 1) * Pow2(b - 1));
      UntwiddleInverse(a - 1, b - 1, t / 4);
      var (x, y) := Untwiddle(a - 1, b - 1, t / 4);
      Digits4(t);
      UntwiddleIs(a, b, t);
      Interleaved(a, b, x, y, t / 2 % 2, t % 2);
    } else {
      OneRow(a, b, t);
    }
  }

  lemma UntwiddleIs(a: nat, b: nat, t: nat)
    requires a > 0 && b > 0
    ensures var (x, y) := Untwiddle(a - 1, b - 1, t / 4);
      Untwiddle(a, b, t) == (2 * x + t / 2 % 2, 2 * y + t % 2)
  {
  }

  // a single row or column
  lemma OneRow(a: nat, b: nat, t: nat)
    requires (a == 0 || b == 0) && t < Pow2(a) * Pow2(b)
    ensures Untwiddle(a, b, t).0 < Pow2(a) && Untwiddle(a, b, t).1 < Pow2(b)
    ensures Twiddle(a, b, Untwiddle(a, b, t).0, Untwiddle(a, b, t).1) == t
  {
    hide Pow2;
    PowZero();
  }

  lemma PowZero()
    ensures Pow2(0) == 1
  {
  }

  lemma Quarter(t: nat, n: nat)
    requires t < 4 * n
    ensures 0 <= t / 4 < n
  {
  }

  // one more bit of each coordinate
  lemma Interleaved(a: nat, b: nat, x: nat, y: nat, high: nat, low: nat)
    requires a > 0 && b > 0 && high < 2 && low < 2
    ensures Twiddle(a, b, 2 * x + high, 2 * y + low) == 4 * Twiddle(a - 1, b - 1, x, y) + 2 * high + low
  {
    Doubled(x, high);
    Doubled(y, low);
  }

  lemma Doubled(x: nat, bit: nat)
    requires bit < 2
    ensures (2 * x + bit) / 2 == x && (2 * x + bit) % 2 == bit
  {
  }

  lemma Digits4(t: nat)
    ensures 4 * (t / 4) + 2 * (t / 2 % 2) + t % 2 == t && 0 <= t / 2 % 2 < 2 && 0 <= t % 2 < 2
  {
    DivDiv(t, 2, 2);
    DivNonNegative(t, 2);
    DivMod(t / 2, 2);
    DivMod(t, 2);
  }

  lemma FourTimes(p: nat, q: nat)
    ensures (2 * p) * (2 * q) == 4 * (p * q)
  {
  }

  lemma Digits(t: nat, x: nat, y: nat)
    ensures var u := 4 * t + 2 * (x % 2) + y % 2; u / 4 == t && u / 2 % 2 == x % 2 && u % 2 == y % 2
  {
  }

  // ---------- the loop ----------

  // the k low bits of each coordinate
  function Low(k: nat, x: nat, y: nat): nat
  {
    if k == 0 then 0 else 4 * Low(k - 1, x / 2, y / 2) + 2 * (x % 2) + y % 2
  }

  lemma {:induction false} LowBelow(k: nat, x: nat, y: nat)
    ensures Low(k, x, y) < Pow2(2 * k)
  {
    if k > 0 {
      LowBelow(k - 1, x / 2, y / 2);
    }
  }

  // v >> n
  function Shr(v: nat, n: nat): nat
  {
    DivNonNegative(v, Pow2(n));
    v / Pow2(n)
  }

  lemma ShrStep(v: nat, n: nat)
    ensures n > 0 ==> Shr(v, n) == Shr(v / 2, n - 1)
    ensures Shr(v, 0) == v
  {
    if n > 0 {
      Pow2Half(n);
      DivDiv(v, 2, Pow2(n - 1));
    }
  }

  // one more bit of each on top
  lemma {:induction false} LowStep(k: nat, x: nat, y: nat)
    ensures Low(k + 1, x, y) == Low(k, x, y) + Shl(2 * (Shr(x, k) % 2) + Shr(y, k) % 2, 2 * k)
  {
    hide Low, Pow2, Shl, Shr;
    LowIs(k, x, y);
    ShrStep(x, k);
    ShrStep(y, k);
    if k > 0 {
      LowIs(k - 1, x, y);
      LowStep(k - 1, x / 2, y / 2);
      ShlFour(2 * (Shr(x, k) % 2) + Shr(y, k) % 2, k - 1);
    } else {
      LowZero(x / 2, y / 2);
      LowZero(x, y);
      ShlZero(2 * (x % 2) + y % 2);
    }
  }

  lemma LowIs(k: nat, x: nat, y: nat)
    ensures Low(k + 1, x, y) == 4 * Low(k, x / 2, y / 2) + 2 * (x % 2) + y % 2
  {
  }

  lemma ShlZero(v: nat)
    ensures Shl(v, 0) == v
  {
  }

  lemma ShlFour(v: nat, k: nat)
    ensures Shl(v, 2 * (k + 1)) == 4 * Shl(v, 2 * k)
  {
    NextPowers(k);
    Quadruple(Pow2(2 * k), v);
  }

  lemma Quadruple(p: nat, v: nat)
    ensures v * (p * 4) == 4 * (v * p)
  {
  }

  // the smaller coordinate is used up after k bits, and the rest of the other one comes on top
  lemma {:induction false} TwiddleIsLow(a: nat, b: nat, x: nat, y: nat)
    requires x < Pow2(a) && y < Pow2(b)
    ensures var k := if a < b then a else b;
      Twiddle(a, b, x, y) == Low(k, x, y) + Shl(Shr(if b < a then x else y, k), 2 * k)
  {
    hide Pow2, Shl, Shr, Low, Twiddle;
    var k := if a < b then a else b;
    var v := if b < a then x else y;
    ShrStep(v, k);
    TwiddleStep(a, b, x, y);
    if k > 0 {
      Pow2Half(a);
      Pow2Half(b);
      TwiddleIsLow(a - 1, b - 1, x / 2, y / 2);
      LowIs(k - 1, x, y);
      ShlFour(Shr(v, k), k - 1);
    } else {
      LowZero(x, y);
      ShlZero(v);
    }
  }

  lemma TwiddleStep(a: nat, b: nat, x: nat, y: nat)
    requires x < Pow2(a) && y < Pow2(b)
    ensures a > 0 && b > 0 ==> Twiddle(a, b, x, y) == 4 * Twiddle(a - 1, b - 1, x / 2, y / 2) + 2 * (x % 2) + y % 2
    ensures a == 0 || b == 0 ==> Twiddle(a, b, x, y) == if b < a then x else y
  {
    hide Pow2;
    PowZero();
  }

  // the position of a word among the words; the second format stores them row by row
  function WordOrder(ii: bool, a: nat, b: nat, x: nat, y: nat): nat
  {
    if ii then y * Pow2(a) + x else Twiddle(a, b, x, y)
  }

  lemma WordOrderOneToOne(ii: bool, a: nat, b: nat, x: nat, y: nat, x': nat, y': nat)
    requires x < Pow2(a) && y < Pow2(b) && x' < Pow2(a) && y' < Pow2(b)
    ensures WordOrder(ii, a, b, x, y) < Pow2(a) * Pow2(b)
    ensures WordOrder(ii, a, b, x, y) == WordOrder(ii, a, b, x', y') ==> x == x' && y == y'
  {
    if ii {
      MulMono(y + 1, Pow2(b), Pow2(a));
      MulDist(y, 1, Pow2(a));
      DivUnique(y * Pow2(a) + x, Pow2(a), y, x);
      DivUnique(y' * Pow2(a) + x', Pow2(a), y', x');
    } else {
      TwiddleInverse(a, b, x, y);
      TwiddleInverse(a, b, x', y');
    }
  }

  // v & mask, for a mask of one bit
  predicate HasBit(v: nat, mask: nat)
  {
    mask > 0 && v / mask % 2 == 1
  }

  lemma BitIsShr(v: nat, n: nat)
    ensures HasBit(v, Pow2(n)) <==> Shr(v, n) % 2 == 1
  {
  }

  // TwiddleUV; the sizes are powers of two, as the code asserts
  method TwiddleUV(ii: bool, XSize: nat, YSize: nat, XPos: nat, YPos: nat, ghost a: nat, ghost b: nat) returns (r: nat)
    requires XSize == Pow2(a) && YSize == Pow2(b) && XPos < XSize && YPos < YSize
    ensures r == WordOrder(ii, a, b, XPos, YPos)
  {
    hide Pow2, Twiddle;
    if ii {
      r := YPos * XSize + XPos;
    } else {
      r := Interleave(XSize, YSize, XPos, YPos, a, b);
    }
  }

  method Interleave(XSize: nat, YSize: nat, XPos: nat, YPos: nat, ghost a: nat, ghost b: nat) returns (r: nat)
    requires XSize == Pow2(a) && YSize == Pow2(b) && XPos < XSize && YPos < YSize
    ensures r == Twiddle(a, b, XPos, YPos)
  {
    hide HasBit, Low, Twiddle, Pow2, BitOr, Shl, Shr;
    // X is the shorter coordinate, unless Y is
    var MinDimension, MaxValue := XSize, YPos;
    var Twiddled, SrcBitPos, DstBitPos, ShiftCount := 0, 1, 1, 0;
    if YSize < XSize {
      MinDimension := YSize;
      MaxValue := XPos;
    }
    ghost var k := if a < b then a else b;
    SizesOrdered(a, b);
    SizesOrdered(b, a);
    LowZero(XPos, YPos);
    // one bit of each coordinate at a time
    while SrcBitPos < MinDimension
      invariant ShiftCount <= k && SrcBitPos == Pow2(ShiftCount) && DstBitPos == Pow2(2 * ShiftCount)
      invariant Twiddled == Low(ShiftCount, XPos, YPos)
      decreases k - ShiftCount
    {
      SizesOrdered(k, ShiftCount);
      LowStep(ShiftCount, XPos, YPos);
      BitIsShr(XPos, ShiftCount);
      BitIsShr(YPos, ShiftCount);
      LowBelow(ShiftCount, XPos, YPos);
      NextPowers(ShiftCount);
      OrBits(Twiddled, ShiftCount, HasBit(YPos, SrcBitPos), HasBit(XPos, SrcBitPos));
      if HasBit(YPos, SrcBitPos) {
        Twiddled := BitOr(Twiddled, DstBitPos);
      }
      if HasBit(XPos, SrcBitPos) {
        Twiddled := BitOr(Twiddled, DstBitPos * 2);
      }
      SrcBitPos := SrcBitPos * 2;
      DstBitPos := DstBitPos * 4;
      ShiftCount := ShiftCount + 1;
    }
    SizesOrdered(ShiftCount, k);
    TwiddleIsLow(a, b, XPos, YPos);
    LowBelow(k, XPos, YPos);
    // the other bits of the longer coordinate
    MaxValue := Shr(MaxValue, ShiftCount);
    OrMultiple(Twiddled, MaxValue, 2 * ShiftCount);
    r := BitOr(Twiddled, Shl(MaxValue, 2 * ShiftCount));
  }

  lemma SizesOrdered(m: nat, n: nat)
    ensures m < n ==> Pow2(m) < Pow2(n)
  {
    if m < n {
      Pow2Mono(m + 1, n);
    }
  }

  lemma LowZero(x: nat, y: nat)
    ensures Low(0, x, y) == 0 && Pow2(0) == 1
  {
  }

  lemma NextPowers(k: nat)
    ensures Pow2(k + 1) == Pow2(k) * 2 && Pow2(2 * (k + 1)) == Pow2(2 * k) * 4
    ensures Pow2(2 * k + 1) == Pow2(2 * k) * 2
  {
    Pow2Half(2 * k + 2);
    Pow2Half(2 * k + 1);
    assert 2 * (k + 1) == 2 * k + 2;
  }

  lemma {:induction false} BitOrComm(x: nat, y: nat)
    ensures BitOr(x, y) == BitOr(y, x)
  {
    if x > 0 && y > 0 {
      BitOrComm(x / 2, y / 2);
    }
  }

  // bits above a small number
  lemma OrMultiple(x: nat, v: nat, n: nat)
    requires x < Pow2(n)
    ensures BitOr(x, Shl(v, n)) == x + Shl(v, n)
  {
    BitOrComm(x, Shl(v, n));
    DivUnique(Shl(v, n), Pow2(n), v, 0);
    OrIsSum(Shl(v, n), x, n);
  }

  // the two bits of one round of the loop
  lemma OrBits(t: nat, k: nat, low: bool, high: bool)
    requires t < Pow2(2 * k)
    ensures var p := Pow2(2 * k);
      var t1 := if low then BitOr(t, p) else t;
      (if high then BitOr(t1, p * 2) else t1) == t + Shl((if high then 2 else 0) + if low then 1 else 0, 2 * k)
  {
    hide Pow2, BitOr, Shl;
    NextPowers(k);
    OrMultiple(t, 1, 2 * k);
    var p := Pow2(2 * k);
    var t1 := if low then t + p else t;
    SmallShifts(2 * k);
    OrMultiple(t1, 1, 2 * k + 1);
  }

  lemma SmallShifts(n: nat)
    ensures Shl(0, n) == 0 && Shl(1, n) == Pow2(n) && Shl(2, n) == Pow2(n) * 2 && Shl(3, n) == Pow2(n) * 3
    ensures Shl(1, n + 1) == Pow2(n) * 2
  {
  }
}
