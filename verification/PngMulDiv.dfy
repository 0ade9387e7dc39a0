// The integer branch of png_muldiv: a * times / divisor, rounded, in 32-bit arithmetic, with a
// 64-bit product made of 16-bit pieces and a division by shifts and subtractions.
module PngMulDiv {
  import opened Powers

  const TWO16 := 0x1_0000
  const TWO31 := 0x8000_0000
  const TWO32 := 0x1_0000_0000

  // operands above -2^31
  predicate IsOperand(v: int)
  {
    -TWO31 < v < TWO31
  }

  predicate IsWord(v: int)
  {
    0 <= v < TWO32
  }

  // a png_fixed_point that wraps around
  function Wrap(v: int): (r: int)
    ensures -TWO31 <= r < TWO31
  {
    (v + TWO31) % TWO32 - TWO31
  }

  function Signed(negative: bool, v: int): int
  {
    if negative then -v else v
  }

  function Abs(v: int): nat
  {
    if v < 0 then -v else v
  }

  // ---------- the product ----------

  function Product(A: nat, T: nat): nat
  {
    A * T
  }

  // The 16-bit partial products give the exact 64-bit product in s32 and s00.
  lemma ProductParts(A: nat, T: nat, ah: nat, al: nat, th: nat, tl: nat, s16: nat, s32: nat, s00: nat)
    requires A == ah * TWO16 + al && T == th * TWO16 + tl
    requires s16 == ah * tl + al * th && s32 == ah * th + s16 / TWO16 && s00 == al * tl
    ensures A * T == s32 * TWO32 + (s16 % TWO16 * TWO16 + s00)
  {
    calc {
      A * T;
      ah * TWO16 * (th * TWO16) + ah * TWO16 * tl + al * (th * TWO16) + al * tl;
      ah * th * TWO32 + (ah * tl + al * th) * TWO16 + al * tl;
      ah * th * TWO32 + s16 * TWO16 + s00;
    }
    assert s16 == s16 / TWO16 * TWO16 + s16 % TWO16;
  }

  lemma PartBounds(A: nat, T: nat)
    requires A < TWO31 && T < TWO31
    ensures var ah, al, th, tl := A / TWO16, A % TWO16, T / TWO16, T % TWO16;
      0 <= ah * tl + al * th < TWO32 && 0 <= al * tl < TWO32 && 0 <= ah * th < 0x4000_0000
  {
    var ah, al, th, tl := A / TWO16, A % TWO16, T / TWO16, T % TWO16;
    Below(ah, tl, 0x7FFF, 0xFFFF);
    Below(al, th, 0xFFFF, 0x7FFF);
    Below(al, tl, 0xFFFF, 0xFFFF);
    Below(ah, th, 0x7FFF, 0x7FFF);
  }

  lemma Below(x: nat, y: nat, m: nat, n: nat)
    requires x <= m && y <= n
    ensures 0 <= x * y <= m * n
  {
    MulMono(x, m, y);
    MulMono(y, n, m);
  }

  method Multiply(A: nat, T: nat) returns (s32: nat, s00: nat)
    requires A < TWO31 && T < TWO31
    ensures s32 * TWO32 + s00 == Product(A, T) && IsWord(s32) && IsWord(s00)
  {
    var s16;
    s16, s32, s00 := PartialProducts(A, T);
    ghost var low := s00;
    s16 := s16 % TWO16 * TWO16;
    s00 := (s00 + s16) % TWO32;
    AddCarry(low, s16);
    if s00 < s16 {
      s32 := s32 + 1;      // carry
    }
  }

  // the sum of two words, and whether it is more than a word
  lemma AddCarry(x: nat, y: nat)
    requires x < TWO32 && y < TWO32
    ensures var sum := (x + y) % TWO32;
      0 <= sum < TWO32 && x + y == sum + if sum < y then TWO32 else 0
  {
  }

  // the 16-bit pieces
  method PartialProducts(A: nat, T: nat) returns (s16: nat, s32: nat, s00: nat)
    requires A < TWO31 && T < TWO31
    ensures s32 * TWO32 + (s16 % TWO16 * TWO16 + s00) == Product(A, T)
    ensures s32 < TWO31 && s00 < TWO32 && 0 <= s16 % TWO16 * TWO16 < TWO32
  {
    hide Product;
    PartialSums(A, T, A / TWO16, A % TWO16, T / TWO16, T % TWO16);
    s16 := (A / TWO16) * (T % TWO16) + (A % TWO16) * (T / TWO16);
    s32 := (A / TWO16) * (T / TWO16) + s16 / TWO16;
    s00 := (A % TWO16) * (T % TWO16);
  }

  lemma PartialSums(A: nat, T: nat, ah: int, al: int, th: int, tl: int)
    requires A < TWO31 && T < TWO31
    requires ah == A / TWO16 && al == A % TWO16 && th == T / TWO16 && tl == T % TWO16
    ensures ah * tl + al * th >= 0 && al * tl >= 0 && ah * th >= 0
    ensures var s16 := ah * tl + al * th;
      var s32 := ah * th + s16 / TWO16;
      s32 * TWO32 + (s16 % TWO16 * TWO16 + al * tl) == Product(A, T) &&
      0 <= s32 < TWO31 && al * tl < TWO32 && 0 <= s16 % TWO16 * TWO16 < TWO32
  {
    PartBounds(A, T);
    var s16 := ah * tl + al * th;
    Below16(s16, ah * th);
    ProductParts(A, T, ah, al, th, tl, s16, ah * th + s16 / TWO16, al * tl);
  }

  lemma Below16(m: nat, h: nat)
    requires m < TWO32 && h < 0x4000_0000
    ensures 0 <= h + m / TWO16 < TWO31 && 0 <= m % TWO16 * TWO16 < TWO32
  {
  }

  // ---------- the division ----------

  // D << shift as two words
  lemma Shifted(D: nat, shift: nat)
    requires D < TWO31 && 0 < shift < 32
    ensures Pow2(32 - shift) > 0 && Pow2(32) == TWO32
    ensures D / Pow2(32 - shift) * TWO32 + D * Pow2(shift) % TWO32 == D * Pow2(shift)
  {
    hide Pow2;
    Pow2Values();
    Pow2Add(32 - shift, shift);
    ShiftedParts(D, Pow2(32 - shift), Pow2(shift));
  }

  lemma ShiftedParts(D: nat, p: nat, q: nat)
    requires p > 0 && q > 0 && p * q == TWO32
    ensures D / p * TWO32 + D * q % TWO32 == D * q
  {
    DivScale(D, p, q);
    DivMod(D * q, TWO32);
  }

  // comparing and subtracting two-word numbers
  lemma TwoWords(s32: nat, s00: nat, d32: nat, d00: nat)
    requires IsWord(s00) && IsWord(d00)
    ensures s32 * TWO32 + s00 >= d32 * TWO32 + d00 <==> s32 > d32 || (s32 == d32 && s00 >= d00)
    ensures s32 > d32 ==>
      (s32 - d32 - (if s00 < d00 then 1 else 0)) * TWO32 + (s00 - d00) % TWO32 ==
      s32 * TWO32 + s00 - (d32 * TWO32 + d00)
  {
  }

  // one bit of the quotient
  method DivideStep(D: nat, s32: nat, s00: nat, bitshift: nat) returns (t32: nat, t00: nat, bit: bool)
    requires 0 < D < TWO31 && IsWord(s32) && IsWord(s00) && bitshift < 32
    ensures IsWord(t32) && IsWord(t00)
    ensures var s := s32 * TWO32 + s00;
      var d := D * Pow2(bitshift);
      bit == (s >= d) && t32 * TWO32 + t00 == if bit then s - d else s
  {
    hide Pow2;
    var d32, d00 := 0, D;
    if bitshift > 0 {
      Shifted(D, bitshift);
      d32, d00 := D / Pow2(32 - bitshift), D * Pow2(bitshift) % TWO32;
    } else {
      ShiftZero(D);
    }
    TwoWords(s32, s00, d32, d00);
    t32, t00, bit := s32, s00, false;
    if s32 > d32 {
      if s00 < d00 {
        t32 := t32 - 1;      // carry
      }
      t32, t00, bit := t32 - d32, (t00 - d00) % TWO32, true;
    } else if s32 == d32 && s00 >= d00 {
      t32, t00, bit := 0, t00 - d00, true;
    }
  }

  lemma ShiftZero(D: nat)
    ensures D * Pow2(0) == D
  {
  }

  // The shift-subtract loop gives the exact quotient, as a wrapped number, and remainder.
  method Divide(D: nat, s32: nat, s00: nat) returns (result: int, rest: nat)
    requires 0 < D < TWO31 && s32 < D && IsWord(s00)
    ensures var P := s32 * TWO32 + s00;
      result == Wrap(P / D) && rest == P % D
  {
    hide Pow2, Wrap;
    ghost var P := s32 * TWO32 + s00;
    var t32, t00 := s32, s00;
    result := 0;
    var bitshift := 32;
    ghost var q := 0;
    DivideStart(D, s32, s00);
    while bitshift > 0
      invariant 0 <= bitshift <= 32 && IsWord(t32) && IsWord(t00)
      invariant q * D + (t32 * TWO32 + t00) == P && t32 * TWO32 + t00 < D * Pow2(bitshift)
      invariant q >= 0 && result == Wrap(q)
    {
      bitshift := bitshift - 1;
      var bit;
      ghost var s := t32 * TWO32 + t00;
      t32, t00, bit := DivideStep(D, t32, t00, bitshift);
      NextBit(D, bitshift, q);
      if bit {
        WrapAdd(q, Pow2(bitshift));
        result := Wrap(result + Pow2(bitshift));
        q := q + Pow2(bitshift);
      }
    }
    ShiftZero(D);
    DivUnique(P, D, q, t32 * TWO32 + t00);
    rest := t00;
  }

  lemma DivideStart(D: nat, s32: nat, s00: nat)
    requires s32 < D && IsWord(s00)
    ensures s32 * TWO32 + s00 < D * Pow2(32) && Wrap(0) == 0
  {
    Pow2Values();
  }

  lemma NextBit(D: nat, k: nat, q: int)
    ensures D * Pow2(k + 1) == D * Pow2(k) + D * Pow2(k)
    ensures (q + Pow2(k)) * D == q * D + D * Pow2(k)
  {
    MulDist(q, Pow2(k), D);
    MulDouble(D, Pow2(k));
  }

  lemma WrapAdd(q: int, d: int)
    ensures Wrap(Wrap(q) + d) == Wrap(q + d)
  {
    var k := (q + TWO31) / TWO32;
    assert Wrap(q) == q - k * TWO32;
    DivMove(q + d + TWO31, k);
  }

  lemma DivMove(v: int, k: int)
    ensures (v - k * TWO32) % TWO32 == v % TWO32
  {
    DivUnique(v - k * TWO32, TWO32, v / TWO32 - k, v % TWO32);
  }

  // ---------- png_muldiv ----------

  function Negative(a: int, times: int, divisor: int): bool
  {
    ((a < 0) != (times < 0)) != (divisor < 0)
  }

  // the quotient, rounded the way the code does
  function Rounded(P: nat, D: nat): nat
    requires D > 0
  {
    DivNonNegative(P, D);
    P / D + if P % D >= D / 2 then 1 else 0
  }

  // what png_muldiv does; without success *res is not changed
  datatype Result = Overflow | Success(res: int)

  function Quotient(P: nat, D: nat, negative: bool): Result
    requires D > 0
  {
    if P >= D * TWO32 then Overflow
    else
      var r := Wrap(Rounded(P, D));
      var signed := Wrap(Signed(negative, r));
      if (negative && signed <= 0) || (!negative && signed >= 0) then Success(signed) else Overflow
  }

  function MulDiv(a: int, times: int, divisor: int): Result
  {
    if divisor == 0 then Overflow
    else if a == 0 || times == 0 then Success(0)
    else Quotient(Product(Abs(a), Abs(times)), Abs(divisor), Negative(a, times, divisor))
  }

  // the part behind the multiplication
  method DivideRounded(D: nat, s32: nat, s00: nat, negative: bool) returns (r: Result)
    requires 0 < D < TWO31 && IsWord(s32) && IsWord(s00)
    ensures r == Quotient(s32 * TWO32 + s00, D, negative)
  {
    hide Wrap;
    if s32 >= D {
      return Overflow;
    }
    var result, rest := Divide(D, s32, s00);
    // handle the rounding
    if rest >= D / 2 {
      WrapAdd((s32 * TWO32 + s00) / D, 1);
      result := Wrap(result + 1);
    }
    if negative {
      result := Wrap(-result);
    }
    WrapTwice(result);
    // check for overflow
    if (negative && result <= 0) || (!negative && result >= 0) {
      return Success(result);
    }
    r := Overflow;
  }

  method PngMulDiv(a: int, times: int, divisor: int) returns (r: Result)
    requires IsOperand(a) && IsOperand(times) && IsOperand(divisor)
    ensures r == MulDiv(a, times, divisor)
  {
    hide Wrap, Quotient, Product;
    if divisor == 0 {
      return Overflow;
    }
    if a == 0 || times == 0 {
      return Success(0);
    }
    var negative := false;
    var A, T, D := a, times, divisor;
    if a < 0 {
      negative, A := true, -a;
    }
    if times < 0 {
      negative, T := !negative, -times;
    }
    if divisor < 0 {
      negative, D := !negative, -divisor;
    }
    var s32, s00 := Multiply(A, T);
    r := DivideRounded(D, s32, s00, negative);
  }

  // ---------- what the result means ----------

  // a * times / divisor, rounded to the nearest number, and halves away from zero
  function Exact(a: int, times: int, divisor: int): int
    requires divisor != 0
  {
    var P, D := Product(Abs(a), Abs(times)), Abs(divisor);
    DivNonNegative(P, D);
    var q := P / D + if 2 * (P % D) >= D then 1 else 0;
    Signed(Negative(a, times, divisor), q)
  }

  // The code rounds up one unit of the remainder too early for an odd divisor: the two ways of
  // rounding differ exactly there.
  lemma RoundingDiffers(P: nat, D: nat)
    requires D > 0
    ensures Rounded(P, D) != P / D + (if 2 * (P % D) >= D then 1 else 0) <==> D % 2 == 1 && P % D == D / 2
    ensures Rounded(P, D) <= P / D + 1
  {
    DivMod(P, D);
    HalfOf(P % D, D);
  }

  lemma HalfOf(r: nat, D: nat)
    requires r < D
    ensures r >= D / 2 <==> 2 * r >= D || (D % 2 == 1 && r == D / 2)
    ensures D % 2 == 1 && r == D / 2 ==> 2 * r < D
  {
  }

  // does the remainder lie in that gap?
  predicate Gap(a: int, times: int, divisor: int)
    requires divisor != 0
  {
    DivNonNegative(Product(Abs(a), Abs(times)), Abs(divisor));
    Abs(divisor) % 2 == 1 && Product(Abs(a), Abs(times)) % Abs(divisor) == Abs(divisor) / 2
  }

  // the rounded quotient before it is made to fit 32 bits
  function Magnitude(a: int, times: int, divisor: int): nat
    requires divisor != 0
  {
    Rounded(Product(Abs(a), Abs(times)), Abs(divisor))
  }

  lemma Wraps(q: nat, negative: bool)
    requires q <= TWO32
    ensures var r := Wrap(q);
      var signed := Wrap(Signed(negative, r));
      ((negative && signed <= 0) || (!negative && signed >= 0) <==>
         (if negative then q <= TWO31 else q < TWO31) || q == TWO32) &&
      ((if negative then q <= TWO31 else q < TWO31) ==> signed == Signed(negative, q)) &&
      (q == TWO32 ==> signed == 0)
  {
    if q < TWO31 {
      WrapIs(q, 0);
      WrapIs(0 - q as int, 0);
    } else if q == TWO31 {
      WrapIs(q, 1);
      WrapIs(TWO31, 1);
      WrapIs(-TWO31, 0);
    } else if q < TWO32 {
      WrapIs(q, 1);
      WrapIs(q - TWO32, 0);
      WrapIs(TWO32 - q, 0);
    } else {
      WrapIs(q, 1);
      WrapIs(0, 0);
    }
  }

  lemma WrapIs(v: int, k: int)
    requires -TWO31 <= v - k * TWO32 < TWO31
    ensures Wrap(v) == v - k * TWO32
  {
    DivUnique(v + TWO31, TWO32, k, v - k * TWO32 + TWO31);
  }

  lemma WrapTwice(v: int)
    ensures -TWO31 <= v < TWO31 ==> Wrap(v) == v
  {
    if -TWO31 <= v < TWO31 {
      WrapIs(v, 0);
    }
  }

  lemma MagnitudeBound(P: nat, D: nat)
    requires D > 0 && P < D * TWO32
    ensures Rounded(P, D) <= TWO32
  {
    DivMod(P, D);
    if P / D >= TWO32 {
      MulMono(TWO32, P / D, D);
    }
  }

  lemma LargeQuotient(P: nat, D: nat)
    requires D > 0 && P >= D * TWO32
    ensures Rounded(P, D) >= TWO32 && P / D >= TWO32
  {
    DivMod(P, D);
    if P / D < TWO32 {
      MulMono(P / D + 1, TWO32, D);
      MulDist(P / D, 1, D);
    }
  }

  // does a * times / divisor, rounded as the code does, fit a png_fixed_point?
  predicate Fits(a: int, times: int, divisor: int)
    requires divisor != 0
  {
    if Negative(a, times, divisor) then Magnitude(a, times, divisor) <= TWO31 else Magnitude(a, times, divisor) < TWO31
  }

  // did the rounding step carry out of 32 bits?
  predicate CarriedOut(a: int, times: int, divisor: int)
    requires divisor != 0
  {
    DivNonNegative(Product(Abs(a), Abs(times)), Abs(divisor));
    Product(Abs(a), Abs(times)) / Abs(divisor) == TWO32 - 1 && Magnitude(a, times, divisor) == TWO32
  }

  // png_muldiv succeeds exactly when the rounded quotient fits, except that it also succeeds, with
  // 0, when the rounding carries out of 32 bits.
  lemma MulDivSucceeds(a: int, times: int, divisor: int)
    requires IsOperand(a) && IsOperand(times) && IsOperand(divisor) && a != 0 && times != 0 && divisor != 0
    ensures MulDiv(a, times, divisor).Success? <==> Fits(a, times, divisor) || CarriedOut(a, times, divisor)
    ensures Fits(a, times, divisor) ==>
      MulDiv(a, times, divisor) ==
      Success(Signed(Negative(a, times, divisor), Magnitude(a, times, divisor)))
    ensures CarriedOut(a, times, divisor) ==> MulDiv(a, times, divisor) == Success(0)
  {
    hide Wrap, Product, Negative;
    var P, D := Product(Abs(a), Abs(times)), Abs(divisor);
    if P >= D * TWO32 {
      LargeQuotient(P, D);
    } else {
      MagnitudeBound(P, D);
      Wraps(Rounded(P, D), Negative(a, times, divisor));
    }
  }

  // When the quotient fits, the result is exact, halves away from zero, if and only if the divisor
  // is even or the remainder is not half of the divisor rounded down; otherwise it is one unit too
  // far from zero.
  lemma MulDivRounds(a: int, times: int, divisor: int)
    requires IsOperand(a) && IsOperand(times) && IsOperand(divisor) && a != 0 && times != 0 && divisor != 0
    requires Fits(a, times, divisor)
    ensures MulDiv(a, times, divisor) == Success(Exact(a, times, divisor)) <==> !Gap(a, times, divisor)
    ensures Gap(a, times, divisor) ==>
      MulDiv(a, times, divisor) == Success(Exact(a, times, divisor) + if Negative(a, times, divisor) then -1 else 1)
  {
    MulDivSucceeds(a, times, divisor);
    hide MulDiv, Product, Negative;
    RoundingDiffers(Product(Abs(a), Abs(times)), Abs(divisor));
  }

  // In any case the result is off by no more than half of a unit and half of one divided by D.
  lemma MulDivError(P: nat, D: nat)
    requires D > 0
    ensures Abs(Rounded(P, D) * D - P) <= (D + 1) / 2
  {
    DivMod(P, D);
    MulDist(P / D, 1, D);
  }

  lemma MulDivIsClose(a: int, times: int, divisor: int)
    requires IsOperand(a) && IsOperand(times) && IsOperand(divisor) && a != 0 && times != 0 && divisor != 0
    requires Fits(a, times, divisor)
    ensures MulDiv(a, times, divisor).Success?
    ensures Abs(MulDiv(a, times, divisor).res * divisor - a * times) <= (Abs(divisor) + 1) / 2
  {
    MulDivSucceeds(a, times, divisor);
    MulDivError(Product(Abs(a), Abs(times)), Abs(divisor));
    Signs(a, times, divisor, Magnitude(a, times, divisor));
  }

  lemma Signs(a: int, times: int, divisor: int, m: nat)
    requires a != 0 && times != 0 && divisor != 0
    ensures var res := Signed(Negative(a, times, divisor), m);
      Abs(res * divisor - a * times) == Abs(m * Abs(divisor) - Product(Abs(a), Abs(times)))
  {
    SignedProduct(a, times);
    SignedProduct(Signed(Negative(a, times, divisor), m), divisor);
  }

  lemma SignedProduct(x: int, y: int)
    ensures x * y == Signed((x < 0) != (y < 0), Product(Abs(x), Abs(y)))
  {
  }

  // Every quotient below 2^31 - 1 in magnitude fits.
  lemma SmallQuotientFits(a: int, times: int, divisor: int)
    requires divisor != 0 && Product(Abs(a), Abs(times)) < (TWO31 - 1) * Abs(divisor)
    ensures Fits(a, times, divisor)
  {
    hide Product, Negative;
    var P, D := Product(Abs(a), Abs(times)), Abs(divisor);
    DivMod(P, D);
    if P / D >= TWO31 - 1 {
      MulMono(TWO31 - 1, P / D, D);
    }
  }

  // Division by one adds one: 3 * 5 / 1 gives 16.
  lemma OneTooMany()
    ensures MulDiv(3, 5, 1) == Success(16) && Exact(3, 5, 1) == 15
  {
    assert Rounded(15, 1) == 16;
    WrapTwice(16);
  }

  // An overflow that is not noticed: 53353631 * 161 / 2 gives 0.
  lemma LostOverflow()
    ensures MulDiv(53353631, 161, 2) == Success(0)
  {
    var P := 53353631 * 161;
    assert P == 8589934591 && P / 2 == TWO32 - 1 && P % 2 == 1;
    assert Rounded(P, 2) == TWO32;
    Wraps(TWO32, false);
  }
}
