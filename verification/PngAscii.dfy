// png_ascii_from_fixed: a fixed-point number, in units of 1/100000, as a decimal string.
module PngAscii {
  import opened Wrappers
  import opened PngFpNumber

  const TWO31 := 0x8000_0000

  function Ten(k: nat): (p: nat)
    ensures p > 0
  {
    if k == 0 then 1 else 10 * Ten(k - 1)
  }

  function DigitChar(d: nat): (c: char)
    requires d < 10
    ensures IsDigit(c)
  {
    '0' + d as char
  }

  function DigitOf(c: char): (d: nat)
    requires IsDigit(c)
  {
    c as int - '0' as int
  }

  // n without its k low digits
  function High(n: nat, k: nat): nat
  {
    if k == 0 then n else High(n, k - 1) / 10
  }

  function DigitAt(n: nat, k: nat): (d: nat)
    ensures d < 10
  {
    High(n, k) % 10
  }

  // ---------- reading a decimal string ----------

  // the number that a string of digits stands for
  function Value(s: string): nat
    requires forall i :: 0 <= i < |s| ==> IsDigit(s[i])
  {
    if s == [] then 0 else 10 * Value(s[..|s| - 1]) + DigitOf(s[|s| - 1])
  }

  // ---------- writing ----------

  // the digits of n from the top one down to that of 10^k, without leading zeros
  function IntText(n: nat): (s: string)
    ensures forall i :: 0 <= i < |s| ==> IsDigit(s[i])
  {
    if n == 0 then [] else IntText(n / 10) + [DigitChar(n % 10)]
  }

  // the digits of n from that of 10^4 down to that of 10^k
  function FracText(n: nat, k: nat): (s: string)
    requires k <= 5
    ensures |s| == 5 - k && forall i :: 0 <= i < |s| ==> IsDigit(s[i])
    decreases 5 - k
  {
    if k == 5 then [] else FracText(n, k + 1) + [DigitChar(DigitAt(n, k))]
  }

  // the number of zeros at the end of n
  function Zeros(n: nat): (z: nat)
    requires n > 0
    ensures DigitAt(n, 0) != 0 ==> z == 0
  {
    if n % 10 != 0 then 0 else 1 + Zeros(n / 10)
  }

  // the magnitude n / 100000
  function Text(n: nat): string
  {
    if n == 0 then "0"
    else IntText(High(n, 5)) + if Zeros(n) < 5 then "." + FracText(n, Zeros(n)) else ""
  }

  function Ascii(fp: int): string
  {
    if fp < 0 then "-" + Text(-fp) else Text(fp)
  }

  // ---------- what the text says ----------

  lemma {:induction false} IntValue(n: nat)
    ensures Value(IntText(n)) == n
    ensures n > 0 ==> IntText(n) != [] && IntText(n)[0] != '0'
  {
    if n > 0 {
      IntValue(n / 10);
      assert IntText(n)[..|IntText(n)| - 1] == IntText(n / 10);
    }
  }

  lemma {:induction false} IntLength(n: nat, k: nat)
    requires n < Ten(k)
    ensures |IntText(n)| <= k
  {
    if n > 0 {
      IntLength(n / 10, k - 1);
    }
  }

  lemma {:induction false} HighMod(n: nat, k: nat)
    requires k <= 5
    ensures High(n, 5) * Ten(5 - k) <= High(n, k)
    ensures Value(FracText(n, k)) == High(n, k) - High(n, 5) * Ten(5 - k)
    decreases 5 - k
  {
    if k < 5 {
      HighMod(n, k + 1);
      var s := FracText(n, k);
      assert s[..|s| - 1] == FracText(n, k + 1);
      TenTimes(High(n, 5), Ten(5 - (k + 1)));
      assert Ten(5 - k) == 10 * Ten(5 - (k + 1));
    } else {
      assert Ten(0) == 1;
    }
  }

  lemma TenTimes(a: nat, p: nat)
    ensures a * (10 * p) == 10 * (a * p)
  {
  }

  lemma {:induction false} HighInside(n: nat, k: nat)
    ensures High(n, k + 1) == High(n / 10, k)
  {
    if k > 0 {
      HighInside(n, k - 1);
    }
  }

  // the zeros at the end, and the digit in front of them
  lemma {:induction false} ZerosAre(n: nat)
    requires n > 0
    ensures High(n, Zeros(n)) * Ten(Zeros(n)) == n && DigitAt(n, Zeros(n)) != 0
  {
    if n % 10 == 0 {
      ZerosAre(n / 10);
      HighInside(n, Zeros(n / 10));
      TenTimes(High(n, Zeros(n)), Ten(Zeros(n / 10)));
    }
  }

  // n is made up of the digits before the point and those behind it
  lemma TextValue(n: nat)
    requires n > 0 && Zeros(n) < 5
    ensures Value(IntText(High(n, 5))) * 100000 + Value(FracText(n, Zeros(n))) * Ten(Zeros(n)) == n
    ensures FracText(n, Zeros(n)) != [] && FracText(n, Zeros(n))[|FracText(n, Zeros(n))| - 1] != '0'
  {
    hide High, Ten, FracText, Zeros, Value, IntText;
    var z := Zeros(n);
    IntValue(High(n, 5));
    HighMod(n, z);
    ZerosAre(n);
    TenPowers(z);
    LastDigit(n, z);
    Spread(High(n, 5), High(n, z), Ten(5 - z), Ten(z));
  }

  lemma LastDigit(n: nat, k: nat)
    requires k < 5
    ensures FracText(n, k) != [] && FracText(n, k)[|FracText(n, k)| - 1] == DigitChar(DigitAt(n, k))
    ensures DigitAt(n, k) != 0 ==> DigitChar(DigitAt(n, k)) != '0'
  {
  }

  lemma TenPowers(z: nat)
    requires z < 5
    ensures Ten(5 - z) * Ten(z) == 100000
  {
    assert Ten(0) == 1 && Ten(1) == 10 && Ten(2) == 100 && Ten(3) == 1000 && Ten(4) == 10000 && Ten(5) == 100000;
  }

  lemma Spread(h: nat, v: nat, p: nat, q: nat)
    requires p * q == 100000 && h * p <= v
    ensures h * 100000 + (v - h * p) * q == v * q
  {
    assert h * p * q == h * (p * q);
  }

  // ---------- the whole text ----------

  // IntText or "0", and behind a point the digits that are left
  lemma TextShape(n: nat)
    requires n <= TWO31
    ensures Text(n) != [] && |Text(n)| <= 11
  {
    LengthBound(n);
    hide Ten;
    if n > 0 {
      IntValue(High(n, 5));
      IntLength(High(n, 5), 5);
    }
  }

  lemma LengthBound(n: nat)
    ensures n <= TWO31 ==> High(n, 5) < Ten(5) && n < Ten(10)
    ensures n > 0 && Zeros(n) >= 5 ==> High(n, 5) > 0
  {
    assert Ten(5) == 100000;
    assert Ten(10) == 10000000000;
    FiveDigits(n);
    if n > 0 && Zeros(n) >= 5 {
      ZerosAre(n);
      HighDown(n, 5, Zeros(n));
    }
  }

  lemma FiveDigits(n: nat)
    ensures n <= TWO31 ==> High(n, 5) < 100000
  {
    assert High(n, 0) == n;
    assert High(n, 1) == n / 10;
    assert High(n, 2) == High(n, 1) / 10;
    assert High(n, 3) == High(n, 2) / 10;
    assert High(n, 4) == High(n, 3) / 10;
    assert High(n, 5) == High(n, 4) / 10;
  }

  lemma {:induction false} HighDown(n: nat, j: nat, k: nat)
    requires j <= k && High(n, k) > 0
    ensures High(n, j) > 0
    decreases k - j
  {
    if j < k {
      HighDown(n, j, k - 1);
    }
  }

  // The text has at most 12 characters and is a number that the scanner accepts as a whole.
  lemma AsciiIsNumber(fp: int)
    requires -TWO31 <= fp < TWO31
    ensures |Ascii(fp)| <= 12 && '\0' !in Ascii(fp) && IsNumber(Ascii(fp)) && Accepts(Ascii(fp)).Some?
  {
    hide Text, IsNumber, IsDecimal, Accepts;
    var n := if fp < 0 then -fp else fp;
    TextShape(n);
    var t := Ascii(fp);
    var m := if fp < 0 then 1 else 0;
    assert t[m..] == Text(n);
    TextDigits(n);
    NumberWithSign(t, m);
    WholeText(t);
    FpStringIsNumber(t);
  }

  // digits, and perhaps a point with more digits
  predicate IsDecimal(t: string)
  {
    exists j: nat :: j <= |t| && IsDecimalAt(t, j)
  }

  predicate IsDecimalAt(t: string, j: nat)
    requires j <= |t|
  {
    (forall k :: 0 <= k < j ==> IsDigit(t[k])) &&
    (if j == |t| then j > 0 else t[j] == '.' && j + 1 < |t| && forall k :: j < k < |t| ==> IsDigit(t[k]))
  }

  lemma TextDigits(n: nat)
    requires n <= TWO31
    ensures IsDecimal(Text(n)) && forall k :: 0 <= k < |Text(n)| ==> Text(n)[k] != '\0'
  {
    var t := Text(n);
    if n == 0 {
      assert IsDecimalAt(t, 1);
    } else {
      LengthBound(n);
      var s := IntText(High(n, 5));
      IntValue(High(n, 5));
      hide High, IntText;
      assert IsDecimalAt(t, |s|);
    }
  }

  // ---------- reading the text back ----------

  // where the decimal point is, or the end
  function PointAt(t: string): (j: nat)
    ensures j <= |t| && (forall k :: 0 <= k < j ==> t[k] != '.') && (j < |t| ==> t[j] == '.')
  {
    if t == [] || t[0] == '.' then 0 else 1 + PointAt(t[1..])
  }

  // the number that a decimal with at most five digits behind the point stands for, in units of
  // 1/100000
  function Units(t: string): nat
    requires IsDecimalAt(t, PointAt(t)) && |t| <= PointAt(t) + 6
  {
    var j := PointAt(t);
    Value(t[..j]) * 100000 + if j < |t| then Scaled(Value(t[j + 1..]), 5 - (|t| - j - 1)) else 0
  }

  // v with k more digits
  function Scaled(v: nat, k: nat): (r: nat)
    ensures r != 0 <==> v != 0
  {
    ProductZero(v, Ten(k));
    v * Ten(k)
  }

  lemma {:induction false} PointIs(t: string, j: nat)
    requires j <= |t| && (forall k :: 0 <= k < j ==> t[k] != '.') && (j < |t| ==> t[j] == '.')
    ensures PointAt(t) == j
    decreases |t|
  {
    if j > 0 {
      PointIs(t[1..], j - 1);
    }
  }

  // Reading the printed magnitude gives back the number, exactly, and no zeros are printed at the
  // end of a fraction.
  lemma TextReads(n: nat)
    requires n <= TWO31
    ensures var t := Text(n);
      IsDecimalAt(t, PointAt(t)) && |t| <= PointAt(t) + 6 && Units(t) == n &&
      (PointAt(t) < |t| ==> t[|t| - 1] != '0')
  {
    hide High, Ten, FracText, IntText, Value, Zeros, IsDecimal, Units, Scaled;
    var t := Text(n);
    if n == 0 {
      ZeroUnits(t);
    } else if Zeros(n) < 5 {
      FractionReads(n, IntText(High(n, 5)), FracText(n, Zeros(n)));
    } else {
      WholeReads(n);
    }
  }

  lemma FractionReads(n: nat, s: string, f: string)
    requires 0 < n <= TWO31 && Zeros(n) < 5 && s == IntText(High(n, 5)) && f == FracText(n, Zeros(n))
    ensures Text(n) == s + "." + f && PointAt(s + "." + f) == |s| && 0 < |f| <= 5
    ensures IsDecimalAt(s + "." + f, |s|) && Units(s + "." + f) == n && f[|f| - 1] != '0'
  {
    hide High, Ten, FracText, IntText, Text, Value, Zeros, IsDecimal, Units, Scaled, IsDecimalAt, PointAt;
    TextParts(n);
    FractionValue(n);
    PointParts(s, f);
    PartsUnits(s + "." + f, s, f);
  }

  lemma TextParts(n: nat)
    requires n > 0 && Zeros(n) < 5
    ensures Text(n) == IntText(High(n, 5)) + "." + FracText(n, Zeros(n))
  {
    hide High, FracText, IntText, Zeros;
  }

  lemma FractionValue(n: nat)
    requires n > 0 && Zeros(n) < 5
    ensures Value(IntText(High(n, 5))) * 100000 + Scaled(Value(FracText(n, Zeros(n))), Zeros(n)) == n
    ensures FracText(n, Zeros(n)) != [] && FracText(n, Zeros(n))[|FracText(n, Zeros(n))| - 1] != '0'
  {
    hide High, Ten, FracText, IntText, Zeros, Value;
    TextValue(n);
  }

  lemma PointParts(s: string, f: string)
    requires (forall i :: 0 <= i < |s| ==> IsDigit(s[i])) && (forall i :: 0 <= i < |f| ==> IsDigit(f[i])) && 0 < |f| <= 5
    ensures var t := s + "." + f;
      PointAt(t) == |s| && IsDecimalAt(t, |s|) && |t| == |s| + 1 + |f| && t[..|s|] == s && t[|s| + 1..] == f
  {
    var t := s + "." + f;
    assert forall k :: 0 <= k < |s| ==> t[k] == s[k];
    assert forall k :: |s| < k < |t| ==> t[k] == f[k - |s| - 1];
    PointIs(t, |s|);
  }

  lemma PartsUnits(t: string, s: string, f: string)
    requires PointAt(t) == |s| && IsDecimalAt(t, |s|) && |t| == |s| + 1 + |f| && |f| <= 5
    requires t[..|s|] == s && t[|s| + 1..] == f
    ensures Units(t) == Value(s) * 100000 + Scaled(Value(f), 5 - |f|)
  {
    hide Value, Scaled, PointAt, IsDecimalAt;
  }

  lemma WholeReads(n: nat)
    requires 0 < n <= TWO31 && Zeros(n) >= 5
    ensures var t := Text(n);
      PointAt(t) == |t| && IsDecimalAt(t, |t|) && Units(t) == n
  {
    hide High, Ten, IntText, Value, Zeros, IsDecimal, Scaled;
    LengthBound(n);
    var t := IntText(High(n, 5));
    IntValue(High(n, 5));
    PointIs(t, |t|);
    assert t[..|t|] == t;
    WholeValue(n);
  }

  lemma ZeroUnits(t: string)
    requires t == "0"
    ensures PointAt(t) == 1 && IsDecimalAt(t, 1) && Units(t) == 0
  {
    PointIs(t, 1);
    assert t[..1] == t && t[..0] == [];
    assert Value(t[..0]) == 0;
  }

  lemma WholeValue(n: nat)
    requires n > 0 && Zeros(n) >= 5
    ensures High(n, 5) * 100000 == n
  {
    ZerosAre(n);
    HighTen(n, 5, Zeros(n));
    assert Ten(5) == 100000;
  }

  lemma {:induction false} HighTen(n: nat, j: nat, k: nat)
    requires j <= k && High(n, k) * Ten(k) == n
    ensures High(n, j) * Ten(j) == n
    decreases k - j
  {
    if j < k {
      HighTimes(n, k - 1);
      TenTimes(High(n, k), Ten(k - 1));
      HighBelow(n, k - 1);
      SameProduct(High(n, k - 1), 10 * High(n, k), Ten(k - 1), n);
      HighTen(n, j, k - 1);
    }
  }

  lemma HighTimes(n: nat, k: nat)
    ensures 10 * High(n, k + 1) <= High(n, k)
  {
  }

  lemma {:induction false} HighBelow(n: nat, k: nat)
    ensures High(n, k) * Ten(k) <= n
  {
    if k > 0 {
      HighBelow(n, k - 1);
      HighTimes(n, k - 1);
      TenTimes(High(n, k), Ten(k - 1));
      Scale(10 * High(n, k), High(n, k - 1), Ten(k - 1));
    }
  }

  lemma Scale(a: nat, b: nat, p: nat)
    requires a <= b
    ensures a * p <= b * p
  {
  }

  lemma SameProduct(a: nat, b: nat, p: nat, n: nat)
    requires p > 0 && b <= a && a * p <= n && b * p == n
    ensures a * p == n
  {
    Scale(b, a, p);
  }

  lemma NumberWithSign(t: string, m: nat)
    requires m <= |t| && m <= 1 && (m == 1 ==> t[0] == '-') && IsDecimal(t[m..])
    ensures IsNumber(t) && SignEnd(t, 0) == m && MantissaEnd(t, m) == |t|
  {
    var j: nat :| j <= |t[m..]| && IsDecimalAt(t[m..], j);
    DigitsRun(t, m, m + j);
    if m + j < |t| {
      assert t[m..][j] == t[m + j] && t[m..][j + 1] == t[m + j + 1];
      DigitsRun(t, m + j + 1, |t|);
      assert IsDigit(t[m + j + 1]);
    } else {
      assert IsDigit(t[m..][0]) && IsDigit(t[m]);
    }
    assert SignEnd(t, 0) == m && MantissaEnd(t, m) == |t| by {
      if j > 0 {
        assert t[m..][0] == t[m];
      }
    }
  }

  lemma {:induction false} DigitsRun(t: string, i: nat, j: nat)
    requires i <= j <= |t| && (forall k :: i <= k < j ==> IsDigit(t[k])) && (j < |t| ==> !IsDigit(t[j]))
    ensures DigitsEnd(t, i) == j
    decreases j - i
  {
    if i < j {
      DigitsRun(t, i + 1, j);
    }
  }

  lemma {:induction false} WholeText(t: string)
    requires forall k :: 0 <= k < |t| ==> t[k] != '\0'
    ensures CString(t) == t
  {
    if t != [] {
      WholeText(t[1..]);
    }
  }

  // ---------- the sign ----------

  // a decimal with at most five digits behind the point, and perhaps a minus sign before it
  predicate IsSigned(s: string)
  {
    var t := if s != [] && s[0] == '-' then s[1..] else s;
    IsDecimalAt(t, PointAt(t)) && |t| <= PointAt(t) + 6
  }

  // the number that it stands for, in units of 1/100000
  function Number(s: string): int
    requires IsSigned(s)
  {
    if s != [] && s[0] == '-' then -(Units(s[1..]) as int) else Units(s)
  }

  // no zero before the digits or behind the point that could be left out
  predicate IsShortest(s: string)
  {
    var t := if s != [] && s[0] == '-' then s[1..] else s;
    t == "0" || (t != [] && t[0] != '0' && (PointAt(t) < |t| ==> t[|t| - 1] != '0'))
  }

  lemma {:induction false} ValueNonzero(s: string)
    requires forall i :: 0 <= i < |s| ==> IsDigit(s[i])
    ensures Value(s) != 0 <==> HasNonzero(s, 0, |s|)
  {
    if s != [] {
      ValueNonzero(s[..|s| - 1]);
      SliceNonzero(s, 0, |s| - 1);
      LastNonzero(s);
    }
  }

  lemma LastNonzero(s: string)
    requires s != [] && IsDigit(s[|s| - 1])
    ensures HasNonzero(s, 0, |s|) <==> HasNonzero(s, 0, |s| - 1) || DigitOf(s[|s| - 1]) != 0
  {
  }

  lemma SliceNonzero(s: string, a: nat, b: nat)
    requires a <= b <= |s|
    ensures HasNonzero(s[a..b], 0, b - a) <==> HasNonzero(s, a, b)
  {
    assert forall k :: a <= k < b ==> s[k] == s[a..b][k - a];
    assert forall k :: 0 <= k < b - a ==> s[a..b][k] == s[a + k];
  }

  lemma PartNonzero(t: string, a: nat, b: nat)
    requires a <= b <= |t| && forall k :: a <= k < b ==> IsDigit(t[k])
    ensures forall i :: 0 <= i < b - a ==> IsDigit(t[a..b][i])
    ensures Value(t[a..b]) != 0 <==> HasNonzero(t, a, b)
  {
    hide Value, HasNonzero;
    ValueNonzero(t[a..b]);
    SliceNonzero(t, a, b);
  }

  lemma UnitsNonzero(t: string)
    requires IsDecimalAt(t, PointAt(t)) && |t| <= PointAt(t) + 6
    ensures Units(t) != 0 <==> HasNonzero(t, 0, |t|)
  {
    hide Units, Value, HasNonzero, PointAt;
    UnitsParts(t);
    var j := PointAt(t);
    PartNonzero(t, 0, j);
    assert t[..j] == t[0..j];
    if j < |t| {
      PartNonzero(t, j + 1, |t|);
      assert t[j + 1..] == t[j + 1..|t|];
      SkipDot(t, 0, j, |t|);
    }
  }

  lemma UnitsParts(t: string)
    requires IsDecimalAt(t, PointAt(t)) && |t| <= PointAt(t) + 6
    ensures Units(t) != 0 <==> Value(t[..PointAt(t)]) != 0 || (PointAt(t) < |t| && Value(t[PointAt(t) + 1..]) != 0)
  {
    hide Value, Scaled, PointAt;
  }

  lemma ProductZero(a: nat, b: nat)
    requires b > 0
    ensures a * b != 0 <==> a != 0
    ensures a * b >= 0
  {
  }

  // a text without leading zeros
  lemma TextFirst(n: nat)
    requires n <= TWO31
    ensures Text(n) != [] && Text(n)[0] != '-' && (Text(n) == "0" || Text(n)[0] != '0')
  {
    LengthBound(n);
    hide High, Ten;
    if n > 0 {
      IntValue(High(n, 5));
    }
  }

  // The printed string stands for exactly the given number, with a minus sign just when it is below
  // zero, and the scanner finds it negative or not zero just when it is.
  lemma AsciiSays(fp: int)
    requires -TWO31 <= fp < TWO31
    ensures var s := Ascii(fp);
      |s| <= 12 && '\0' !in s && (s != [] && s[0] == '-' <==> fp < 0) &&
      IsSigned(s) && Number(s) == fp && IsShortest(s) &&
      Accepts(s).Some? && (Accepts(s).value.negative <==> fp < 0) && (Accepts(s).value.nonzero <==> fp != 0)
  {
    hide Text, IsNumber, IsDecimal, IsDecimalAt, Units, Scan, HasNonzero;
    var n := if fp < 0 then -fp else fp;
    var s, m := Ascii(fp), if fp < 0 then 1 else 0;
    AsciiIsNumber(fp);
    TextReads(n);
    TextFirst(n);
    assert s[m..] == Text(n);
    TextDigits(n);
    NumberWithSign(s, m);
    AcceptsNumbers(s);
    UnitsNonzero(Text(n));
    if fp < 0 {
      assert s[1..] == s[1..|s|];
      SliceNonzero(s, 1, |s|);
    }
  }

  // ---------- png_ascii_from_fixed ----------

  lemma ZerosDigits(n: nat, k: nat)
    requires n > 0
    ensures k < Zeros(n) ==> DigitAt(n, k) == 0
    ensures k == Zeros(n) ==> DigitAt(n, k) != 0
  {
    if n % 10 == 0 && k > 0 {
      ZerosDigits(n / 10, k - 1);
      HighInside(n, k - 1);
    }
  }

  // the digits of n, the lowest first, and the number of the first one that is not zero
  method SplitDigits(n: nat) returns (digits: seq<char>, first: nat)
    requires n <= TWO31
    ensures |digits| <= 10 && High(n, |digits|) == 0 && forall k :: 0 <= k < |digits| ==> High(n, k) > 0
    ensures forall k :: 0 <= k < |digits| ==> digits[k] == DigitChar(DigitAt(n, k))
    ensures n > 0 ==> 0 < first == Zeros(n) + 1 <= |digits|
    ensures n == 0 ==> digits == []
  {
    hide Ten, Zeros, High, DigitAt;
    LengthBound(n);
    HighStart(n);
    var num := n;
    digits, first := [], 16;
    while num > 0
      invariant |digits| <= 10 && num == High(n, |digits|) && num < Ten(10 - |digits|)
      invariant forall k :: 0 <= k < |digits| ==> digits[k] == DigitChar(DigitAt(n, k)) && High(n, k) > 0
      invariant n == 0 ==> digits == []
      invariant n > 0 ==> if Zeros(n) < |digits| then first == Zeros(n) + 1 else first == 16
    {
      TenIs(10 - |digits|);
      HighNext(n, |digits|);
      ZerosDigits(n, |digits|);
      // the lowest digit goes
      var tmp := num / 10;
      num := num - tmp * 10;
      digits := digits + [DigitChar(num)];
      // the lowest digit that matters
      if first == 16 && num > 0 {
        first := |digits|;
      }
      num := tmp;
    }
    if n > 0 {
      ZerosAre(n);
      HighIsZero(n, |digits|, Zeros(n));
    }
  }

  lemma HighStart(n: nat)
    ensures High(n, 0) == n
  {
  }

  lemma HighNext(n: nat, k: nat)
    ensures High(n, k + 1) == High(n, k) / 10 && DigitAt(n, k) == High(n, k) % 10
  {
  }

  lemma TenIs(k: nat)
    ensures Ten(k) == if k == 0 then 1 else 10 * Ten(k - 1)
  {
  }

  lemma {:induction false} HighIsZero(n: nat, j: nat, k: nat)
    requires High(n, j) == 0
    ensures j <= k ==> High(n, k) == 0 && DigitAt(n, k) == 0
  {
    if j < k {
      HighIsZero(n, j, k - 1);
    }
  }

  // png_ascii_from_fixed; nothing if the buffer is too small
  method AsciiFromFixed(size: nat, fp: int) returns (ascii: Option<string>)
    requires -TWO31 <= fp < TWO31
    ensures ascii.Some? <==> size > 12
    ensures ascii.Some? ==>
      var s := ascii.value;
      |s| <= 12 && '\0' !in s && (s != [] && s[0] == '-' <==> fp < 0) &&
      IsSigned(s) && Number(s) == fp && IsShortest(s) &&
      Accepts(s).Some? && (Accepts(s).value.negative <==> fp < 0) && (Accepts(s).value.nonzero <==> fp != 0)
    ensures ascii.Some? ==> ascii.value == Ascii(fp)
  {
    hide Text, IntText, FracText, High, DigitAt, Zeros, IsSigned, Number, IsShortest, Accepts;
    if size <= 12 {
      return None;
    }
    var sign, num := "", fp;
    if fp < 0 {
      sign, num := "-", -fp;
    }
    var digits, first := SplitDigits(num);
    var text := "0";
    if |digits| > 0 {
      text := WriteDigits(num, digits, first);
    } else {
      ZeroText();
    }
    assert "" + text == text;
    ascii := Some(sign + text);
    AsciiSays(fp);
  }

  lemma ZeroText()
    ensures Text(0) == "0"
  {
  }

  method WriteDigits(n: nat, digits: seq<char>, first: nat) returns (text: string)
    requires n > 0 && High(n, |digits|) == 0 && 0 < first == Zeros(n) + 1 <= |digits|
    requires forall k :: 0 <= k < |digits| ==> digits[k] == DigitChar(DigitAt(n, k)) && High(n, k) > 0
    ensures text == Text(n)
  {
    hide Zeros, FracText, IntText, High;
    text := WriteInteger(n, digits);
    // five digits stand behind the dot, up to the last one that matters
    if first <= 5 {
      var fraction := WriteFraction(n, digits, first);
      text := text + ("." + fraction);
    }
  }

  method WriteInteger(n: nat, digits: seq<char>) returns (text: string)
    requires High(n, |digits|) == 0
    requires forall k :: 0 <= k < |digits| ==> digits[k] == DigitChar(DigitAt(n, k)) && High(n, k) > 0
    ensures text == IntText(High(n, 5))
  {
    hide IntText, High;
    var ndigits := |digits|;
    text := "";
    IntStep(n, ndigits);
    while ndigits > 5
      invariant (ndigits >= 5 || ndigits == |digits|) && ndigits <= |digits|
      invariant text == IntText(High(n, ndigits))
    {
      ndigits := ndigits - 1;
      IntStep(n, ndigits);
      text := text + [digits[ndigits]];
    }
    HighIsZero(n, |digits|, 5);
    IntStep(n, 5);
  }

  method WriteFraction(n: nat, digits: seq<char>, first: nat) returns (text: string)
    requires High(n, |digits|) == 0 && 0 < first <= 5 && first <= |digits|
    requires forall k :: 0 <= k < |digits| ==> digits[k] == DigitChar(DigitAt(n, k))
    ensures text == FracText(n, first - 1)
  {
    hide FracText, High;
    var ndigits, i := if |digits| > 5 then 5 else |digits|, 5;
    text := "";
    FracStep(n, 5);
    // leading zeros, then the digits down to first
    while ndigits < i
      invariant ndigits <= i <= 5 && text == FracText(n, i)
    {
      i := i - 1;
      HighIsZero(n, |digits|, i);
      FracStep(n, i);
      text := text + "0";
    }
    while ndigits >= first
      invariant first <= ndigits + 1 && ndigits <= 5 && ndigits <= |digits| && text == FracText(n, ndigits)
    {
      ndigits := ndigits - 1;
      FracStep(n, ndigits);
      text := text + [digits[ndigits]];
    }
  }

  lemma IntStep(n: nat, k: nat)
    ensures High(n, k) == 0 ==> IntText(High(n, k)) == []
    ensures High(n, k) > 0 ==> IntText(High(n, k)) == IntText(High(n, k + 1)) + [DigitChar(DigitAt(n, k))]
  {
  }

  lemma FracStep(n: nat, k: nat)
    requires k <= 5
    ensures FracText(n, k) == if k == 5 then [] else FracText(n, k + 1) + [DigitChar(DigitAt(n, k))]
  {
  }
}
