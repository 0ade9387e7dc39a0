// png_check_fp_number and png_check_fp_string: the scanner for decimal numbers in ASCII.
module PngFpNumber {
  import opened Wrappers

  datatype Part = Integer | Fraction | Exponent

  // the PNG_FP state: the part of the number, what was seen in it, and three flags that stay
  datatype State = State(part: Part, sawSign: bool, sawDigit: bool, sawDot: bool, sawE: bool,
                         wasValid: bool, negative: bool, nonzero: bool)

  const START := State(Integer, false, false, false, false, false, false, false)

  predicate IsDigit(c: char)
  {
    '0' <= c <= '9'
  }

  predicate IsSign(c: char)
  {
    c == '+' || c == '-'
  }

  // png_fp_set: a new part; only the flags stay
  function Enter(s: State, part: Part, dot: bool): State
  {
    State(part, false, false, dot, false, s.wasValid, s.negative, s.nonzero)
  }

  function AddDigit(s: State, c: char): State
  {
    s.(sawDigit := true, wasValid := true, nonzero := s.nonzero || c != '0')
  }

  // one character, or the end of the number
  function Next(s: State, c: char): Option<State>
  {
    match s.part
    case Integer =>
      if IsSign(c) then
        if s.sawSign || s.sawDigit || s.sawDot || s.sawE then None
        else Some(s.(sawSign := true, negative := s.negative || c == '-'))
      else if c == '.' then
        if s.sawDot then None
        else if s.sawDigit then Some(s.(sawDot := true))
        else Some(Enter(s, Fraction, true))
      else if IsDigit(c) then Some(AddDigit(if s.sawDot then Enter(s, Fraction, true) else s, c))
      else if c == 'E' || c == 'e' then if s.sawDigit then Some(Enter(s, Exponent, false)) else None
      else None
    case Fraction =>
      if IsDigit(c) then Some(AddDigit(s, c))
      else if c == 'E' || c == 'e' then if s.sawDigit then Some(Enter(s, Exponent, false)) else None
      else None
    case Exponent =>
      if IsSign(c) then
        if s.sawSign || s.sawDigit || s.sawDot || s.sawE then None else Some(s.(sawSign := true))
      else if IsDigit(c) then Some(s.(sawDigit := true, wasValid := true))
      else None
  }

  // where the number ends, and in which state
  function Scan(str: string, i: nat, s: State): (r: (nat, State))
    requires i <= |str|
    ensures i <= r.0 <= |str|
    decreases |str| - i
  {
    if i == |str| || Next(s, str[i]).None? then (i, s) else Scan(str, i + 1, Next(s, str[i]).value)
  }

  method CheckFpNumber(str: string, state: State, whereami: nat) returns (ok: bool, statep: State, end: nat)
    requires whereami <= |str|
    ensures (end, statep) == Scan(str, whereami, state) && ok == statep.sawDigit
  {
    statep, end := state, whereami;
    while end < |str|
      invariant whereami <= end <= |str| && Scan(str, end, statep) == Scan(str, whereami, state)
    {
      var next := Next(statep, str[end]);
      if next.None? {
        break;
      }
      statep, end := next.value, end + 1;
    }
    ok := statep.sawDigit;
  }

  // the state, or nothing if the string is not a number
  function Accepts(str: string): Option<State>
  {
    var (end, s) := Scan(str, 0, START);
    if s.sawDigit && (end == |str| || str[end] == '\0') then Some(s) else None
  }

  method CheckFpString(str: string) returns (r: Option<State>)
    ensures r == Accepts(str)
  {
    var ok, state, end := CheckFpNumber(str, START, 0);
    if ok && (end == |str| || str[end] == '\0') {
      return Some(state);
    }
    r := None;
  }

  // ---------- the numbers that are accepted ----------

  // the end of the digits that start at i
  function DigitsEnd(str: string, i: nat): (j: nat)
    requires i <= |str|
    ensures i <= j <= |str| && forall k :: i <= k < j ==> IsDigit(str[k])
    ensures j < |str| ==> !IsDigit(str[j])
    decreases |str| - i
  {
    if i < |str| && IsDigit(str[i]) then DigitsEnd(str, i + 1) else i
  }

  function SignEnd(str: string, i: nat): (j: nat)
    requires i <= |str|
    ensures i <= j <= |str|
  {
    if i < |str| && IsSign(str[i]) then i + 1 else i
  }

  // the end of digits with at most one dot in, before or behind them
  function MantissaEnd(str: string, i: nat): (j: nat)
    requires i <= |str|
    ensures i <= j <= |str|
  {
    var j := DigitsEnd(str, i);
    if j < |str| && str[j] == '.' then DigitsEnd(str, j + 1) else j
  }

  // is there a digit between i and j?
  predicate HasDigit(str: string, i: nat, j: nat)
    requires j <= |str|
  {
    exists k :: i <= k < j && IsDigit(str[k])
  }

  // An optional sign, digits with at most one dot among them, of which there is at least one, and
  // an optional exponent with an optional sign and at least one digit.
  predicate IsNumber(str: string)
  {
    var m := SignEnd(str, 0);
    var e := MantissaEnd(str, m);
    HasDigit(str, m, e) &&
    (e < |str| ==>
       (str[e] == 'E' || str[e] == 'e') &&
       var d := SignEnd(str, e + 1);
       d < |str| && DigitsEnd(str, d) == |str|)
  }

  // is there a digit other than 0 between i and j?
  predicate HasNonzero(str: string, i: nat, j: nat)
    requires j <= |str|
  {
    exists k :: i <= k < j && '1' <= str[k] <= '9'
  }

  lemma {:induction false} ScanDigits(str: string, i: nat, s: State) returns (s': State)
    requires i <= |str| && !(s.part.Integer? && s.sawDot)
    ensures Scan(str, i, s) == Scan(str, DigitsEnd(str, i), s')
    ensures s'.part == s.part && s'.sawDot == s.sawDot && s'.sawE == s.sawE && s'.sawSign == s.sawSign
    ensures s'.sawDigit == (s.sawDigit || DigitsEnd(str, i) > i) && s'.negative == s.negative
    ensures s'.nonzero == (s.nonzero || (!s.part.Exponent? && HasNonzero(str, i, DigitsEnd(str, i))))
    decreases |str| - i
  {
    hide HasNonzero, Next;
    s' := s;
    MoreNonzero(str, i, DigitsEnd(str, i));
    if i < |str| && IsDigit(str[i]) {
      DigitStep(s, str[i]);
      s' := ScanDigits(str, i + 1, Next(s, str[i]).value);
    }
  }

  // a digit does not change the part, except behind the dot of an integer
  lemma DigitStep(s: State, c: char)
    requires IsDigit(c) && !(s.part.Integer? && s.sawDot)
    ensures Next(s, c) ==
      Some(s.(sawDigit := true, wasValid := true, nonzero := s.nonzero || (!s.part.Exponent? && '1' <= c <= '9')))
  {
  }

  lemma MoreNonzero(str: string, i: nat, j: nat)
    requires j <= |str|
    ensures HasNonzero(str, i, j) <==> i < j && ('1' <= str[i] <= '9' || HasNonzero(str, i + 1, j))
  {
    if i < j && '1' <= str[i] <= '9' {
      assert HasNonzero(str, i, j);
    }
  }

  // the fraction, and the exponent behind it
  lemma ScanFraction(str: string, i: nat, s: State) returns (s': State)
    requires i <= |str| && s.part.Fraction?
    ensures s'.part.Fraction? && s'.sawDigit == (s.sawDigit || DigitsEnd(str, i) > i) && s'.negative == s.negative
    ensures s'.nonzero == (s.nonzero || HasNonzero(str, i, DigitsEnd(str, i)))
    ensures Scan(str, i, s) == Scan(str, DigitsEnd(str, i), s')
  {
    s' := ScanDigits(str, i, s);
  }

  // a whole exponent, and nothing behind it
  lemma ScanExponent(str: string, i: nat, s: State)
    requires i <= |str| && s == Enter(s, Exponent, false)
    ensures var (end, s') := Scan(str, i, s);
      (s'.sawDigit && end == |str| <==> SignEnd(str, i) < |str| && DigitsEnd(str, SignEnd(str, i)) == |str|) &&
      s'.nonzero == s.nonzero && s'.negative == s.negative
  {
    var j := SignEnd(str, i);
    var s1 := if j > i then Next(s, str[i]).value else s;
    assert Scan(str, i, s) == Scan(str, j, s1);
    var s2 := ScanDigits(str, j, s1);
    var k := DigitsEnd(str, j);
    if k < |str| && k > j {
      assert Next(s2, str[k]).None?;
    }
  }

  // what may come behind the mantissa
  predicate AtExponent(str: string, e: nat, s: State)
  {
    e < |str| ==>
      Next(s, str[e]) ==
      if (str[e] == 'E' || str[e] == 'e') && s.sawDigit then Some(Enter(s, Exponent, false)) else None
  }

  // the dot of the number, and the digits behind it
  lemma ScanDot(str: string, j: nat, s: State) returns (s': State)
    requires j < |str| && str[j] == '.' && s.part.Integer? && !s.sawDot && !s.sawE
    ensures var e := DigitsEnd(str, j + 1);
      Scan(str, j, s) == Scan(str, e, s') && s'.sawDigit == (s.sawDigit || e > j + 1) &&
      s'.nonzero == (s.nonzero || HasNonzero(str, j + 1, e)) && s'.negative == s.negative && AtExponent(str, e, s')
  {
    hide HasNonzero;
    s' := Next(s, '.').value;
    assert Scan(str, j, s) == Scan(str, j + 1, s');
    MoreNonzero(str, j + 1, DigitsEnd(str, j + 1));
    if s.sawDigit && j + 1 < |str| && IsDigit(str[j + 1]) {
      s' := ScanFraction(str, j + 2, Next(s', str[j + 1]).value);
    } else if !s.sawDigit {
      s' := ScanFraction(str, j + 1, s');
    }
  }

  // the number before its exponent
  lemma ScanMantissa(str: string, i: nat, s: State) returns (s': State)
    requires i <= |str| && s.part.Integer? && !s.sawDigit && !s.sawDot && !s.sawE
    requires i < |str| && IsSign(str[i]) ==> s.sawSign
    ensures s'.negative == s.negative && s'.nonzero == (s.nonzero || HasNonzero(str, i, MantissaEnd(str, i)))
    ensures var e := MantissaEnd(str, i);
      Scan(str, i, s) == Scan(str, e, s') && s'.sawDigit == HasDigit(str, i, e) && AtExponent(str, e, s')
  {
    hide HasNonzero, Scan;
    s' := ScanDigits(str, i, s);
    var j := DigitsEnd(str, i);
    assert j > i ==> IsDigit(str[i]);
    if j < |str| && str[j] == '.' {
      s' := ScanDot(str, j, s');
      var e := DigitsEnd(str, j + 1);
      SkipDot(str, i, j, e);
      assert e > j + 1 ==> IsDigit(str[j + 1]);
    }
  }

  lemma SkipDot(str: string, i: nat, j: nat, k: nat)
    requires i <= j < k <= |str| && str[j] == '.'
    ensures HasNonzero(str, i, k) <==> HasNonzero(str, i, j) || HasNonzero(str, j + 1, k)
  {
  }

  // The scanner accepts exactly these numbers, and tells the negative ones and those that are not
  // zero; the digits of the exponent do not count.
  lemma AcceptsNumbers(str: string)
    ensures var (end, s) := Scan(str, 0, START);
      (s.sawDigit && end == |str| <==> IsNumber(str)) &&
      (s.negative <==> str != [] && str[0] == '-') &&
      (s.nonzero <==> HasNonzero(str, SignEnd(str, 0), MantissaEnd(str, SignEnd(str, 0))))
  {
    var m := SignEnd(str, 0);
    var s1 := if m > 0 then Next(START, str[0]).value else START;
    assert Scan(str, 0, START) == Scan(str, m, s1);
    var s2 := ScanMantissa(str, m, s1);
    var e := MantissaEnd(str, m);
    if e < |str| && Next(s2, str[e]).Some? {
      ScanExponent(str, e + 1, Next(s2, str[e]).value);
    }
  }

  // ---------- strings that end with a NUL ----------

  // the text before the first NUL
  function CString(str: string): (t: string)
    ensures t <= str && '\0' !in t && (|t| < |str| ==> str[|t|] == '\0')
  {
    if str == [] || str[0] == '\0' then [] else [str[0]] + CString(str[1..])
  }

  lemma {:induction false} ScanInText(str: string, i: nat, s: State)
    requires i <= |CString(str)|
    ensures Scan(str, i, s) == Scan(CString(str), i, s)
    decreases |str| - i
  {
    var t := CString(str);
    if i < |t| {
      assert str[i] == t[i];
      if Next(s, str[i]).Some? {
        ScanInText(str, i + 1, Next(s, str[i]).value);
      }
    }
  }

  // png_check_fp_string succeeds exactly when the text up to the NUL is a number.
  lemma FpStringIsNumber(str: string)
    ensures Accepts(str).Some? <==> IsNumber(CString(str))
  {
    hide IsNumber, Scan;
    var t := CString(str);
    ScanInText(str, 0, START);
    AcceptsNumbers(t);
    var end := Scan(t, 0, START).0;
    assert end < |t| ==> str[end] == t[end];
  }
}
