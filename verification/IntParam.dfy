/** Integer path parameters: `std::stoll`, the full-consumption check, and the narrowing cast. */
module IntParam {
  import opened Wrappers
  import opened Decimal

  datatype IntShape = Signed(bits: nat) | Unsigned(bits: nat)

  /** An integral target type other than `bool`, no wider than `long long`. */
  type IntType = t: IntShape | 1 <= t.bits <= 64 witness Signed(32)

  const LONG_LONG: IntType := Signed(64)

  function Pow2(n: nat): (p: nat)
    ensures p >= 1
  {
    if n == 0 then 1 else 2 * Pow2(n - 1)
  }

  predicate InRange(t: IntType, v: int) {
    match t
    case Signed(bits) => 0 - Pow2(bits - 1) <= v < Pow2(bits - 1)
    case Unsigned(bits) => 0 <= v < Pow2(bits)
  }

  /** `static_cast<T>`: reduction modulo 2^bits into the type's range. */
  function Cast(t: IntType, v: int): int {
    var m := v % Pow2(t.bits);
    if t.Signed? && m >= Pow2(t.bits - 1) then m - Pow2(t.bits) else m
  }

  predicate IsSpace(c: char) {
    c == ' ' || c == '\t' || c == '\n' || c == '\U{000B}' || c == '\U{000C}' || c == '\r'
  }

  predicate AllSpace(s: string) {
    forall i :: 0 <= i < |s| ==> IsSpace(s[i])
  }

  function SkipSpace(s: string, from: nat): (r: nat)
    requires from <= |s|
    ensures from <= r <= |s| && forall i :: from <= i < r ==> IsSpace(s[i])
    ensures r < |s| ==> !IsSpace(s[r])
    decreases |s| - from
  {
    if from < |s| && IsSpace(s[from]) then SkipSpace(s, from + 1) else from
  }

  function SkipDigits(s: string, from: nat): (r: nat)
    requires from <= |s|
    ensures from <= r <= |s| && AllDigits(s[from..r])
    ensures r < |s| ==> !IsDigit(s[r])
    decreases |s| - from
  {
    if from < |s| && IsDigit(s[from]) then SkipDigits(s, from + 1) else from
  }

  /** Where the digits should start: after white space and at most one sign. */
  function DigitsStart(s: string): (first: nat)
    ensures first <= |s|
  {
    var start := SkipSpace(s, 0);
    if start < |s| && (s[start] == '-' || s[start] == '+') then start + 1 else start
  }

  predicate Negative(s: string) {
    var start := SkipSpace(s, 0);
    start < |s| && s[start] == '-'
  }

  /** `std::stoll` in base ten: the value and how many characters it consumed. */
  function Stoll(s: string): Result<(int, nat)> {
    var first := DigitsStart(s);
    var end := SkipDigits(s, first);
    if end == first then Err(InvalidArgument("stoll"))
    else
      var magnitude := Parse(s[first..end]);
      var value: int := if Negative(s) then 0 - magnitude else magnitude;
      if InRange(LONG_LONG, value) then Ok((value, end)) else Err(OutOfRange("stoll"))
  }

  /** `IntParam<T>::parse`. */
  function ParseInt(t: IntType, s: string): Result<int> {
    match Stoll(s)
    case Err(e) => Err(e)
    case Ok((value, end)) =>
      if end != |s| then Err(InvalidArgument("Invalid integral string")) else Ok(Cast(t, value))
  }

  // ---------- the cast ----------

  lemma CastIsReduction(t: IntType, v: int)
    ensures InRange(t, Cast(t, v))
    ensures Cast(t, v) % Pow2(t.bits) == v % Pow2(t.bits)
  {
    var p := Pow2(t.bits);
    var m := v % p;
    assert p == 2 * Pow2(t.bits - 1);
    ModOfResidue(m, p);
  }

  lemma ModOfResidue(m: nat, p: nat)
    requires m < p
    ensures m % p == m && (m - p) % p == m
  {
    assert m - p == -1 * p + m;
  }

  /** A value of the target type is left alone. */
  lemma CastIsIdentity(t: IntType, v: int)
    requires InRange(t, v)
    ensures Cast(t, v) == v
  {
    var p := Pow2(t.bits);
    assert p == 2 * Pow2(t.bits - 1);
    if v < 0 {
      ModOfResidue(v + p, p);
    } else {
      ModOfResidue(v, p);
    }
  }

  // ---------- the accepted strings ----------

  /** Optional white space, an optional sign, one or more digits, and nothing else. */
  predicate Numeral(s: string, space: string, sign: string, digits: string) {
    && s == space + sign + digits
    && AllSpace(space) && AllDigits(digits) && digits != ""
    && (sign == "" || sign == "+" || sign == "-")
  }

  function NumeralValue(sign: string, digits: string): int
    requires AllDigits(digits)
  {
    if sign == "-" then 0 - Parse(digits) else Parse(digits)
  }

  lemma SkipSpaceOf(s: string, space: string, rest: string)
    requires s == space + rest && AllSpace(space) && (rest != "" ==> !IsSpace(rest[0]))
    ensures SkipSpace(s, 0) == |space|
  {
    assert forall i :: 0 <= i < |space| ==> s[i] == space[i];
    if rest != "" {
      assert s[|space|] == rest[0];
    }
  }

  lemma SkipDigitsOf(s: string, from: nat)
    requires from <= |s| && AllDigits(s[from..])
    ensures SkipDigits(s, from) == |s|
  {
    assert forall i :: from <= i < |s| ==> s[i] == s[from..][i - from];
  }

  lemma NumeralShape(s: string, space: string, sign: string, digits: string)
    requires Numeral(s, space, sign, digits)
    ensures DigitsStart(s) == |space| + |sign|
    ensures s[|space| + |sign|..] == digits
    ensures Negative(s) <==> sign == "-"
  {
    var rest := sign + digits;
    assert s == space + rest;
    assert sign == "" ==> rest == digits && IsDigit(digits[0]);
    assert sign != "" ==> rest[0] == sign[0];
    SkipSpaceOf(s, space, rest);
    assert s[|space|] == rest[0];
  }

  lemma StollOfNumeral(s: string, space: string, sign: string, digits: string)
    requires Numeral(s, space, sign, digits)
    ensures var v := NumeralValue(sign, digits);
            Stoll(s) == if InRange(LONG_LONG, v) then Ok((v, |s|)) else Err(OutOfRange("stoll"))
  {
    NumeralShape(s, space, sign, digits);
    var first := DigitsStart(s);
    SkipDigitsOf(s, first);
    assert s[first..|s|] == s[first..];
  }

  /**
    Which strings are accepted, and as what. A numeral whose value fits 64 bits gives that value
    reduced into the target type; every other string is refused.
   */
  lemma ParseNumeral(t: IntType, s: string, space: string, sign: string, digits: string)
    requires Numeral(s, space, sign, digits)
    ensures var v := NumeralValue(sign, digits);
            ParseInt(t, s) == if InRange(LONG_LONG, v) then Ok(Cast(t, v)) else Err(OutOfRange("stoll"))
  {
    StollOfNumeral(s, space, sign, digits);
  }

  lemma ConsumedIsNumeral(s: string) returns (space: string, sign: string, digits: string)
    requires DigitsStart(s) < |s| && SkipDigits(s, DigitsStart(s)) == |s|
    ensures Numeral(s, space, sign, digits)
  {
    var start, first := SkipSpace(s, 0), DigitsStart(s);
    space, sign, digits := s[..start], s[start..first], s[first..];
    assert s[first..|s|] == digits;
    assert sign == if first == start then "" else [s[start]];
  }

  lemma AcceptedIsNumeral(t: IntType, s: string) returns (space: string, sign: string, digits: string)
    requires ParseInt(t, s).Ok?
    ensures Numeral(s, space, sign, digits) && InRange(LONG_LONG, NumeralValue(sign, digits))
    ensures forall c | c in space :: c in {' ', '\t', '\n', '\U{000B}', '\U{000C}', '\r'}
    ensures forall c | c in digits :: '0' <= c <= '9'
  {
    space, sign, digits := ConsumedIsNumeral(s);
    StollOfNumeral(s, space, sign, digits);
  }

  /** A string in which no digit follows the white space and the sign is refused by `std::stoll`. */
  lemma RefusedWithoutDigits(t: IntType, s: string, space: string, sign: string, rest: string)
    requires s == space + sign + rest && (sign == "" || sign == "+" || sign == "-")
    requires forall c | c in space :: c in {' ', '\t', '\n', '\U{000B}', '\U{000C}', '\r'}
    requires rest != "" ==> !('0' <= rest[0] <= '9')
    requires rest != "" && sign == "" ==>
               rest[0] !in {' ', '\t', '\n', '\U{000B}', '\U{000C}', '\r', '+', '-'}
    ensures ParseInt(t, s) == Err(InvalidArgument("stoll"))
  {
    forall i | 0 <= i < |space|
      ensures IsSpace(space[i])
    {
      assert space[i] in space;
    }
    StartAfter(s, space, sign, rest);
    assert rest != "" ==> s[|space| + |sign|] == rest[0];
  }

  lemma StartAfter(s: string, space: string, sign: string, rest: string)
    requires s == space + sign + rest && AllSpace(space) && (sign == "" || sign == "+" || sign == "-")
    requires rest != "" && sign == "" ==> !IsSpace(rest[0]) && rest[0] != '+' && rest[0] != '-'
    ensures DigitsStart(s) == |space| + |sign|
  {
    var tail := sign + rest;
    assert s == space + tail;
    assert sign == "" ==> tail == rest;
    assert sign != "" ==> tail[0] == sign[0];
    SkipSpaceOf(s, space, tail);
    assert tail != "" ==> s[|space|] == tail[0];
  }

  /** A numeral with anything but a digit after it is refused: out of range, or not consumed to the end. */
  lemma RefusedWithRest(t: IntType, s: string, space: string, sign: string, digits: string, rest: string)
    requires Numeral(space + sign + digits, space, sign, digits) && s == space + sign + digits + rest
    requires rest != "" && !('0' <= rest[0] <= '9')
    ensures ParseInt(t, s) == Err(if InRange(LONG_LONG, NumeralValue(sign, digits))
                                  then InvalidArgument("Invalid integral string") else OutOfRange("stoll"))
  {
    hide Parse, Pow2, SkipSpace, SkipDigits, DigitsStart, Negative;
    var first, end := |space| + |sign|, |space| + |sign| + |digits|;
    assert s[first..end] == digits && s[end] == rest[0];
    assert s == space + sign + (digits + rest);
    assert (digits + rest)[0] == digits[0] && IsDigit(digits[0]);
    StartAfter(s, space, sign, digits + rest);
    SignOf(s, space, sign, digits + rest);
    DigitsEnd(s, first, end);
  }

  lemma SignOf(s: string, space: string, sign: string, rest: string)
    requires s == space + sign + rest && AllSpace(space) && (sign == "" || sign == "+" || sign == "-")
    requires rest != "" && IsDigit(rest[0])
    ensures Negative(s) <==> sign == "-"
  {
    var tail := sign + rest;
    assert s == space + tail;
    assert tail[0] == if sign == "" then rest[0] else sign[0];
    SkipSpaceOf(s, space, tail);
    assert s[|space|] == tail[0];
  }

  lemma DigitsEnd(s: string, first: nat, end: nat)
    requires first <= end < |s| && AllDigits(s[first..end]) && !IsDigit(s[end])
    ensures SkipDigits(s, first) == end
  {
    var r := SkipDigits(s, first);
    forall i | first <= i < |s|
      ensures i < end ==> IsDigit(s[i])
      ensures i < r ==> IsDigit(s[i])
    {
      assert i < end ==> s[i] == s[first..end][i - first];
      assert i < r ==> s[i] == s[first..r][i - first];
    }
  }

  /**
    An accepted numeral keeps its value exactly when it fits the target type and 64 signed bits;
    any other one that fits 64 bits is accepted as something else.
   */
  lemma ValueIsKeptIff(t: IntType, s: string, space: string, sign: string, digits: string)
    requires Numeral(s, space, sign, digits)
    ensures var v := NumeralValue(sign, digits);
            ParseInt(t, s) == Ok(v) <==> InRange(t, v) && InRange(LONG_LONG, v)
  {
    var v := NumeralValue(sign, digits);
    ParseNumeral(t, s, space, sign, digits);
    CastIsReduction(t, v);
    if InRange(t, v) {
      CastIsIdentity(t, v);
    }
  }

  /** The ranges of the fixed-width types. */
  lemma FixedWidths(v: int)
    ensures InRange(Signed(8), v) <==> -0x80 <= v < 0x80
    ensures InRange(Unsigned(8), v) <==> 0 <= v < 0x100
    ensures InRange(Signed(16), v) <==> -0x8000 <= v < 0x8000
    ensures InRange(Unsigned(16), v) <==> 0 <= v < 0x1_0000
    ensures InRange(Signed(32), v) <==> -0x8000_0000 <= v < 0x8000_0000
    ensures InRange(Unsigned(32), v) <==> 0 <= v < 0x1_0000_0000
    ensures InRange(LONG_LONG, v) <==> -0x8000_0000_0000_0000 <= v < 0x8000_0000_0000_0000
    ensures InRange(Unsigned(64), v) <==> 0 <= v < 0x1_0000_0000_0000_0000
  {
    hide Pow2;
    PowersOfTwo();
  }

  lemma PowersOfTwo()
    ensures Pow2(7) == 0x80 && Pow2(8) == 0x100 && Pow2(15) == 0x8000 && Pow2(16) == 0x1_0000
    ensures Pow2(31) == 0x8000_0000 && Pow2(32) == 0x1_0000_0000
    ensures Pow2(63) == 0x8000_0000_0000_0000 && Pow2(64) == 0x1_0000_0000_0000_0000
  {
    hide Pow2;
    SevenBits();
    Pow2Add(7, 8);
    Doubling(16);
    Pow2Add(15, 16);
    Doubling(32);
    Pow2Add(31, 32);
    Doubling(64);
  }

  lemma SevenBits()
    ensures Pow2(7) == 0x80 && Pow2(8) == 0x100
  {
    assert Pow2(2) == 4;
    assert Pow2(4) == 16;
    assert Pow2(6) == 64;
  }

  lemma {:induction false} Pow2Add(m: nat, n: nat)
    ensures Pow2(m + n) == Pow2(m) * Pow2(n)
  {
    if m > 0 {
      Pow2Add(m - 1, n);
      assert Pow2(m + n) == 2 * Pow2(m - 1 + n);
      assert 2 * (Pow2(m - 1) * Pow2(n)) == 2 * Pow2(m - 1) * Pow2(n);
    }
  }

  lemma DigitsOfThreeHundred()
    ensures AllDigits("300") && Parse("300") == 300
  {
    assert "3"[..0] == "" && "30"[..1] == "3" && "300"[..2] == "30";
    assert Parse("3") == 3;
    assert Parse("30") == 30;
  }

  /** An 8-bit parameter reads `300` as 44. */
  lemma NarrowParameterWraps()
    ensures Numeral("300", "", "", "300") && NumeralValue("", "300") == 300
    ensures !InRange(Signed(8), 300) && ParseInt(Signed(8), "300") == Ok(44)
  {
    hide Pow2, Parse;
    DigitsOfThreeHundred();
    PowersOfTwo();
    assert "300" == "" + "" + "300";
    ParseNumeral(Signed(8), "300", "", "", "300");
  }

  /**
    Round trip: printing any value of the target type in decimal and parsing it gives the value
    back, exactly when the value fits 64 signed bits. Only 64-bit unsigned targets have others.
   */
  lemma ParsePrintSigned(t: IntType, v: int)
    requires InRange(t, v)
    ensures ParseInt(t, PrintSigned(v)) == Ok(v) <==> InRange(LONG_LONG, v)
    ensures !InRange(LONG_LONG, v) <==> t == Unsigned(64) && v >= Pow2(63)
  {
    var s := PrintSigned(v);
    ParsePrint(if v < 0 then -v else v);
    if v < 0 {
      assert s == "" + "-" + Print(-v);
      ParseNumeral(t, s, "", "-", Print(-v));
    } else {
      assert s == "" + "" + Print(v);
      ParseNumeral(t, s, "", "", Print(v));
    }
    CastIsIdentity(t, v);
    NarrowFitsLongLong(t, v);
  }

  /**
    Every value of the target type is received from some string: printed, or, in the upper half of a
    64-bit unsigned type, as the negative numeral that the cast takes to it.
   */
  lemma EveryValueIsReceived(t: IntType, v: int) returns (s: string)
    requires InRange(t, v)
    ensures ParseInt(t, s) == Ok(v)
    ensures InRange(LONG_LONG, v) ==> s == PrintSigned(v)
    ensures !InRange(LONG_LONG, v) ==> s == PrintSigned(v - Pow2(64))
  {
    ParsePrintSigned(t, v);
    if InRange(LONG_LONG, v) {
      s := PrintSigned(v);
    } else {
      s := PrintSigned(v - Pow2(64));
      UpperHalfIsNegative(v);
    }
  }

  lemma Doubling(n: nat)
    requires n > 0
    ensures Pow2(n) == 2 * Pow2(n - 1)
  {
  }

  lemma UpperHalfIsNegative(v: int)
    requires InRange(Unsigned(64), v) && v >= Pow2(63)
    ensures ParseInt(Unsigned(64), PrintSigned(v - Pow2(64))) == Ok(v)
  {
    hide Pow2, Print, Parse;
    Doubling(64);
    var s, m: nat := PrintSigned(v - Pow2(64)), Pow2(64) - v;
    assert s == "" + "-" + Print(m);
    ParsePrint(m);
    ParseNumeral(Unsigned(64), s, "", "-", Print(m));
    ModOfResidue(v, Pow2(64));
  }

  /** A 64-bit unsigned parameter reads `-1` as its largest value. */
  lemma MinusOneIsLargest()
    ensures ParseInt(Unsigned(64), "-1") == Ok(Pow2(64) - 1)
  {
    hide ParseInt, Pow2;
    Doubling(64);
    UpperHalfIsNegative(Pow2(64) - 1);
    assert Print(1) == "1";
    assert PrintSigned(Pow2(64) - 1 - Pow2(64)) == "-" + "1" == "-1";
  }

  lemma NarrowFitsLongLong(t: IntType, v: int)
    requires InRange(t, v)
    ensures !InRange(LONG_LONG, v) <==> t == Unsigned(64) && v >= Pow2(63)
  {
    match t
    case Signed(bits) => Pow2Monotone(bits - 1, 63);
    case Unsigned(bits) =>
      if bits < 64 {
        Pow2Monotone(bits, 63);
      }
  }

  lemma {:induction false} Pow2Monotone(m: nat, n: nat)
    requires m <= n
    ensures Pow2(m) <= Pow2(n)
  {
    if m < n {
      Pow2Monotone(m, n - 1);
    }
  }
}
