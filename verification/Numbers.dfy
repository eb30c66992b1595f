/** `std::to_string`, `std::stoi` and `std::stoull`. */
module Numbers {
  import opened Text

  const INT_MAX := 0x7fff_ffff
  const INT_MIN := -0x8000_0000
  const TWO_TO_THE_64 := 0x1_0000_0000_0000_0000

  function DigitChar(d: nat): (c: char)
    requires d < 10
    ensures Is(Digit, c) && c as int - '0' as int == d
  {
    ('0' as int + d) as char
  }

  function DigitsValue(s: string): nat
    requires All(Digit, s)
  {
    if s == "" then 0
    else DigitsValue(s[..|s| - 1]) * 10 + (s[|s| - 1] as int - '0' as int)
  }

  /** `std::to_string` of a non-negative number: canonical decimal. */
  function NatToString(n: nat): (s: string)
    ensures s != "" && All(Digit, s) && DigitsValue(s) == n
    ensures s[0] == '0' ==> s == "0"
  {
    if n < 10 then [DigitChar(n)]
    else
      var s := NatToString(n / 10) + [DigitChar(n % 10)];
      assert s[..|s| - 1] == NatToString(n / 10);
      s
  }

  function IntToString(n: int): string {
    if n < 0 then "-" + NatToString(-n) else NatToString(n)
  }

  predicate IsSigned(t: string) {
    t != "" && (t[0] == '-' || t[0] == '+')
  }

  function Unsigned(t: string): string {
    if IsSigned(t) then t[1..] else t
  }

  /** Sign and magnitude of the number `strtol` reads off the front of `s`;
      None when it finds no digit. */
  function LeadingNumber(s: string): Option<(bool, nat)> {
    var t := SkipSpace(s);
    var u := Unsigned(t);
    var n := Span(u, 0, Digit);
    if n == 0 then None else Some((IsSigned(t) && t[0] == '-', DigitsValue(u[..n])))
  }

  datatype Conversion = Converted(n: int) | InvalidArgument | OutOfRange

  function Stoi(s: string): (r: Conversion)
    ensures r.Converted? ==> INT_MIN <= r.n <= INT_MAX
  {
    match LeadingNumber(s)
    case None => InvalidArgument
    case Some((negative, magnitude)) =>
      var m: int := magnitude;
      var v := if negative then -m else m;
      if INT_MIN <= v <= INT_MAX then Converted(v) else OutOfRange
  }

  /** A minus sign negates modulo 2^64, as `strtoull` does. */
  function Stoull(s: string): (r: Conversion)
    ensures r.Converted? ==> 0 <= r.n < TWO_TO_THE_64
  {
    match LeadingNumber(s)
    case None => InvalidArgument
    case Some((negative, magnitude)) =>
      if magnitude >= TWO_TO_THE_64 then OutOfRange
      else if negative && magnitude > 0 then Converted(TWO_TO_THE_64 - magnitude)
      else Converted(magnitude)
  }

  lemma LeadingNumberOfDigits(s: string, rest: string)
    requires s != "" && All(Digit, s)
    requires rest == "" || !Is(Digit, rest[0])
    ensures LeadingNumber(s + rest) == Some((false, DigitsValue(s)))
  {
    var t := s + rest;
    SpanUnique(t, 0, Space, 0);
    assert SkipSpace(t) == t;
    assert t[..|s|] == s;
    SpanUnique(t, 0, Digit, |s|);
  }

  lemma LeadingNumberOfInt(n: int)
    ensures LeadingNumber(IntToString(n)) == Some((n < 0, if n < 0 then -n else n))
  {
    if n < 0 {
      var s := NatToString(-n);
      var t := "-" + s;
      SpanUnique(t, 0, Space, 0);
      assert SkipSpace(t) == t;
      assert t[1..] == s;
      assert s[..|s|] == s;
      SpanUnique(s, 0, Digit, |s|);
    } else {
      assert NatToString(n) + "" == NatToString(n);
      LeadingNumberOfDigits(NatToString(n), "");
    }
  }

  /** `stoi(to_string(n)) == n`. */
  lemma StoiOfToString(n: int)
    requires INT_MIN <= n <= INT_MAX
    ensures Stoi(IntToString(n)) == Converted(n)
  {
    LeadingNumberOfInt(n);
  }

  /** `stoull(to_string(n)) == n`. */
  lemma StoullOfToString(n: nat)
    requires n < TWO_TO_THE_64
    ensures Stoull(NatToString(n)) == Converted(n)
  {
    LeadingNumberOfInt(n);
  }

  // Which texts are numbers.

  /** Blanks of the C locale, a sign or none, digits, and a rest that no digit begins. */
  predicate IsNumeral(s: string, blank: string, sign: string, digits: string, rest: string) {
    && s == blank + sign + digits + rest
    && (forall i :: 0 <= i < |blank| ==> blank[i] in [' ', '\t', '\n', 11 as char, 12 as char, '\r'])
    && (sign == "" || sign == "-" || sign == "+")
    && digits != "" && (forall i :: 0 <= i < |digits| ==> '0' <= digits[i] <= '9')
    && (rest != "" ==> rest[0] < '0' || '9' < rest[0])
  }

  lemma DecimalValue(digits: string, d: char)
    requires All(Digit, digits) && '0' <= d <= '9'
    ensures DigitsValue(digits + [d]) == 10 * DigitsValue(digits) + (d as int - 48) && DigitsValue("") == 0
  {
    assert (digits + [d])[..|digits|] == digits;
  }

  lemma SignIsRead(t: string, sign: string, u: string)
    requires t == sign + u && u != "" && Is(Digit, u[0]) && (sign == "" || sign == "-" || sign == "+")
    ensures Unsigned(t) == u && !IsSpace(t[0]) && (IsSigned(t) && t[0] == '-' <==> sign == "-")
  {
    if sign != "" {
      assert t[0] == sign[0] && t[1..] == u;
    } else {
      assert t == u;
    }
  }

  lemma BlanksAreSkipped(blank: string, t: string)
    requires forall i :: 0 <= i < |blank| ==> blank[i] in [' ', '\t', '\n', 11 as char, 12 as char, '\r']
    requires t != "" && !IsSpace(t[0])
    ensures SkipSpace(blank + t) == t
  {
    SpanUnique(blank + t, 0, Space, |blank|);
    assert (blank + t)[|blank|..] == t;
  }

  lemma DigitsAreRead(digits: string, rest: string)
    requires All(Digit, digits) && (rest != "" ==> !Is(Digit, rest[0]))
    ensures Span(digits + rest, 0, Digit) == |digits| && (digits + rest)[..|digits|] == digits
  {
    SpanUnique(digits + rest, 0, Digit, |digits|);
  }

  lemma FourParts(s: string, a: string, b: string, c: string, d: string, t: string, u: string)
    requires u == c + d && t == b + u
    ensures a + t == a + b + c + d
  {}

  lemma NumeralIsRead(s: string, blank: string, sign: string, digits: string, rest: string)
    requires IsNumeral(s, blank, sign, digits, rest)
    ensures All(Digit, digits) && LeadingNumber(s) == Some((sign == "-", DigitsValue(digits)))
  {
    var u := digits + rest;
    var t := sign + u;
    FourParts(s, blank, sign, digits, rest, t, u);
    SignIsRead(t, sign, u);
    BlanksAreSkipped(blank, t);
    DigitsAreRead(digits, rest);
  }

  lemma BlankPart(s: string) returns (blank: string)
    ensures s == blank + SkipSpace(s)
    ensures forall i :: 0 <= i < |blank| ==> blank[i] in [' ', '\t', '\n', 11 as char, 12 as char, '\r']
  {
    blank := s[..Span(s, 0, Space)];
  }

  lemma SignPart(t: string) returns (sign: string)
    ensures t == sign + Unsigned(t) && (sign == "" || sign == "-" || sign == "+")
  {
    sign := if IsSigned(t) then [t[0]] else "";
  }

  lemma DigitsPart(u: string) returns (digits: string, rest: string)
    ensures u == digits + rest && |digits| == Span(u, 0, Digit)
    ensures forall i :: 0 <= i < |digits| ==> '0' <= digits[i] <= '9'
    ensures rest != "" ==> rest[0] < '0' || '9' < rest[0]
  {
    var n := Span(u, 0, Digit);
    digits, rest := u[..n], u[n..];
  }

  lemma ReadIsNumeral(s: string) returns (blank: string, sign: string, digits: string, rest: string)
    requires LeadingNumber(s).Some?
    ensures IsNumeral(s, blank, sign, digits, rest)
  {
    blank := BlankPart(s);
    sign := SignPart(SkipSpace(s));
    digits, rest := DigitsPart(Unsigned(SkipSpace(s)));
    FourParts(s, blank, sign, digits, rest, SkipSpace(s), Unsigned(SkipSpace(s)));
  }

  function Signed(sign: string, magnitude: nat): int {
    if sign == "-" then 0 - magnitude else magnitude
  }

  /** `stoi` succeeds just on the numerals of ints, whatever follows them; a text without one is no argument. */
  lemma StoiExactly(s: string)
    ensures Stoi(s) == InvalidArgument <==> !exists b, g, d, r :: IsNumeral(s, b, g, d, r)
    ensures forall b, g, d, r :: IsNumeral(s, b, g, d, r) ==>
              && All(Digit, d)
              && var n := Signed(g, DigitsValue(d));
                 Stoi(s) == if -2147483648 <= n <= 2147483647 then Converted(n) else OutOfRange
  {
    forall b, g, d, r | IsNumeral(s, b, g, d, r)
      ensures All(Digit, d) && LeadingNumber(s) == Some((g == "-", DigitsValue(d)))
    {
      NumeralIsRead(s, b, g, d, r);
    }
    if LeadingNumber(s).Some? {
      var b, g, d, r := ReadIsNumeral(s);
    }
  }

  lemma WrapsAround(sign: string, m: nat)
    requires m < 18446744073709551616
    ensures Signed(sign, m) % 18446744073709551616 == if sign == "-" && m > 0 then 18446744073709551616 - m else m
  {}

  lemma StoullOfNumeral(s: string, negative: bool, m: nat, sign: string)
    requires LeadingNumber(s) == Some((negative, m)) && negative == (sign == "-")
    ensures Stoull(s) == if m >= 18446744073709551616 then OutOfRange
                         else Converted(Signed(sign, m) % 18446744073709551616)
  {
    if m < 18446744073709551616 {
      WrapsAround(sign, m);
    }
  }

  /** `stoull` likewise, and negative numbers wrap around once. */
  lemma StoullExactly(s: string)
    ensures Stoull(s) == InvalidArgument <==> !exists b, g, d, r :: IsNumeral(s, b, g, d, r)
    ensures forall b, g, d, r :: IsNumeral(s, b, g, d, r) ==>
              && All(Digit, d)
              && var m := DigitsValue(d);
                 Stoull(s) == if m >= 18446744073709551616 then OutOfRange
                              else Converted(Signed(g, m) % 18446744073709551616)
  {
    forall b, g, d, r | IsNumeral(s, b, g, d, r)
      ensures All(Digit, d)
      ensures Stoull(s) == if DigitsValue(d) >= 18446744073709551616 then OutOfRange
                           else Converted(Signed(g, DigitsValue(d)) % 18446744073709551616)
    {
      NumeralIsRead(s, b, g, d, r);
      StoullOfNumeral(s, g == "-", DigitsValue(d), g);
    }
    if LeadingNumber(s).Some? {
      var b, g, d, r := ReadIsNumeral(s);
    }
  }
}
