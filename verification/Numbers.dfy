/** Decimal printing (`std::to_string`) and reading (`std::stoul`). */
module Numbers {
  import opened Ascii
  import opened Text
  import opened Wrappers

  function DigitChar(d: nat): (c: char)
    requires d < 10
    ensures IsDigit(c)
  {
    ('0' as int + d) as char
  }

  /** `std::to_string`, and `<<` of an `unsigned int`. */
  function Decimal(n: nat): (s: string)
    ensures s != "" && AllIn(s, Digits)
  {
    if n < 10 then [DigitChar(n)] else Decimal(n / 10) + [DigitChar(n % 10)]
  }

  function Value(s: string): nat
    requires AllIn(s, Digits)
  {
    if s == "" then 0 else
      var last := |s| - 1;
      assert AllIn(s[..last], Digits);
      10 * Value(s[..last]) + (s[last] as int - '0' as int)
  }

  /** `std::stoul`: skips white space, takes an optional sign and the longest run of digits.
      No digits is `invalid_argument`, a magnitude beyond 64 bits is `out_of_range`, both
      `None` here; a minus sign negates modulo 2^64. */
  function Stoul(s: string): (r: Option<nat>)
    ensures r.Some? ==> r.value < TWO_TO_THE_64
  {
    var t := SkipSpace(s);
    var negative := t != "" && t[0] == '-';
    var u := if t != "" && (t[0] == '-' || t[0] == '+') then t[1..] else t;
    SpanIs(u, Digits);
    var magnitude := Value(u[..Span(u, Digits)]);
    if Span(u, Digits) == 0 || magnitude >= TWO_TO_THE_64 then None
    else if negative then Some((TWO_TO_THE_64 - magnitude) % TWO_TO_THE_64)
    else Some(magnitude)
  }

  lemma {:induction false} ValueOfDecimal(n: nat)
    ensures Value(Decimal(n)) == n
  {
    if n >= 10 {
      ValueOfDecimal(n / 10);
      var s := Decimal(n);
      assert s[..|s| - 1] == Decimal(n / 10);
    }
  }

  /** Reading a printed number gives it back, whatever follows its digits, up to 64 bits. */
  lemma StoulOfDecimal(n: nat, tail: string)
    requires tail == "" || !IsDigit(tail[0])
    ensures Stoul(Decimal(n) + tail) == if n < TWO_TO_THE_64 then Some(n) else None
  {
    var digits := Decimal(n);
    var s := digits + tail;
    assert s[0] == digits[0] && IsDigit(digits[0]);
    SpanUnique(s, Space, 0);
    assert SkipSpace(s) == s;
    assert s[..|digits|] == digits;
    SpanUnique(s, Digits, |digits|);
    ValueOfDecimal(n);
  }

  lemma StoulOfPrinted(s: string, n: nat)
    requires s == Decimal(n) && n < TWO_TO_THE_64
    ensures Stoul(s) == Some(n)
  {
    StoulOfDecimal(n, "");
    assert s + "" == s;
  }

  /** The digits of a number, from the first to the last. */
  lemma DecimalDigits(n: nat, d: nat)
    requires d < 10
    ensures Decimal(d) == ["0123456789"[d]]
    ensures n > 0 ==> Decimal(10 * n + d) == Decimal(n) + ["0123456789"[d]]
  {
    DigitIs(d);
  }

  lemma DigitIs(d: nat)
    requires d < 10
    ensures DigitChar(d) == "0123456789"[d]
  {
  }

  /** Zeros in front do not count. */
  lemma {:induction false} LeadingZero(s: string)
    requires AllIn(s, Digits)
    ensures AllIn("0" + s, Digits) && Value("0" + s) == Value(s)
  {
    var z := "0" + s;
    assert AllIn(z, Digits);
    if s != "" {
      var last := |s| - 1;
      assert AllIn(s[..last], Digits);
      LeadingZero(s[..last]);
      assert z[..|z| - 1] == "0" + s[..last];
    } else {
      assert z == "0" && z[..0] == "";
    }
  }

  /** What `std::stoul` makes of any text: white space, a sign, digits and whatever follows. */
  lemma {:induction false} StoulIs(blank: string, sign: string, digits: string, tail: string)
    requires AllIn(blank, Space) && sign in {"", "+", "-"} && AllIn(digits, Digits)
    requires tail == "" || !IsDigit(tail[0])
    requires digits == "" && sign == "" ==> tail == "" || !(IsSpace(tail[0]) || tail[0] == '+' || tail[0] == '-')
    ensures Stoul(blank + (sign + (digits + tail)))
         == if digits == "" || Value(digits) >= 18446744073709551616 then None
            else if sign == "-" && Value(digits) != 0 then Some(18446744073709551616 - Value(digits))
            else Some(Value(digits))
  {
    var u := digits + tail;
    var t := sign + u;
    LeadingClass(blank, t, Space);
    LeadingClass(digits, tail, Digits);
    assert SkipSpace(blank + t) == t;
    assert digits != "" ==> InClass(digits[0], Digits);
    assert u[..|digits|] == digits;
    SignedStoul(blank + t, sign, digits, u);
  }

  /** The definition once more, on what the sign and the digits were found to be. */
  lemma SignedStoul(s: string, sign: string, digits: string, u: string)
    requires sign in {"", "+", "-"} && AllIn(digits, Digits)
    requires SkipSpace(s) == sign + u
    requires sign == "" && u != "" ==> u[0] != '+' && u[0] != '-'
    requires Span(u, Digits) == |digits| && u[..|digits|] == digits
    ensures Stoul(s)
         == if digits == "" || Value(digits) >= 18446744073709551616 then None
            else if sign == "-" && Value(digits) != 0 then Some(18446744073709551616 - Value(digits))
            else Some(Value(digits))
  {
    assert sign != "" ==> (sign + u)[0] == sign[0] && (sign + u)[1..] == u;
    assert sign == "" ==> sign + u == u;
  }

  lemma LeadingClass(a: string, b: string, k: CharClass)
    requires AllIn(a, k) && (b == "" || !InClass(b[0], k))
    ensures Span(a + b, k) == |a| && (a + b)[|a|..] == b
  {
    assert (a + b)[..|a|] == a;
    SpanUnique(a + b, k, |a|);
  }
}
