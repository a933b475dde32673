/** Decimal text of 64-bit integers, as strconv.Itoa writes it and strconv.Atoi reads it. */
module Decimal {
  import opened Wrappers

  const MIN_INT := -0x8000_0000_0000_0000
  const MAX_INT := 0x7FFF_FFFF_FFFF_FFFF

  type Int64 = v: int | MIN_INT <= v <= MAX_INT

  predicate IsDigit(c: char) {
    '0' <= c <= '9'
  }

  predicate AllDigits(s: string) {
    forall i | 0 <= i < |s| :: IsDigit(s[i])
  }

  function Value(s: string): nat
    requires AllDigits(s)
  {
    if s == "" then 0 else Value(s[..|s| - 1]) * 10 + (s[|s| - 1] - '0') as nat
  }

  function Digits(n: nat): string {
    var last := ['0' + (n % 10) as char];
    if n < 10 then last else Digits(n / 10) + last
  }

  function Itoa(v: Int64): string {
    var n: int := v;
    if n < 0 then "-" + Digits(-n) else Digits(n)
  }

  /** Optional sign, at least one digit, nothing else, and a value that fits 64 bits. */
  function Atoi(s: string): Option<Int64> {
    var negative := s != "" && s[0] == '-';
    var digits := if s != "" && (s[0] == '-' || s[0] == '+') then s[1..] else s;
    if digits == "" || !AllDigits(digits) then None
    else
      var n: int := Value(digits);
      var v := if negative then -n else n;
      if MIN_INT <= v <= MAX_INT then Some(v) else None
  }

  lemma {:induction false} DigitsValue(n: nat)
    ensures Digits(n) != "" && AllDigits(Digits(n)) && Value(Digits(n)) == n
  {
    var last := ['0' + (n % 10) as char];
    if n < 10 {
      assert last[..0] == "";
    } else {
      DigitsValue(n / 10);
      assert (Digits(n / 10) + last)[..|Digits(n / 10)|] == Digits(n / 10);
    }
  }

  lemma {:induction false} AtoiItoa(v: Int64)
    ensures Atoi(Itoa(v)) == Some(v)
  {
    var n: int := v;
    DigitsValue(if n < 0 then -n else n);
    if n < 0 {
      assert Itoa(v)[1..] == Digits(-n);
    } else {
      assert IsDigit(Itoa(v)[0]);
    }
  }

  // ------------------------------------------------------ what a text stands for

  /** An optional sign and at least one decimal digit, and nothing else. */
  predicate IsNumeral(s: string) {
    && s != "" && s != "+" && s != "-"
    && forall i | 0 <= i < |s| :: s[i] in "0123456789" || (i == 0 && s[i] in "+-")
  }

  function PowerOfTen(k: nat): nat {
    if k == 0 then 1 else 10 * PowerOfTen(k - 1)
  }

  /** The number that digits stand for: each counts for its power of ten. */
  function Positional(digits: string): nat
    requires AllDigits(digits)
  {
    if digits == "" then 0
    else
      assert IsDigit(digits[0]);
      NatTimesNat(digits[0] as int - 48, PowerOfTen(|digits| - 1));
      (digits[0] as int - 48) * PowerOfTen(|digits| - 1) + Positional(digits[1..])
  }

  lemma {:induction false} NatTimesNat(a: nat, b: nat)
    ensures a * b >= 0
  {
  }

  lemma {:induction false} TenTimes(d: int, p: int)
    ensures d * (10 * p) == 10 * (d * p)
  {
  }

  lemma {:induction false} PositionalSnoc(digits: string, c: char)
    requires AllDigits(digits) && IsDigit(c)
    ensures AllDigits(digits + [c]) && Positional(digits + [c]) == 10 * Positional(digits) + (c as int - 48)
  {
    var all := digits + [c];
    if digits == "" {
      assert all[1..] == "";
    } else {
      assert all[1..] == digits[1..] + [c];
      PositionalSnoc(digits[1..], c);
      TenTimes(digits[0] as int - 48, PowerOfTen(|digits| - 1));
    }
  }

  lemma {:induction false} ValueIsPositional(s: string)
    requires AllDigits(s)
    ensures Value(s) == Positional(s)
  {
    if s != "" {
      var init, c := s[..|s| - 1], s[|s| - 1];
      ValueIsPositional(init);
      PositionalSnoc(init, c);
      assert s == init + [c];
    }
  }

  lemma {:induction false} DigitChars(s: string)
    ensures AllDigits(s) <==> forall i | 0 <= i < |s| :: s[i] in "0123456789"
  {
    forall i | 0 <= i < |s|
      ensures IsDigit(s[i]) <==> s[i] in "0123456789"
    {
      DigitChar(s[i]);
    }
  }

  lemma {:induction false} DigitChar(c: char)
    ensures IsDigit(c) <==> c in "0123456789"
  {
    var all := "0123456789";
    if IsDigit(c) {
      assert all[c as int - 48] == c;
    }
  }

  /** Reading digits with an optional sign gives the number they stand for, if it fits 64 bits. */
  lemma {:induction false} AtoiOfNumeral(digits: string)
    requires digits != "" && AllDigits(digits)
    ensures Atoi(digits) == Atoi("+" + digits)
    ensures Atoi(digits) == if Positional(digits) <= MAX_INT then Some(Positional(digits)) else None
    ensures var n: int := Positional(digits);
            Atoi("-" + digits) == if -n >= MIN_INT then Some(-n) else None
  {
    ValueIsPositional(digits);
    assert IsDigit(digits[0]);
    assert ("+" + digits)[1..] == digits && ("-" + digits)[1..] == digits;
  }

  /** Nothing but numerals is read. */
  lemma {:induction false} AtoiRejects(s: string)
    requires !IsNumeral(s)
    ensures Atoi(s) == None
  {
    if s != "" {
      var rest := if s[0] == '-' || s[0] == '+' then s[1..] else s;
      if rest != "" && AllDigits(rest) {
        DigitChars(rest);
        forall i | 0 <= i < |s|
          ensures s[i] in "0123456789" || (i == 0 && s[i] in "+-")
        {
          assert s[i] == if rest == s then rest[i] else if i == 0 then s[0] else rest[i - 1];
        }
      }
    }
  }

  /** A written number has a leading '-' or none, and no leading zero unless it is zero. */
  lemma {:induction false} ItoaIsCanonical(v: Int64)
    ensures var text, n: int := Itoa(v), v;
            && IsNumeral(text)
            && (text[0] == '-' <==> n < 0) && text[0] != '+'
            && (text[0] == '0' <==> n == 0) && (n < 0 ==> text[1] != '0')
  {
    var n: int := v;
    var digits := Digits(if n < 0 then -n else n);
    DigitsValue(if n < 0 then -n else n);
    DigitsLead(if n < 0 then -n else n);
    DigitChars(digits);
    assert n < 0 ==> Itoa(v) == ['-'] + digits;
  }

  lemma {:induction false} DigitsLead(n: nat)
    ensures Digits(n) != "" && IsDigit(Digits(n)[0])
    ensures Digits(n)[0] == '0' <==> n == 0
  {
    if n >= 10 {
      DigitsLead(n / 10);
    }
  }
}
