/** Decimal digit strings: Go's `%d` formatting and `strconv.Atoi` on a 64-bit platform. */
module Decimal {
  import opened Wrappers

  const MinInt64: int := -0x8000_0000_0000_0000
  const MaxInt64: int := 0x7fff_ffff_ffff_ffff

  predicate IsDigit(c: char) { '0' <= c <= '9' }

  predicate AllDigits(s: string) { forall i :: 0 <= i < |s| ==> IsDigit(s[i]) }

  function DigitValue(c: char): nat
    requires IsDigit(c)
  {
    (c as int) - ('0' as int)
  }

  function DigitChar(d: nat): (c: char)
    requires d < 10
    ensures IsDigit(c) && DigitValue(c) == d
  {
    (('0' as int) + d) as char
  }

  /** The number a non-empty or empty run of decimal digits denotes (most significant first). */
  function Value(s: string): nat
    requires AllDigits(s)
  {
    if s == [] then 0 else Value(s[..|s| - 1]) * 10 + DigitValue(s[|s| - 1])
  }

  /** `fmt.Sprintf("%d", n)` for a non-negative `n`: the shortest decimal spelling. */
  function FormatNat(n: nat): (s: string)
    ensures |s| > 0 && AllDigits(s)
    ensures s[0] == '0' ==> n == 0 && s == "0"
  {
    (if n < 10 then "" else FormatNat(n / 10)) + [DigitChar(n % 10)]
  }

  lemma {:induction false} ValueOfFormatNat(n: nat)
    ensures Value(FormatNat(n)) == n
  {
    var s := FormatNat(n);
    var front := if n < 10 then "" else FormatNat(n / 10);
    assert s == front + [DigitChar(n % 10)];
    assert s[..|s| - 1] == front;
    assert Value(s) == Value(front) * 10 + n % 10;
    if n >= 10 {
      ValueOfFormatNat(n / 10);
      assert Value(front) == n / 10;
    }
  }

  /** `strconv.Atoi` with Go's 64-bit `int`: an optional `+` or `-`, then at least one
      decimal digit and nothing else; the value must fit in 64 bits. `None` stands for
      both the syntax error and the range error. */
  function Atoi(s: string): (r: Option<int>)
    ensures r.Some? ==> MinInt64 <= r.value <= MaxInt64
    ensures s == "" || s == "+" || s == "-" ==> r == None
  {
    if |s| == 0 then None
    else
      var digits := if s[0] == '+' || s[0] == '-' then s[1..] else s;
      if |digits| == 0 || !AllDigits(digits) then None
      else
        var v: int := if s[0] == '-' then -(Value(digits) as int) else Value(digits);
        if v < MinInt64 || v > MaxInt64 then None else Some(v)
  }

  /** `strconv.Itoa`: the inverse direction, used to state what `Atoi` accepts. */
  function Itoa(v: int): string
  {
    if v < 0 then "-" + FormatNat(-v) else FormatNat(v)
  }

  lemma AtoiItoa(v: int)
    requires MinInt64 <= v <= MaxInt64
    ensures Atoi(Itoa(v)) == Some(v)
  {
    var n: nat := if v < 0 then -v else v;
    var f := FormatNat(n);
    ValueOfFormatNat(n);
    if v < 0 {
      AtoiAcceptsDigits("-", f);
      assert "-" + f == Itoa(v);
    } else {
      AtoiAcceptsDigits("", f);
      assert "" + f == Itoa(v);
    }
  }

  /** Any character that is neither a digit nor a leading sign makes `Atoi` fail;
      in particular surrounding spaces are not trimmed. */
  lemma AtoiRejectsForeignChar(s: string, i: nat)
    requires i < |s| && !IsDigit(s[i])
    requires i > 0 || (s[0] != '+' && s[0] != '-')
    ensures Atoi(s) == None
  {
    if s[0] == '+' || s[0] == '-' {
      assert s[1..][i - 1] == s[i];
    }
  }

  /** A sign, then digits: any such string whose value fits succeeds with that value,
      leading zeros included. */
  lemma AtoiAcceptsDigits(sign: string, digits: string)
    requires sign == "" || sign == "+" || sign == "-"
    requires |digits| > 0 && AllDigits(digits)
    requires var v: int := if sign == "-" then -(Value(digits) as int) else Value(digits); MinInt64 <= v <= MaxInt64
    ensures Atoi(sign + digits) == Some(if sign == "-" then -(Value(digits) as int) else Value(digits))
  {
    var s := sign + digits;
    if sign == "" {
      assert s == digits;
    } else {
      assert s[1..] == digits;
    }
  }

  /** The range error: a sign and digits whose value does not fit in 64 bits are
      rejected outright, never clamped to the nearest bound. */
  lemma AtoiRejectsOutOfRange(sign: string, digits: string)
    requires sign == "" || sign == "+" || sign == "-"
    requires |digits| > 0 && AllDigits(digits)
    requires var v: int := if sign == "-" then -(Value(digits) as int) else Value(digits); !(MinInt64 <= v <= MaxInt64)
    ensures Atoi(sign + digits) == None
  {
    var s := sign + digits;
    if sign == "" {
      assert s == digits;
    } else {
      assert s[1..] == digits;
    }
  }
}
