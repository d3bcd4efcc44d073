/** The two conversions of Go's `strconv` package that the protocol relies on:
    `Atoi`, which the server applies to the submitted index and the worker to
    the notification payload, and the base-10 formatting with which the Redis
    client turns an `int` argument into the bytes it sends. */
module Strconv {
  import opened GoInt

  datatype Option<+T> = None | Some(value: T)

  predicate IsDigit(c: char) {
    '0' <= c <= '9'
  }

  predicate AllDigits(s: string) {
    forall i :: 0 <= i < |s| ==> IsDigit(s[i])
  }

  function DigitValue(c: char): (d: nat)
    requires IsDigit(c)
    ensures d < 10
  {
    c as int - '0' as int
  }

  function DigitChar(d: nat): (c: char)
    requires d < 10
    ensures IsDigit(c) && DigitValue(c) == d
  {
    ('0' as int + d) as char
  }

  /** The number a string of decimal digits denotes (leading zeros allowed). */
  function DecimalValue(s: string): nat
    requires AllDigits(s)
  {
    if s == [] then 0 else DecimalValue(s[..|s| - 1]) * 10 + DigitValue(s[|s| - 1])
  }

  /** `strconv.Atoi`: an optional `+` or `-` sign followed by one or more
      decimal digits, whose value must fit in an `int`; anything else
      (the empty string, a lone sign, blanks, letters, underscores, a value
      out of range) is an error. */
  function Atoi(s: string): (r: Option<int>)
    ensures r.Some? ==> InRange(r.value)
  {
    var signed := |s| > 0 && (s[0] == '-' || s[0] == '+');
    var digits := if signed then s[1..] else s;
    if digits == [] || !AllDigits(digits) then None
    else
      var v: int := if signed && s[0] == '-' then -(DecimalValue(digits) as int) else DecimalValue(digits);
      if InRange(v) then Some(v) else None
  }

  /** The shortest decimal spelling of a natural number: digits only, and no
      leading zero unless the number is zero itself. */
  function Digits(m: nat): (s: string)
    ensures s != [] && AllDigits(s)
    ensures s[0] == '0' ==> m == 0
  {
    if m < 10 then [DigitChar(m)] else Digits(m / 10) + [DigitChar(m % 10)]
  }

  /** `strconv.Itoa`: base-10 text, with a leading `-` exactly for negative
      values, followed by the shortest spelling of the magnitude. */
  function Itoa(n: int): (s: string)
    ensures s != [] && (s[0] == '-' <==> n < 0)
    ensures var mag := if n < 0 then s[1..] else s;
      mag != [] && AllDigits(mag) && (mag[0] == '0' ==> n == 0)
  {
    if n < 0 then "-" + Digits(-n) else Digits(n)
  }

  /** The digits of `m` are non-empty, all decimal, and denote `m`. */
  lemma {:induction false} DigitsValue(m: nat)
    ensures Digits(m) != [] && AllDigits(Digits(m)) && DecimalValue(Digits(m)) == m
  {
    if m >= 10 {
      DigitsValue(m / 10);
      var s := Digits(m);
      assert s[..|s| - 1] == Digits(m / 10);
    }
  }

  /** Formatting then parsing gives back every `int`, and only those: a value
      outside the 64-bit range formats to text that `Atoi` refuses. */
  lemma AtoiItoa(n: int)
    ensures Atoi(Itoa(n)) == if InRange(n) then Some(n) else None
  {
    if n < 0 {
      var ds := Digits(-n);
      DigitsValue(-n);
      AtoiNegative(ds);
      assert Itoa(n) == "-" + ds && -(DecimalValue(ds) as int) == n;
    } else {
      var ds := Digits(n);
      DigitsValue(n);
      AtoiUnsigned(ds);
      assert Itoa(n) == ds && DecimalValue(ds) == n;
    }
  }

  /** A string of digits alone is parsed as its value. */
  lemma AtoiUnsigned(ds: string)
    requires ds != [] && AllDigits(ds)
    ensures Atoi(ds) == if InRange(DecimalValue(ds)) then Some(DecimalValue(ds)) else None
  {
    assert IsDigit(ds[0]);
  }

  /** A minus sign followed by digits is parsed as the negated value. */
  lemma AtoiNegative(ds: string)
    requires ds != [] && AllDigits(ds)
    ensures var v := -(DecimalValue(ds) as int);
      Atoi("-" + ds) == if InRange(v) then Some(v) else None
  {
    assert ("-" + ds)[1..] == ds;
  }

  /** Texts the two callers may be handed, as Go's `Atoi` treats them. */
  lemma AtoiExamples()
    ensures Atoi("abc") == None && Atoi("") == None && Atoi("-") == None
    ensures Atoi(" 5") == None && Atoi("4_0") == None
    ensures Atoi("40") == Some(40) && Atoi("+7") == Some(7) && Atoi("007") == Some(7)
    ensures Atoi("-3") == Some(-3)
  {
    assert DecimalValue("40") == 40;
    assert DecimalValue("7") == 7;
    assert DecimalValue("007") == 7 by { assert "007"[..2] == "00"; assert "00"[..1] == "0"; }
    assert DecimalValue("3") == 3;
    assert !IsDigit(' ') && !IsDigit('_') && !IsDigit('a');
    assert "4_0"[1] == '_';
  }
}
