/**
  Integers as text, as they appear in row keys and in attributes compared with a
  configuration file.
*/
module Decimals {
  // An integer in decimal, without leading zeros.
  function Decimal(n: int): (s: string)
    ensures forall c | c in s :: c == '-' || '0' <= c <= '9'
    decreases n < 0, if n < 0 then -n else n
  {
    if n < 0 then "-" + Decimal(-n) else Digits(n)
  }

  function Digits(n: nat): (s: string)
    ensures s != "" && forall c | c in s :: '0' <= c <= '9'
  {
    if n < 10 then [Digit(n)] else Digits(n / 10) + [Digit(n % 10)]
  }

  function Digit(d: nat): (c: char)
    requires d < 10
    ensures '0' <= c <= '9' && c as int - '0' as int == d
  {
    '0' + d as char
  }

  // What a text has to look like to be the decimal form of some integer.
  predicate IsDecimal(s: string) {
    if s != "" && s[0] == '-' then IsNatural(s[1..]) && s[1..] != "0" else IsNatural(s)
  }

  predicate IsNatural(s: string) {
    && s != ""
    && (forall i | 0 <= i < |s| :: '0' <= s[i] <= '9')
    && (|s| > 1 ==> s[0] != '0')
  }

  function Value(s: string): int {
    if s != "" && s[0] == '-' then -NaturalValue(s[1..]) else NaturalValue(s)
  }

  function NaturalValue(s: string): int {
    if s == "" then 0
    else NaturalValue(s[..|s| - 1]) * 10 + (s[|s| - 1] as int - '0' as int)
  }

  lemma {:induction false} DigitsAreNatural(n: nat)
    ensures IsNatural(Digits(n)) && NaturalValue(Digits(n)) == n
    ensures n > 0 ==> Digits(n)[0] != '0'
  {
    var s := Digits(n);
    if n >= 10 {
      DigitsAreNatural(n / 10);
      assert s[..|s| - 1] == Digits(n / 10);
    } else {
      assert NaturalValue(s[..0]) == 0;
    }
  }

  lemma DigitsNext(v: nat, c: char)
    requires v > 0 && '0' <= c <= '9'
    ensures Digits(v * 10 + (c as int - '0' as int)) == Digits(v) + [c]
  {
    var d := c as int - '0' as int;
    assert (v * 10 + d) / 10 == v && (v * 10 + d) % 10 == d;
    assert Digit(d) == c;
  }

  lemma {:induction false} ValueNext(s: string, n: nat)
    requires |s| == n + 1
    ensures NaturalValue(s) == NaturalValue(s[..n]) * 10 + (s[n] as int - '0' as int)
    ensures s == s[..n] + [s[n]]
  {
  }

  lemma {:induction false} NaturalIsDigits(s: string)
    requires IsNatural(s)
    ensures NaturalValue(s) >= 0 && Digits(NaturalValue(s)) == s
    ensures s[0] != '0' ==> NaturalValue(s) > 0
  {
    var n := |s| - 1;
    ValueNext(s, n);
    if n == 0 {
      assert NaturalValue(s[..0]) == 0;
      assert Digit(s[0] as int - '0' as int) == s[0];
    } else {
      NaturalIsDigits(s[..n]);
      DigitsNext(NaturalValue(s[..n]), s[n]);
    }
  }

  lemma {:induction false} DecimalIsDecimal(n: int)
    ensures IsDecimal(Decimal(n)) && Value(Decimal(n)) == n
  {
    if n < 0 {
      var t := Digits(-n);
      DigitsAreNatural(-n);
      assert Decimal(n) == "-" + t && ("-" + t)[1..] == t;
    } else {
      DigitsAreNatural(n);
    }
  }

  lemma DecimalOfValue(s: string)
    requires IsDecimal(s)
    ensures Decimal(Value(s)) == s
  {
    if s[0] == '-' {
      var t := s[1..];
      NaturalIsDigits(t);
      assert t[0] == '0' ==> t == "0";
      assert Value(s) == -NaturalValue(t) < 0;
      assert s == "-" + t;
    } else {
      NaturalIsDigits(s);
    }
  }

  /** A text is the decimal form of an integer exactly when it has no leading zero or plus sign
      and no other character than digits after an optional minus sign; the integer is its value. */
  lemma {:induction false} DecimalIff(s: string, n: int)
    ensures Decimal(n) == s <==> IsDecimal(s) && Value(s) == n
  {
    DecimalIsDecimal(n);
    if IsDecimal(s) {
      DecimalOfValue(s);
    }
  }
}
