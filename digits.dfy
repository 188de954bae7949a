/** Decimal text of integers: Python's `"%d"` and `"%02d"` formatting and the
    `int(text)` conversion, with the round trips that tie them together. */
module Digits {
  import opened Results
  import Strings

  predicate IsDigit(c: char) {
    '0' <= c <= '9'
  }

  predicate AllDigits(s: string) {
    forall i :: 0 <= i < |s| ==> IsDigit(s[i])
  }

  function DigitChar(d: nat): (c: char)
    requires d < 10
    ensures IsDigit(c)
  {
    ('0' as int + d) as char
  }

  function DigitValue(c: char): (d: nat)
    requires IsDigit(c)
    ensures d < 10
  {
    c as int - '0' as int
  }

  /** `"%d" % n` for a natural number: its decimal digits, without leading zeros. */
  function NatToString(n: nat): (r: string)
    ensures r != [] && AllDigits(r)
    ensures n < 10 <==> |r| == 1
    decreases n
  {
    if n < 10 then [DigitChar(n)] else NatToString(n / 10) + [DigitChar(n % 10)]
  }

  /** `"%d" % i` for any integer: a minus sign before the digits of a negative one. */
  function IntToString(i: int): (r: string)
    ensures r != []
    ensures 0 <= i ==> AllDigits(r)
    ensures i < 0 ==> r[0] == '-'
  {
    if i < 0 then "-" + NatToString(-i) else NatToString(i)
  }

  /** `"%02d" % n`: at least two digits, with a leading zero below ten. */
  function Pad2(n: nat): (r: string)
    ensures |r| >= 2 && AllDigits(r)
    ensures n < 100 ==> |r| == 2
  {
    if n < 10 then "0" + NatToString(n) else NatToString(n)
  }

  /** The value of a string of decimal digits (leading zeros allowed). */
  function DigitsValue(s: string): nat
    requires AllDigits(s)
    decreases |s|
  {
    if s == [] then 0 else DigitsValue(s[..|s| - 1]) * 10 + DigitValue(s[|s| - 1])
  }

  lemma {:induction false} NatToStringRoundTrip(n: nat)
    ensures DigitsValue(NatToString(n)) == n
    decreases n
  {
    if n >= 10 {
      var x := NatToString(n / 10);
      var r := x + [DigitChar(n % 10)];
      assert r[..|r| - 1] == x;
      NatToStringRoundTrip(n / 10);
    }
  }

  /** Reading back `"%02d" % n` gives `n`. */
  lemma {:induction false} Pad2RoundTrip(n: nat)
    ensures DigitsValue(Pad2(n)) == n
  {
    NatToStringRoundTrip(n);
    if n < 10 {
      var r := "0" + NatToString(n);
      assert r[..|r| - 1] == "0";
      assert DigitsValue("0") == 0 by { assert "0"[..0] == ""; }
    }
  }

  lemma {:induction false} NatToStringInjective(m: nat, n: nat)
    requires NatToString(m) == NatToString(n)
    ensures m == n
  {
    NatToStringRoundTrip(m);
    NatToStringRoundTrip(n);
  }

  lemma {:induction false} Pad2Injective(m: nat, n: nat)
    requires Pad2(m) == Pad2(n)
    ensures m == n
  {
    Pad2RoundTrip(m);
    Pad2RoundTrip(n);
  }

  /** Python's `int(text)` on a string: surrounding white space is ignored, an
      optional sign is allowed, and at least one digit must follow; anything
      else raises `ValueError`, modelled as `None`. */
  function ParseInt(text: string): (r: Option<int>)
    ensures r.Some? ==> Strings.Strip(text) != []
  {
    var t := Strings.Strip(text);
    if t == [] then None
    else
      var negative := t[0] == '-';
      var body := if t[0] == '-' || t[0] == '+' then t[1..] else t;
      if body == [] || !AllDigits(body) then None
      else if negative then Some(-(DigitsValue(body) as int))
      else Some(DigitsValue(body) as int)
  }

  /** `int("%d" % i) == i`. */
  lemma {:induction false} ParseIntRoundTrip(i: int)
    ensures ParseInt(IntToString(i)) == Some(i)
  {
    var s := IntToString(i);
    IntToStringStripped(i);
    if i < 0 {
      assert s[1..] == NatToString(-i);
      NatToStringRoundTrip(-i);
    } else {
      NatToStringRoundTrip(i);
    }
  }

  /** `"%d" % i` has no surrounding white space. */
  lemma {:induction false} IntToStringStripped(i: int)
    ensures Strings.Strip(IntToString(i)) == IntToString(i)
  {
    var s := IntToString(i);
    assert !Strings.IsWhitespace(s[0]);
    assert !Strings.IsWhitespace(s[|s| - 1]);
    Strings.StripTrailing(s, "");
    assert s + "" == s;
  }
}
