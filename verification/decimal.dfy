/**
 * Base-10 text: the digit strings that Python's int() accepts and the
 * zero-padded fields that strftime writes.
 */
module Decimal {
  import opened Wrappers

  predicate IsDigit(c: char) {
    '0' <= c <= '9'
  }

  function DigitValue(c: char): nat
    requires IsDigit(c)
  {
    (c as int) - ('0' as int)
  }

  function DigitChar(n: nat): (c: char)
    requires n < 10
    ensures IsDigit(c) && DigitValue(c) == n
  {
    (n + ('0' as int)) as char
  }

  predicate AllDigits(s: string) {
    forall i :: 0 <= i < |s| ==> IsDigit(s[i])
  }

  /** The number a string of decimal digits denotes, most significant digit first. */
  function DigitsValue(s: string): nat
    requires AllDigits(s)
    decreases |s|
  {
    if s == [] then 0 else 10 * DigitsValue(s[..|s| - 1]) + DigitValue(s[|s| - 1])
  }

  function Pow10(n: nat): (p: nat)
    ensures 0 < p
  {
    if n == 0 then 1 else 10 * Pow10(n - 1)
  }

  lemma DigitsValueSnoc(s: string, c: char)
    requires AllDigits(s) && IsDigit(c)
    ensures AllDigits(s + [c])
    ensures DigitsValue(s + [c]) == 10 * DigitsValue(s) + DigitValue(c)
  {
    assert (s + [c])[..|s|] == s;
  }

  /** `n` written with exactly `width` digits, with leading zeros (strftime's %m, %d, %Y). */
  function PadDigits(n: nat, width: nat): (r: string)
    requires n < Pow10(width)
    ensures |r| == width && AllDigits(r) && DigitsValue(r) == n
    decreases width
  {
    if width == 0 then []
    else
      var prefix := PadDigits(n / 10, width - 1);
      DigitsValueSnoc(prefix, DigitChar(n % 10));
      prefix + [DigitChar(n % 10)]
  }

  /** The canonical decimal text of a natural number: no leading zero. */
  function NatString(n: nat): (r: string)
    ensures 0 < |r| && AllDigits(r) && DigitsValue(r) == n
    ensures r[0] == '0' ==> r == "0"
    decreases n
  {
    if n < 10 then [DigitChar(n)]
    else
      var prefix := NatString(n / 10);
      DigitsValueSnoc(prefix, DigitChar(n % 10));
      prefix + [DigitChar(n % 10)]
  }

  /** The canonical decimal text of an integer, as Python's str() writes it. */
  function IntString(n: int): (r: string)
    ensures 0 < |r|
  {
    if n < 0 then "-" + NatString(-n) else NatString(n)
  }

  /** The literals this model's int() accepts: an optional sign and one or more digits. */
  predicate IsIntLiteral(s: string) {
    var body := if 0 < |s| && (s[0] == '+' || s[0] == '-') then s[1..] else s;
    0 < |body| && AllDigits(body)
  }

  /** Python's int(s) on a string: the value, or None where int() raises ValueError. */
  function ParseInt(s: string): (r: Option<int>)
    ensures r.Some? <==> IsIntLiteral(s)
    ensures r.Some? && 0 < |s| && s[0] == '-' ==> r.value <= 0
    ensures r.Some? && !(0 < |s| && s[0] == '-') ==> r.value >= 0
  {
    if 0 < |s| && (s[0] == '+' || s[0] == '-') then
      if 1 < |s| && AllDigits(s[1..]) then
        var magnitude: int := DigitsValue(s[1..]);
        Some(if s[0] == '-' then -magnitude else magnitude)
      else None
    else if 0 < |s| && AllDigits(s) then Some(DigitsValue(s))
    else None
  }

  /** int() reads back every integer from its canonical text. */
  lemma ParseIntString(n: int)
    ensures ParseInt(IntString(n)) == Some(n)
  {
    var s := IntString(n);
    if n < 0 {
      assert s[1..] == NatString(-n);
    } else {
      assert IsDigit(s[0]);
    }
  }

  /** Leading zeros do not change the value; a leading `+` keeps it and a leading `-` negates it. */
  lemma ParseIntPadded(n: nat, width: nat)
    requires n < Pow10(width) && 0 < width
    ensures ParseInt(PadDigits(n, width)) == Some(n)
    ensures ParseInt("+" + PadDigits(n, width)) == Some(n)
    ensures ParseInt("-" + PadDigits(n, width)) == Some(-(n as int))
  {
    var s := PadDigits(n, width);
    assert IsDigit(s[0]);
    assert ("+" + s)[1..] == s;
    assert ("-" + s)[1..] == s;
  }

  /** Words are not integers: the lookup sentinel and other text make int() raise. */
  lemma ParseIntRejectsText()
    ensures ParseInt("") == None
    ensures ParseInt("-") == None
    ensures ParseInt("not found") == None
    ensures ParseInt("not-a-number") == None
    ensures ParseInt("12.5") == None
  {
    assert !IsDigit('n');
    assert "12.5"[2] == '.' && !IsDigit('.');
  }
}
