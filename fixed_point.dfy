/** The `{x:.2f}` rendering of a timestamp. A timestamp is held as a whole
    number of centiseconds, so the rendering is exact: an optional `-`, the
    whole seconds in decimal, a `.` and two digits of hundredths. */
module FixedPoint {
  import opened Wrappers
  import opened PyStr

  predicate IsDigit(c: char) {
    '0' <= c <= '9'
  }

  predicate AllDigits(s: string) {
    forall i :: 0 <= i < |s| ==> IsDigit(s[i])
  }

  function DigitChar(d: nat): (c: char)
    requires d < 10
    ensures IsDigit(c) && c as int - '0' as int == d
  {
    ('0' as int + d) as char
  }

  /** Decimal digits of `n`, most significant first, no leading zeros. */
  function NatStr(n: nat): (s: string)
    ensures s != [] && AllDigits(s)
  {
    if n < 10 then [DigitChar(n)] else NatStr(n / 10) + [DigitChar(n % 10)]
  }

  /** The number a string of decimal digits denotes. */
  function DigitsValue(s: string): nat
    requires AllDigits(s)
  {
    if s == [] then 0
    else DigitsValue(s[..|s| - 1]) * 10 + (s[|s| - 1] as int - '0' as int)
  }

  /** `{c / 100:.2f}` for a timestamp of `c` centiseconds. */
  function Fmt2(c: int): (s: string)
    ensures s != [] && forall i :: 0 <= i < |s| ==> !IsSpace(s[i])
  {
    var m: nat := if c < 0 then -c else c;
    var body := NatStr(m / 100) + "." + [DigitChar(m % 100 / 10), DigitChar(m % 10)];
    if c < 0 then "-" + body else body
  }

  /** Reads the whole seconds and the hundredths as centiseconds. */
  function ParseGroups(whole: string, frac: string): Option<nat> {
    if !AllDigits(whole) || !AllDigits(frac) then None
    else Some(DigitsValue(whole) * 100 + DigitsValue(frac))
  }

  /** Reads back an unsigned rendering `digits.dd` as centiseconds. */
  function ParseUnsignedFixed(body: string): Option<nat> {
    if |body| < 4 || body[|body| - 3] != '.' then None
    else ParseGroups(body[..|body| - 3], body[|body| - 2..])
  }

  /** Reads back a rendering of the form `[-]digits.dd` as centiseconds. */
  function ParseFixed(s: string): Option<int> {
    if |s| > 0 && s[0] == '-' then
      match ParseUnsignedFixed(s[1..])
      case None => None
      case Some(v) => Some(-(v as int))
    else
      match ParseUnsignedFixed(s)
      case None => None
      case Some(v) => Some(v as int)
  }

  lemma {:induction false} NatStrValue(n: nat)
    ensures DigitsValue(NatStr(n)) == n
  {
    if n >= 10 {
      var s := NatStr(n);
      assert s[..|s| - 1] == NatStr(n / 10);
      NatStrValue(n / 10);
    }
  }

  /** The rendering has no leading zero: it starts with `0` only for zero. */
  lemma {:induction false} NatStrNoLeadingZero(n: nat)
    ensures NatStr(n)[0] == '0' ==> n == 0
  {
    if n >= 10 {
      NatStrNoLeadingZero(n / 10);
    }
  }

  /** A string of two digits denotes ten times the first plus the second. */
  lemma TwoDigitsString(d1: nat, d0: nat)
    requires d1 < 10 && d0 < 10
    ensures DigitsValue([DigitChar(d1), DigitChar(d0)]) == d1 * 10 + d0
  {
    var frac := [DigitChar(d1), DigitChar(d0)];
    assert frac[..1] == [DigitChar(d1)];
    assert [DigitChar(d1)][..0] == [];
    assert DigitsValue(frac[..1]) == d1;
  }

  /** The two-digit hundredths part is read back as the value it renders. */
  lemma TwoDigitsValue(m: nat)
    ensures DigitsValue([DigitChar(m % 100 / 10), DigitChar(m % 10)]) == m % 100
  {
    var q, r := m / 100, m % 100;
    var d1, d0 := r / 10, r % 10;
    assert r == d1 * 10 + d0;
    assert m == (q * 10 + d1) * 10 + d0;
    assert m % 10 == d0;
    TwoDigitsString(d1, d0);
  }

  /** An unsigned rendering `whole.frac` is read back digit group by digit group. */
  lemma ParseUnsigned(whole: string, frac: string)
    requires whole != [] && |frac| == 2
    ensures (whole + "." + frac)[0] != '-' || whole[0] == '-'
    ensures ParseUnsignedFixed(whole + "." + frac) == ParseGroups(whole, frac)
  {
    var body := whole + "." + frac;
    assert body[0] == whole[0];
    assert body[..|body| - 3] == whole;
    assert body[|body| - 2..] == frac;
    assert body[|body| - 3] == '.';
  }

  /** A whole number of seconds renders as its decimal digits and `.00`. */
  lemma Fmt2Whole(secs: nat)
    ensures Fmt2(secs * 100) == NatStr(secs) + ".00"
  {
    var m := secs * 100;
    assert m / 100 == secs && m % 100 / 10 == 0 && m % 10 == 0;
  }

  /** The rendering of a timestamp parses back to the same timestamp. */
  lemma Fmt2RoundTrip(c: int)
    ensures ParseFixed(Fmt2(c)) == Some(c)
  {
    var m: nat := if c < 0 then -c else c;
    var whole := NatStr(m / 100);
    var frac := [DigitChar(m % 100 / 10), DigitChar(m % 10)];
    var body := whole + "." + frac;
    ParseUnsigned(whole, frac);
    if c < 0 {
      assert ("-" + body)[1..] == body;
    }
    NatStrValue(m / 100);
    TwoDigitsValue(m);
    assert DigitsValue(whole) * 100 + DigitsValue(frac) == m;
  }
}
