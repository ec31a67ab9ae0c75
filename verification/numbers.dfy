/** Python's `int(x)` applied to a string, as the request handlers use it
    on form fields, and the decimal rendering it inverts. */
module Numbers {

  import opened Common
  import opened Text

  predicate IsDigit(c: char) {
    '0' <= c <= '9'
  }

  /** The body `int()` accepts in base 10 after the sign: ASCII digits, with
      single underscores allowed only between two digits. */
  predicate DigitBody(d: string) {
    && |d| > 0
    && IsDigit(d[0])
    && forall k :: 0 <= k < |d| ==>
         IsDigit(d[k]) || (d[k] == '_' && k + 1 < |d| && IsDigit(d[k + 1]))
  }

  /** The decimal value of a digit body, underscores ignored. */
  function DigitsValue(d: string): int {
    if |d| == 0 then 0
    else if d[|d| - 1] == '_' then DigitsValue(d[..|d| - 1])
    else DigitsValue(d[..|d| - 1]) * 10 + (d[|d| - 1] as int - '0' as int)
  }

  /** Python's `int(s)` for a `str` argument: surrounding whitespace is
      ignored, one optional sign, then a digit body; anything else raises
      `ValueError`, modelled as `None`. */
  function ParseInt(s: string): Option<int> {
    var t := Strip(s);
    if |t| > 0 && (t[0] == '+' || t[0] == '-') then
      if DigitBody(t[1..]) then
        Some(if t[0] == '-' then -DigitsValue(t[1..]) else DigitsValue(t[1..]))
      else None
    else if DigitBody(t) then Some(DigitsValue(t))
    else None
  }

  function DigitChar(n: nat): char
    requires n < 10
  {
    ('0' as int + n) as char
  }

  /** Python's `str(n)` for a non-negative integer. */
  function ShowNat(n: nat): string
    decreases n
  {
    if n < 10 then [DigitChar(n)] else ShowNat(n / 10) + [DigitChar(n % 10)]
  }

  /** Python's `str(n)` for an integer. */
  function Show(n: int): string {
    if n < 0 then "-" + ShowNat(-n) else ShowNat(n)
  }

  lemma {:induction false} ShowNatIsDigitBody(n: nat)
    ensures DigitBody(ShowNat(n))
    ensures forall k :: 0 <= k < |ShowNat(n)| ==> IsDigit(ShowNat(n)[k])
    ensures DigitsValue(ShowNat(n)) == n
    decreases n
  {
    if n >= 10 {
      ShowNatIsDigitBody(n / 10);
      var d := ShowNat(n);
      var p := ShowNat(n / 10);
      assert d == p + [DigitChar(n % 10)];
      forall k | 0 <= k < |d|
        ensures IsDigit(d[k])
      {
        if k < |p| {
          assert d[k] == p[k];
        }
      }
      assert d[..|d| - 1] == p;
    }
  }

  /** `int()` reads back every integer `str()` writes. */
  lemma ParseShowRoundTrip(n: int)
    ensures ParseInt(Show(n)) == Some(n)
  {
    if n < 0 {
      ParseShowNegative(-n);
    } else {
      ParseShowNat(n);
    }
  }

  /** `int()` reads back the rendering of a natural number. */
  lemma ParseShowNat(n: nat)
    ensures ParseInt(ShowNat(n)) == Some(n)
  {
    var d := ShowNat(n);
    ShowNatIsDigitBody(n);
    assert IsDigit(d[|d| - 1]);
    StripByKeepsUnpadded(d, Whitespace);
  }

  /** `int()` reads back the rendering of a negative number. */
  lemma ParseShowNegative(m: nat)
    requires m > 0
    ensures ParseInt("-" + ShowNat(m)) == Some(-(m as int))
  {
    var d := ShowNat(m);
    ShowNatIsDigitBody(m);
    var s := "-" + d;
    assert s[|s| - 1] == d[|d| - 1];
    StripByKeepsUnpadded(s, Whitespace);
    assert s[1..] == d;
  }


}
