/** The two string-to-integer primitives the reader relies on: `str.isdigit`,
    which bounds the ID table, and `int(str)`, which converts every numeric
    token. Only ASCII digits are modelled. */
module PyInt {
  import opened Wrappers

  predicate IsDigit(c: char) {
    '0' <= c <= '9'
  }

  function DigitValue(c: char): (d: nat)
    requires IsDigit(c)
    ensures d < 10
  {
    c as int - '0' as int
  }

  function DigitChar(d: nat): (c: char)
    requires d < 10
    ensures IsDigit(c) && DigitValue(c) == d
  {
    ('0' as int + d) as char
  }

  predicate AllDigits(s: string) {
    forall i :: 0 <= i < |s| ==> IsDigit(s[i])
  }

  /** `s.isdigit()`: a non-empty token made only of digits. */
  predicate IsDigitToken(s: string) {
    |s| > 0 && AllDigits(s)
  }

  /** Decimal value of a digit string, most significant digit first. */
  function DigitsValue(s: string): nat
    requires AllDigits(s)
  {
    if |s| == 0 then 0 else DigitsValue(s[..|s| - 1]) * 10 + DigitValue(s[|s| - 1])
  }

  /** The body of an integer that `int(str)` accepts: digits, where single
      underscores may separate two digits. */
  predicate IsGroupedDigits(s: string) {
    && |s| > 0
    && IsDigit(s[0])
    && IsDigit(s[|s| - 1])
    && (forall i :: 0 <= i < |s| ==> IsDigit(s[i]) || s[i] == '_')
    && (forall i :: 0 <= i < |s| - 1 && s[i] == '_' ==> IsDigit(s[i + 1]))
  }

  function RemoveUnderscores(s: string): (r: string)
    ensures (forall i :: 0 <= i < |s| ==> IsDigit(s[i]) || s[i] == '_') ==> AllDigits(r)
    ensures AllDigits(s) ==> r == s
  {
    if |s| == 0 then []
    else (if s[0] == '_' then [] else [s[0]]) + RemoveUnderscores(s[1..])
  }

  /** `int(token)` for a token without surrounding whitespace: an optional
      sign, then grouped digits. A token of another shape raises (here:
      `None`); a token of this shape is always accepted, at any length. */
  function ParseInt(s: string): (r: Option<int>)
    ensures r.Some? ==> |s| > 0
    ensures r.Some? && IsDigit(s[0]) ==> r.value >= 0
    ensures r.Some? && s[0] == '-' ==> r.value <= 0
    ensures r.Some? ==> s[0] == '+' || s[0] == '-' || IsDigit(s[0])
  {
    if |s| > 0 && (s[0] == '+' || s[0] == '-') then
      if IsGroupedDigits(s[1..]) then
        var m: int := DigitsValue(RemoveUnderscores(s[1..]));
        Some(if s[0] == '-' then -m else m)
      else None
    else if IsGroupedDigits(s) then Some(DigitsValue(RemoveUnderscores(s)))
    else None
  }

  /** Decimal rendering of a natural number without leading zeros. */
  function ShowNat(n: nat): (s: string)
    ensures IsDigitToken(s) && DigitsValue(s) == n
  {
    if n < 10 then [DigitChar(n)]
    else
      var s := ShowNat(n / 10) + [DigitChar(n % 10)];
      assert s[..|s| - 1] == ShowNat(n / 10);
      s
  }

  /** Decimal rendering of an integer, `-` for negatives. */
  function ShowInt(n: int): string {
    if n < 0 then "-" + ShowNat(-n) else ShowNat(n)
  }

  /** A token that passes `isdigit` converts with `int` to its digit value. */
  lemma ParseIntDigitToken(s: string)
    requires IsDigitToken(s)
    ensures ParseInt(s) == Some(DigitsValue(s))
  {
    assert IsGroupedDigits(s);
  }

  /** `int` inverts the decimal rendering of every integer. */
  lemma ParseIntShowInt(n: int)
    ensures ParseInt(ShowInt(n)) == Some(n)
  {
    if n < 0 {
      var s := ShowNat(-n);
      assert ShowInt(n)[1..] == s;
      ParseIntDigitToken(s);
      assert IsGroupedDigits(s);
    } else {
      ParseIntDigitToken(ShowNat(n));
    }
  }

  /** A one-character digit token reads as that digit. */
  lemma ParseIntOneDigit(s: string)
    requires |s| == 1 && IsDigit(s[0])
    ensures ParseInt(s) == Some(DigitValue(s[0]))
  {
    ParseIntDigitToken(s);
    assert s[..0] == [];
  }
}
