/** Decimal text of the 32-bit unsigned years in a copyright line: years
    render as Rust's `Display` for `u32` and parse as `u32::from_str` does. */
module Decimal {
  import opened Wrappers

  const U32Limit: nat := 0x1_0000_0000

  /** A value of Rust's `u32`. */
  type U32 = n: nat | n < 0x1_0000_0000

  predicate IsDigit(c: char) {
    '0' <= c <= '9'
  }

  predicate AllDigits(s: string) {
    forall i :: 0 <= i < |s| ==> IsDigit(s[i])
  }

  /** The number a run of decimal digits denotes, leading zeros allowed. */
  function DigitsValue(s: string): nat
    requires AllDigits(s)
  {
    if s == [] then 0
    else DigitsValue(s[..|s| - 1]) * 10 + ((s[|s| - 1] as int) - ('0' as int))
  }

  function DigitChar(d: nat): (c: char)
    requires d < 10
    ensures IsDigit(c) && (c as int) - ('0' as int) == d
  {
    (('0' as int) + d) as char
  }

  /** `n.to_string()`: the shortest run of digits that denotes `n`. */
  function Render(n: nat): (r: string)
    ensures |r| > 0 && AllDigits(r)
    ensures DigitsValue(r) == n
    ensures r[0] == '0' ==> r == "0"
  {
    if n < 10 then [DigitChar(n)]
    else
      var r := Render(n / 10) + [DigitChar(n % 10)];
      assert r[..|r| - 1] == Render(n / 10);
      r
  }

  /** `u32::from_str`: an optional `'+'`, then at least one decimal digit and
      nothing else, denoting a value below 2^32; otherwise no value. */
  function ParseU32(s: string): (r: Option<U32>)
    ensures r.Some? ==> |s| > 0
    ensures r.Some? && s[0] != '+' ==> AllDigits(s) && DigitsValue(s) == r.value
  {
    var digits := if |s| > 0 && s[0] == '+' then s[1..] else s;
    if |digits| == 0 || !AllDigits(digits) then None
    else
      var v := DigitsValue(digits);
      if v < U32Limit then Some(v) else None
  }

  /** Parsing the rendering of a `u32` gives the number back. */
  lemma ParseRender(n: U32)
    ensures ParseU32(Render(n)) == Some(n)
  {
  }

  /** A rendered number contains neither of the separators a copyright line
      is split on, nor a line feed. */
  lemma RenderHasNoSeparator(n: nat)
    ensures ' ' !in Render(n) && '-' !in Render(n) && '\n' !in Render(n)
  {
  }
}
