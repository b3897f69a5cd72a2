/**
  Item identifiers. The store mints the identifier "ID" followed by the decimal
  rendering of its counter, as Java's string concatenation prints an int.
  Parsing is the partner of formatting: every minted identifier parses back to
  the counter value it was made from, so distinct counter values give distinct
  identifiers.
 */
module Ids {
  import opened Wrappers

  /** The character of the decimal digit `d`. */
  function DigitChar(d: nat): (c: char)
    requires d < 10
    ensures '0' <= c <= '9'
  {
    ('0' as int + d) as char
  }

  /** The value of a decimal digit character, or None for any other character. */
  function DigitValue(c: char): (d: Option<nat>)
    ensures d.Some? <==> '0' <= c <= '9'
    ensures d.Some? ==> d.value < 10 && DigitChar(d.value) == c
  {
    if '0' <= c <= '9' then Some(c as int - '0' as int) else None
  }

  /** Decimal rendering of a non-negative int: digits only, no sign, no leading zero. */
  function Decimal(n: nat): (s: string)
    ensures 1 <= |s|
    ensures forall i :: 0 <= i < |s| ==> '0' <= s[i] <= '9'
    ensures s[0] == '0' <==> n == 0
    decreases n
  {
    if n < 10 then [DigitChar(n)] else Decimal(n / 10) + [DigitChar(n % 10)]
  }

  /** Reads a non-empty string of decimal digits back into its value. */
  function ParseDecimal(s: string): (r: Option<nat>)
    decreases |s|
  {
    if |s| == 0 then None
    else
      var last := DigitValue(s[|s| - 1]);
      if last.None? then None
      else if |s| == 1 then Some(last.value)
      else
        match ParseDecimal(s[..|s| - 1])
        case None => None
        case Some(p) => Some(10 * p + last.value)
  }

  /** The identifier minted from counter value `n`: "ID" followed by the decimal digits of `n`. */
  function FormatId(n: nat): (id: string)
    ensures |id| > 2 && id[0] == 'I' && id[1] == 'D'
  {
    "ID" + Decimal(n)
  }

  /** The counter value an identifier of the form "ID<digits>" was minted from. */
  function ParseId(id: string): (n: Option<nat>)
  {
    if |id| >= 2 && id[0] == 'I' && id[1] == 'D' then ParseDecimal(id[2..]) else None
  }

  lemma {:induction false} ParseDecimalOfDecimal(n: nat)
    ensures ParseDecimal(Decimal(n)) == Some(n)
    decreases n
  {
    if n >= 10 {
      ParseDecimalOfDecimal(n / 10);
      var s := Decimal(n);
      assert s[..|s| - 1] == Decimal(n / 10);
    }
  }

  /** Round trip: an identifier minted from `n` parses back to `n`. */
  lemma ParseIdOfFormatId(n: nat)
    ensures ParseId(FormatId(n)) == Some(n)
  {
    ParseDecimalOfDecimal(n);
    assert FormatId(n)[2..] == Decimal(n);
  }

  /** Distinct counter values mint distinct identifiers. */
  lemma FormatIdInjective(m: nat, n: nat)
    ensures FormatId(m) == FormatId(n) ==> m == n
  {
    ParseIdOfFormatId(m);
    ParseIdOfFormatId(n);
  }
}
