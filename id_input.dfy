/**
 * How the update and delete operations turn the operator's typed id into the
 * id they search for: `parse::<u32>()`, with 0 when the text does not parse.
 */
module IdInput {
  import opened Journal

  predicate IsDigit(c: char) {
    '0' <= c <= '9'
  }

  predicate AllDigits(s: string) {
    forall i :: 0 <= i < |s| ==> IsDigit(s[i])
  }

  /** The value of a string of decimal digits, most significant digit first. */
  function DigitsValue(s: string): nat
    requires AllDigits(s)
  {
    if s == [] then 0 else DigitsValue(s[..|s| - 1]) * 10 + (s[|s| - 1] as int - '0' as int)
  }

  /**
   * Rust's `str::parse::<u32>()` on the text as `input` returns it, already
   * trimmed of leading and trailing whitespace: an optional leading
   * '+', then one or more ASCII digits (leading zeros allowed) whose value is
   * below 2^32. A '-' sign, any other character, an empty string, a lone '+'
   * and a value that overflows are all errors.
   */
  function ParseU32(s: string): (r: Option<Id>)
    ensures r.Some? ==> exists i :: 0 <= i < |s| && IsDigit(s[i])
    ensures r.Some? ==> forall i :: 0 <= i < |s| ==> IsDigit(s[i]) || (i == 0 && s[i] == '+')
  {
    var digits := if |s| > 0 && s[0] == '+' then s[1..] else s;
    if |digits| == 0 || !AllDigits(digits) then None
    else if DigitsValue(digits) < U32_LIMIT then Some(DigitsValue(digits))
    else None
  }

  /** The id `update_entry` and `delete_entry` look for: the parsed value, or 0. */
  function RequestedId(s: string): (r: Id)
    ensures ParseU32(s).None? ==> r == 0
    ensures ParseU32(s).Some? ==> r == ParseU32(s).value
  {
    ParseU32(s).GetOr(0)
  }

  function DigitChar(d: nat): char
    requires d < 10
  {
    ('0' as int + d) as char
  }

  /** The decimal text the listing and the report print for an id. */
  function Decimal(n: nat): (s: string)
    ensures |s| > 0 && AllDigits(s)
  {
    if n < 10 then [DigitChar(n)] else Decimal(n / 10) + [DigitChar(n % 10)]
  }

  lemma {:induction false} DecimalValue(n: nat)
    ensures DigitsValue(Decimal(n)) == n
  {
    if n >= 10 {
      var s := Decimal(n);
      assert s[..|s| - 1] == Decimal(n / 10);
      DecimalValue(n / 10);
    }
  }

  /**
   * Any digit string whose value fits a `u32`, leading zeros included, parses
   * to that value, with or without a leading '+': "007" and "+7" select 7.
   */
  lemma DigitTextParses(d: string)
    requires |d| > 0 && AllDigits(d) && DigitsValue(d) < U32_LIMIT
    ensures ParseU32(d) == Some(DigitsValue(d)) && RequestedId(d) == DigitsValue(d)
    ensures ParseU32("+" + d) == Some(DigitsValue(d)) && RequestedId("+" + d) == DigitsValue(d)
  {
  }

  /** An id the program prints, typed back in, selects that same id. */
  lemma ShownIdParsesBack(n: Id)
    ensures ParseU32(Decimal(n)) == Some(n)
    ensures RequestedId(Decimal(n)) == n
  {
    DecimalValue(n);
  }

  /** Trimmed text with a character that is neither a digit nor a leading '+' selects id 0. */
  lemma NonNumericSelectsZero(s: string, i: nat)
    requires i < |s| && !IsDigit(s[i]) && !(i == 0 && s[i] == '+')
    ensures ParseU32(s) == None
    ensures RequestedId(s) == 0
  {
  }

  /** Empty text and a lone '+' hold no digit, so they select id 0. */
  lemma EmptyTextSelectsZero()
    ensures ParseU32("") == None && RequestedId("") == 0
    ensures ParseU32("+") == None && RequestedId("+") == 0
  {
  }

  /**
   * A digit string whose value is 2^32 or more does not parse either, with or
   * without leading zeros or a leading '+', so it too selects id 0.
   */
  lemma OverflowSelectsZero(d: string)
    requires |d| > 0 && AllDigits(d) && DigitsValue(d) >= U32_LIMIT
    ensures ParseU32(d) == None && RequestedId(d) == 0
    ensures ParseU32("+" + d) == None && RequestedId("+" + d) == 0
  {
  }

  /** The decimal text of a number too large for `u32` is one such string. */
  lemma OverflowTextSelectsZero(n: nat)
    requires n >= U32_LIMIT
    ensures ParseU32(Decimal(n)) == None
    ensures RequestedId(Decimal(n)) == 0
  {
    DecimalValue(n);
    OverflowSelectsZero(Decimal(n));
  }
}
