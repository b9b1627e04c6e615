/**
 * The string tests the officer model relies on: Rails' `blank?`, the
 * case-insensitive comparison behind `uniqueness: { case_sensitive: false }`,
 * the `/\A\d+\z/` id filter with the integer it denotes, and Ruby's
 * `str[2..3]` slice.
 */
module Text {
  import opened Wrappers

  /** Ruby's `[[:space:]]` restricted to ASCII: space, tab, LF, VT, FF, CR. */
  predicate IsSpace(c: char) {
    c == ' ' || '\t' <= c <= '\r'
  }

  /** `String#blank?`: empty or made only of white space. */
  predicate IsBlank(s: string) {
    forall i | 0 <= i < |s| :: IsSpace(s[i])
  }

  function LowerChar(c: char): char {
    if 'A' <= c <= 'Z' then (c as int + 32) as char else c
  }

  /** SQL `LOWER` on ASCII letters. */
  function Lower(s: string): (r: string)
    ensures |r| == |s|
    ensures forall i | 0 <= i < |s| :: r[i] == LowerChar(s[i])
  {
    seq(|s|, i requires 0 <= i < |s| => LowerChar(s[i]))
  }

  predicate EqualIgnoringCase(a: string, b: string) {
    Lower(a) == Lower(b)
  }

  predicate IsDigit(c: char) {
    '0' <= c <= '9'
  }

  /** The match `s =~ /\A\d+\z/`: one or more ASCII digits and nothing else. */
  predicate IsDigits(s: string) {
    |s| > 0 && forall i | 0 <= i < |s| :: IsDigit(s[i])
  }

  /** The integer a digit string denotes (how `find` casts the id key). */
  function DecimalValue(s: string): nat
    requires forall i | 0 <= i < |s| :: IsDigit(s[i])
  {
    if s == [] then 0
    else
      assert IsDigit(s[|s| - 1]);
      DecimalValue(s[..|s| - 1]) * 10 + (s[|s| - 1] as int - '0' as int)
  }

  /**
   * Ruby's `s[2..3]`: nil when 2 is past the end, otherwise the characters
   * at indices 2 and 3 that exist (so "" for a two-character string).
   */
  function YearSuffix(s: string): (r: Option<string>)
    ensures r.None? <==> |s| < 2
    ensures r.Some? ==> |r.value| == if |s| < 4 then |s| - 2 else 2
    ensures r.Some? ==> forall i | 0 <= i < |r.value| :: r.value[i] == s[2 + i]
  {
    if |s| < 2 then None
    else if |s| <= 4 then Some(s[2..])
    else Some(s[2..4])
  }
}
