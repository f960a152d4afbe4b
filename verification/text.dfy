/** Character classes and PHP truthiness used by the redirect script. */
module Text {

  /** PCRE's `\d` on ASCII input. */
  predicate IsDigit(c: char) {
    '0' <= c <= '9'
  }

  /** Every character of `s[a..b]` is a digit, stated on the positions of
      `s` itself. */
  ghost predicate DigitsIn(s: string, a: nat, b: nat)
    requires a <= b <= |s|
  {
    forall x | a <= x < b :: IsDigit(s[x])
  }

  /** A non-empty run of `\d`, i.e. what `\d+` matches. */
  ghost predicate IsDigitRun(s: string) {
    |s| > 0 && DigitsIn(s, 0, |s|)
  }

  /** PHP's `empty()` on a string value: true for "" and for "0". */
  predicate IsPhpEmpty(s: string) {
    s == "" || s == "0"
  }
}
