/**
 * Character classes used by the numeric input checks. `char.IsControl` is the
 * fixed Unicode category Cc; `char.IsDigit` (and the regex class `\d`) is the
 * culture-independent but large category Nd, so it is a parameter `isDigit`
 * constrained only on the ASCII range.
 */
module CharClasses {

  /** `char.IsControl`: U+0000 to U+001F and U+007F to U+009F. */
  predicate IsControl(c: char) {
    c <= '\U{001F}' || ('\U{007F}' <= c <= '\U{009F}')
  }

  /** What every Unicode decimal-digit class agrees on: inside ASCII, exactly '0'..'9' are digits. */
  ghost predicate DecimalDigitClass(isDigit: char -> bool) {
    forall c :: c < '\U{0080}' ==> (isDigit(c) <==> '0' <= c <= '9')
  }

  /** The number of occurrences of `c` in `s`. */
  function Count(s: string, c: char): (n: nat)
    ensures n <= |s|
    ensures n == 0 <==> c !in s
    decreases |s|
  {
    if s == [] then 0 else Count(s[..|s| - 1], c) + (if s[|s| - 1] == c then 1 else 0)
  }

  lemma {:induction false} CountConcat(a: string, b: string, c: char)
    ensures Count(a + b, c) == Count(a, c) + Count(b, c)
    decreases |b|
  {
    if b == [] {
      assert a + b == a;
    } else {
      assert (a + b)[..|a + b| - 1] == a + b[..|b| - 1];
      CountConcat(a, b[..|b| - 1], c);
    }
  }
}
