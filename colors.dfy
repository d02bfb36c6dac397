/** Terminal colour decoration of text (`colorWrap` and the colour
    constants of main.go). */
module Colors {

  /** ANSI escape sequences that set the terminal colour. */
  const Red := "\U{1B}[31m"
  const Green := "\U{1B}[32m"
  const Yellow := "\U{1B}[33m"
  const Blue := "\U{1B}[34m"
  const Purple := "\U{1B}[35m"
  const Cyan := "\U{1B}[36m"
  const Gray := "\U{1B}[37m"
  const White := "\U{1B}[97m"

  /** The escape sequence that restores the default colour. */
  const Reset := "\U{1B}[0m"

  /** `colorWrap(c, m)`: `m` shown in colour `c`, followed by the reset
      code. */
  function ColorWrap(c: string, m: string): (r: string)
    ensures |r| == |c| + |m| + 4
    ensures r[..|c|] == c && r[|c| + |m|..] == Reset
    ensures r[|c|..|c| + |m|] == m
  {
    c + m + Reset
  }

  /** The text and colour between the colour code and the reset code are
      recovered from a wrapped string: two wraps with colour codes of the
      same length are equal only when colour and text both are. */
  lemma ColorWrapInjective(c1: string, m1: string, c2: string, m2: string)
    requires |c1| == |c2|
    requires ColorWrap(c1, m1) == ColorWrap(c2, m2)
    ensures c1 == c2 && m1 == m2
  {
    var r := ColorWrap(c1, m1);
    assert |m1| == |m2|;
    assert c1 == r[..|c1|] == c2;
    assert m1 == r[|c1|..|c1| + |m1|] == m2;
  }
}
