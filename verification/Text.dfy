/** The text checks the readers and policies apply to codes and digests. */
module Text {

  predicate IsSpace(c: char) {
    c == ' ' || c == '\t' || c == '\n' || c == '\r' || c == '\U{000B}' || c == '\U{000C}'
  }

  /** `value and value == value.strip()`. */
  predicate NonEmptyTrimmed(s: string) {
    |s| > 0 && !IsSpace(s[0]) && !IsSpace(s[|s| - 1])
  }

  /** `value.strip()` is non-empty. */
  predicate NotBlank(s: string) {
    exists i | 0 <= i < |s| :: !IsSpace(s[i])
  }

  predicate IsLowerHex(c: char) {
    '0' <= c <= '9' || 'a' <= c <= 'f'
  }

  function LowerChar(c: char): char {
    if 'A' <= c <= 'Z' then (c as int + 32) as char else c
  }

  function Lower(s: string): (r: string)
    ensures |r| == |s| && forall i | 0 <= i < |s| :: r[i] == LowerChar(s[i])
  {
    seq(|s|, i requires 0 <= i < |s| => LowerChar(s[i]))
  }

  predicate IsDigestText(s: string) {
    |s| == 64 && forall i | 0 <= i < |s| :: IsLowerHex(LowerChar(s[i]))
  }

  predicate IsCanonicalDigestText(s: string) {
    |s| == 64 && forall i | 0 <= i < |s| :: IsLowerHex(s[i])
  }

  lemma LowerIdempotent(s: string)
    ensures Lower(Lower(s)) == Lower(s)
  {
    assert forall i | 0 <= i < |s| :: Lower(Lower(s))[i] == Lower(s)[i];
  }
}
