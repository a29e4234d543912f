/**
 * ASCII case folding, as `str.lower()` does it for the characters that
 * occur in e-mail addresses and weekday names.
 */
module Text {

  predicate IsUpper(c: char) {
    'A' <= c <= 'Z'
  }

  /** `str.lower()` on one character: an upper-case ASCII letter becomes its lower-case letter, 32 code points on. */
  function LowerChar(c: char): (l: char)
    ensures !IsUpper(l)
    ensures IsUpper(c) ==> l as int == c as int + 32
    ensures !IsUpper(c) ==> l == c
  {
    if IsUpper(c) then (c as int - 'A' as int + 'a' as int) as char else c
  }

  /** No upper-case letter anywhere in `s`. */
  predicate IsLowerCase(s: string) {
    forall i :: 0 <= i < |s| ==> !IsUpper(s[i])
  }

  /** `s.lower()`. */
  function Lower(s: string): (r: string)
    ensures |r| == |s|
    ensures IsLowerCase(r)
    ensures IsLowerCase(s) ==> r == s
  {
    seq(|s|, i requires 0 <= i < |s| => LowerChar(s[i]))
  }

  /** Lower-casing a string lower-cases each character in place. */
  lemma LowerEach(s: string)
    ensures forall i :: 0 <= i < |s| ==> Lower(s)[i] == LowerChar(s[i])
  {
  }

  /** Two characters are the same letter up to ASCII case: equal, or an upper-case letter and its lower-case letter. */
  predicate SameIgnoringCase(a: char, b: char) {
    || a == b
    || (IsUpper(a) && b as int == a as int + 32)
    || (IsUpper(b) && a as int == b as int + 32)
  }

  /** Two characters lower-case alike exactly when they are the same letter up to case. */
  lemma LowerCharAlike(a: char, b: char)
    ensures LowerChar(a) == LowerChar(b) <==> SameIgnoringCase(a, b)
  {
  }

  /** Two strings lower-case alike exactly when they agree character by character up to ASCII case. */
  lemma LowerAlike(s: string, t: string)
    ensures Lower(s) == Lower(t) <==> |s| == |t| && forall i :: 0 <= i < |s| ==> SameIgnoringCase(s[i], t[i])
  {
    if |s| == |t| {
      forall i | 0 <= i < |s| ensures Lower(s)[i] == Lower(t)[i] <==> SameIgnoringCase(s[i], t[i]) {
        LowerCharAlike(s[i], t[i]);
      }
      if forall i :: 0 <= i < |s| ==> SameIgnoringCase(s[i], t[i]) {
        assert Lower(s) == Lower(t);
      }
    }
  }

  /** Lower-casing twice is lower-casing once: re-normalising a stored address is harmless. */
  lemma LowerIdempotent(s: string)
    ensures Lower(Lower(s)) == Lower(s)
  {
  }
}
