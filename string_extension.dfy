/** The ASCII-letter test on strings. */
module StringExtension {

  /** `char.IsAsciiLetter`: 'A'..'Z' or 'a'..'z'. */
  predicate IsAsciiLetterChar(c: char)
  {
    'A' <= c <= 'Z' || 'a' <= c <= 'z'
  }

  /** Reference definition: the first character is a letter and so is the rest. */
  ghost predicate AllAsciiLetters(s: string)
    decreases |s|
  {
    s == [] || (IsAsciiLetterChar(s[0]) && AllAsciiLetters(s[1..]))
  }

  /** The reference definition says that every character is an ASCII letter. */
  lemma {:induction false} AllAsciiLettersMeaning(s: string)
    ensures AllAsciiLetters(s) <==> forall i :: 0 <= i < |s| ==> IsAsciiLetterChar(s[i])
    decreases |s|
  {
    if s != [] {
      AllAsciiLettersMeaning(s[1..]);
      assert forall i :: 1 <= i < |s| ==> s[i] == s[1..][i - 1];
    }
  }

  /** The empty string passes the test. */
  lemma EmptyIsAsciiLetters()
    ensures AllAsciiLetters("")
  {
  }

  /** A concatenation passes exactly when both parts do. */
  lemma ConcatIsAsciiLetters(s: string, t: string)
    ensures AllAsciiLetters(s + t) == (AllAsciiLetters(s) && AllAsciiLetters(t))
  {
    AllAsciiLettersMeaning(s);
    AllAsciiLettersMeaning(t);
    AllAsciiLettersMeaning(s + t);
    assert forall i :: 0 <= i < |s| ==> (s + t)[i] == s[i];
    assert forall i :: 0 <= i < |t| ==> (s + t)[|s| + i] == t[i];
  }

  /**
   * The foreach loop: it returns false at the first character that is not
   * a letter. `stop` is the position the loop stopped at, so nothing
   * after the first non-letter is inspected.
   */
  method IsAsciiLetter(s: string) returns (b: bool, ghost stop: nat)
    ensures b == AllAsciiLetters(s)
    ensures stop <= |s| && forall j :: 0 <= j < stop ==> IsAsciiLetterChar(s[j])
    ensures b <==> stop == |s|
    ensures !b ==> !IsAsciiLetterChar(s[stop])
  {
    AllAsciiLettersMeaning(s);
    for i := 0 to |s|
      invariant forall j :: 0 <= j < i ==> IsAsciiLetterChar(s[j])
    {
      if !IsAsciiLetterChar(s[i]) {
        return false, i;
      }
    }
    return true, |s|;
  }
}
