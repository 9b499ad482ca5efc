/** NUL-terminated text in a character buffer. */
module CStrings {

  const NUL: char := '\0'

  /** A C string in a buffer: the text before the first NUL. */
  function CString(b: seq<char>): string
  {
    if b == [] || b[0] == NUL then "" else [b[0]] + CString(b[1..])
  }

  lemma {:induction false} CStringFacts(b: seq<char>)
    ensures var s := CString(b);
      && |s| <= |b| && NUL !in s && (forall i :: 0 <= i < |s| ==> s[i] == b[i]) && (|s| < |b| ==> b[|s|] == NUL)
  {
    if !(b == [] || b[0] == NUL) {
      CStringFacts(b[1..]);
      var s, t := CString(b), CString(b[1..]);
      forall i | 0 <= i < |s| ensures s[i] == b[i] {
        assert i > 0 ==> s[i] == t[i - 1] && b[i] == b[1..][i - 1];
      }
    }
  }

  lemma {:induction false} CStringIs(b: seq<char>, s: string)
    requires |s| < |b| && (forall i :: 0 <= i < |s| ==> s[i] == b[i] && s[i] != NUL) && b[|s|] == NUL
    ensures CString(b) == s
  {
    if s != "" {
      CStringIs(b[1..], s[1..]);
    }
  }
}
