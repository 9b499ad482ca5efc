/** Path text and its components, shared by the lookup cache and the symlink rewriting. */
module Paths {

  /** Length of the text before the first slash. */
  function WordLen(s: string): (n: nat)
    ensures n <= |s|
    ensures '/' !in s[..n] && (n < |s| ==> s[n] == '/')
  {
    if s == "" || s[0] == '/' then 0 else 1 + WordLen(s[1..])
  }

  /** What strtok(s, "/") yields: the maximal pieces without a slash. */
  function Components(s: string): seq<string>
    decreases |s|
  {
    if s == "" then []
    else if s[0] == '/' then Components(s[1..])
    else [s[..WordLen(s)]] + Components(s[WordLen(s)..])
  }

  predicate IsName(s: string)
  {
    s != "" && '/' !in s
  }

  /** The text is over, or a new component starts here. */
  predicate AtBoundary(s: string)
  {
    s == "" || s[0] == '/'
  }

  lemma {:induction false} WordOfName(name: string, rest: string)
    requires '/' !in name && AtBoundary(rest)
    ensures WordLen(name + rest) == |name|
  {
    if name == "" {
      assert name + rest == rest;
    } else {
      assert (name + rest)[1..] == name[1..] + rest;
      WordOfName(name[1..], rest);
    }
  }

  lemma NameThenRest(name: string, rest: string)
    requires IsName(name) && AtBoundary(rest)
    ensures Components(name + rest) == [name] + Components(rest)
  {
    WordOfName(name, rest);
    assert (name + rest)[..|name|] == name && (name + rest)[|name|..] == rest;
  }

  lemma SlashNameThenRest(name: string, rest: string)
    requires IsName(name) && AtBoundary(rest)
    ensures Components("/" + name + rest) == [name] + Components(rest)
  {
    assert "/" + name + rest == "/" + (name + rest);
    assert ("/" + (name + rest))[1..] == name + rest;
    NameThenRest(name, rest);
  }

  lemma TakeWord(p: string, start: nat, i: nat)
    requires start < i <= |p| && '/' !in p[start..i] && (i < |p| ==> p[i] == '/')
    ensures Components(p[start..]) == [p[start..i]] + Components(p[i..])
  {
    assert p[start..] == p[start..i] + p[i..];
    NameThenRest(p[start..i], p[i..]);
  }
}
