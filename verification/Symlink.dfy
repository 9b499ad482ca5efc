/**
  Relative symlinks of the subdir module (lib/modules/subdir.c): an absolute
  link text is rewritten in place so that it works below the mount point.
 */
module Symlink {
  import opened CStrings
  import opened Paths

  // ----- the plain reading of the two texts -----

  function CommonLen(cs: seq<string>, ds: seq<string>): nat
  {
    if cs == [] || ds == [] || cs[0] != ds[0] then 0 else 1 + CommonLen(cs[1..], ds[1..])
  }

  lemma {:induction false} CommonLenFacts(cs: seq<string>, ds: seq<string>)
    ensures var k := CommonLen(cs, ds);
      && k <= |cs| && k <= |ds| && cs[..k] == ds[..k]
      && (k == |cs| || k == |ds| || cs[k] != ds[k])
  {
    if !(cs == [] || ds == [] || cs[0] != ds[0]) {
      CommonLenFacts(cs[1..], ds[1..]);
      assert cs == [cs[0]] + cs[1..] && ds == [ds[0]] + ds[1..];
    }
  }

  predicate EndsWithSlash(s: string)
  {
    s != "" && s[|s| - 1] == '/'
  }

  /** How many leading components strip_common takes off: the common ones, but not the last of two equal texts. */
  function StripCount(s: string, t: string): nat
  {
    var k := CommonLen(Components(s), Components(t));
    if k > 0 && k == |Components(s)| == |Components(t)| && !EndsWithSlash(s) && !EndsWithSlash(t) then k - 1 else k
  }

  /** The text from component number n on (nothing if there is none). */
  function From(s: string, n: nat): (r: string)
    ensures |r| <= |s| && (r != "" ==> r[0] != '/')
    decreases |s|
  {
    if s == "" then ""
    else if s[0] == '/' then From(s[1..], n)
    else if n == 0 then s
    else From(s[WordLen(s)..], n - 1)
  }

  lemma {:induction false} FromIsSuffix(s: string, n: nat)
    ensures From(s, n) == s[|s| - |From(s, n)|..]
    decreases |s|
  {
    if s != "" {
      var k := if s[0] == '/' then 1 else WordLen(s);
      if s[0] == '/' {
        FromIsSuffix(s[k..], n);
      } else if n > 0 {
        FromIsSuffix(s[k..], n - 1);
      }
    }
  }

  lemma {:induction false} FromComponents(s: string, n: nat)
    requires n <= |Components(s)|
    ensures Components(From(s, n)) == Components(s)[n..]
    decreases |s|
  {
    if s == "" {
      assert Components(s) == [] && n == 0;
    } else {
      if s[0] == '/' {
        var rest := s[1..];
        FromComponents(rest, n);
        assert Components(s) == Components(rest) && From(s, n) == From(rest, n);
      } else if n > 0 {
        var word, rest := s[..WordLen(s)], s[WordLen(s)..];
        FromComponents(rest, n - 1);
        assert ([word] + Components(rest))[n..] == Components(rest)[n - 1..];
      } else {
        assert Components(s)[0..] == Components(s);
      }
    }
  }

  // ----- strip_common and count_components -----

  /** Skips the slashes from start on. */
  method LeadingSlashes(p: string, start: nat) returns (i: nat)
    requires start <= |p|
    ensures start <= i <= |p| && (i < |p| ==> p[i] != '/') && Components(p[i..]) == Components(p[start..])
  {
    i := start;
    while i < |p| && p[i] == '/'
      invariant start <= i <= |p| && Components(p[i..]) == Components(p[start..])
    {
      i := i + 1;
    }
  }

  /** Skips one component. */
  method SkipWord(p: string, start: nat) returns (i: nat)
    requires start < |p| && p[start] != '/'
    ensures start < i <= |p| && |Components(p[start..])| == 1 + |Components(p[i..])|
  {
    i := start + 1;
    while i < |p| && p[i] != '/'
      invariant start < i <= |p| && '/' !in p[start..i]
    {
      i := i + 1;
    }
    TakeWord(p, start, i);
  }

  method CountComponents(p: string) returns (ctr: nat)
    ensures ctr == |Components(p)|
  {
    assert p[0..] == p;
    var i := LeadingSlashes(p, 0);
    ctr := 0;
    while i < |p|
      invariant 0 <= i <= |p| && (i < |p| ==> p[i] != '/')
      invariant ctr + |Components(p[i..])| == |Components(p)|
      decreases |p| - i
    {
      i := SkipWord(p, i);
      i := LeadingSlashes(p, i);
      ctr := ctr + 1;
    }
  }

  /** The character a C string shows at position i. */
  function At(s: string, i: nat): char
    requires i <= |s|
  {
    if i < |s| then s[i] else NUL
  }

  lemma CommonLenIs(cs: seq<string>, ds: seq<string>, k: nat)
    requires k <= |cs| && k <= |ds| && cs[..k] == ds[..k]
    requires k == |cs| || k == |ds| || cs[k] != ds[k]
    ensures CommonLen(cs, ds) == k
  {
    var j := CommonLen(cs, ds);
    CommonLenFacts(cs, ds);
    assert forall i :: 0 <= i < k ==> cs[i] == cs[..k][i] == ds[..k][i] == ds[i];
    assert forall i :: 0 <= i < j ==> cs[i] == cs[..j][i] == ds[..j][i] == ds[i];
  }

  /** strip_common goes round again: both texts are at the end of a component, and at least one goes on. */
  predicate GoesOn(a: char, b: char)
  {
    (a == b && a != NUL) || (a == NUL && b == '/') || (a == '/' && b == NUL)
  }

  /** x and y agree on their first m characters, which have no slash; there the comparison stops. */
  predicate Compared(x: string, y: string, m: nat)
  {
    && m <= |x| && m <= |y| && x[..m] == y[..m] && '/' !in x[..m]
    && !(At(x, m) == At(y, m) && At(x, m) != NUL && At(x, m) != '/')
  }

  predicate NoLeadingSlash(x: string)
  {
    NUL !in x && (x != "" ==> x[0] != '/')
  }

  lemma MismatchedWord(x: string, y: string, m: nat)
    requires NoLeadingSlash(x) && NoLeadingSlash(y) && Compared(x, y, m) && !GoesOn(At(x, m), At(y, m))
    requires x[..WordLen(x)] == y[..WordLen(y)]
    ensures x == y && '/' !in x
  {
    var w := WordLen(x);
    assert WordLen(y) == w by {
      assert |x[..WordLen(x)]| == |y[..WordLen(y)]|;
    }
    assert forall i :: 0 <= i < m ==> x[i] == x[..m][i];
    assert forall i :: 0 <= i < w ==> x[i] == x[..w][i] == y[..w][i] == y[i];
    assert m == w;
    assert x[..m] == x && y[..m] == y;
  }

  lemma {:induction false} OnlySlashesLeft(x: string)
    requires x != "" && From(x, 0) == ""
    ensures EndsWithSlash(x)
    decreases |x|
  {
    assert x[0] == '/';
    if |x| > 1 {
      OnlySlashesLeft(x[1..]);
    }
  }

  lemma {:induction false} FromNext(s: string, k: nat)
    ensures From(s, k + 1) == From(From(s, k), 1)
    decreases |s|
  {
    if s != "" {
      if s[0] == '/' {
        FromNext(s[1..], k);
      } else if k > 0 {
        FromNext(s[WordLen(s)..], k - 1);
      }
    }
  }

  lemma {:induction false} FromFewer(s: string, k: nat)
    requires k <= |Components(s)|
    ensures From(s, k) == "" <==> k == |Components(s)|
  {
    FromComponents(s, k);
    assert From(s, k) == "" ==> Components(From(s, k)) == [];
    if From(s, k) != "" {
      assert |Components(From(s, k))| > 0;
    }
  }

  /** s[i..] is what is left of s after k components, perhaps with slashes in front. */
  ghost predicate Stripped(s: string, i: nat, k: nat)
  {
    i <= |s| && k <= |Components(s)| && From(s[i..], 0) == From(s, k)
  }

  /** One round of strip_common has compared a whole component in both texts. */
  lemma StripOneMore(s: string, sp: nat, m: nat, k: nat)
    requires NUL !in s && sp + m <= |s| && k <= |Components(s)| && s[sp..] == From(s, k)
    requires m > 0 && WordLen(s[sp..]) == m
    ensures Stripped(s, sp + m, k + 1)
    ensures Components(s)[k] == From(s, k)[..m]
  {
    FromNext(s, k);
    FromComponents(s, k);
    FromFewer(s, k);
    assert Components(From(s, k))[0] == Components(s)[k..][0];
  }

  /** Where strip_common stops, it has taken off exactly StripCount components. */
  lemma StripStops(s: string, t: string, k: nat, m: nat)
    requires NUL !in s && NUL !in t
    requires k <= |Components(s)| && k <= |Components(t)| && Components(s)[..k] == Components(t)[..k]
    requires Compared(From(s, k), From(t, k), m) && !GoesOn(At(From(s, k), m), At(From(t, k), m))
    requires k > 0 && From(s, k) == "" && From(t, k) == "" ==> EndsWithSlash(s) || EndsWithSlash(t)
    ensures StripCount(s, t) == k
  {
    var x, y := From(s, k), From(t, k);
    FromFewer(s, k);
    FromFewer(t, k);
    FromComponents(s, k);
    FromComponents(t, k);
    FromIsSuffix(s, k);
    FromIsSuffix(t, k);
    if x == "" || y == "" {
      CommonLenIs(Components(s), Components(t), k);
    } else {
      assert Components(s)[k] == Components(x)[0] == x[..WordLen(x)];
      assert Components(t)[k] == Components(y)[0] == y[..WordLen(y)];
      if Components(s)[k] != Components(t)[k] {
        CommonLenIs(Components(s), Components(t), k);
      } else {
        MismatchedWord(x, y, m);
        assert Components(s)[..k + 1] == Components(s)[..k] + [Components(s)[k]];
        assert Components(t)[..k + 1] == Components(t)[..k] + [Components(t)[k]];
        CommonLenIs(Components(s), Components(t), k + 1);
      }
    }
  }

  /** Both texts have lost the same k components, and at least one of them goes on with a slash. */
  ghost predicate Round(s: string, t: string, i: nat, j: nat, k: nat)
  {
    && Stripped(s, i, k) && Stripped(t, j, k) && Components(s)[..k] == Components(t)[..k]
    && (k > 0 ==> (i < |s| && s[i] == '/') || (j < |t| && t[j] == '/'))
  }

  lemma PrefixGrows(cs: seq<string>, ds: seq<string>, k: nat)
    requires k < |cs| && k < |ds| && cs[..k] == ds[..k] && cs[k] == ds[k]
    ensures cs[..k + 1] == ds[..k + 1]
  {
    assert cs[..k + 1] == cs[..k] + [cs[k]];
    assert ds[..k + 1] == ds[..k] + [ds[k]];
  }

  lemma RoundDone(s: string, t: string, sp: nat, tp: nat, m: nat, k: nat)
    requires NUL !in s && NUL !in t && sp + m <= |s| && tp + m <= |t|
    requires k <= |Components(s)| && k <= |Components(t)| && Components(s)[..k] == Components(t)[..k]
    requires s[sp..] == From(s, k) && t[tp..] == From(t, k)
    requires Compared(From(s, k), From(t, k), m)
    requires GoesOn(At(s, sp + m), At(t, tp + m)) && GoesOn(At(From(s, k), m), At(From(t, k), m))
    ensures m > 0 && Round(s, t, sp + m, tp + m, k + 1)
  {
    StripOneMore(s, sp, m, k);
    StripOneMore(t, tp, m, k);
    PrefixGrows(Components(s), Components(t), k);
    assert sp + m < |s| ==> s[sp + m] in s;
  }

  lemma RoundSlashes(s: string, t: string, i: nat, j: nat, k: nat)
    requires Round(s, t, i, j, k)
    ensures k > 0 && From(s, k) == "" && From(t, k) == "" ==> EndsWithSlash(s) || EndsWithSlash(t)
  {
    SlashesAtEnd(s, i, k);
    SlashesAtEnd(t, j, k);
  }

  /** One round of the loop: m is the length of the component compared. */
  method CompareComponent(s: string, t: string, i: nat, j: nat, ghost k: nat) returns (sp: nat, tp: nat, m: nat)
    requires NUL !in s && NUL !in t && Round(s, t, i, j, k)
    ensures i <= sp && j <= tp && sp + m <= |s| && tp + m <= |t|
    ensures s[sp..] == From(s, k) && t[tp..] == From(t, k)
    ensures GoesOn(At(s, sp + m), At(t, tp + m)) ==> m > 0 && Round(s, t, sp + m, tp + m, k + 1)
    ensures !GoesOn(At(s, sp + m), At(t, tp + m)) ==> k == StripCount(s, t)
  {
    RoundSlashes(s, t, i, j, k);
    sp := SkipSlashes(s, i, k);
    tp := SkipSlashes(t, j, k);
    m := Compare(s, t, sp, tp, From(s, k), From(t, k));
    if GoesOn(At(s, sp + m), At(t, tp + m)) {
      RoundDone(s, t, sp, tp, m, k);
    } else {
      StripStops(s, t, k, m);
    }
  }

  /** strip_common: both pointers move past the common leading components. */
  method StripCommon(s: string, t: string) returns (sp: nat, tp: nat)
    requires NUL !in s && NUL !in t
    ensures sp <= |s| && s[sp..] == From(s, StripCount(s, t))
    ensures tp <= |t| && t[tp..] == From(t, StripCount(s, t))
  {
    var i: nat, j: nat := 0, 0;
    ghost var k: nat := 0;
    while true
      invariant Round(s, t, i, j, k) == true
      decreases |s| + |t| - i - j
    {
      var m: nat;
      sp, tp, m := CompareComponent(s, t, i, j, k);
      if !GoesOn(At(s, sp + m), At(t, tp + m)) {
        break;
      }
      i, j, k := sp + m, tp + m, k + 1;
    }
  }

  lemma SlashesAtEnd(s: string, i: nat, k: nat)
    requires Stripped(s, i, k)
    ensures i < |s| && s[i] == '/' && From(s, k) == "" ==> EndsWithSlash(s)
  {
    if i < |s| && From(s, k) == "" {
      OnlySlashesLeft(s[i..]);
    }
  }

  method SkipSlashes(s: string, start: nat, ghost k: nat) returns (i: nat)
    requires Stripped(s, start, k)
    ensures start <= i <= |s| && s[i..] == From(s, k)
  {
    i := start;
    while i < |s| && s[i] == '/'
      invariant start <= i <= |s| && From(s[i..], 0) == From(s, k)
    {
      i := i + 1;
    }
  }

  /** Compares the rest x of s with the rest y of t, up to the end of a component or the first difference. */
  method Compare(s: string, t: string, i: nat, j: nat, ghost x: string, ghost y: string) returns (m: nat)
    requires i <= |s| && j <= |t| && x == s[i..] && y == t[j..]
    ensures i + m <= |s| && j + m <= |t| && Compared(x, y, m)
    ensures At(s, i + m) == At(x, m) && At(t, j + m) == At(y, m)
  {
    m := 0;
    while At(s, i + m) == At(t, j + m) && At(s, i + m) != NUL && At(s, i + m) != '/'
      invariant i + m <= |s| && j + m <= |t| && x[..m] == y[..m] && '/' !in x[..m]
      decreases |s| - i - m
    {
      assert i + m < |s|;
      assert x[..m + 1] == x[..m] + [s[i + m]];
      assert y[..m + 1] == y[..m] + [t[j + m]];
      m := m + 1;
    }
  }

  // ----- transform_symlink -----

  /** n times "../" */
  function Ups(n: nat): string
  {
    seq(3 * n, i requires 0 <= i < 3 * n => "../"[i % 3])
  }

  /** The part of the link that stays, and the directories to go up first. */
  function Rest(link: string, path: string): string
  {
    From(link, StripCount(link, path))
  }

  function DirsUp(link: string, path: string): int
  {
    |Components(path)| - StripCount(link, path) - 1
  }

  /** When transform_symlink changes the link text. */
  predicate Rewrites(base: string, path: string, link: string, size: nat)
  {
    && link != "" && link[0] == '/' && base != "" && base[0] == '/'
    && |link| - |Rest(link, path)| >= |base|
    && DirsUp(link, path) >= 0
    && DirsUp(link, path) * 3 + |Rest(link, path)| + 2 <= size
  }

  /** The text that follows the "../" parts. */
  function Placed(rest: string, n: nat): string
  {
    if rest == "" && n == 0 then "." else rest
  }

  function NewText(link: string, path: string): string
    requires DirsUp(link, path) >= 0
  {
    Ups(DirsUp(link, path)) + Placed(Rest(link, path), DirsUp(link, path))
  }

  lemma StripCountBound(s: string, t: string)
    ensures StripCount(s, t) <= |Components(s)| && StripCount(s, t) <= |Components(t)|
  {
    CommonLenFacts(Components(s), Components(t));
  }

  method StringLength(buf: array<char>) returns (n: nat)
    requires |CString(buf[..])| < buf.Length
    ensures n == |CString(buf[..])|
  {
    n := 0;
    ghost var s := CString(buf[..]);
    CStringFacts(buf[..]);
    while buf[n] != NUL
      invariant n <= |s|
      decreases |s| - n
    {
      n := n + 1;
    }
    assert forall i :: 0 <= i < |s| ==> s[i] in s;
  }

  /** The closing loop: n times "../" at the front of the buffer. */
  method WriteUps(buf: array<char>, n: nat)
    requires 3 * n <= buf.Length
    modifies buf
    ensures forall k :: 0 <= k < 3 * n ==> buf[k] == "../"[k % 3]
    ensures forall k :: 3 * n <= k < buf.Length ==> buf[k] == old(buf[k])
  {
    var i := 0;
    while i < n
      invariant 0 <= i <= n
      invariant forall k :: 0 <= k < 3 * i ==> buf[k] == "../"[k % 3]
      invariant forall k :: 3 * i <= k < buf.Length ==> buf[k] == old(buf[k])
    {
      buf[3 * i] := '.';
      buf[3 * i + 1] := '.';
      buf[3 * i + 2] := '/';
      i := i + 1;
    }
  }

  /** memmove */
  method Move(buf: array<char>, src: nat, n: nat, dst: nat)
    requires src + n <= buf.Length && dst + n <= buf.Length
    modifies buf
    ensures forall k :: dst <= k < dst + n ==> buf[k] == old(buf[src + (k - dst)])
    ensures forall k :: dst + n <= k < buf.Length ==> buf[k] == old(buf[k])
  {
    forall k | 0 <= k < n {
      buf[dst + k] := buf[src + k];
    }
  }

  /** Puts the rest of the link, which starts at lp and has llen characters, behind the place for n times "../". */
  method PlaceRest(buf: array<char>, lp: nat, llen: nat, n: nat, size: nat, ghost rest: string)
    requires size <= buf.Length && lp + llen < size && 3 * n + llen + 2 <= size
    requires |rest| == llen && (forall k :: lp <= k < lp + llen ==> buf[k] == rest[k - lp]) && buf[lp + llen] == NUL
    modifies buf
    ensures forall k :: 3 * n <= k < 3 * n + |Placed(rest, n)| ==> buf[k] == Placed(rest, n)[k - 3 * n]
    ensures buf[3 * n + |Placed(rest, n)|] == NUL
    ensures forall k :: size <= k < buf.Length ==> buf[k] == old(buf[k])
  {
    if llen != 0 {
      Move(buf, lp, llen + 1, 3 * n);
    } else if n == 0 {
      buf[0] := '.';
      buf[1] := NUL;
    } else {
      buf[3 * n] := NUL;
    }
  }

  /** The checks of transform_symlink: whether the link is rewritten, from where, and how far up it has to go. */
  method Plan(base: string, path: string, link: string, size: nat) returns (go: bool, lp: nat, dotdots: nat)
    requires NUL !in path && NUL !in link
    ensures go == Rewrites(base, path, link, size)
    ensures go ==> dotdots == DirsUp(link, path) && lp <= |link| && link[lp..] == Rest(link, path)
                   && 3 * dotdots + (|link| - lp) + 2 <= size
  {
    lp, dotdots := 0, 0;
    if link == "" || link[0] != '/' || base == "" || base[0] != '/' {
      return false, lp, dotdots;
    }
    var tp;
    lp, tp := StripCommon(link, path);
    if lp < |base| {
      return false, lp, dotdots;
    }
    PathLeft(link, path);
    dotdots := CountComponents(path[tp..]);
    if dotdots == 0 {
      return false, lp, dotdots;
    }
    dotdots := dotdots - 1;
    go := dotdots * 3 + (|link| - lp) + 2 <= size;
  }

  /** The rewriting itself, of a link text with llen characters. */
  method Rewrite(buf: array<char>, llen: nat, lp: nat, dotdots: nat, size: nat)
    requires size <= buf.Length && llen == |CString(buf[..])| < size && lp <= llen
    requires 3 * dotdots + (llen - lp) + 2 <= size
    modifies buf
    ensures CString(buf[..]) == Ups(dotdots) + Placed(old(CString(buf[..])[lp..]), dotdots)
    ensures forall k :: size <= k < buf.Length ==> buf[k] == old(buf[k])
  {
    CStringFacts(buf[..]);
    ghost var rest := CString(buf[..])[lp..];
    assert NUL !in rest;
    PlaceRest(buf, lp, llen - lp, dotdots, size, rest);
    WriteUps(buf, dotdots);
    TextInBuffer(buf[..], dotdots, Placed(rest, dotdots));
  }

  /** transform_symlink: buf holds the link text, ended by a NUL within its first size characters. */
  method TransformSymlink(base: string, path: string, buf: array<char>, size: nat)
    requires NUL !in path && size <= buf.Length && |CString(buf[..])| < size
    modifies buf
    ensures var link := old(CString(buf[..]));
      if Rewrites(base, path, link, size)
      then CString(buf[..]) == NewText(link, path) && forall k :: size <= k < buf.Length ==> buf[k] == old(buf[k])
      else buf[..] == old(buf[..])
  {
    CStringFacts(buf[..]);
    var llen := StringLength(buf);
    assert buf[..llen] == CString(buf[..]);
    var go, lp, dotdots := Plan(base, path, buf[..llen], size);
    if go {
      Rewrite(buf, llen, lp, dotdots, size);
    }
  }

  lemma TextInBuffer(b: seq<char>, n: nat, placed: string)
    requires 3 * n + |placed| < |b| && NUL !in placed
    requires forall k :: 0 <= k < 3 * n ==> b[k] == "../"[k % 3]
    requires forall k :: 3 * n <= k < 3 * n + |placed| ==> b[k] == placed[k - 3 * n]
    requires b[3 * n + |placed|] == NUL
    ensures CString(b) == Ups(n) + placed
  {
    CStringIs(b, Ups(n) + placed);
  }

  lemma PathLeft(link: string, path: string)
    ensures |Components(From(path, StripCount(link, path)))| == DirsUp(link, path) + 1
  {
    StripCountBound(link, path);
    FromComponents(path, StripCount(link, path));
  }

  // ----- where the texts lead -----

  /** Following components from a directory, given as the list of names from the root. */
  function Walk(dir: seq<string>, cs: seq<string>): seq<string>
    decreases |cs|
  {
    if cs == [] then dir
    else if cs[0] == "." then Walk(dir, cs[1..])
    else if cs[0] == ".." then Walk(if dir == [] then [] else dir[..|dir| - 1], cs[1..])
    else Walk(dir + [cs[0]], cs[1..])
  }

  predicate Dotless(cs: seq<string>)
  {
    forall i :: 0 <= i < |cs| ==> cs[i] != "." && cs[i] != ".."
  }

  function Dots(n: nat): seq<string>
  {
    seq(n, i => "..")
  }

  lemma {:induction false} WalkAppend(dir: seq<string>, cs: seq<string>, ds: seq<string>)
    ensures Walk(dir, cs + ds) == Walk(Walk(dir, cs), ds)
    decreases |cs|
  {
    if cs == [] {
      assert cs + ds == ds;
    } else {
      assert (cs + ds)[1..] == cs[1..] + ds;
      var next := if cs[0] == "." then dir else if cs[0] != ".." then dir + [cs[0]]
                  else if dir == [] then [] else dir[..|dir| - 1];
      WalkAppend(next, cs[1..], ds);
    }
  }

  lemma {:induction false} WalkDotless(dir: seq<string>, cs: seq<string>)
    requires Dotless(cs)
    ensures Walk(dir, cs) == dir + cs
    decreases |cs|
  {
    if cs != [] {
      WalkDotless(dir + [cs[0]], cs[1..]);
      assert dir + [cs[0]] + cs[1..] == dir + cs;
    }
  }

  lemma {:induction false} WalkUp(dir: seq<string>, n: nat)
    ensures Walk(dir, Dots(n)) == dir[..if n <= |dir| then |dir| - n else 0]
    decreases n
  {
    if n > 0 {
      assert Dots(n)[1..] == Dots(n - 1);
      WalkUp(if dir == [] then [] else dir[..|dir| - 1], n - 1);
    }
  }

  /** A walk gains at most one name per component, and fewer if there is a dot among them. */
  lemma {:induction false} WalkLength(dir: seq<string>, cs: seq<string>)
    ensures |Walk(dir, cs)| <= |dir| + |cs|
    ensures !Dotless(cs) ==> |Walk(dir, cs)| < |dir| + |cs|
    decreases |cs|
  {
    if cs != [] {
      var next := if cs[0] == "." then dir else if cs[0] != ".." then dir + [cs[0]]
                  else if dir == [] then [] else dir[..|dir| - 1];
      WalkLength(next, cs[1..]);
      if cs[0] != "." && cs[0] != ".." && Dotless(cs[1..]) {
        forall i | 0 <= i < |cs| ensures cs[i] != "." && cs[i] != ".." {
          assert i > 0 ==> cs[i] == cs[1..][i - 1];
        }
      }
    }
  }

  lemma OneUp(more: string)
    ensures Components("../" + more) == [".."] + Components(more)
  {
    assert "../" + more == ".." + ("/" + more);
    NameThenRest("..", "/" + more);
    assert ("/" + more)[1..] == more;
  }

  lemma UpsStep(n: nat, rest: string)
    requires n > 0
    ensures Ups(n) + rest == "../" + (Ups(n - 1) + rest)
  {
    forall i | 0 <= i < 3 * n ensures Ups(n)[i] == ("../" + Ups(n - 1))[i] {
      assert i >= 3 ==> (i - 3) % 3 == i % 3;
    }
    assert Ups(n) == "../" + Ups(n - 1);
    assert "../" + Ups(n - 1) + rest == "../" + (Ups(n - 1) + rest);
  }

  lemma {:induction false} UpsComponents(n: nat, rest: string)
    ensures Components(Ups(n) + rest) == Dots(n) + Components(rest)
  {
    if n == 0 {
      assert Ups(0) + rest == rest;
      assert Dots(0) + Components(rest) == Components(rest);
    } else {
      UpsComponents(n - 1, rest);
      OneUp(Ups(n - 1) + rest);
      UpsStep(n, rest);
    }
  }

  /** Going into q and up again |q| times leads back, unless a dot in q made the way in shorter than it looks. */
  lemma UpAndBack(dir: seq<string>, q: seq<string>)
    ensures Walk(Walk(dir, q), Dots(|q|)) == dir <==> Dotless(q) || dir == []
  {
    WalkUp(Walk(dir, q), |q|);
    WalkLength(dir, q);
    if Dotless(q) {
      WalkDotless(dir, q);
    }
  }

  /** The directory that holds the link at path. */
  function DirOf(path: string): seq<string>
    requires Components(path) != []
  {
    Walk([], Components(path)[..|Components(path)| - 1])
  }

  /** The part of path between the common prefix and the name of the link itself. */
  function Between(link: string, path: string): seq<string>
    requires DirsUp(link, path) >= 0 && StripCount(link, path) <= |Components(path)|
  {
    Components(path)[StripCount(link, path)..][..DirsUp(link, path)]
  }

  function CommonDir(link: string, path: string): seq<string>
    requires StripCount(link, path) <= |Components(link)|
  {
    Walk([], Components(link)[..StripCount(link, path)])
  }

  /** The new text as components: up as often as needed, then what is left of the link. */
  lemma NewTextWalks(link: string, path: string, dir: seq<string>)
    requires DirsUp(link, path) >= 0
    ensures StripCount(link, path) <= |Components(link)|
    ensures Walk(dir, Components(NewText(link, path))) ==
            Walk(Walk(dir, Dots(DirsUp(link, path))), Components(link)[StripCount(link, path)..])
  {
    var d := DirsUp(link, path);
    StripCountBound(link, path);
    var rest := Rest(link, path);
    FromComponents(link, StripCount(link, path));
    UpsComponents(d, Placed(rest, d));
    WalkAppend(dir, Dots(d), Components(Placed(rest, d)));
    assert rest == "" && d == 0 ==> Components(".") == ["."];
  }

  /** Where the new text leads: up from the directory of the link, then along what is left of the link. */
  lemma NewTextLeads(link: string, path: string)
    requires DirsUp(link, path) >= 0
    ensures StripCount(link, path) <= |Components(link)| && StripCount(link, path) <= |Components(path)|
    ensures Walk(DirOf(path), Components(NewText(link, path))) ==
            Walk(Walk(Walk(CommonDir(link, path), Between(link, path)), Dots(DirsUp(link, path))),
                 Components(link)[StripCount(link, path)..])
  {
    DirSplits(link, path);
    NewTextWalks(link, path, DirOf(path));
  }

  lemma DirSplits(link: string, path: string)
    requires DirsUp(link, path) >= 0
    ensures StripCount(link, path) <= |Components(link)| && StripCount(link, path) <= |Components(path)|
    ensures DirOf(path) == Walk(CommonDir(link, path), Between(link, path))
  {
    CommonPrefix(link, path);
    WalkSplit(Components(path), StripCount(link, path), DirsUp(link, path));
  }

  lemma WalkSplit(cs: seq<string>, n: nat, d: nat)
    requires n + d <= |cs|
    ensures Walk([], cs[..n + d]) == Walk(Walk([], cs[..n]), cs[n..][..d])
  {
    assert cs[..n + d] == cs[..n] + cs[n..][..d];
    WalkAppend([], cs[..n], cs[n..][..d]);
  }

  lemma CommonPrefix(link: string, path: string)
    ensures StripCount(link, path) <= |Components(link)| && StripCount(link, path) <= |Components(path)|
    ensures Components(link)[..StripCount(link, path)] == Components(path)[..StripCount(link, path)]
  {
    StripCountBound(link, path);
    CommonLenFacts(Components(link), Components(path));
    var k, n := CommonLen(Components(link), Components(path)), StripCount(link, path);
    assert Components(link)[..k][..n] == Components(link)[..n];
    assert Components(path)[..k][..n] == Components(path)[..n];
  }

  /** How far l climbs above the directory it starts from, at its highest. */
  function Rise(l: seq<string>): nat
  {
    if l == [] then 0
    else
      var r := Rise(l[1..]);
      if l[0] == "." then r else if l[0] == ".." then r + 1 else if r == 0 then 0 else r - 1
  }

  /**
    The rewritten text keeps the target of the link exactly if the path below
    the common prefix has no "." or ".." in it, or the rest of the link climbs
    above the common directory to the root anyway.
   */
  lemma RewriteKeepsTarget(link: string, path: string)
    requires DirsUp(link, path) >= 0
    ensures StripCount(link, path) <= |Components(link)| && StripCount(link, path) <= |Components(path)|
    ensures Walk(DirOf(path), Components(NewText(link, path))) == Walk([], Components(link)) <==>
            || Dotless(Between(link, path))
            || Rise(Components(link)[StripCount(link, path)..]) >= |CommonDir(link, path)|
  {
    NewTextLeads(link, path);
    DetourKeeps(CommonDir(link, path), Between(link, path), Components(link)[StripCount(link, path)..]);
    LinkWalk(Components(link), StripCount(link, path));
  }

  /** A path that is made of names, none of them a dot, keeps every target. */
  lemma DotlessPathKeepsTarget(link: string, path: string)
    requires DirsUp(link, path) >= 0 && Dotless(Components(path))
    ensures Walk(DirOf(path), Components(NewText(link, path))) == Walk([], Components(link))
  {
    RewriteKeepsTarget(link, path);
    forall i | 0 <= i < |Between(link, path)| ensures Between(link, path)[i] != "." && Between(link, path)[i] != ".." {
      assert Between(link, path)[i] == Components(path)[StripCount(link, path) + i];
    }
  }

  lemma LinkWalk(cs: seq<string>, n: nat)
    requires n <= |cs|
    ensures Walk([], cs) == Walk(Walk([], cs[..n]), cs[n..])
  {
    assert cs == cs[..n] + cs[n..];
    WalkAppend([], cs[..n], cs[n..]);
  }

  /** Into q, up |q| times, then along l: when that is the same as along l at once. */
  lemma DetourKeeps(dir: seq<string>, q: seq<string>, l: seq<string>)
    ensures Walk(Walk(Walk(dir, q), Dots(|q|)), l) == Walk(dir, l) <==> Dotless(q) || Rise(l) >= |dir|
  {
    UpAndBack(dir, q);
    WalkUp(Walk(dir, q), |q|);
    WalkLength(dir, q);
    var back := Walk(Walk(dir, q), Dots(|q|));
    if !Dotless(q) && dir != [] {
      WalksMeet(dir, back, [], l);
      assert dir + [] == dir && back + [] == back;
    }
  }

  /** From directories of different depth, with the same names n below, l leads to one place only through the root. */
  lemma {:induction false} WalksMeet(deep: seq<string>, high: seq<string>, n: seq<string>, l: seq<string>)
    requires |high| < |deep|
    ensures Walk(high + n, l) == Walk(deep + n, l) <==> Rise(l) >= |deep| + |n|
    decreases |l|
  {
    if l == [] {
      assert |high + n| != |deep + n|;
    } else if l[0] == "." {
      WalksMeet(deep, high, n, l[1..]);
    } else if l[0] != ".." {
      WalksMeet(deep, high, n + [l[0]], l[1..]);
      assert deep + (n + [l[0]]) == deep + n + [l[0]];
      assert high + (n + [l[0]]) == high + n + [l[0]];
    } else if n != [] {
      var m := n[..|n| - 1];
      WalksMeet(deep, high, m, l[1..]);
      assert (deep + n)[..|deep + n| - 1] == deep + m;
      assert (high + n)[..|high + n| - 1] == high + m;
    } else {
      var below, above := deep[..|deep| - 1], if high == [] then [] else high[..|high| - 1];
      assert deep + n == deep && high + n == high;
      if |deep| == 1 {
        assert below == above;
      } else {
        WalksMeet(below, above, [], l[1..]);
        assert below + [] == below && above + [] == above;
      }
    }
  }

  /**
    A base directory with a dot in it, a link right below it, and a link text
    into the directory itself, with more slashes than it needs: the text is
    rewritten, and leads elsewhere.
   */
  lemma DottedBaseMissesTarget()
    ensures var base, path, link := "/a/./", "/a/./l", "/a/////t";
      && Rewrites(base, path, link, 4096)
      && Walk([], Components(link)) == ["a", "t"]
      && Walk(DirOf(path), Components(NewText(link, path))) == ["t"]
  {
    DottedRest();
    DottedNew();
    TwoWalks();
    assert ["a", ".", "l"][..2] == ["a", "."];
  }

  lemma DottedNew()
    ensures DirsUp("/a/////t", "/a/./l") >= 0 && Components(NewText("/a/////t", "/a/./l")) == ["..", "t"]
  {
    DottedRest();
    assert NewText("/a/////t", "/a/./l") == Ups(1) + "t";
    OneUpThen("t");
  }

  lemma OneUpThen(name: string)
    requires IsName(name)
    ensures Components(Ups(1) + name) == ["..", name]
  {
    UpsComponents(1, name);
    SlashNameThenRest(name, "");
    assert "/" + name + "" == "/" + name && ("/" + name)[1..] == name;
    assert Dots(1) + [name] == ["..", name];
  }

  lemma DottedRest()
    ensures var path, link := "/a/./l", "/a/////t";
      && Components(path) == ["a", ".", "l"] && Components(link) == ["a", "t"]
      && StripCount(link, path) == 1 && Rest(link, path) == "t" && DirsUp(link, path) == 1
  {
    DottedPath();
    SlashedLink();
    CommonLenIs(["a", "t"], ["a", ".", "l"], 1);
  }

  lemma TwoWalks()
    ensures Walk([], ["a", "t"]) == ["a", "t"] && Walk([], ["a", "."]) == ["a"] && Walk(["a"], ["..", "t"]) == ["t"]
  {
    assert Walk([], ["a", "t"]) == Walk(["a"], ["t"]);
    assert Walk([], ["a", "."]) == Walk(["a"], ["."]);
    assert Walk(["a"], ["..", "t"]) == Walk([], ["t"]);
  }

  lemma DottedPath()
    ensures Components("/a/./l") == ["a", ".", "l"]
  {
    assert "/a/./l" == "/" + "a" + "/./l";
    SlashNameThenRest("a", "/./l");
    assert "/./l" == "/" + "." + "/l";
    SlashNameThenRest(".", "/l");
    assert "/l" == "/" + "l" + "";
    SlashNameThenRest("l", "");
  }

  lemma SlashedLink()
    ensures Components("/a/////t") == ["a", "t"] && From("/a/////t", 1) == "t"
  {
    assert "/a/////t" == "/" + "a" + "/////t";
    SlashNameThenRest("a", "/////t");
    assert "/////t"[1..] == "////t" && "////t"[1..] == "///t" && "///t"[1..] == "//t" && "//t"[1..] == "/t";
    assert "/t" == "/" + "t" + "";
    SlashNameThenRest("t", "");
    assert "/a/////t"[1..] == "a/////t" && "a/////t"[1..] == "/////t" && WordLen("a/////t") == 1;
    FiveSlashes();
    assert From("a/////t", 1) == "t";
  }

  lemma FiveSlashes()
    ensures From("/////t", 0) == "t"
  {
    assert "/////t"[1..] == "////t" && "////t"[1..] == "///t" && "///t"[1..] == "//t" && "//t"[1..] == "/t";
    assert From("/t", 0) == "t";
    assert From("//t", 0) == "t";
    assert From("///t", 0) == "t";
    assert From("////t", 0) == "t";
  }
}
