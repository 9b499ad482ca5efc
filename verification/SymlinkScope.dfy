/**
  Which links transform_symlink rewrites (lib/modules/subdir.c), and that a
  rewritten one does not lead out of the mounted directory. The code compares
  lengths of texts, so repeated slashes matter.
 */
module SymlinkScope {
  import opened Paths
  import opened Symlink

  // ----- how much of a text its components take -----

  predicate StartsWithSlash(s: string)
  {
    s != "" && s[0] == '/'
  }

  /** No two slashes in a row. */
  predicate Single(s: string)
  {
    forall i :: 0 <= i < |s| - 1 ==> s[i] != '/' || s[i + 1] != '/'
  }

  /** How many characters are in front of component number n, or in all if there is none. */
  function Spent(s: string, n: nat): nat
  {
    |s| - |From(s, n)|
  }

  /** The length of the names, each with one slash. */
  function Long(cs: seq<string>): nat
  {
    if cs == [] then 0 else Long(cs[..|cs| - 1]) + |cs[|cs| - 1]| + 1
  }

  lemma {:induction false} LongSplit(c: string, cs: seq<string>)
    ensures Long([c] + cs) == |c| + 1 + Long(cs)
    decreases |cs|
  {
    var all := [c] + cs;
    if cs == [] {
      assert all[..0] == [];
    } else {
      LongSplit(c, cs[..|cs| - 1]);
      assert all[..|all| - 1] == [c] + cs[..|cs| - 1];
    }
  }

  lemma {:induction false} LongMore(cs: seq<string>, k: nat)
    requires k <= |cs|
    ensures Long(cs[..k]) <= Long(cs) && (k < |cs| ==> Long(cs[..k]) < Long(cs))
    decreases |cs|
  {
    if k < |cs| {
      LongMore(cs[..|cs| - 1], k);
      assert cs[..|cs| - 1][..k] == cs[..k];
    } else {
      assert cs[..k] == cs;
    }
  }

  /** The least number of characters in front of component number n: the names, and a slash before and after each. */
  function Least(s: string, n: nat): int
    requires n <= |Components(s)|
  {
    (if StartsWithSlash(s) then 1 else 0) + Long(Components(s)[..n]) - 1
    + if n < |Components(s)| || EndsWithSlash(s) then 1 else 0
  }

  lemma {:induction false} SpentIs(s: string, n: nat)
    requires n <= |Components(s)| && Components(s) != []
    ensures Spent(s, n) >= Least(s, n) && (Single(s) ==> Spent(s, n) == Least(s, n))
    decreases |s|
  {
    if s[0] == '/' {
      var rest := s[1..];
      assert Components(s) == Components(rest) && From(s, n) == From(rest, n);
      assert EndsWithSlash(s) == EndsWithSlash(rest);
      assert Single(s) ==> Single(rest) && !StartsWithSlash(rest);
      SpentIs(rest, n);
    } else if n > 0 {
      SpentAfterWord(s, n);
    } else {
      assert Components(s)[..0] == [];
    }
  }

  lemma {:induction false} SpentAfterWord(s: string, n: nat)
    requires 0 < n <= |Components(s)| && s != "" && s[0] != '/'
    ensures Spent(s, n) >= Least(s, n) && (Single(s) ==> Spent(s, n) == Least(s, n))
    decreases |s|, 0
  {
    var w := WordLen(s);
    var word, rest := s[..w], s[w..];
    var cs := Components(rest);
    assert From(s, n) == From(rest, n - 1);
    LongOfFront(s, n);
    if rest == "" {
      assert cs[..n - 1] == [];
    } else {
      assert rest[0] == '/' && EndsWithSlash(s) == EndsWithSlash(rest);
      SingleSuffix(s, w);
      if cs == [] {
        OnlySlashes(rest);
      } else {
        SpentIs(rest, n - 1);
      }
    }
  }

  lemma LongOfFront(s: string, n: nat)
    requires 0 < n <= |Components(s)| && s != "" && s[0] != '/'
    ensures var w := WordLen(s);
      && |Components(s)| == 1 + |Components(s[w..])|
      && Long(Components(s)[..n]) == w + 1 + Long(Components(s[w..])[..n - 1])
  {
    var w := WordLen(s);
    var cs := Components(s[w..]);
    assert Components(s)[..n] == [s[..w]] + cs[..n - 1];
    LongSplit(s[..w], cs[..n - 1]);
  }

  lemma SingleSuffix(s: string, w: nat)
    requires w <= |s|
    ensures Single(s) ==> Single(s[w..])
  {
  }

  lemma {:induction false} OnlySlashes(s: string)
    requires Components(s) == [] && s != ""
    ensures From(s, 0) == "" && EndsWithSlash(s) && (Single(s) ==> s == "/")
    decreases |s|
  {
    if |s| > 1 {
      OnlySlashes(s[1..]);
      assert s[1] == s[1..][0];
    }
  }

  // ----- texts below the base directory -----

  lemma Regroup(a: seq<string>, b: seq<string>, c: seq<string>)
    ensures a + (b + c) == a + b + c
  {
  }

  /** If BaseThenRest holds without the first piece of base, a slash or a name, it holds with it. */
  lemma OneThenRest(base: string, rel: string, w: nat)
    requires EndsWithSlash(base) && w == if base[0] == '/' then 1 else WordLen(base)
    ensures 0 < w <= |base|
    ensures Components(base[w..] + rel) == Components(base[w..]) + Components(rel) ==>
              Components(base + rel) == Components(base) + Components(rel)
  {
    assert base + rel == base[..w] + (base[w..] + rel);
    if base[0] == '/' {
      assert (base + rel)[1..] == base[1..] + rel;
    } else {
      NameThenRest(base[..w], base[w..] + rel);
      Regroup([base[..w]], Components(base[w..]), Components(rel));
    }
  }

  lemma {:induction false} BaseThenRest(base: string, rel: string)
    requires EndsWithSlash(base)
    ensures Components(base + rel) == Components(base) + Components(rel)
    decreases |base|
  {
    var w := if base[0] == '/' then 1 else WordLen(base);
    OneThenRest(base, rel, w);
    var rest := base[w..];
    if rest == "" {
      assert rest + rel == rel;
    } else {
      BaseThenRest(rest, rel);
    }
  }

  /** base as fuse_opt hands it to the module: absolute, and ended by a slash. */
  predicate IsBase(base: string)
  {
    StartsWithSlash(base) && EndsWithSlash(base)
  }

  /** The link is in the base directory, or below. */
  predicate Below(base: string, link: string)
  {
    Components(base) <= Components(link)
  }

  /** The number of leading components that the link has in common with the base. */
  function Shared(base: string, link: string): nat
  {
    CommonLen(Components(link), Components(base))
  }

  lemma SharedFacts(base: string, link: string)
    ensures var c := Shared(base, link); c <= |Components(base)| && c <= |Components(link)|
    ensures var c := Shared(base, link); Components(link)[..c] == Components(base)[..c]
    ensures Below(base, link) <==> Shared(base, link) == |Components(base)|
  {
    var ls, bs, c := Components(link), Components(base), Shared(base, link);
    CommonLenFacts(ls, bs);
    if c == |bs| {
      assert bs[..c] == bs;
    }
  }

  /** If the link leaves the way to the base, that is where strip_common stops. */
  lemma StripOutside(base: string, rel: string, link: string)
    requires EndsWithSlash(base) && !Below(base, link)
    ensures StripCount(link, base + rel) == Shared(base, link)
  {
    var ls, bs, c := Components(link), Components(base), Shared(base, link);
    BaseThenRest(base, rel);
    SharedFacts(base, link);
    CommonLenFacts(ls, bs);
    var ps := Components(base + rel);
    assert ps[..c] == bs[..c] && ps[c] == bs[c];
    CommonLenIs(ls, ps, c);
  }

  /** If it does not, strip_common takes the components of the base off, at least. */
  lemma StripInside(base: string, rel: string, link: string)
    requires EndsWithSlash(base) && Below(base, link)
    ensures StripCount(link, base + rel) >= |Components(base)|
  {
    var ls, bs, m := Components(link), Components(base), |Components(base)|;
    BaseThenRest(base, rel);
    var ps := Components(base + rel);
    var k := CommonLen(ls, ps);
    CommonLenFacts(ls, ps);
    assert forall i :: 0 <= i < m ==> ls[i] == bs[i] == ps[i];
    if Components(rel) == [] {
      NoNameNoEnd(base, rel);
    }
  }

  lemma NoNameNoEnd(base: string, rel: string)
    requires EndsWithSlash(base) && Components(rel) == []
    ensures EndsWithSlash(base + rel)
  {
    if rel != "" {
      OnlySlashes(rel);
    }
  }

  /** The rest of what is asked: absolute, not on the way to path itself, and short enough for the buffer. */
  predicate CanRewrite(path: string, link: string, size: nat)
  {
    StartsWithSlash(link) && DirsUp(link, path) >= 0 && 3 * DirsUp(link, path) + |Rest(link, path)| + 2 <= size
  }

  lemma BaseLength(base: string)
    requires IsBase(base)
    ensures |base| >= Long(Components(base)) + 1 && (Single(base) ==> |base| == Long(Components(base)) + 1)
  {
    var cs := Components(base);
    if cs == [] {
      OnlySlashes(base);
      assert Single(base) ==> |base| == 1;
    } else {
      SpentIs(base, |cs|);
      assert cs[..|cs|] == cs;
      NothingLeft(base);
    }
  }

  lemma {:induction false} NothingLeft(s: string)
    ensures From(s, |Components(s)|) == ""
    decreases |s|
  {
    if s != "" {
      if s[0] == '/' {
        NothingLeft(s[1..]);
      } else {
        NothingLeft(s[WordLen(s)..]);
      }
    }
  }

  /** A link without repeated slashes that leaves the way to the base has fewer characters in front of where it does. */
  lemma OutsideIsShort(base: string, link: string)
    requires IsBase(base) && StartsWithSlash(link) && Single(link) && !Below(base, link)
    ensures Spent(link, Shared(base, link)) < |base|
  {
    var c := Shared(base, link);
    SharedFacts(base, link);
    BaseLength(base);
    LongMore(Components(base), c);
    if Components(link) == [] {
      OnlySlashes(link);
    } else {
      SpentIs(link, c);
    }
  }

  /** A link without repeated slashes is rewritten only if it is in the base directory or below. */
  lemma RewrittenBelow(base: string, rel: string, link: string, size: nat)
    requires IsBase(base) && Single(link) && Rewrites(base, base + rel, link, size)
    ensures Below(base, link)
  {
    if !Below(base, link) {
      StripOutside(base, rel, link);
      OutsideIsShort(base, link);
    }
  }

  /**
    In general a link outside is rewritten exactly if the part of it that
    spells the components it shares with the base, slashes included, is as long
    as the base.
   */
  lemma RewrittenOutside(base: string, rel: string, link: string, size: nat)
    requires IsBase(base) && !Below(base, link)
    ensures Rewrites(base, base + rel, link, size) <==>
            CanRewrite(base + rel, link, size) && Spent(link, Shared(base, link)) >= |base|
  {
    StripOutside(base, rel, link);
  }

  /** A rewritten link in the base directory or below never goes up beyond the mounted directory. */
  lemma StaysInside(base: string, rel: string, link: string, size: nat)
    requires IsBase(base) && Below(base, link) && Rewrites(base, base + rel, link, size)
    ensures 0 <= DirsUp(link, base + rel) < |Components(rel)|
  {
    StripInside(base, rel, link);
    BaseThenRest(base, rel);
  }

  /** The link goes on behind the base, or at least spells its last slash. */
  predicate GoesOn(base: string, link: string)
  {
    |Components(link)| > |Components(base)| || EndsWithSlash(link)
  }

  lemma InsideIsLong(base: string, link: string, k: nat)
    requires IsBase(base) && StartsWithSlash(link) && Single(link) && Single(base) && Below(base, link)
    requires |Components(base)| <= k <= |Components(link)|
    ensures Spent(link, k) >= |base| <==> GoesOn(base, link)
  {
    var ls, bs := Components(link), Components(base);
    BaseLength(base);
    if ls == [] {
      OnlySlashes(link);
    } else {
      SpentIs(link, k);
      LongInside(ls, bs, k);
    }
  }

  lemma LongInside(ls: seq<string>, bs: seq<string>, k: nat)
    requires bs <= ls && |bs| <= k <= |ls|
    ensures Long(ls[..k]) >= Long(bs) && (k > |bs| ==> Long(ls[..k]) > Long(bs)) && (k == |bs| ==> ls[..k] == bs)
  {
    assert ls[..k][..|bs|] == bs;
    LongMore(ls[..k], |bs|);
  }

  /** Without repeated slashes: exactly the links below the base are rewritten, if they fit. */
  lemma RewrittenAre(base: string, rel: string, link: string, size: nat)
    requires IsBase(base) && Single(base) && Single(link)
    ensures Rewrites(base, base + rel, link, size) <==>
            Below(base, link) && GoesOn(base, link) && CanRewrite(base + rel, link, size)
  {
    var path := base + rel;
    if Below(base, link) {
      StripInside(base, rel, link);
      StripCountBound(link, path);
      if StartsWithSlash(link) {
        InsideIsLong(base, link, StripCount(link, path));
      }
    } else if Rewrites(base, path, link, size) {
      RewrittenBelow(base, rel, link, size);
    }
  }

  // ----- the new text makes no detour -----

  /** A link to the path itself. */
  predicate SamePlace(link: string, path: string)
  {
    Components(link) == Components(path) != [] && !EndsWithSlash(link) && !EndsWithSlash(path)
  }

  /** There is a way from the directory of path unless the link leads to path, written otherwise, or below it. */
  lemma CanBeRelative(link: string, path: string)
    ensures DirsUp(link, path) >= 0 <==> SamePlace(link, path) || !(Components(path) <= Components(link))
  {
    CommonLenFacts(Components(link), Components(path));
    if Components(path) <= Components(link) {
      assert Components(link)[..|Components(path)|] == Components(path);
      CommonLenIs(Components(link), Components(path), |Components(path)|);
    }
  }

  lemma RestDiffers(ls: seq<string>, ps: seq<string>, k: nat)
    requires var c := CommonLen(ls, ps); k < |ps| && (k == c || k + 1 == c == |ls| == |ps|)
    ensures k <= |ls| && ls == ps[..k] + ls[k..] && (k < |ls| ==> (ls[k] == ps[k] <==> k < CommonLen(ls, ps)))
  {
    var c := CommonLen(ls, ps);
    CommonLenFacts(ls, ps);
    assert ls[..c][..k] == ls[..k] && ps[..c][..k] == ps[..k];
  }

  lemma SameIs(link: string, path: string, k: nat)
    requires k == StripCount(link, path) < |Components(path)|
    ensures SamePlace(link, path) <==> k < CommonLen(Components(link), Components(path))
    ensures var c := CommonLen(Components(link), Components(path));
      k == c || k + 1 == c == |Components(link)| == |Components(path)|
  {
    var ls, ps := Components(link), Components(path);
    CommonLenFacts(ls, ps);
    if ls == ps {
      CommonLenIs(ls, ps, |ps|);
    }
  }

  /**
    The new text goes up to the last directory that path and link have in
    common, and no further: what follows is the rest of the link, and does not
    start with the way down to path again, except in a link to path itself.
   */
  lemma NoDetour(link: string, path: string)
    requires DirsUp(link, path) >= 0
    ensures var ls, ps, rest := Components(link), Components(path), Components(Rest(link, path));
      var k := |ps| - 1 - DirsUp(link, path);
      && 0 <= k < |ps| && ls == ps[..k] + rest
      && (rest != [] ==> (rest[0] == ps[k] <==> SamePlace(link, path)))
  {
    var ls, ps, k := Components(link), Components(path), StripCount(link, path);
    StripCountBound(link, path);
    FromComponents(link, k);
    SameIs(link, path, k);
    RestDiffers(ls, ps, k);
  }

  /** With repeated slashes, a link that leads out of the base is rewritten, and goes up beyond the mount. */
  lemma LeadsOut()
    ensures var base, rel, link := "/a/b/", "l", "////a/f";
      && IsBase(base) && !Below(base, link) && Rewrites(base, base + rel, link, 4096)
      && NewText(link, base + rel) == "../f" && |Components(rel)| == 1
  {
    ThreeTexts();
    OutsideCounts();
    Differ(["a", "b"], ["a", "f"]);
    OneUpText("f");
  }

  lemma Differ(bs: seq<string>, ls: seq<string>)
    requires |bs| == |ls| == 2 && bs[1] == "b" && ls[1] == "f"
    ensures !(bs <= ls)
  {
    assert "b"[0] != "f"[0];
  }

  lemma OneUpText(rest: string)
    requires rest == "f"
    ensures Ups(1) + Placed(rest, 1) == "../f"
  {
    assert Ups(1) == "../" && "../" + "f" == "../f";
  }

  lemma OutsideCounts()
    ensures var path, link := "/a/b/" + "l", "////a/f";
      Components(path) == ["a", "b", "l"] && StripCount(link, path) == 1 && Rest(link, path) == "f"
  {
    ThreeTexts();
    BaseThenRest("/a/b/", "l");
    assert ["a", "b"] + ["l"] == ["a", "b", "l"];
    CommonLenIs(["a", "f"], ["a", "b", "l"], 1);
  }

  lemma ThreeTexts()
    ensures Components("/a/b/") == ["a", "b"] && Components("l") == ["l"]
    ensures Components("////a/f") == ["a", "f"] && From("////a/f", 1) == "f"
  {
    BaseText();
    assert "l" == "l" + "";
    NameThenRest("l", "");
    FourSlashes();
  }

  lemma BaseText()
    ensures Components("/a/b/") == ["a", "b"]
  {
    assert "/a/b/" == "/" + "a" + "/b/" && "/b/" == "/" + "b" + "/" && "/"[1..] == "";
    SlashNameThenRest("b", "/");
    SlashNameThenRest("a", "/b/");
  }

  lemma FourSlashes()
    ensures Components("////a/f") == ["a", "f"] && From("////a/f", 1) == "f"
  {
    assert "/a/f" == "/" + "a" + "/f" && "/f" == "/" + "f" + "";
    SlashNameThenRest("f", "");
    SlashNameThenRest("a", "/f");
    assert "////a/f"[1..] == "///a/f" && "///a/f"[1..] == "//a/f";
    assert "//a/f"[1..] == "/a/f" && "/a/f"[1..] == "a/f";
    assert "a/f"[1..] == "/f" && WordLen("a/f") == 1 && "/f"[1..] == "f";
    assert From("/f", 0) == "f";
    assert From("a/f", 1) == "f";
    assert From("/a/f", 1) == "f";
    assert From("//a/f", 1) == "f";
    assert From("///a/f", 1) == "f";
  }
}
