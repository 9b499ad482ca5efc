/**
  Option groups (lib/fuse_opt.c): options are appended to a comma-separated
  string with escaping, and such a string is taken apart again in place.
 */
module Options {
  import opened CStrings

  // ----- printing -----

  predicate NeedsEscape(c: char)
  {
    c == ',' || c == '\\'
  }

  function EscapeChar(c: char): string
  {
    if NeedsEscape(c) then "\\" + [c] else [c]
  }

  function Escape(o: string): string
  {
    if o == "" then "" else EscapeChar(o[0]) + Escape(o[1..])
  }

  /** add_opt_common with escaping; an empty string stands for no options yet */
  function Add(opts: string, o: string): string
  {
    WithComma(opts) + Written(o, true)
  }

  /** The options os, appended one after the other to nothing. */
  function Print(os: seq<string>): string
  {
    if os == [] then "" else Add(Print(os[..|os| - 1]), os[|os| - 1])
  }

  lemma {:induction false} EscapeLength(o: string)
    ensures |o| <= |Escape(o)| <= 2 * |o|
  {
    if o != "" {
      EscapeLength(o[1..]);
    }
  }

  lemma {:induction false} EscapeAppend(o: string, c: char)
    ensures Escape(o + [c]) == Escape(o) + EscapeChar(c)
  {
    if o == "" {
      assert o + [c] == [c] && [c][1..] == "";
    } else {
      assert (o + [c])[1..] == o[1..] + [c];
      EscapeAppend(o[1..], c);
    }
  }

  function Written(o: string, esc: bool): string
  {
    if esc then Escape(o) else o
  }

  lemma WrittenAppend(front: string, o: string, i: nat, esc: bool)
    requires i < |o|
    ensures front + Written(o[..i + 1], esc) ==
            front + Written(o[..i], esc) + if esc then EscapeChar(o[i]) else [o[i]]
  {
    assert o[..i + 1] == o[..i] + [o[i]];
    EscapeAppend(o[..i], o[i]);
  }

  /** How many commas and backslashes there are in o. */
  function Specials(o: string): nat
  {
    if o == "" then 0 else (if o[0] in ",\\" then 1 else 0) + Specials(o[1..])
  }

  /** Each of them gets one backslash, and nothing else does. */
  lemma {:induction false} EscapedLength(o: string)
    ensures |Escape(o)| == |o| + Specials(o) && (Specials(o) == 0 ==> Escape(o) == o)
  {
    if o != "" {
      EscapedLength(o[1..]);
    }
  }

  /** Writes one character of an option at position d, behind the text so far. */
  method PutChar(b: array<char>, d: nat, c: char, esc: bool, ghost text: string) returns (e: nat)
    requires d + 2 <= b.Length && b[..d] == text
    modifies b
    ensures d < e <= d + 2 && b[..e] == text + if esc then EscapeChar(c) else [c]
  {
    e := d;
    if esc && NeedsEscape(c) {
      b[e] := '\\';
      e := e + 1;
    }
    b[e] := c;
    e := e + 1;
    assert b[..d] == text;
    assert b[..e] == b[..d] + b[d..e];
  }

  /** realloc: a larger buffer that starts with the old text. */
  method Grow(opts: string, more: nat) returns (b: array<char>)
    ensures fresh(b) && b.Length == |opts| + more && b[..|opts|] == opts
  {
    b := new char[|opts| + more];
    forall k | 0 <= k < |opts| {
      b[k] := opts[k];
    }
  }

  function WithComma(opts: string): string
  {
    if opts == "" then "" else opts + ","
  }

  /** The copying loop of add_opt_common, from position start on. */
  method PutOption(b: array<char>, start: nat, opt: string, esc: bool) returns (d: nat)
    requires start + 2 * |opt| < b.Length
    modifies b
    ensures d < b.Length && b[..d] == old(b[..start]) + Written(opt, esc)
  {
    d := start;
    ghost var front := b[..start];
    var i := 0;
    assert opt[..0] == "";
    while i < |opt|
      invariant 0 <= i <= |opt| && d <= start + 2 * i
      invariant b[..d] == front + Written(opt[..i], esc)
    {
      WrittenAppend(front, opt, i, esc);
      d := PutChar(b, d, opt[i], esc, front + Written(opt[..i], esc));
      i := i + 1;
    }
    assert opt[..|opt|] == opt;
  }

  /** add_opt_common: grows the string to a size that is always enough, then writes behind the old text. */
  method AddOptCommon(opts: string, opt: string, esc: bool) returns (r: string)
    ensures r == WithComma(opts) + Written(opt, esc)
  {
    var b := Grow(opts, 1 + |opt| * 2 + 1);
    var d := 0;
    if |opts| != 0 {
      d := PutChar(b, |opts|, ',', false, opts);
    }
    d := PutOption(b, d, opt, esc);
    b[d] := NUL;
    r := b[..d];
  }

  // ----- splitting -----

  predicate Digit(c: char, high: char)
  {
    '0' <= c <= high
  }

  /** Three octal digits at the front of s, the first one at most 3. */
  predicate Octal(s: string)
  {
    |s| >= 3 && Digit(s[0], '3') && Digit(s[1], '7') && Digit(s[2], '7')
  }

  function OctalChar(s: string): char
    requires Octal(s)
  {
    ((s[0] - '0') as int * 64 + (s[1] - '0') as int * 8 + (s[2] - '0') as int) as char
  }

  /** The options in the text s, if acc has been read of the current one. */
  function SplitFrom(s: string, acc: string): seq<string>
    decreases |s|
  {
    if s == "" then [CString(acc)]
    else if s[0] == ',' then [CString(acc)] + SplitFrom(s[1..], "")
    else if s[0] == '\\' && |s| > 1 then
      if Octal(s[1..]) then SplitFrom(s[4..], acc + [OctalChar(s[1..])]) else SplitFrom(s[2..], acc + [s[1]])
    else SplitFrom(s[1..], acc + [s[0]])
  }

  function Split(s: string): seq<string>
  {
    SplitFrom(s, "")
  }

  // ----- round trip -----

  lemma {:induction false} CStringWhole(o: string)
    requires NUL !in o
    ensures CString(o) == o
  {
    if o != "" {
      CStringWhole(o[1..]);
    }
  }

  lemma SplitChar(c: char, more: string, acc: string)
    ensures SplitFrom(EscapeChar(c) + more, acc) == SplitFrom(more, acc + [c])
  {
    var s := EscapeChar(c) + more;
    if NeedsEscape(c) {
      assert s[0] == '\\' && s[1] == c && s[2..] == more;
      assert s[1..][0] == c;
    } else {
      assert s[0] == c && s[1..] == more;
    }
  }

  lemma {:induction false} SplitEscaped(o: string, rest: string, acc: string)
    ensures SplitFrom(Escape(o) + rest, acc) == SplitFrom(rest, acc + o)
    decreases |o|
  {
    if o == "" {
      assert Escape(o) + rest == rest && acc + o == acc;
    } else {
      var more := Escape(o[1..]) + rest;
      assert Escape(o) + rest == EscapeChar(o[0]) + more;
      SplitChar(o[0], more, acc);
      SplitEscaped(o[1..], rest, acc + [o[0]]);
      assert acc + [o[0]] + o[1..] == acc + o;
    }
  }

  /** The escaped options, separated by commas. */
  function Joined(os: seq<string>): string
    requires os != []
  {
    if |os| == 1 then Escape(os[0]) else Escape(os[0]) + ("," + Joined(os[1..]))
  }

  lemma {:induction false} SplitJoined(os: seq<string>)
    requires os != [] && forall i :: 0 <= i < |os| ==> NUL !in os[i]
    ensures Split(Joined(os)) == os
    decreases |os|
  {
    CStringWhole(os[0]);
    if |os| == 1 {
      SplitEscaped(os[0], "", "");
      assert Escape(os[0]) + "" == Escape(os[0]) && "" + os[0] == os[0];
    } else {
      var rest := "," + Joined(os[1..]);
      SplitEscaped(os[0], rest, "");
      assert "" + os[0] == os[0] && rest[1..] == Joined(os[1..]);
      SplitJoined(os[1..]);
    }
  }

  lemma {:induction false} JoinedAppend(os: seq<string>, o: string)
    requires os != []
    ensures Joined(os + [o]) == Joined(os) + "," + Escape(o)
    decreases |os|
  {
    if |os| == 1 {
      assert (os + [o])[1..] == [o];
    } else {
      assert (os + [o])[1..] == os[1..] + [o];
      JoinedAppend(os[1..], o);
      assert Escape(os[0]) + ("," + (Joined(os[1..]) + "," + Escape(o))) ==
             Escape(os[0]) + ("," + Joined(os[1..])) + "," + Escape(o);
    }
  }

  /**
    Leading empty options vanish, as add_opt_common puts no comma behind an empty string; one
    option always remains.
   */
  function Kept(os: seq<string>): (r: seq<string>)
    requires os != []
    ensures r != [] && |r| <= |os|
  {
    if |os| > 1 && os[0] == "" then Kept(os[1..]) else os
  }

  lemma {:induction false} KeptAppend(os: seq<string>, o: string)
    requires os != []
    ensures Kept(os + [o]) == if Kept(os) == [""] then [o] else Kept(os) + [o]
    decreases |os|
  {
    assert (os + [o])[0] == os[0];
    assert (os + [o])[1..] == os[1..] + [o];
    if |os| > 1 {
      if os[0] == "" {
        KeptAppend(os[1..], o);
      }
    } else {
      assert os[1..] + [o] == [o];
    }
  }

  lemma JoinedEmpty(os: seq<string>)
    requires os != []
    ensures Joined(os) == "" <==> os == [""]
  {
    EscapeLength(os[0]);
  }

  lemma {:induction false} PrintIsJoined(os: seq<string>)
    requires os != []
    ensures Print(os) == Joined(Kept(os))
    decreases |os|
  {
    var front, o := os[..|os| - 1], os[|os| - 1];
    if front != [] {
      PrintIsJoined(front);
      KeptAppend(front, o);
      assert front + [o] == os;
      JoinedEmpty(Kept(front));
      JoinedAppend(Kept(front), o);
    } else {
      assert os == [o];
    }
  }

  lemma {:induction false} KeptFacts(os: seq<string>)
    requires os != []
    ensures Kept(os) == os <==> |os| == 1 || os[0] != ""
    ensures (forall o :: o in os ==> NUL !in o) ==> forall i :: 0 <= i < |Kept(os)| ==> NUL !in Kept(os)[i]
    decreases |os|
  {
    if |os| > 1 && os[0] == "" {
      KeptFacts(os[1..]);
      assert |Kept(os)| < |os|;
    }
  }

  /**
    Printing options and splitting the text again gives back the options,
    commas, backslashes and octal-looking text included. Exactly one thing is
    lost: empty options before the first non-empty one.
   */
  lemma SplitOfPrint(os: seq<string>)
    requires os != [] && forall o :: o in os ==> NUL !in o
    ensures Split(Print(os)) == Kept(os)
    ensures Split(Print(os)) == os <==> |os| == 1 || os[0] != ""
  {
    PrintIsJoined(os);
    KeptFacts(os);
    SplitJoined(Kept(os));
  }

  /** An empty option printed first is not read back. */
  lemma EmptyOptionLost()
    ensures Print(["", "a"]) == "a" && Split(Print(["", "a"])) == ["a"]
  {
    SplitOfPrint(["", "a"]);
    assert Kept(["", "a"]) == ["a"];
    assert Print(["", "a"]) == Joined(["a"]) by {
      PrintIsJoined(["", "a"]);
    }
  }

  lemma {:induction false} EscapeNul(o: string)
    requires NUL !in o
    ensures NUL !in Escape(o)
  {
    if o != "" {
      EscapeNul(o[1..]);
    }
  }

  lemma {:induction false} PrintNul(os: seq<string>)
    requires forall i :: 0 <= i < |os| ==> NUL !in os[i]
    ensures NUL !in Print(os)
    decreases |os|
  {
    if os != [] {
      PrintNul(os[..|os| - 1]);
      EscapeNul(os[|os| - 1]);
    }
  }

  /**
    The printed options, as the C string they are passed on in, still hold every option: what is
    split is exactly what was printed.
   */
  lemma SplitOfBuffer(os: seq<string>, b: seq<char>)
    requires os != [] && (forall o :: o in os ==> NUL !in o) && Print(os) + [NUL] <= b
    ensures CString(b) == Print(os) && (Split(CString(b)) == os <==> |os| == 1 || os[0] != "")
  {
    PrintNul(os);
    SplitOfPrint(os);
    CStringIs(b, Print(os));
  }

  // ----- process_real_option_group -----

  lemma {:induction false} CStringOfPrefix(b: seq<char>, acc: string)
    requires |acc| < |b| && (forall k :: 0 <= k < |acc| ==> b[k] == acc[k]) && b[|acc|] == NUL
    ensures CString(b) == CString(acc)
  {
    if acc != "" && acc[0] != NUL {
      CStringOfPrefix(b[1..], acc[1..]);
    }
  }

  /** b still shows the rest of text from s on, and shows acc, read so far, at its front. */
  predicate Reading(b: seq<char>, text: string, s: nat, acc: string)
  {
    && |acc| <= s <= |text| < |b| && b[|text|] == NUL
    && (forall k :: s <= k < |text| ==> b[k] == text[k])
    && (forall k :: 0 <= k < |acc| ==> b[k] == acc[k])
  }

  /** How a text is read on, in terms of positions. */
  lemma ReadOn(text: string, s: nat, acc: string)
    requires s < |text| && text[s] != ','
    ensures Octal(text[s + 1..]) <==>
            s + 3 < |text| && Digit(text[s + 1], '3') && Digit(text[s + 2], '7') && Digit(text[s + 3], '7')
    ensures SplitFrom(text[s..], acc) ==
            if text[s] != '\\' || s + 1 == |text| then SplitFrom(text[s + 1..], acc + [text[s]])
            else if Octal(text[s + 1..]) then SplitFrom(text[s + 4..], acc + [OctalChar(text[s + 1..])])
            else SplitFrom(text[s + 2..], acc + [text[s + 1]])
  {
    var rest := text[s..];
    assert rest[1..] == text[s + 1..];
    assert |rest| > 1 ==> rest[2..] == text[s + 2..];
    assert |rest| > 3 ==> rest[4..] == text[s + 4..];
  }

  lemma WriteOn(b: seq<char>, text: string, s: nat, t: nat, acc: string, c: char)
    requires Reading(b, text, s, acc) && s < t <= |text|
    ensures Reading(b[|acc| := c], text, t, acc + [c])
  {
  }

  /** Moves one character, unescaped, from the read position s to the write position d, which is never ahead. */
  method CopyChar(opts: array<char>, s: nat, d: nat, ghost text: string, ghost acc: string) returns (t: nat, c: char)
    requires Reading(opts[..], text, s, acc) && d == |acc| && s < |text| && NUL !in text && text[s] != ','
    modifies opts
    ensures s < t && Reading(opts[..], text, t, acc + [c])
    ensures SplitFrom(text[s..], acc) == SplitFrom(text[t..], acc + [c])
  {
    ReadOn(text, s, acc);
    t := s;
    if opts[t] == '\\' && opts[t + 1] != NUL {
      t := t + 1;
      if Digit(opts[t], '3') && Digit(opts[t + 1], '7') && Digit(opts[t + 2], '7') {
        c := ((opts[t] - '0') as int * 64 + (opts[t + 1] - '0') as int * 8 + (opts[t + 2] - '0') as int) as char;
        t := t + 2;
        assert c == OctalChar(text[s + 1..]);
      } else {
        c := opts[t];
      }
    } else {
      c := opts[t];
    }
    t := t + 1;
    WriteOn(opts[..], text, s, t, acc, c);
    opts[d] := c;
    assert opts[..] == old(opts[..])[d := c];
  }

  /** At a comma, or at the end: closes the option read so far, and shows it as a C string. */
  method CloseOption(opts: array<char>, s: nat, d: nat, ghost text: string, ghost acc: string) returns (option: string)
    requires Reading(opts[..], text, s, acc) && d == |acc| && (s < |text| ==> text[s] == ',')
    modifies opts
    ensures s < |text| ==> Reading(opts[..], text, s + 1, "")
    ensures SplitFrom(text[s..], acc) == [option] + if s < |text| then SplitFrom(text[s + 1..], "") else []
  {
    opts[d] := NUL;
    CStringOfPrefix(opts[..], acc);
    option := CString(opts[..]);
    assert s < |text| ==> text[s..][1..] == text[s + 1..];
  }

  /** The options were all accepted, or the last one in calls is the first that was not. */
  ghost predicate Handled(all: seq<string>, calls: seq<string>, ok: bool, accepts: string -> bool)
  {
    && calls <= all
    && if ok then calls == all && forall o :: o in all ==> accepts(o)
       else calls != [] && !accepts(calls[|calls| - 1]) && forall o :: o in calls[..|calls| - 1] ==> accepts(o)
  }

  /** calls are accepted, and together with what the rest of the text yields they are all its options. */
  ghost predicate Progress(b: seq<char>, text: string, s: nat, acc: string, calls: seq<string>, accepts: string -> bool)
  {
    && Reading(b, text, s, acc) && calls + SplitFrom(text[s..], acc) == Split(text)
    && forall o :: o in calls ==> accepts(o)
  }

  /** After an option has been closed and handed over: on to the next one, or done. */
  lemma AfterCall(b: seq<char>, b': seq<char>, text: string, s: nat, acc: string, calls: seq<string>, option: string,
                  accepts: string -> bool)
    requires Progress(b, text, s, acc, calls, accepts)
    requires s < |text| ==> Reading(b', text, s + 1, "")
    requires SplitFrom(text[s..], acc) == [option] + if s < |text| then SplitFrom(text[s + 1..], "") else []
    ensures !accepts(option) ==> Handled(Split(text), calls + [option], false, accepts)
    ensures accepts(option) && s < |text| ==> Progress(b', text, s + 1, "", calls + [option], accepts)
    ensures accepts(option) && s == |text| ==> Handled(Split(text), calls + [option], true, accepts)
  {
    var rest := if s < |text| then SplitFrom(text[s + 1..], "") else [];
    OneMore(Split(text), calls, option, rest, accepts);
  }

  lemma OneMore(all: seq<string>, calls: seq<string>, option: string, rest: seq<string>, accepts: string -> bool)
    requires all == calls + ([option] + rest) && forall o :: o in calls ==> accepts(o)
    ensures all == calls + [option] + rest && calls + [option] <= all && (calls + [option])[..|calls|] == calls
    ensures accepts(option) ==> forall o :: o in calls + [option] ==> accepts(o)
  {
  }

  lemma AfterChar(b: seq<char>, b': seq<char>, text: string, s: nat, t: nat, acc: string, c: char, calls: seq<string>,
                  accepts: string -> bool)
    requires Progress(b, text, s, acc, calls, accepts) && Reading(b', text, t, acc + [c])
    requires SplitFrom(text[s..], acc) == SplitFrom(text[t..], acc + [c])
    ensures Progress(b', text, t, acc + [c], calls, accepts)
  {
  }

  /**
    process_real_option_group, unescaping in place. calls are the arguments of
    process_gopt, which answers -1 exactly for the options that are not accepted.
   */
  method ProcessRealOptionGroup(opts: array<char>, accepts: string -> bool) returns (ok: bool, calls: seq<string>)
    requires |CString(opts[..])| < opts.Length
    modifies opts
    ensures Handled(Split(old(CString(opts[..]))), calls, ok, accepts)
  {
    ghost var text, acc := CString(opts[..]), "";
    CStringFacts(opts[..]);
    assert text[0..] == text;
    calls := [];
    var s: nat, d: nat := 0, 0;
    var end := false;
    while !end
      invariant !end ==> d == |acc| && Progress(opts[..], text, s, acc, calls, accepts) == true
      invariant end ==> Handled(Split(text), calls, true, accepts) == true
      decreases |text| - s, !end
    {
      ghost var before := opts[..];
      if opts[s] == NUL {
        end := true;
      }
      if opts[s] == ',' || end {
        var option := CloseOption(opts, s, d, text, acc);
        AfterCall(before, opts[..], text, s, acc, calls, option, accepts);
        calls := calls + [option];
        if !accepts(option) {
          return false, calls;
        }
        d, acc := 0, "";
        s := s + 1;
      } else {
        var t, c := CopyChar(opts, s, d, text, acc);
        AfterChar(before, opts[..], text, s, t, acc, c, calls, accepts);
        s, d, acc := t, d + 1, acc + [c];
      }
    }
    return true, calls;
  }

  // ----- every way to write a character -----

  datatype Form = Plain(c: char) | Quoted(c: char) | Numbered(c: char)

  /** A character as it is, behind a backslash, or, if it is a byte, as a backslash and three octal digits. */
  type Spelling = f: Form | f.Numbered? ==> f.c as int < 256 witness Plain('a')

  function DigitOf(d: int): char
    requires 0 <= d < 8
  {
    "01234567"[d]
  }

  function Text(p: Spelling): string
  {
    match p
    case Plain(c) => [c]
    case Quoted(c) => ['\\', c]
    case Numbered(c) => ['\\', DigitOf(c as int / 64), DigitOf(c as int / 8 % 8), DigitOf(c as int % 8)]
  }

  function Texts(ps: seq<Spelling>): string
  {
    if ps == [] then "" else Text(ps[0]) + Texts(ps[1..])
  }

  function Meaning(ps: seq<Spelling>): string
  {
    if ps == [] then "" else [ps[0].c] + Meaning(ps[1..])
  }

  /** What comes after a quoted character makes it the first of three octal digits of a byte. */
  predicate ReadsAsNumber(c: char, rest: string)
  {
    c in "0123" && |rest| >= 2 && rest[0] in "01234567" && rest[1] in "01234567"
  }

  /** The spelling can be told from anything else in front of rest. */
  predicate Clear(p: Spelling, rest: string)
  {
    match p
    case Plain(c) => c != ',' && c != '\\'
    case Quoted(c) => !ReadsAsNumber(c, rest)
    case Numbered(_) => true
  }

  predicate AllClear(ps: seq<Spelling>, rest: string)
  {
    ps == [] || (Clear(ps[0], Texts(ps[1..]) + rest) && AllClear(ps[1..], rest))
  }

  lemma DigitsOf(v: int)
    requires 0 <= v < 256
    ensures 0 <= v / 64 < 4 && 0 <= v / 8 % 8 < 8 && 0 <= v % 8 < 8 && v / 64 * 64 + v / 8 % 8 * 8 + v % 8 == v
  {
  }

  lemma DigitValue(d: int)
    requires 0 <= d < 8
    ensures DigitOf(d) as int == '0' as int + d && (d < 4 ==> DigitOf(d) <= '3')
  {
  }

  /** Three octal digits give back the byte they are the number of. */
  lemma NumberRead(c: char, more: string, acc: string)
    requires c as int < 256
    ensures SplitFrom(Text(Numbered(c)) + more, acc) == SplitFrom(more, acc + [c])
  {
    var v := c as int;
    DigitsOf(v);
    DigitValue(v / 64);
    DigitValue(v / 8 % 8);
    DigitValue(v % 8);
    var s := Text(Numbered(c)) + more;
    var three := s[1..];
    assert three[0] == DigitOf(v / 64) && three[1] == DigitOf(v / 8 % 8) && three[2] == DigitOf(v % 8);
    assert OctalChar(three) == c;
    assert s[4..] == more;
  }

  lemma OneRead(p: Spelling, more: string, acc: string)
    requires Clear(p, more)
    ensures SplitFrom(Text(p) + more, acc) == SplitFrom(more, acc + [p.c])
  {
    var s := Text(p) + more;
    match p
    case Plain(c) => assert s[0] == c && s[1..] == more;
    case Quoted(c) =>
      assert s[0] == '\\' && s[1] == c && s[2..] == more && s[1..] == [c] + more;
      assert Octal(s[1..]) <==> ReadsAsNumber(c, more);
    case Numbered(c) => NumberRead(c, more, acc);
  }

  /** However the characters of an option are written, they are read, whatever has been read before and follows. */
  lemma {:induction false} SpelledRead(ps: seq<Spelling>, rest: string, acc: string)
    requires AllClear(ps, rest)
    ensures SplitFrom(Texts(ps) + rest, acc) == SplitFrom(rest, acc + Meaning(ps))
    decreases |ps|
  {
    if ps == [] {
      assert Texts(ps) + rest == rest && acc + Meaning(ps) == acc;
    } else {
      var more := Texts(ps[1..]) + rest;
      assert Texts(ps) + rest == Text(ps[0]) + more;
      OneRead(ps[0], more, acc);
      SpelledRead(ps[1..], rest, acc + [ps[0].c]);
      assert acc + [ps[0].c] + Meaning(ps[1..]) == acc + Meaning(ps);
    }
  }

  /** A comma ends a number as the end of the text does. */
  lemma {:induction false} ClearBeforeComma(ps: seq<Spelling>, rest: string)
    requires AllClear(ps, "") && rest != "" && rest[0] == ','
    ensures AllClear(ps, rest)
    decreases |ps|
  {
    if ps != [] {
      ClearBeforeComma(ps[1..], rest);
      var more := Texts(ps[1..]);
      assert more + "" == more;
      if |more| >= 2 {
        assert (more + rest)[0] == more[0] && (more + rest)[1] == more[1];
      } else if |more| == 1 {
        assert (more + rest)[1] == ',';
      } else {
        assert (more + rest)[0] == ',';
      }
    }
  }

  /** The texts of several options, with commas between them. */
  function Listed(all: seq<seq<Spelling>>): string
    requires all != []
  {
    if |all| == 1 then Texts(all[0]) else Texts(all[0]) + ("," + Listed(all[1..]))
  }

  function Meanings(all: seq<seq<Spelling>>): seq<string>
  {
    if all == [] then [] else [CString(Meaning(all[0]))] + Meanings(all[1..])
  }

  /** Splitting gives every option as it is meant, in any mixture of spellings (up to a NUL, if there is one in it). */
  lemma {:induction false} SplitOfSpelled(all: seq<seq<Spelling>>)
    requires all != [] && forall i :: 0 <= i < |all| ==> AllClear(all[i], "")
    ensures Split(Listed(all)) == Meanings(all)
    decreases |all|
  {
    assert "" + Meaning(all[0]) == Meaning(all[0]);
    if |all| == 1 {
      SpelledRead(all[0], "", "");
      assert Texts(all[0]) + "" == Texts(all[0]);
    } else {
      var rest := "," + Listed(all[1..]);
      ClearBeforeComma(all[0], rest);
      SpelledRead(all[0], rest, "");
      assert rest[1..] == Listed(all[1..]);
      SplitOfSpelled(all[1..]);
    }
  }

  /** A backslash at the very end stands for itself. */
  lemma LoneBackslash(ps: seq<Spelling>)
    requires AllClear(ps, "\\")
    ensures Split(Texts(ps) + "\\") == [CString(Meaning(ps) + "\\")]
  {
    SpelledRead(ps, "\\", "");
    assert "" + Meaning(ps) == Meaning(ps);
    assert "\\"[1..] == "";
  }
}
