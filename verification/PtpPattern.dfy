/**
  Matching file names (ptp/collect.cpp): wildcard patterns and lists of extensions. Strings are
  without their final zero; letters are compared in the "C" locale.
 */
module PtpPattern {

  function Upper(c: char): char {
    if 'a' <= c <= 'z' then (c as int - 32) as char else c
  }

  function UpperAll(s: string): (r: string)
    ensures |r| == |s|
    ensures forall i :: 0 <= i < |s| ==> r[i] == Upper(s[i])
  {
    seq(|s|, i requires 0 <= i < |s| => Upper(s[i]))
  }

  // ----- What a pattern means -----

  /** `?` is any character, `*` any string, a backslash takes the next character as it is. */
  ghost predicate Matches(s: string, p: string)
    decreases |p|
  {
    if p == "" then s == ""
    else if p[0] == '?' then s != "" && Matches(s[1..], p[1..])
    else if p[0] == '*' then exists k :: 0 <= k <= |s| && Matches(s[k..], p[1..])
    else if p[0] == '\\' then |p| > 1 && s != "" && Upper(s[0]) == Upper(p[1]) && Matches(s[1..], p[2..])
    else s != "" && Upper(s[0]) == Upper(p[0]) && Matches(s[1..], p[1..])
  }

  /** `*` followed by `p`. */
  ghost predicate Star(s: string, p: string) {
    exists k :: 0 <= k <= |s| && Matches(s[k..], p)
  }

  /** `**` is `*`. */
  lemma StarStar(s: string, p: string)
    requires p != "" && p[0] == '*'
    ensures Star(s, p) <==> Star(s, p[1..])
  {
    if Star(s, p) {
      var k :| 0 <= k <= |s| && Matches(s[k..], p);
      var j :| 0 <= j <= |s[k..]| && Matches(s[k..][j..], p[1..]);
      assert s[k..][j..] == s[k + j..];
    }
    if Star(s, p[1..]) {
      assert s[0..] == s;
      assert Matches(s[0..], p);
    }
  }

  /** `*?` is `?*`. */
  lemma StarQuestion(s: string, p: string)
    requires p != "" && p[0] == '?'
    ensures Star(s, p) <==> s != "" && Star(s[1..], p[1..])
  {
    if Star(s, p) {
      var k :| 0 <= k <= |s| && Matches(s[k..], p);
      assert s[k..][1..] == s[1..][k..];
    }
    if s != "" && Star(s[1..], p[1..]) {
      var k :| 0 <= k <= |s[1..]| && Matches(s[1..][k..], p[1..]);
      assert s[k..][1..] == s[1..][k..];
    }
  }

  lemma StarEnd(s: string)
    ensures Star(s, "")
  {
    assert Matches(s[|s|..], "");
  }

  // ----- The matcher -----

  datatype Turn = Yes | No | Continue

  /** The walk over a run of `*` and `?`; it fails when the string is shorter than the run's `?`s. */
  method SkipRun(str: string, pat: string, s0: nat, p0: nat) returns (s: nat, p: nat, ok: bool)
    requires s0 <= |str| && p0 <= |pat|
    ensures s0 <= s <= |str| && p0 <= p <= |pat|
    ensures !ok ==> !Star(str[s0..], pat[p0..])
    ensures ok ==> Star(str[s0..], pat[p0..]) == Star(str[s..], pat[p..])
    ensures ok && p < |pat| ==> pat[p] != '*' && pat[p] != '?'
  {
    s, p := s0, p0;
    while p < |pat| && (pat[p] == '*' || pat[p] == '?')
      invariant s0 <= s <= |str| && p0 <= p <= |pat|
      invariant Star(str[s0..], pat[p0..]) == Star(str[s..], pat[p..])
    {
      assert pat[p..][1..] == pat[p + 1..];
      if pat[p] == '?' {
        StarQuestion(str[s..], pat[p..]);
        if s == |str| {
          return s, p, false;
        }
        assert str[s..][1..] == str[s + 1..];
        s := s + 1;
      } else {
        StarStar(str[s..], pat[p..]);
      }
      p := p + 1;
    }
    ok := true;
  }

  /** Tries the rest of the pattern against every nonempty end of the string. */
  method SearchEnds(str: string, pat: string, s0: nat) returns (found: bool)
    requires s0 <= |str|
    ensures found ==> Star(str[s0..], pat)
    ensures !found ==> Star(str[s0..], pat) == Matches("", pat)
    decreases |pat|, 3
  {
    for s := s0 to |str|
      invariant forall k :: s0 <= k < s ==> !Matches(str[k..], pat)
    {
      var r := CmpPat(str[s..], pat);
      if r == 0 {
        EndFound(str, pat, s0, s);
        return true;
      }
    }
    NoEndFound(str, pat, s0);
    found := false;
  }

  lemma EndFound(str: string, pat: string, s0: nat, s: nat)
    requires s0 <= s <= |str| && Matches(str[s..], pat)
    ensures Star(str[s0..], pat)
  {
    assert str[s0..][s - s0..] == str[s..];
  }

  lemma NoEndFound(str: string, pat: string, s0: nat)
    requires s0 <= |str| && forall k :: s0 <= k < |str| ==> !Matches(str[k..], pat)
    ensures Star(str[s0..], pat) == Matches("", pat)
  {
    var rest := str[s0..];
    forall k | 0 <= k < |rest| ensures !Matches(rest[k..], pat) {
      assert rest[k..] == str[s0 + k..];
    }
    assert rest[|rest|..] == "";
  }

  method CmpPat(str: string, pat: string) returns (r: int)
    ensures r == if Matches(str, pat) then 0 else -1
    decreases |pat|, 2
  {
    var s, p := 0, 0;
    while p < |pat|
      invariant 0 <= s <= |str| && 0 <= p <= |pat|
      invariant Matches(str, pat) == Matches(str[s..], pat[p..])
    {
      var more;
      s, p, more := Advance(str, pat, s, p);
      if more == Yes {
        return 0;
      } else if more == No {
        return -1;
      }
    }
    r := if s < |str| || p < |pat| then -1 else 0;
  }

  /** The turn for a star: the run after it, then the search. */
  method AdvanceStar(str: string, pat: string, s0: nat, p0: nat) returns (s: nat, p: nat, turn: Turn)
    requires s0 <= |str| && p0 < |pat| && pat[p0] == '*'
    ensures turn == Yes ==> Matches(str[s0..], pat[p0..])
    ensures turn == No ==> !Matches(str[s0..], pat[p0..])
    ensures turn == Continue ==> s <= |str| && p0 < p <= |pat|
                                 && Matches(str[s0..], pat[p0..]) == Matches(str[s..], pat[p..])
    decreases |pat|, 0
  {
    assert pat[p0..][1..] == pat[p0 + 1..];
    var ok;
    s, p, ok := SkipRun(str, pat, s0, p0 + 1);
    if !ok {
      return s, p, No;
    }
    if p == |pat| {
      StarEnd(str[s..]);
      return s, p, Yes;
    }
    ok := SearchEnds(str, pat[p..], s);
    if ok {
      return s, p, Yes;
    }
    assert str[|str|..] == "";
    return |str|, p, Continue;
  }

  /** One turn of the loop. */
  method Advance(str: string, pat: string, s0: nat, p0: nat) returns (s: nat, p: nat, turn: Turn)
    requires s0 <= |str| && p0 < |pat|
    ensures turn == Yes ==> Matches(str[s0..], pat[p0..])
    ensures turn == No ==> !Matches(str[s0..], pat[p0..])
    ensures turn == Continue ==> s <= |str| && p0 < p <= |pat|
                                 && Matches(str[s0..], pat[p0..]) == Matches(str[s..], pat[p..])
    decreases |pat|, 1
  {
    s, p, turn := s0, p0, Continue;
    assert pat[p0..][1..] == pat[p0 + 1..];
    assert s0 < |str| ==> str[s0..][1..] == str[s0 + 1..];
    if pat[p] == '?' {
      if s == |str| {
        return s, p, No;
      }
      s := s + 1;
    } else if pat[p] == '*' {
      s, p, turn := AdvanceStar(str, pat, s, p);
      return;
    } else {
      if pat[p] == '\\' {
        p := p + 1;
        if p == |pat| {
          return s, p, No;
        }
        assert pat[p0..][2..] == pat[p0 + 2..];
      }
      if s == |str| || Upper(str[s]) != Upper(pat[p]) {
        return s, p, No;
      }
      s := s + 1;
    }
    p := p + 1;
  }

  // ----- Laws of patterns -----

  /** Characters fold alike when they are equal or the two cases of one letter. */
  lemma FoldsAlike(a: char, b: char)
    ensures Upper(a) == Upper(b) <==>
              a == b || exists i :: 0 <= i < 26 && Cases(i)[0] in [a, b] && Cases(i)[1] in [a, b]
  {
    if a != b && Upper(a) == Upper(b) {
      var i := Upper(a) as int - 65;
      CasesAre(i);
      assert Cases(i)[0] in [a, b] && Cases(i)[1] in [a, b];
    }
    forall i | 0 <= i < 26
      ensures Upper(Cases(i)[0]) == Upper(Cases(i)[1])
    {
      CasesAre(i);
    }
  }

  /** The two cases of a letter. */
  function Cases(i: nat): (pair: string)
    requires i < 26
    ensures |pair| == 2
  {
    ["ABCDEFGHIJKLMNOPQRSTUVWXYZ"[i], "abcdefghijklmnopqrstuvwxyz"[i]]
  }

  lemma CasesAre(i: nat)
    requires i < 26
    ensures Cases(i)[0] as int == 65 + i && Cases(i)[1] as int == 97 + i
  {
  }

  /** A character that is neither a wildcard nor a backslash stands for itself. */
  predicate Ordinary(c: char) {
    c != '*' && c != '?' && c != '\\'
  }

  /** A pattern of such characters matches exactly its own text, up to case. */
  lemma {:induction false} PlainMatches(s: string, t: string)
    requires forall i :: 0 <= i < |t| ==> Ordinary(t[i])
    ensures Matches(s, t) <==> UpperAll(s) == UpperAll(t)
  {
    if t == "" || s == "" {
      assert |UpperAll(s)| == |s| && |UpperAll(t)| == |t|;
    } else {
      PlainMatches(s[1..], t[1..]);
      UpperCons(s);
      UpperCons(t);
    }
  }

  /** The elements of which patterns are made. */
  lemma Elements(s: string, c: char)
    ensures Matches(s, "") <==> s == ""
    ensures Matches(s, "?") <==> |s| == 1
    ensures Matches(s, "*")
    ensures Matches(s, ['\\', c]) <==> |s| == 1 && Upper(s[0]) == Upper(c)
    ensures c != '*' && c != '?' && c != '\\' ==> (Matches(s, [c]) <==> |s| == 1 && Upper(s[0]) == Upper(c))
    ensures !Matches(s, "\\")
  {
    assert "?"[1..] == "" && "*"[1..] == "" && [c][1..] == "" && ['\\', c][2..] == "";
    StarEnd(s);
  }

  /** A pattern is complete, or becomes so without its last backslash. */
  lemma {:induction false} CompleteOrNot(p: string)
    ensures Complete(p) || (p != "" && p[|p| - 1] == '\\' && Complete(p[..|p| - 1]))
    decreases |p|
  {
    if p != "" && p != "\\" {
      var n := if p[0] == '\\' then 2 else 1;
      CompleteOrNot(p[n..]);
      if p[n..] != "" {
        assert p[n..][..|p[n..]| - 1] == p[..|p| - 1][n..];
      }
    }
  }

  /** A pattern that matches exactly one string, up to case. */
  function Escape(t: string): string {
    if t == "" then "" else ['\\', t[0]] + Escape(t[1..])
  }

  lemma {:induction false} EscapeMatches(s: string, t: string)
    ensures Matches(s, Escape(t)) <==> UpperAll(s) == UpperAll(t)
  {
    if t == "" {
      assert s == "" <==> |UpperAll(s)| == 0;
    } else {
      EscapedFirst(s, t[0], Escape(t[1..]));
      if s != "" {
        EscapeMatches(s[1..], t[1..]);
        UpperCons(s);
        UpperCons(t);
      } else {
        assert |UpperAll(s)| != |UpperAll(t)|;
      }
    }
  }

  lemma EscapedFirst(s: string, c: char, p: string)
    ensures Matches(s, ['\\', c] + p) <==> s != "" && Upper(s[0]) == Upper(c) && Matches(s[1..], p)
  {
    assert (['\\', c] + p)[2..] == p;
  }

  lemma UpperCons(s: string)
    requires s != ""
    ensures UpperAll(s) == [Upper(s[0])] + UpperAll(s[1..])
  {
  }

  /** Case does not matter. */
  lemma {:induction false} MatchesAnyCase(s: string, t: string, p: string)
    requires UpperAll(s) == UpperAll(t) && Matches(s, p)
    ensures Matches(t, p)
    decreases |p|
  {
    assert |s| == |UpperAll(s)| == |t|;
    if p == "" {
    } else if p[0] == '*' {
      var k :| 0 <= k <= |s| && Matches(s[k..], p[1..]);
      SameTail(s, t, k);
      MatchesAnyCase(s[k..], t[k..], p[1..]);
    } else {
      SameTail(s, t, 1);
      assert UpperAll(s)[0] == UpperAll(t)[0];
      MatchesAnyCase(s[1..], t[1..], if p[0] == '\\' then p[2..] else p[1..]);
    }
  }

  lemma SameTail(s: string, t: string, k: nat)
    requires UpperAll(s) == UpperAll(t) && k <= |s| && |s| == |t|
    ensures UpperAll(s[k..]) == UpperAll(t[k..])
  {
    forall i | 0 <= i < |s| - k ensures UpperAll(s[k..])[i] == UpperAll(t[k..])[i] {
      assert UpperAll(s)[k + i] == UpperAll(t)[k + i];
    }
  }

  /** Every backslash has a character to take. */
  predicate Complete(p: string)
    decreases |p|
  {
    p == "" || if p[0] == '\\' then |p| > 1 && Complete(p[2..]) else Complete(p[1..])
  }

  ghost predicate Splits(s: string, p: string, q: string) {
    exists k :: 0 <= k <= |s| && Matches(s[..k], p) && Matches(s[k..], q)
  }

  /** One pattern after another matches one string after another. */
  lemma {:induction false} MatchesConcat(s: string, p: string, q: string)
    requires Complete(p)
    ensures Matches(s, p + q) <==> Splits(s, p, q)
    decreases |p|
  {
    if p == "" {
      assert p + q == q && s[..0] == "" && s[0..] == s;
      assert Matches(s[..0], p);
    } else if p[0] == '*' {
      assert (p + q)[1..] == p[1..] + q;
      StarConcat(s, p, q);
    } else {
      var n := if p[0] == '\\' then 2 else 1;
      assert (p + q)[n..] == p[n..] + q;
      if s != "" {
        MatchesConcat(s[1..], p[n..], q);
        StepConcat(s, p, q, n);
      } else {
        assert s[..0] == "";
      }
    }
  }

  /** A pattern that starts with a character of its own matches some first part of `s` as its rest does. */
  lemma StepConcat(s: string, p: string, q: string, n: nat)
    requires Complete(p) && p != "" && p[0] != '*' && s != "" && n == if p[0] == '\\' then 2 else 1
    ensures Splits(s, p, q) <==> Splits(s[1..], p[n..], q) && Matches(s[..1], p[..n])
  {
    assert s[..0] == "" && s[..1][1..] == "" && p[..n][n..] == "";
    if Splits(s, p, q) {
      var k :| 0 <= k <= |s| && Matches(s[..k], p) && Matches(s[k..], q);
      assert s[..k][1..] == s[1..][..k - 1];
      assert s[k..] == s[1..][k - 1..];
    }
    if Splits(s[1..], p[n..], q) && Matches(s[..1], p[..n]) {
      var k :| 0 <= k <= |s[1..]| && Matches(s[1..][..k], p[n..]) && Matches(s[1..][k..], q);
      assert s[..k + 1][1..] == s[1..][..k];
      assert s[k + 1..] == s[1..][k..];
      assert Matches(s[..k + 1], p);
    }
  }

  lemma {:induction false} StarConcat(s: string, p: string, q: string)
    requires Complete(p) && p != "" && p[0] == '*'
    ensures Star(s, p[1..] + q) <==> Splits(s, p, q)
    decreases |p|, 0
  {
    if Star(s, p[1..] + q) {
      var k :| 0 <= k <= |s| && Matches(s[k..], p[1..] + q);
      MatchesConcat(s[k..], p[1..], q);
      SplitsBefore(s, p, q, k);
    }
    if Splits(s, p, q) {
      var m :| 0 <= m <= |s| && Matches(s[..m], p) && Matches(s[m..], q);
      var k := SplitsAfter(s, p, q, m);
      MatchesConcat(s[k..], p[1..], q);
    }
  }

  lemma SplitsBefore(s: string, p: string, q: string, k: nat)
    requires p != "" && p[0] == '*' && k <= |s| && Splits(s[k..], p[1..], q)
    ensures Splits(s, p, q)
  {
    var j :| 0 <= j <= |s[k..]| && Matches(s[k..][..j], p[1..]) && Matches(s[k..][j..], q);
    assert s[..k + j][k..] == s[k..][..j];
    assert s[k..][j..] == s[k + j..];
    assert Matches(s[..k + j], p);
  }

  lemma SplitsAfter(s: string, p: string, q: string, m: nat) returns (k: nat)
    requires p != "" && p[0] == '*' && m <= |s| && Matches(s[..m], p) && Matches(s[m..], q)
    ensures k <= |s| && Splits(s[k..], p[1..], q)
  {
    k :| 0 <= k <= |s[..m]| && Matches(s[..m][k..], p[1..]);
    assert s[k..][..m - k] == s[..m][k..];
    assert s[k..][m - k..] == s[m..];
  }

  // ----- Lists of extensions -----

  /** The length of the part before the first semicolon. */
  function Span(ext: string): (n: nat)
    ensures n <= |ext| && (n < |ext| ==> ext[n] == ';') && forall i :: 0 <= i < n ==> ext[i] != ';'
  {
    if ext == "" || ext[0] == ';' then 0 else 1 + Span(ext[1..])
  }

  function SkipSemicolons(ext: string): (r: string)
    ensures |r| <= |ext| && (r != "" ==> r[0] != ';') && (ext != "" && ext[0] == ';' ==> |r| < |ext|)
  {
    if ext != "" && ext[0] == ';' then SkipSemicolons(ext[1..]) else ext
  }

  /** The items of a list; only its first item can be empty, when it starts with a semicolon. */
  function Items(ext: string): seq<string>
    decreases |ext|
  {
    if ext == "" then [] else [ext[..Span(ext)]] + Items(SkipSemicolons(ext[Span(ext)..]))
  }

  /** The name ends in a period followed by the item, up to case. */
  predicate HasExtension(name: string, item: string) {
    |item| < |name| && name[|name| - |item| - 1] == '.'
    && UpperAll(name[|name| - |item|..]) == UpperAll(item)
  }

  /** The comparison of two strings of the same length. */
  method CompareFolded(a: string, b: string) returns (same: bool)
    requires |a| == |b|
    ensures same <==> UpperAll(a) == UpperAll(b)
  {
    for i := 0 to |a|
      invariant forall k :: 0 <= k < i ==> Upper(a[k]) == Upper(b[k])
    {
      if Upper(a[i]) != Upper(b[i]) {
        assert UpperAll(a)[i] != UpperAll(b)[i];
        return false;
      }
    }
    assert UpperAll(a) == UpperAll(b);
    same := true;
  }

  /** The test of one item. */
  method EndsWith(name: string, item: string) returns (same: bool)
    ensures same <==> HasExtension(name, item)
  {
    same := false;
    if |item| < |name| && name[|name| - |item| - 1] == '.' {
      same := CompareFolded(name[|name| - |item|..], item);
    }
  }

  method CmpExt(name: string, ext: string) returns (r: int)
    ensures r == 0 || r == 1
    ensures r == 0 <==> ext == "" || exists item :: item in Items(ext) && HasExtension(name, item)
  {
    if ext == "" {
      return 0;
    }
    var start := ext;
    while start != ""
      invariant forall item | item in Items(ext) :: item in Items(start) || !HasExtension(name, item)
      invariant forall item | item in Items(start) :: item in Items(ext)
      decreases |start|
    {
      var n := Span(start);
      var item := start[..n];
      assert Items(start) == [item] + Items(SkipSemicolons(start[n..]));
      var same := EndsWith(name, item);
      if same {
        assert item in Items(ext);
        return 0;
      }
      start := SkipSemicolons(start[n..]);
    }
    r := 1;
  }

  function Join(items: seq<string>): string {
    if items == [] then "" else if |items| == 1 then items[0] else items[0] + ";" + Join(items[1..])
  }

  lemma {:induction false} SpanOfItem(item: string, rest: string)
    requires ';' !in item && (rest == "" || rest[0] == ';')
    ensures Span(item + rest) == |item|
  {
    if item != "" {
      assert (item + rest)[1..] == item[1..] + rest;
      SpanOfItem(item[1..], rest);
    } else {
      assert item + rest == rest;
    }
  }

  /** Any number of semicolons ends an item; an item in front of the first one is never left out. */
  lemma ItemsSplit(item: string, semicolons: string, rest: string)
    requires ';' !in item && (rest != "" ==> rest[0] != ';') && (item != "" || semicolons != "")
    requires (forall i :: 0 <= i < |semicolons| ==> semicolons[i] == ';') && (semicolons == "" ==> rest == "")
    ensures Items("") == []
    ensures Items(item + (semicolons + rest)) == [item] + Items(rest)
  {
    var ext := item + (semicolons + rest);
    SpanOfItem(item, semicolons + rest);
    assert ext[..|item|] == item && ext[|item|..] == semicolons + rest;
    SkipAll(semicolons, rest);
  }

  lemma {:induction false} SkipAll(semicolons: string, rest: string)
    requires (rest != "" ==> rest[0] != ';') && forall i :: 0 <= i < |semicolons| ==> semicolons[i] == ';'
    ensures SkipSemicolons(semicolons + rest) == rest
  {
    if semicolons == "" {
      assert semicolons + rest == rest;
    } else {
      assert (semicolons + rest)[1..] == semicolons[1..] + rest;
      SkipAll(semicolons[1..], rest);
    }
  }

  /** The name consists of something, a period, and the item up to case. */
  lemma ExtensionIs(name: string, item: string)
    ensures HasExtension(name, item) <==>
              exists base, end :: name == base + "." + end && UpperAll(end) == UpperAll(item)
  {
    if HasExtension(name, item) {
      var k := |name| - |item| - 1;
      assert name == name[..k] + "." + name[k + 1..];
    }
    if base, end :| name == base + "." + end && UpperAll(end) == UpperAll(item) {
      assert |end| == |UpperAll(end)| == |item|;
      assert name[|name| - |item|..] == end;
    }
  }

  /** A list that joins nonempty items with semicolons has just these items. */
  lemma {:induction false} ItemsOfJoin(items: seq<string>)
    requires forall i :: 0 <= i < |items| ==> items[i] != "" && ';' !in items[i]
    ensures Items(Join(items)) == items
  {
    if items != [] {
      var rest := if |items| == 1 then "" else ";" + Join(items[1..]);
      assert Join(items) == items[0] + rest;
      SpanOfItem(items[0], rest);
      assert (items[0] + rest)[|items[0]|..] == rest;
      ItemsOfJoin(items[1..]);
      if |items| > 1 {
        var next := Join(items[1..]);
        assert next != "" && next[0] == items[1][0] && items[1][0] in items[1];
        assert rest[1..] == next;
        assert SkipSemicolons(next) == next;
      }
    }
  }

  /** An item written with its period asks for two periods in the name. */
  lemma ItemWithPeriod(name: string, item: string)
    ensures HasExtension(name, "." + item) <==>
              HasExtension(name, item) && |item| + 1 < |name| && name[|name| - |item| - 2] == '.'
  {
    var n := |name| - |item|;
    if n >= 2 {
      assert name[n - 1..] == [name[n - 1]] + name[n..];
      FoldedCons(name[n - 1], name[n..], '.', item);
      assert ['.'] + item == "." + item;
    }
  }

  lemma FoldedCons(a: char, s: string, b: char, t: string)
    ensures UpperAll([a] + s) == UpperAll([b] + t) <==> Upper(a) == Upper(b) && UpperAll(s) == UpperAll(t)
  {
    assert UpperAll([a] + s) == [Upper(a)] + UpperAll(s);
    assert UpperAll([b] + t) == [Upper(b)] + UpperAll(t);
    assert ([Upper(a)] + UpperAll(s))[1..] == UpperAll(s) && ([Upper(b)] + UpperAll(t))[1..] == UpperAll(t);
  }
}
