/**
  The text of HTTP headers (ptp/net.cpp): where a header ends, what is read from it, and what a
  response's header looks like. Text is a string of bytes that may contain zero bytes; the C
  functions see it only up to the first of these.
 */
module PtpHttp {
  import opened Common

  const BAD_REQUEST := 400

  const BLANK := "\r\n\r\n"
  const BARE := "\n\n"

  // ----- Searching -----

  predicate At(s: string, pat: string, i: int) {
    0 <= i && i + |pat| <= |s| && s[i..i + |pat|] == pat
  }

  lemma AtChar(s: string, pat: string, i: int, k: nat)
    requires k < |pat|
    ensures At(s, pat, i) ==> s[i + k] == pat[k]
  {
    if At(s, pat, i) {
      assert s[i + k] == s[i..i + |pat|][k];
    }
  }

  /** A place splits the text around the pattern. */
  lemma AtIs(s: string, pat: string, i: int)
    ensures At(s, pat, i) <==> exists a, b :: s == a + pat + b && |a| == i
  {
    if At(s, pat, i) {
      assert s == s[..i] + pat + s[i + |pat|..];
    }
  }

  lemma PlaceOfRest(s: string, pat: string, i: int)
    requires s != "" && 0 < i
    ensures At(s, pat, i) == At(s[1..], pat, i - 1)
  {
    if i + |pat| <= |s| {
      assert s[i..i + |pat|] == s[1..][i - 1..i - 1 + |pat|];
    }
  }

  lemma PlacesOfRest(s: string, pat: string)
    requires s != ""
    ensures forall i :: 0 < i ==> At(s, pat, i) == At(s[1..], pat, i - 1)
  {
    forall i | 0 < i
      ensures At(s, pat, i) == At(s[1..], pat, i - 1)
    {
      PlaceOfRest(s, pat, i);
    }
  }

  /** strstr: the first place, or -1. */
  function Pos(s: string, pat: string): (r: int)
    ensures -1 <= r
    ensures r >= 0 ==> At(s, pat, r)
    ensures forall i :: 0 <= i && (r == -1 || i < r) ==> !At(s, pat, i)
  {
    if |s| < |pat| then -1
    else if pat <= s then 0
    else
      PlacesOfRest(s, pat);
      var r := Pos(s[1..], pat);
      if r < 0 then -1 else r + 1
  }

  lemma PosIs(s: string, pat: string, k: int)
    requires At(s, pat, k) && forall i :: 0 <= i < k ==> !At(s, pat, i)
    ensures Pos(s, pat) == k
  {
    var r := Pos(s, pat);
    assert r != -1 ==> At(s, pat, r);
    assert k < r || r == -1 ==> !At(s, pat, k);
  }

  lemma PosNone(s: string, pat: string)
    requires forall i :: 0 <= i ==> !At(s, pat, i)
    ensures Pos(s, pat) == -1
  {
    assert Pos(s, pat) >= 0 ==> At(s, pat, Pos(s, pat));
  }

  lemma AtPrefix(s: string, n: nat, pat: string, i: int)
    requires n <= |s|
    ensures At(s[..n], pat, i) <==> At(s, pat, i) && i + |pat| <= n
  {
    if 0 <= i && i + |pat| <= n {
      assert s[..n][i..i + |pat|] == s[i..i + |pat|];
    }
  }

  /** A search in a first part finds what a search in the whole does, if that part reaches it. */
  lemma PosPrefix(s: string, n: nat, pat: string)
    requires n <= |s|
    ensures Pos(s[..n], pat) == if Pos(s, pat) >= 0 && Pos(s, pat) + |pat| <= n then Pos(s, pat) else -1
  {
    var k := Pos(s, pat);
    forall i | 0 <= i ensures At(s[..n], pat, i) <==> At(s, pat, i) && i + |pat| <= n {
      AtPrefix(s, n, pat, i);
    }
    if k >= 0 && k + |pat| <= n {
      PosIs(s[..n], pat, k);
    } else {
      PosNone(s[..n], pat);
    }
  }

  /** The text before the first zero byte. */
  function CText(s: string): (r: string)
    ensures |r| <= |s| && r == s[..|r|]
    ensures |r| < |s| ==> s[|r|] == '\0'
    ensures forall i :: 0 <= i < |r| ==> s[i] != '\0'
  {
    s[..StrLen(s, '\0')]
  }

  lemma CTextIs(s: string, n: nat)
    requires n <= |s| && (n < |s| ==> s[n] == '\0') && forall i :: 0 <= i < n ==> s[i] != '\0'
    ensures CText(s) == s[..n]
  {
    assert StrLen(s, '\0') == n;
  }

  lemma CTextPrefix(s: string, n: nat)
    requires n <= |s|
    ensures CText(s[..n]) == if n <= |CText(s)| then s[..n] else CText(s)
  {
    var m := |CText(s)|;
    if n <= m {
      CTextIs(s[..n], n);
    } else {
      CTextIs(s[..n], m);
      assert s[..n][..m] == s[..m];
    }
  }

  // ----- Where a header ends -----

  /** Where the first occurrence ends, or -1. */
  function Ends(c: string, pat: string): (r: int)
    ensures r == -1 || |pat| <= r <= |c|
  {
    if Pos(c, pat) >= 0 then Pos(c, pat) + |pat| else -1
  }

  lemma EndsPrefix(c: string, n: nat, pat: string)
    requires n <= |c|
    ensures Ends(c[..n], pat) == if Ends(c, pat) <= n then Ends(c, pat) else -1
  {
    PosPrefix(c, n, pat);
  }

  function Either(blank: int, bare: int): int {
    if blank >= 0 then blank else bare
  }

  /** The end of a header that starts the text, or -1: after a blank line, or else after two bare newlines. */
  function End(s: string): (r: int)
    ensures r == -1 || 2 <= r <= |s|
  {
    var c := CText(s);
    Either(Ends(c, BLANK), Ends(c, BARE))
  }

  /** The first blank line counts, also behind two bare newlines, which count only without one. */
  lemma EndIs(s: string)
    ensures var blank, bare := Pos(CText(s), "\r\n\r\n"), Pos(CText(s), "\n\n");
            End(s) == if blank != -1 then blank + 4 else if bare != -1 then bare + 2 else -1
  {
  }

  function Within(end: int, n: nat): int {
    if end <= n then end else -1
  }

  lemma EndPrefixIn(s: string, n: nat, c: string)
    requires n <= |s| && c == CText(s)
    ensures End(s[..n]) == Either(Within(Ends(c, BLANK), n), Within(Ends(c, BARE), n))
  {
    CTextPrefix(s, n);
    if n <= |c| {
      assert c[..n] == s[..n];
      EndsPrefix(c, n, BLANK);
      EndsPrefix(c, n, BARE);
    }
  }

  /** The end found in a first part of the text. */
  lemma EndPrefix(s: string, n: nat)
    requires n <= |s|
    ensures End(s[..n]) == Either(Within(Ends(CText(s), BLANK), n), Within(Ends(CText(s), BARE), n))
  {
    EndPrefixIn(s, n, CText(s));
  }

  /** Two bare newlines end before the first blank line does, both in sight. */
  predicate BareFirst(s: string) {
    0 <= Ends(CText(s), BARE) < Ends(CText(s), BLANK)
  }

  /** However much of the text is at hand, the header found in it is the same. */
  ghost predicate Uniform(s: string) {
    forall n :: 0 <= n <= |s| ==> End(s[..n]) in {-1, End(s)}
  }

  /** Headers depend on how the text arrives exactly when two bare newlines come first. */
  lemma UniformUnlessBareFirst(s: string)
    ensures Uniform(s) <==> !BareFirst(s)
  {
    var blank, bare := Ends(CText(s), BLANK), Ends(CText(s), BARE);
    if BareFirst(s) {
      EndPrefix(s, bare);
      assert End(s[..bare]) == bare;
      assert End(s) == blank;
    } else {
      forall n | 0 <= n <= |s| ensures End(s[..n]) in {-1, End(s)} {
        EndPrefix(s, n);
      }
    }
  }

  // ----- Headers made of lines -----

  function Text(lines: seq<string>): string {
    if lines == [] then "" else lines[0] + "\r\n" + Text(lines[1..])
  }

  predicate IsPlain(s: string) {
    forall i :: 0 <= i < |s| ==> s[i] != '\r' && s[i] != '\n' && s[i] != '\0'
  }

  predicate IsLine(s: string) {
    s != "" && IsPlain(s)
  }

  ghost predicate AllLines(lines: seq<string>) {
    forall i :: 0 <= i < |lines| ==> IsLine(lines[i])
  }

  /** Newlines end lines, and lines are not empty. */
  ghost predicate Ruled(t: string) {
    (t != "" ==> |t| >= 2 && t[|t| - 2] == '\r' && t[|t| - 1] == '\n' && t[0] != '\r' && t[0] != '\n')
    && (forall i :: 0 <= i < |t| ==> t[i] != '\0')
    && (forall i :: 0 <= i < |t| - 1 && t[i] == '\n' ==> t[i + 1] != '\r' && t[i + 1] != '\n')
  }

  lemma RuledCons(line: string, t: string)
    requires IsLine(line) && Ruled(t)
    ensures Ruled(line + "\r\n" + t)
  {
    var s := line + "\r\n" + t;
    var k := |line| + 2;
    assert forall i :: k <= i < |s| ==> s[i] == t[i - k];
    assert forall i :: 0 <= i < |line| ==> s[i] == line[i];
  }

  lemma {:induction false} TextRuled(lines: seq<string>)
    requires AllLines(lines)
    ensures Ruled(Text(lines))
  {
    if lines != [] {
      TextRuled(lines[1..]);
      RuledCons(lines[0], Text(lines[1..]));
    }
  }

  /** A header of such lines ends where it should, whatever follows and however it arrives. */
  lemma RuledEnd(t: string, body: string)
    requires Ruled(t) && t != ""
    ensures End(t + "\r\n" + body) == |t| + 2 && !BareFirst(t + "\r\n" + body)
  {
    var s := t + "\r\n" + body;
    var c := CText(s);
    assert forall i :: 0 <= i < |t| ==> s[i] == t[i];
    RuledPlaces(t, c);
    PosIs(c, BLANK, |t| - 2);
    var b := Pos(c, BARE);
    assert b >= 0 ==> At(c, BARE, b);
  }

  lemma RuledPlaces(t: string, c: string)
    requires Ruled(t) && t != "" && t + "\r\n" <= c
    ensures At(c, BLANK, |t| - 2)
    ensures forall i :: 0 <= i < |t| - 2 ==> !At(c, BLANK, i)
    ensures forall i :: 0 <= i <= |t| ==> !At(c, BARE, i)
  {
    assert forall i :: 0 <= i < |t| ==> c[i] == t[i];
    assert c[|t|] == '\r' && c[|t| + 1] == '\n' by {
      assert c[|t|] == (t + "\r\n")[|t|];
      assert c[|t| + 1] == (t + "\r\n")[|t| + 1];
    }
    forall i | 0 <= i < |t| - 2 ensures !At(c, BLANK, i) {
      AtChar(c, BLANK, i, 1);
      AtChar(c, BLANK, i, 2);
    }
    forall i | 0 <= i <= |t| ensures !At(c, BARE, i) {
      AtChar(c, BARE, i, 0);
      AtChar(c, BARE, i, 1);
    }
  }

  // ----- Numbers -----

  predicate IsDigit(c: char) {
    '0' <= c <= '9'
  }

  predicate IsSpace(c: char) {
    c == ' ' || 9 <= c as int <= 13
  }

  function DigitChar(d: nat): (c: char)
    requires d < 10
    ensures IsDigit(c) && c as int == d + 48
  {
    (d + 48) as char
  }

  function Natural(n: nat): (s: string)
    ensures s != "" && forall i :: 0 <= i < |s| ==> IsDigit(s[i])
  {
    if n < 10 then [DigitChar(n)] else Natural(n / 10) + [DigitChar(n % 10)]
  }

  /** The format %d. */
  function Decimal(n: int): (s: string)
    ensures IsLine(s)
  {
    if n < 0 then "-" + Natural(-n) else Natural(n)
  }

  /** The digits that start a text. */
  function Digits(s: string): (r: string)
    ensures |r| <= |s| && forall i :: 0 <= i < |r| ==> IsDigit(r[i])
  {
    if s == "" || !IsDigit(s[0]) then "" else [s[0]] + Digits(s[1..])
  }

  function Value(s: string): nat
    requires forall i :: 0 <= i < |s| ==> IsDigit(s[i])
  {
    if s == "" then 0 else
      assert IsDigit(s[|s| - 1]);
      var d := s[|s| - 1] as int - 48;
      Value(s[..|s| - 1]) * 10 + d
  }

  function SkipSpaces(s: string): string {
    if s != "" && IsSpace(s[0]) then SkipSpaces(s[1..]) else s
  }

  /** strtoul in base 10, then a conversion to int: spaces, a sign, digits. Overflow is left out. */
  function Parse(s: string): int {
    Signed(SkipSpaces(s))
  }

  function Signed(t: string): int {
    if t != "" && t[0] == '-' then 0 - Value(Digits(t[1..]))
    else if t != "" && t[0] == '+' then Value(Digits(t[1..]))
    else Value(Digits(t))
  }

  lemma {:induction false} DigitsStop(s: string, rest: string)
    requires (forall i :: 0 <= i < |s| ==> IsDigit(s[i])) && (rest == "" || !IsDigit(rest[0]))
    ensures Digits(s + rest) == s
  {
    if s == "" {
      assert s + rest == rest;
    } else {
      assert (s + rest)[1..] == s[1..] + rest;
      DigitsStop(s[1..], rest);
    }
  }

  lemma {:induction false} ValueNatural(n: nat)
    ensures Value(Natural(n)) == n
  {
    if n < 10 {
      assert Natural(n)[..0] == "";
    } else {
      ValueNatural(n / 10);
      assert Natural(n)[..|Natural(n)| - 1] == Natural(n / 10);
    }
  }

  lemma SignedNatural(m: nat, s: string, rest: string)
    requires s == Natural(m) && (rest == "" || !IsDigit(rest[0]))
    ensures Signed(s + rest) == m && Signed("-" + s + rest) == 0 - m
  {
    DigitsStop(s, rest);
    ValueNatural(m);
    assert (s + rest)[0] == s[0];
    assert ("-" + s + rest)[1..] == s + rest;
  }

  lemma SkipNone(s: string)
    requires s != "" && !IsSpace(s[0])
    ensures SkipSpaces(s) == s && SkipSpaces(" " + s) == s
  {
    assert (" " + s)[1..] == s;
  }

  /** What was printed is read back, after a space or not. */
  lemma ParseDecimal(n: int, rest: string)
    requires rest == "" || !IsDigit(rest[0])
    ensures Parse(Decimal(n) + rest) == n && Parse(" " + Decimal(n) + rest) == n
  {
    var s := Decimal(n);
    var m := if n < 0 then -n else n;
    SignedNatural(m, Natural(m), rest);
    assert s != "" && (s + rest)[0] == s[0];
    SkipNone(s + rest);
    assert " " + s + rest == " " + (s + rest);
  }

  // ----- What is read from a header -----

  /** strcspn with one space. */
  function ToSpace(s: string): string {
    if s != "" && s[0] != ' ' then ToSpace(s[1..]) else s
  }

  /** strspn with one space. */
  function OverSpaces(s: string): string {
    if s != "" && s[0] == ' ' then OverSpaces(s[1..]) else s
  }

  function StatusOf(h: string): int {
    if !("HTTP" <= h) then BAD_REQUEST else
      var st := OverSpaces(ToSpace(h));
      if st != "" && IsDigit(st[0]) then Parse(st) else BAD_REQUEST
  }

  const LENGTH_FIELD := "Content-length:"
  const LENGTH_FIELD_ALSO := "Content-Length:"

  function ContentOf(h: string): int {
    var a := Pos(h, "\n" + LENGTH_FIELD);
    var p := if a >= 0 then a else Pos(h, "\n" + LENGTH_FIELD_ALSO);
    if p < 0 then -1 else Parse(h[p + 16..])
  }

  // ----- Responses -----

  function Reason(status: int): (s: string)
    ensures IsPlain(s) && (s == "" || !IsDigit(s[0]))
  {
    match status
    case 200 => " OK"
    case 400 => " Bad request"
    case 401 => " Unauthorized"
    case 404 => " Not found"
    case _ => ""
  }

  /** The header WriteHttp prints. */
  function Response(status: int, hdr: string, kind: string, size: int): string {
    "HTTP " + Decimal(status) + Reason(status) + "\r\n" + hdr
    + (if size != 0 then "Content-type: " + kind + "\r\n" + "Content-length: " + Decimal(size) + "\r\n" else "")
    + "\r\n"
  }

  /** The response as it is printed, line by line. */
  lemma ResponseIs(status: int, hdr: string, kind: string, size: int)
    ensures var sizes := if size == 0 then []
                         else ["Content-type: " + kind, "Content-length: " + Decimal(size)];
            Response(status, hdr, kind, size) == StatusLine(status) + "\r\n" + hdr + Text(sizes) + "\r\n"
  {
    SizeText(kind, size);
  }

  lemma StatusLineIs(status: int)
    ensures StatusLine(status) == "HTTP " + match status
              case 200 => "200" + " OK"
              case 400 => "400" + " Bad request"
              case 401 => "401" + " Unauthorized"
              case 404 => "404" + " Not found"
              case _ => Decimal(status)
  {
    SmallDecimals();
    StatusLineParts(Decimal(status), Reason(status));
  }

  lemma StatusLineParts(a: string, b: string)
    ensures "HTTP " + a + b == "HTTP " + (a + b) && a + "" == a
  {
  }

  /** The numbers that have a reason of their own. */
  lemma SmallDecimals()
    ensures Decimal(200) == "200" && Decimal(400) == "400" && Decimal(401) == "401" && Decimal(404) == "404"
  {
    assert Natural(2) == "2" && Natural(4) == "4";
    assert Natural(20) == Natural(2) + "0" && Natural(40) == Natural(4) + "0";
    assert Natural(200) == Natural(20) + "0" && Natural(400) == Natural(40) + "0";
    assert Natural(401) == Natural(40) + "1" && Natural(404) == Natural(40) + "4";
  }

  function StatusLine(status: int): string {
    "HTTP " + Decimal(status) + Reason(status)
  }

  function SizeLines(kind: string, size: int): seq<string> {
    if size != 0 then ["Content-type: " + kind, "Content-length: " + Decimal(size)] else []
  }

  lemma {:induction false} TextConcat(a: seq<string>, b: seq<string>)
    ensures Text(a + b) == Text(a) + Text(b)
  {
    if a == [] {
      assert a + b == b;
    } else {
      assert (a + b)[1..] == a[1..] + b;
      TextConcat(a[1..], b);
    }
  }

  function ResponseLines(status: int, extra: seq<string>, kind: string, size: int): seq<string> {
    [StatusLine(status)] + extra + SizeLines(kind, size)
  }

  lemma SizeText(kind: string, size: int)
    ensures Text(SizeLines(kind, size))
         == if size != 0 then "Content-type: " + kind + "\r\n" + "Content-length: " + Decimal(size) + "\r\n" else ""
  {
    if size != 0 {
      var a, b := "Content-type: " + kind, "Content-length: " + Decimal(size);
      assert [a, b][1..] == [b] && [b][1..] == [];
      assert Text([b]) == b + "\r\n";
    }
  }

  /** A response's header is made of lines when the extra header is. */
  lemma ResponseIsText(status: int, extra: seq<string>, kind: string, size: int)
    ensures Response(status, Text(extra), kind, size) == Text(ResponseLines(status, extra, kind, size)) + "\r\n"
  {
    TextConcat([StatusLine(status)] + extra, SizeLines(kind, size));
    TextConcat([StatusLine(status)], extra);
    assert Text([StatusLine(status)]) == StatusLine(status) + "\r\n" by {
      assert [StatusLine(status)][1..] == [];
    }
    SizeText(kind, size);
  }

  // ----- Reading a response's header back -----

  lemma PosSkip(p: string, s: string, pat: string)
    requires forall i :: 0 <= i < |p| ==> !At(p + s, pat, i)
    ensures Pos(p + s, pat) == if Pos(s, pat) < 0 then -1 else |p| + Pos(s, pat)
  {
    var w := p + s;
    forall i | |p| <= i ensures At(w, pat, i) == At(s, pat, i - |p|) {
      if i + |pat| <= |w| {
        assert w[i..i + |pat|] == s[i - |p|..i - |p| + |pat|];
      }
    }
    if Pos(s, pat) < 0 {
      PosNone(w, pat);
    } else {
      PosIs(w, pat, |p| + Pos(s, pat));
    }
  }

  /** A key, without line ends of its own, starts the rest of a header only if it starts its next line. */
  lemma KeyInLine(key: string, line: string, rest: string)
    requires IsPlain(key) && key <= line + "\r\n" + rest
    ensures key <= line
  {
    var s := line + "\r\n" + rest;
    assert s[|line|] == '\r' && s[..|line|] == line;
  }

  /** A newline followed by a key is not inside a line, nor before a line that starts otherwise. */
  lemma NotInLine(line: string, s: string, key: string, i: nat)
    requires IsPlain(line) && !(key <= s) && i < |line| + 2
    ensures !At(line + "\r\n" + s, "\n" + key, i)
  {
    var w := line + "\r\n" + s;
    AtChar(w, "\n" + key, i, 0);
    assert i < |line| ==> w[i] == line[i];
    KeyAfter(line, s, key);
  }

  lemma KeyAfter(line: string, s: string, key: string)
    ensures At(line + "\r\n" + s, "\n" + key, |line| + 1) <==> key <= s
  {
    var w := line + "\r\n" + s;
    var i := |line| + 1;
    assert w[i..] == "\n" + s;
    assert At(w, "\n" + key, i) <==> "\n" + key <= "\n" + s by {
      assert i + 1 + |key| <= |w| ==> w[i..i + 1 + |key|] == w[i..][..1 + |key|];
    }
    assert |key| <= |s| ==> ("\n" + s)[..1 + |key|] == "\n" + s[..|key|];
    assert ("\n" + key)[1..] == key;
    assert key <= s ==> s[..|key|] == key;
    assert "\n" + key <= "\n" + s ==> ("\n" + s)[..1 + |key|][1..] == key;
  }

  ghost predicate NoneStarts(lines: seq<string>, key: string) {
    forall i :: 0 <= i < |lines| ==> !(key <= lines[i])
  }

  lemma TextStart(lines: seq<string>, key: string)
    requires IsPlain(key) && key != "" && AllLines(lines) && (lines != [] ==> !(key <= lines[0]))
    ensures !(key <= Text(lines) + "\r\n")
  {
    var rest := if lines == [] then "" else Text(lines[1..]) + "\r\n";
    var line := if lines == [] then "" else lines[0];
    assert Text(lines) + "\r\n" == line + "\r\n" + rest;
    if key <= line + "\r\n" + rest {
      KeyInLine(key, line, rest);
    }
  }

  /** No field is found when no line after the first starts with its key. */
  lemma {:induction false} FieldMissing(lines: seq<string>, key: string)
    requires IsPlain(key) && key != "" && AllLines(lines) && lines != [] && NoneStarts(lines[1..], key)
    ensures Pos(Text(lines) + "\r\n", "\n" + key) == -1
  {
    var s := Text(lines[1..]) + "\r\n";
    assert Text(lines) + "\r\n" == lines[0] + "\r\n" + s;
    TextStart(lines[1..], key);
    forall i: nat | i < |lines[0]| + 2 ensures !At(lines[0] + "\r\n" + s, "\n" + key, i) {
      NotInLine(lines[0], s, key, i);
    }
    PosSkip(lines[0] + "\r\n", s, "\n" + key);
    if |lines| == 1 {
      PosNone("\r\n", "\n" + key);
    } else {
      FieldMissing(lines[1..], key);
    }
  }

  ghost predicate FieldAt(t: string, key: string, after: string) {
    var p := Pos(t, "\n" + key);
    p >= 0 && p + 1 + |key| <= |t| && t[p + 1 + |key|..] == after
  }

  lemma FieldNext(line: string, key: string, value: string)
    requires IsPlain(line) && IsPlain(key)
    ensures FieldAt(line + "\r\n" + (key + value), key, value)
  {
    var w := line + "\r\n" + (key + value);
    forall i | 0 <= i < |line| + 1 ensures !At(w, "\n" + key, i) {
      AtChar(w, "\n" + key, i, 0);
      assert i < |line| ==> w[i] == line[i];
    }
    KeyAfter(line, key + value, key);
    PosIs(w, "\n" + key, |line| + 1);
  }

  lemma FieldLater(line: string, s: string, key: string, after: string)
    requires IsPlain(line) && IsPlain(key) && !(key <= s) && FieldAt(s, key, after)
    ensures FieldAt(line + "\r\n" + s, key, after)
  {
    var w := line + "\r\n" + s;
    forall i: nat | i < |line| + 2 ensures !At(w, "\n" + key, i) {
      NotInLine(line, s, key, i);
    }
    PosSkip(line + "\r\n", s, "\n" + key);
    var p := Pos(s, "\n" + key);
    assert w[|line| + 2 + p + 1 + |key|..] == s[p + 1 + |key|..];
  }

  /** The field of the last line is found when no other line after the first starts with its key. */
  lemma {:induction false} FieldFound(lines: seq<string>, key: string, value: string)
    requires IsPlain(key) && key != "" && AllLines(lines) && lines != [] && NoneStarts(lines[1..], key)
    ensures FieldAt(Text(lines) + (key + value), key, value)
  {
    if |lines| == 1 {
      assert Text(lines) + (key + value) == lines[0] + "\r\n" + (key + value);
      FieldNext(lines[0], key, value);
    } else {
      var s := Text(lines[1..]) + (key + value);
      FieldFound(lines[1..], key, value);
      assert Text(lines) + (key + value) == lines[0] + "\r\n" + s;
      var rest := Text(lines[2..]) + (key + value);
      assert lines[1..][1..] == lines[2..] && s == lines[1] + "\r\n" + rest;
      if key <= s {
        KeyInLine(key, lines[1], rest);
      }
      FieldLater(lines[0], s, key, value);
    }
  }

  lemma {:induction false} SkipWord(word: string, rest: string)
    requires ' ' !in word && rest != "" && rest[0] == ' '
    ensures ToSpace(word + rest) == rest
  {
    if word != "" {
      assert (word + rest)[1..] == word[1..] + rest;
      SkipWord(word[1..], rest);
    } else {
      assert word + rest == rest;
    }
  }

  lemma StatusOfText(dec: string, tail: string)
    requires dec != "" && dec[0] != ' '
    ensures StatusOf("HTTP " + dec + tail) == if IsDigit(dec[0]) then Parse(dec + tail) else BAD_REQUEST
  {
    var st := dec + tail;
    var h := "HTTP " + dec + tail;
    assert h == "HTTP" + (" " + st) && h[..4] == "HTTP";
    SkipWord("HTTP", " " + st);
    assert (" " + st)[1..] == st && st[0] == dec[0];
    assert OverSpaces(st) == st;
    assert OverSpaces(" " + st) == st;
  }

  lemma Regroup(a: string, b: string, c: string, d: string, e: string, f: string, g: string)
    ensures a + b + c + d + e + f + g == a + b + (c + d + (e + f + g))
  {
  }

  /** The status is recovered exactly when it is not negative. */
  lemma StatusReadBack(status: int, extra: seq<string>, kind: string, size: int)
    ensures StatusOf(Response(status, Text(extra), kind, size)) == if status >= 0 then status else BAD_REQUEST
  {
    var dec := Decimal(status);
    var sizes := Text(SizeLines(kind, size));
    var tail := Reason(status) + "\r\n" + (Text(extra) + sizes + "\r\n");
    SizeText(kind, size);
    Regroup("HTTP ", dec, Reason(status), "\r\n", Text(extra), sizes, "\r\n");
    StatusOfText(dec, tail);
    ParseDecimal(status, tail);
  }

  lemma ContentFound(h: string, value: string)
    requires FieldAt(h, LENGTH_FIELD, value)
    ensures ContentOf(h) == Parse(value)
  {
  }

  /** A size that is not 0 is recovered; without one the answer is -1. */
  lemma SizeReadBack(status: int, extra: seq<string>, kind: string, size: int)
    requires AllLines(extra) && IsPlain(kind)
    requires NoneStarts(extra, LENGTH_FIELD) && (size == 0 ==> NoneStarts(extra, LENGTH_FIELD_ALSO))
    ensures ContentOf(Response(status, Text(extra), kind, size)) == if size != 0 then size else -1
  {
    if size == 0 {
      NoSizeReadBack(status, extra, kind);
    } else {
      var front := [StatusLine(status)] + extra + ["Content-type: " + kind];
      var value := " " + Decimal(size) + "\r\n\r\n";
      FrontLines(status, extra, kind);
      KeysArePlain();
      ResponseFront(status, extra, kind, size);
      FieldFound(front, LENGTH_FIELD, value);
      ContentFound(Response(status, Text(extra), kind, size), value);
      ParseDecimal(size, "\r\n\r\n");
    }
  }

  lemma NoSizeReadBack(status: int, extra: seq<string>, kind: string)
    requires AllLines(extra) && NoneStarts(extra, LENGTH_FIELD) && NoneStarts(extra, LENGTH_FIELD_ALSO)
    ensures ContentOf(Response(status, Text(extra), kind, 0)) == -1
  {
    var lines := [StatusLine(status)] + extra;
    ResponseIsText(status, extra, kind, 0);
    assert ResponseLines(status, extra, kind, 0) == lines;
    assert lines[1..] == extra;
    StatusLineIsLine(status);
    AllLinesConcat([StatusLine(status)], extra);
    KeysArePlain();
    FieldMissing(lines, LENGTH_FIELD);
    FieldMissing(lines, LENGTH_FIELD_ALSO);
  }

  lemma KeysArePlain()
    ensures IsPlain(LENGTH_FIELD) && IsPlain(LENGTH_FIELD_ALSO)
  {
  }

  lemma OtherField(kind: string)
    ensures !(LENGTH_FIELD <= "Content-type: " + kind)
  {
    assert ("Content-type: " + kind)[8] == 't' && LENGTH_FIELD[8] == 'l';
  }

  lemma AllLinesConcat(a: seq<string>, b: seq<string>)
    requires AllLines(a) && AllLines(b)
    ensures AllLines(a + b)
  {
  }

  lemma NoneStartsConcat(a: seq<string>, b: seq<string>, key: string)
    requires NoneStarts(a, key) && NoneStarts(b, key)
    ensures NoneStarts(a + b, key)
  {
  }

  lemma PlainConcat(a: string, b: string)
    requires IsPlain(a) && IsPlain(b)
    ensures IsPlain(a + b)
  {
  }

  lemma StatusLineIsLine(status: int)
    ensures AllLines([StatusLine(status)])
  {
    PlainConcat("HTTP ", Decimal(status));
    PlainConcat("HTTP " + Decimal(status), Reason(status));
  }

  lemma TypeIsLine(kind: string)
    requires IsPlain(kind)
    ensures AllLines(["Content-type: " + kind])
  {
    PlainConcat("Content-type: ", kind);
  }

  lemma LengthIsLine(size: int)
    ensures AllLines(["Content-length: " + Decimal(size)])
  {
    PlainConcat("Content-length: ", Decimal(size));
  }

  lemma ResponseAllLines(status: int, extra: seq<string>, kind: string, size: int)
    requires AllLines(extra) && IsPlain(kind)
    ensures AllLines(ResponseLines(status, extra, kind, size))
  {
    StatusLineIsLine(status);
    AllLinesConcat([StatusLine(status)], extra);
    SizesAreLines(kind, size);
    AllLinesConcat([StatusLine(status)] + extra, SizeLines(kind, size));
  }

  lemma SizesAreLines(kind: string, size: int)
    requires IsPlain(kind)
    ensures AllLines(SizeLines(kind, size))
  {
    TypeIsLine(kind);
    LengthIsLine(size);
    AllLinesConcat(["Content-type: " + kind], ["Content-length: " + Decimal(size)]);
    assert ["Content-type: " + kind] + ["Content-length: " + Decimal(size)]
        == ["Content-type: " + kind, "Content-length: " + Decimal(size)];
  }

  lemma FrontLines(status: int, extra: seq<string>, kind: string)
    requires AllLines(extra) && IsPlain(kind) && NoneStarts(extra, LENGTH_FIELD)
    ensures var front := [StatusLine(status)] + extra + ["Content-type: " + kind];
            AllLines(front) && NoneStarts(front[1..], LENGTH_FIELD)
  {
    var kinds := ["Content-type: " + kind];
    StatusLineIsLine(status);
    AllLinesConcat([StatusLine(status)], extra);
    TypeIsLine(kind);
    AllLinesConcat([StatusLine(status)] + extra, kinds);
    OtherField(kind);
    NoneStartsConcat(extra, kinds, LENGTH_FIELD);
    assert ([StatusLine(status)] + extra + kinds)[1..] == extra + kinds;
  }

  lemma ResponseFront(status: int, extra: seq<string>, kind: string, size: int)
    requires size != 0
    ensures Response(status, Text(extra), kind, size)
         == Text([StatusLine(status)] + extra + ["Content-type: " + kind])
            + (LENGTH_FIELD + (" " + Decimal(size) + "\r\n\r\n"))
  {
    var front := [StatusLine(status)] + extra + ["Content-type: " + kind];
    var dec := Decimal(size);
    var last := "Content-length: " + dec;
    assert ResponseLines(status, extra, kind, size) == front + [last];
    ResponseIsText(status, extra, kind, size);
    TextConcat(front, [last]);
    LastLine(last);
    LastField(Text(front), dec);
  }

  lemma LastLine(last: string)
    ensures Text([last]) == last + "\r\n"
  {
    assert [last][1..] == [];
  }

  lemma LastField(front: string, dec: string)
    ensures front + ("Content-length: " + dec + "\r\n") + "\r\n" == front + (LENGTH_FIELD + (" " + dec + "\r\n\r\n"))
  {
    assert "Content-length: " == LENGTH_FIELD + " ";
    assert "\r\n" + "\r\n" == "\r\n\r\n";
  }

  /** A response is read back as it was written, up to its end and no further, however it arrives. */
  lemma ResponseReadBack(status: int, extra: seq<string>, kind: string, size: int, body: string)
    requires AllLines(extra) && IsPlain(kind)
    ensures var head := Response(status, Text(extra), kind, size);
            End(head + body) == |head| && !BareFirst(head + body)
  {
    var lines := ResponseLines(status, extra, kind, size);
    ResponseIsText(status, extra, kind, size);
    ResponseAllLines(status, extra, kind, size);
    TextRuled(lines);
    RuledEnd(Text(lines), body);
  }

  // ----- What is read from any header -----

  /** Digits, read as a decimal number. */
  lemma ValueIs(s: string, d: nat)
    requires AllDigits(s) && d < 10
    ensures AllDigits("") && Value("") == 0
    ensures AllDigits(s + ["0123456789"[d]]) && Value(s + ["0123456789"[d]]) == 10 * Value(s) + d
  {
    var t := s + ["0123456789"[d]];
    assert t[..|t| - 1] == s;
    DigitIs("0123456789"[d]);
    assert forall k: nat :: k < |s| ==> t[k] == s[k];
    assert "0123456789"[d] as int == 48 + d;
  }

  lemma DigitIs(c: char)
    ensures IsDigit(c) <==> c in "0123456789"
  {
    if IsDigit(c) {
      assert c == "0123456789"[c as int - 48];
    }
  }

  /** A number is printed in decimal, with a minus sign if negative, without leading zeros. */
  lemma DecimalIs(n: int)
    ensures n < 0 ==> Decimal(n) == "-" + Decimal(-n)
    ensures n >= 0 ==> AllDigits(Decimal(n)) && Value(Decimal(n)) == n
    ensures n >= 0 && |Decimal(n)| > 1 ==> Decimal(n)[0] != '0'
  {
    if n >= 0 {
      ValueNatural(n);
      NoLeadingZero(n);
    }
  }

  lemma {:induction false} NoLeadingZero(n: nat)
    ensures n > 0 ==> Natural(n)[0] != '0'
  {
    if n >= 10 {
      NoLeadingZero(n / 10);
    }
  }

  ghost predicate AllDigits(s: string) {
    forall i :: 0 <= i < |s| ==> IsDigit(s[i])
  }

  ghost predicate AllSpaces(s: string) {
    forall i :: 0 <= i < |s| ==> s[i] == ' ' || '\t' <= s[i] <= '\r'
  }

  /** Spaces, a sign or none, digits or none, and what does not belong to the number any more. */
  ghost predicate IsNumber(spaces: string, sign: string, digits: string, tail: string) {
    && AllSpaces(spaces) && sign in ["", "+", "-"] && AllDigits(digits)
    && (tail != "" ==> !IsDigit(tail[0]))
    && (sign == "" && digits == "" && tail != "" ==> !AllSpaces(tail[..1]) && tail[0] != '+' && tail[0] != '-')
  }

  lemma {:induction false} SkipAll(spaces: string, rest: string)
    requires AllSpaces(spaces) && (rest != "" ==> !IsSpace(rest[0]))
    ensures SkipSpaces(spaces + rest) == rest
  {
    if spaces == "" {
      assert spaces + rest == rest;
    } else {
      assert (spaces + rest)[1..] == spaces[1..] + rest;
      SkipAll(spaces[1..], rest);
    }
  }

  /** Any number is read as its value, and text without one as 0. */
  lemma ParseNumber(spaces: string, sign: string, digits: string, tail: string)
    requires IsNumber(spaces, sign, digits, tail)
    ensures Parse(spaces + (sign + (digits + tail))) == if sign == "-" then 0 - Value(digits) else Value(digits)
  {
    var rest := sign + (digits + tail);
    DigitsStop(digits, tail);
    SignStarts(sign, digits, tail);
    SkipAll(spaces, rest);
    if sign == "" {
      assert rest == digits + tail;
    } else {
      assert rest[1..] == digits + tail;
    }
  }

  lemma SignStarts(sign: string, digits: string, tail: string)
    requires IsNumber("", sign, digits, tail)
    ensures var rest := sign + (digits + tail);
            && (rest != "" ==> !IsSpace(rest[0]))
            && (sign == "" && rest != "" ==> rest[0] != '-' && rest[0] != '+')
  {
    var rest := sign + (digits + tail);
    if sign == "" {
      assert rest == digits + tail;
      if digits == "" {
        assert rest == tail;
        assert tail != "" ==> tail[..1][0] == tail[0];
      }
    }
  }

  /** A status line: a word that starts with "HTTP", spaces, digits, and something else. */
  ghost predicate IsStatus(h: string, word: string, spaces: string, digits: string, rest: string) {
    && ' ' !in word && spaces != "" && (forall i :: 0 <= i < |spaces| ==> spaces[i] == ' ')
    && digits != "" && AllDigits(digits) && (rest != "" ==> !IsDigit(rest[0]))
    && h == "HTTP" + (word + (spaces + (digits + rest)))
  }

  lemma {:induction false} OverAll(spaces: string, rest: string)
    requires (forall i :: 0 <= i < |spaces| ==> spaces[i] == ' ') && (rest != "" ==> rest[0] != ' ')
    ensures OverSpaces(spaces + rest) == rest
  {
    if spaces == "" {
      assert spaces + rest == rest;
    } else {
      assert (spaces + rest)[1..] == spaces[1..] + rest;
      OverAll(spaces[1..], rest);
    }
  }

  /** Whatever follows the four letters up to the first space, the number after the spaces is the status. */
  lemma StatusRead(h: string, word: string, spaces: string, digits: string, rest: string)
    requires IsStatus(h, word, spaces, digits, rest)
    ensures StatusOf(h) == Value(digits)
  {
    var st := digits + rest;
    assert h == ("HTTP" + word) + (spaces + st);
    SkipWord("HTTP" + word, spaces + st);
    OverAll(spaces, st);
    assert "" + st == st && "" + ("" + st) == st;
    ParseNumber("", "", digits, rest);
  }

  /** Any other header has the status of a bad request. */
  lemma StatusMissing(h: string)
    requires forall word, spaces, digits, rest :: !IsStatus(h, word, spaces, digits, rest)
    ensures StatusOf(h) == 400
  {
    if "HTTP" <= h {
      var word, blank := WordAndRest(h[4..]);
      var spaces, st := SpacesAndRest(blank);
      var digits, rest := DigitsAndRest(st);
      assert h == "HTTP" + h[4..];
      WordStart(h, word, blank);
      if st != "" && IsDigit(st[0]) {
        assert spaces == "" ==> blank == st;
        assert IsStatus(h, word, spaces, digits, rest);
      }
    }
  }

  lemma WordStart(h: string, word: string, blank: string)
    requires ' ' !in word && h == "HTTP" + (word + blank) && (blank != "" ==> blank[0] == ' ')
    ensures ToSpace(h) == blank
  {
    assert h == ("HTTP" + word) + blank;
    if blank == "" {
      assert h == "HTTP" + word;
      AllWord(h);
    } else {
      SkipWord("HTTP" + word, blank);
    }
  }

  lemma {:induction false} AllWord(s: string)
    requires ' ' !in s
    ensures ToSpace(s) == ""
  {
    if s != "" {
      AllWord(s[1..]);
    }
  }

  lemma {:induction false} WordAndRest(s: string) returns (word: string, rest: string)
    ensures s == word + rest && ' ' !in word && (rest != "" ==> rest[0] == ' ')
  {
    word, rest := "", s;
    if s != "" && s[0] != ' ' {
      word, rest := WordAndRest(s[1..]);
      word := [s[0]] + word;
    }
  }

  lemma {:induction false} SpacesAndRest(s: string) returns (spaces: string, rest: string)
    ensures s == spaces + rest && (forall i :: 0 <= i < |spaces| ==> spaces[i] == ' ')
    ensures rest == OverSpaces(s) && (rest != "" ==> rest[0] != ' ')
  {
    spaces, rest := "", s;
    if s != "" && s[0] == ' ' {
      spaces, rest := SpacesAndRest(s[1..]);
      spaces := " " + spaces;
    }
  }

  lemma {:induction false} DigitsAndRest(s: string) returns (digits: string, rest: string)
    ensures s == digits + rest && AllDigits(digits) && (rest != "" ==> !IsDigit(rest[0]))
    ensures s != "" && IsDigit(s[0]) ==> digits != ""
  {
    digits, rest := "", s;
    if s != "" && IsDigit(s[0]) {
      digits, rest := DigitsAndRest(s[1..]);
      digits := [s[0]] + digits;
    }
  }

  /**
    The first line, after the status line, that starts with one of the two spellings gives the
    content size; the first spelling wins wherever it stands. A line without a number gives 0, or
    if it is blank after the key the number that starts the next line.
   */
  lemma ContentRead(lines: seq<string>, k: nat, key: string, spaces: string, sign: string, digits: string, tail: string)
    requires AllLines(lines) && 0 < k < |lines| && key <= lines[k]
    requires key == "Content-length:" || (key == "Content-Length:" && NoneStarts(lines[1..], "Content-length:"))
    requires NoneStarts(lines[1..k], key) && IsNumber(spaces, sign, digits, tail)
    requires Text(lines[k..]) + "\r\n" == key + (spaces + (sign + (digits + tail)))
    ensures ContentOf(Text(lines) + "\r\n") == if sign == "-" then 0 - Value(digits) else Value(digits)
  {
    var value := spaces + (sign + (digits + tail));
    assert lines == lines[..k] + lines[k..] && lines[..k][1..] == lines[1..k];
    TextConcat(lines[..k], lines[k..]);
    KeysArePlain();
    FieldFound(lines[..k], key, value);
    assert Text(lines) + "\r\n" == Text(lines[..k]) + (key + value);
    if key == "Content-Length:" {
      FieldMissing(lines, LENGTH_FIELD);
    }
    ContentAt(Text(lines) + "\r\n", key, value);
    ParseNumber(spaces, sign, digits, tail);
  }

  lemma ContentAt(h: string, key: string, value: string)
    requires FieldAt(h, key, value)
    requires key == LENGTH_FIELD || (key == LENGTH_FIELD_ALSO && Pos(h, "\n" + LENGTH_FIELD) == -1)
    ensures ContentOf(h) == Parse(value)
  {
  }

  /** Without such a line there is no size. */
  lemma ContentMissing(lines: seq<string>)
    requires AllLines(lines) && lines != []
    requires NoneStarts(lines[1..], "Content-length:") && NoneStarts(lines[1..], "Content-Length:")
    ensures ContentOf(Text(lines) + "\r\n") == -1
  {
    KeysArePlain();
    FieldMissing(lines, LENGTH_FIELD);
    FieldMissing(lines, LENGTH_FIELD_ALSO);
  }
}
