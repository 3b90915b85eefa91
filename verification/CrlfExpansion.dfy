/** The in-place expansion of LF to CRLF (openssl/apps/s_client.c). */
module CrlfExpansion {

  /** `s` with a carriage return before each line feed. */
  function Expanded(s: string): string {
    if s == "" then "" else (if s[0] == '\n' then "\r\n" else [s[0]]) + Expanded(s[1..])
  }

  /** `s` with each carriage return that precedes a line feed taken out. */
  function Collapsed(s: string): string {
    if s == "" then ""
    else if s[0] == '\r' && |s| > 1 && s[1] == '\n' then Collapsed(s[1..])
    else [s[0]] + Collapsed(s[1..])
  }

  function LineFeeds(s: string): nat {
    if s == "" then 0 else (if s[0] == '\n' then 1 else 0) + LineFeeds(s[1..])
  }

  /** The expansion loses nothing: collapsing gives every text back, also one with carriage returns. */
  lemma {:induction false} CollapseExpanded(s: string)
    ensures Collapsed(Expanded(s)) == s
    ensures s != "" ==> Expanded(s) != "" && Expanded(s)[0] != '\n'
  {
    if s != "" {
      CollapseExpanded(s[1..]);
      if s[0] == '\n' {
        CollapsedBreak(Expanded(s[1..]));
      } else {
        CollapsedCons(s[0], Expanded(s[1..]));
      }
    }
  }

  lemma CollapsedCons(c: char, rest: string)
    requires c != '\r' || rest == "" || rest[0] != '\n'
    ensures Collapsed([c] + rest) == [c] + Collapsed(rest)
  {
    assert ([c] + rest)[1..] == rest;
  }

  lemma CollapsedBreak(rest: string)
    ensures Collapsed("\r\n" + rest) == "\n" + Collapsed(rest)
  {
    assert ("\r\n" + rest)[1..] == "\n" + rest;
    CollapsedCons('\n', rest);
  }

  lemma {:induction false} ExpandedConcat(a: string, b: string)
    ensures Expanded(a + b) == Expanded(a) + Expanded(b) && LineFeeds(a + b) == LineFeeds(a) + LineFeeds(b)
  {
    if a == "" {
      assert a + b == b;
    } else {
      assert (a + b)[1..] == a[1..] + b;
      ExpandedConcat(a[1..], b);
    }
  }

  /** Only line feeds are changed. */
  lemma ExpandedIs(c: char)
    ensures Expanded([c]) == if c == '\n' then "\r\n" else [c]
    ensures Expanded("") == ""
  {
    assert [c][1..] == "";
  }

  lemma {:induction false} ExpandedLength(s: string)
    ensures |Expanded(s)| == |s| + LineFeeds(s) && LineFeeds(s) <= |s|
  {
    if s != "" {
      ExpandedLength(s[1..]);
    }
  }

  lemma Last(s: string, j: nat)
    requires j < |s|
    ensures s[..j + 1] == s[..j] + [s[j]]
    ensures LineFeeds(s[..j + 1]) == LineFeeds(s[..j]) + if s[j] == '\n' then 1 else 0
    ensures Expanded(s[j..]) == (if s[j] == '\n' then "\r\n" else [s[j]]) + Expanded(s[j + 1..])
  {
    ExpandedConcat(s[..j], [s[j]]);
    assert s[j..] == [s[j]] + s[j + 1..];
  }

  /**
    Expands the first `count` characters of the buffer in place, right to left, and returns the
    new count. A count that is not positive, from a failed read, leaves everything alone.
   */
  method ExpandLines(buf: array<char>, count: int) returns (i: int)
    requires 2 * count <= buf.Length
    modifies buf
    ensures count <= 0 ==> i == count && buf[..] == old(buf[..])
    ensures count > 0 ==> 0 <= i <= buf.Length && buf[..i] == Expanded(old(buf[..count])) && buf[i..] == old(buf[i..])
  {
    i := count;
    if count <= 0 {
      return;
    }
    ghost var s := buf[..count];
    var lfNum := 0;
    for j := 0 to count
      invariant lfNum == LineFeeds(s[..j]) && buf[..] == old(buf[..])
    {
      Last(s, j);
      if buf[j] == '\n' {
        lfNum := lfNum + 1;
      }
    }
    assert s[..count] == s;
    ExpandedLength(s);
    i := ExpandFrom(buf, count, lfNum, s);
  }

  /** Where the descending loop stands: the text above character `j` is expanded, `lfNum` places higher. */
  ghost predicate Underway(s: string, now: string, j: int, lfNum: int, end: nat) {
    && -1 <= j < |s| && 0 <= lfNum && j + 1 + lfNum <= end <= |now|
    && lfNum == LineFeeds(s[..j + 1])
    && now[..j + 1] == s[..j + 1]
    && now[j + 1 + lfNum..end] == Expanded(s[j + 1..])
  }

  /** What moving character `j` up by `lfNum` does to the buffer. */
  ghost predicate Moved(was: string, now: string, j: nat, lfNum: nat, newNum: int, end: nat)
    requires j + 1 + lfNum <= end <= |was|
  {
    && |now| == |was| && newNum == lfNum - (if was[j] == '\n' then 1 else 0) && 0 <= newNum
    && now[..j] == was[..j]
    && now[j + newNum..end] == (if was[j] == '\n' then "\r\n" else [was[j]]) + was[j + 1 + lfNum..end]
    && now[end..] == was[end..]
  }

  lemma MoveKeeps(s: string, was: string, now: string, j: nat, lfNum: nat, newNum: int, end: nat)
    requires Underway(s, was, j, lfNum, end) && Moved(was, now, j, lfNum, newNum, end)
    ensures Underway(s, now, j - 1, newNum, end)
  {
    Last(s, j);
    ExpandedLength(s[..j]);
    assert was[..j + 1][j] == s[..j + 1][j];
    assert was[..j + 1][..j] == s[..j + 1][..j];
  }

  /** The descending loop: `lfNum` is how far the character under `j` still has to move. */
  method ExpandFrom(buf: array<char>, count: nat, lfNum0: nat, ghost s: string) returns (i: int)
    requires count + lfNum0 <= buf.Length && s == buf[..count] && lfNum0 == LineFeeds(s)
    modifies buf
    ensures i == count + lfNum0 && buf[..i] == Expanded(s) && buf[i..] == old(buf[i..])
  {
    i := count;
    var lfNum: int := lfNum0;
    ghost var end := count + lfNum0;
    var j := count - 1;
    assert s[..j + 1] == s;
    while j >= 0
      invariant Underway(s, buf[..], j, lfNum, end) && i + lfNum == end
      invariant buf[end..] == old(buf[end..])
    {
      ghost var was := buf[..];
      Last(s, j);
      assert was[..j + 1][j] == s[..j + 1][j];
      var newNum := MoveCharacter(buf, j, lfNum, end);
      MoveKeeps(s, was, buf[..], j, lfNum, newNum, end);
      i := i + lfNum - newNum;
      lfNum := newNum;
      j := j - 1;
    }
    assert s[0..] == s;
  }

  /** Moves one character to its place, after a carriage return if it is a line feed. */
  method MoveCharacter(buf: array<char>, j: nat, lfNum: nat, ghost end: nat) returns (newNum: int)
    requires j + 1 + lfNum <= end <= buf.Length && (buf[j] == '\n' ==> lfNum > 0)
    modifies buf
    ensures Moved(old(buf[..]), buf[..], j, lfNum, newNum, end)
    ensures buf[end..] == old(buf[end..])
  {
    newNum := lfNum;
    buf[j + lfNum] := buf[j];
    if buf[j] == '\n' {
      newNum := newNum - 1;
      buf[j + newNum] := '\r';
    }
  }
}
