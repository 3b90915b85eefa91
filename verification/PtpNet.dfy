/**
  Connections (ptp/net.cpp): the queue of data handed back to be read again, and reading and
  writing HTTP headers. Opening, waiting and proxies are left out: a connection is open.
 */
module PtpNet {
  import opened Common
  import opened PtpArrival
  import opened PtpHttp

  class Connection {
    /** System calls of a reliable connection do not fail. */
    const reliable: bool
    /** The block of data handed back, if any, and the first byte of it not read again yet. */
    var unget: array?<char>
    var next: nat
    /** The bytes the peer has sent or will send, and those sent to it. */
    var socket: string
    var sent: string
    /** How many of the incoming bytes each read finds; any schedule is possible. */
    var pieces: seq<nat>

    constructor (incoming: string, pieces: seq<nat>, reliable: bool)
      ensures Valid() && Queue() == "" && Rest() == incoming && sent == "" && this.reliable == reliable
      ensures this.pieces == pieces && unget == null
    {
      this.reliable := reliable;
      unget, next, socket, sent := null, 0, incoming, "";
      this.pieces := pieces;
    }

    ghost predicate Valid()
      reads this, unget
    {
      if unget == null then next == 0 else next <= unget.Length
    }

    ghost function Queue(): string
      reads this, unget
      requires Valid()
    {
      if unget == null then "" else unget[next..]
    }

    /** Everything that is still to be read: one stream. */
    ghost function Rest(): string
      reads this, unget
      requires Valid()
    {
      Queue() + socket
    }

    /** How the rest of the stream comes: the queue, then the pieces. */
    ghost function Coming(): Schedule
      reads this, unget
      requires Valid()
    {
      Schedule(|Queue()|, pieces)
    }

    /** Hands data back, in front of what is queued. */
    method Unget(data: string)
      requires Valid()
      modifies this`unget, this`next
      ensures Valid() && fresh(unget) && Rest() == data + old(Rest())
    {
      var old_, start := unget, next;
      var kept := if old_ == null then 0 else old_.Length - start;
      var block := new char[|data| + kept](i requires i >= 0 =>
        if i < |data| then data[i] else '\0');
      if old_ != null {
        forall i | 0 <= i < kept {
          block[|data| + i] := old_[start + i];
        }
        assert block[..] == data + old_[start..];
      }
      assert old_ == null ==> block[..] == data;
      unget, next := block, 0;
      assert unget[0..] == block[..];
    }

    /** Takes queued data. */
    method Get(buf: array<char>, off: nat, size: nat) returns (n: nat)
      requires Valid() && off + size <= buf.Length && buf != unget && size > 0
      modifies this`unget, this`next, buf
      ensures Valid() && unget in {null, old(unget)}
      ensures n == if |old(Queue())| < size then |old(Queue())| else size
      ensures buf[..off + n] == old(buf[..off]) + old(Queue())[..n]
      ensures Queue() == old(Queue())[n..]
    {
      n := if unget == null then 0 else unget.Length - next;
      if n > 0 {
        if n > size {
          n := size;
        }
        assert unget[next..next + n] == unget[next..][..n];
        Copy(buf, off, unget[next..next + n]);
        next := next + n;
        if next >= unget.Length {
          unget, next := null, 0;
        }
      }
    }

    /** The system call: the next piece of the bytes that are there, and 0 at their end. */
    method Receive(buf: array<char>, off: nat, size: nat) returns (s: int)
      requires off + size <= buf.Length && size > 0
      modifies this`socket, this`pieces, buf
      ensures s == -1 ==> !reliable
      ensures s == -1 || s == Arriving(Schedule(0, old(pieces)), size, |old(socket)|)
      ensures s >= 0 ==> pieces == Later(Schedule(0, old(pieces)), s).pieces
      ensures s >= 0 ==> buf[..off + s] == old(buf[..off]) + old(socket)[..s] && socket == old(socket)[s..]
    {
      var failed := *;
      if failed && !reliable {
        return -1;
      }
      s := Deliver(buf, off, size);
    }

    method Deliver(buf: array<char>, off: nat, size: nat) returns (s: nat)
      requires off + size <= buf.Length && size > 0
      modifies this`socket, this`pieces, buf
      ensures s == Arriving(Schedule(0, old(pieces)), size, |old(socket)|)
      ensures pieces == Later(Schedule(0, old(pieces)), s).pieces
      ensures buf[..off + s] == old(buf[..off]) + old(socket)[..s] && socket == old(socket)[s..]
    {
      var sch := Schedule(0, pieces);
      s := Arriving(sch, size, |socket|);
      Copy(buf, off, socket[..s]);
      pieces, socket := Later(sch, s).pieces, socket[s..];
    }

    method Read(buf: array<char>, off: nat, size: int) returns (s: int)
      requires Valid() && buf != unget && off <= buf.Length && off + size <= buf.Length
      modifies this`unget, this`next, this`socket, this`pieces, buf
      ensures Valid() && unget in {null, old(unget)}
      ensures size <= 0 ==> s == size && Rest() == old(Rest()) && buf[..] == old(buf[..])
      ensures size > 0 ==> -1 <= s <= size && s <= |old(Rest())| && (reliable ==> s >= 0)
      ensures size > 0 && s == 0 ==> old(Rest()) == ""
      ensures size > 0 && s >= 0 ==>
                buf[..off + s] == old(buf[..off]) + old(Rest())[..s] && Rest() == old(Rest())[s..]
      ensures size > 0 && s >= 0 ==>
                s == Arriving(old(Coming()), size, |old(Rest())|) && Coming() == Later(old(Coming()), s)
    {
      if size <= 0 {
        return size;
      }
      s := Get(buf, off, size);
      TakeFront(old(Queue()), socket, s);
      if s == 0 {
        assert buf[..off] == old(buf[..off]);
        s := Receive(buf, off, size);
      }
    }

    /** Hands back what was read beyond the header's end: its size, or -1 when there is no end yet. */
    method UngetData(h: array<char>, size: nat) returns (r: int)
      requires Valid() && size < h.Length && h != unget && h[size] == '\0'
      modifies this`unget, this`next, h
      ensures Valid() && (unget == old(unget) || fresh(unget))
      ensures var end := End(old(h[..size]));
              if end == -1 then
                r == -1 && Queue() == old(Queue()) && Rest() == old(Rest()) && h[..size] == old(h[..size])
              else r == size - end && Rest() == old(h[end..size]) + old(Rest()) && h[..end] == old(h[..end])
    {
      var end := End(h[..size]);
      if end == -1 {
        return -1;
      }
      r := size - end;
      if r > 0 {
        Unget(h[end..size]);
        h[end] := '\0';
      }
    }

    /**
      One turn of the loop of ReadHttpHdr with room in the buffer. It is a turn of the loop on
      values, for the stream `w`.
     */
    method ReadMore(h: array<char>, size: nat, total: nat, ghost maxsize: int, ghost w: string)
      returns (size': int, done: bool)
      requires Valid() && size + 1 < total <= h.Length && h != unget && w == h[..size] + Rest()
      requires End(h[..size]) == -1 && (maxsize >= 0 ==> total == maxsize)
      modifies this`unget, this`next, this`socket, this`pieces, h
      ensures Valid() && (unget in {null, old(unget)} || fresh(unget))
      ensures reliable ==> size' >= 0
      ensures size' < total
      ensures size' >= 0 ==> Continued(w, maxsize, h[..size'], Rest(), done) && (!done ==> size' > size)
      ensures size' >= 0 ==> |w| == |h[..size']| + |Rest()|
                             && Paced(w, maxsize, total, size, old(Coming()), size', Coming(), done)
    {
      ghost var head, rest, before := h[..size], Rest(), Coming();
      var room := total - size - 1;
      var s;
      ghost var text, left, end;
      s, size', done, text, left, end := FetchAndCut(h, size, room);
      if s < 0 {
        return -1, true;
      }
      TurnDone(head, rest, s, text, left, h[..size'], Rest(), maxsize, total, room, before, Coming(), end);
      done := done || s == 0;
    }

    /** Reads more of the text, and cuts it where the header ends. */
    method FetchAndCut(h: array<char>, size: nat, room: nat)
      returns (s: int, size': nat, found: bool, ghost text: string, ghost left: string, ghost end: int)
      requires Valid() && size + room < h.Length && h != unget && room > 0
      modifies this`unget, this`next, this`socket, this`pieces, h
      ensures Valid() && (unget in {null, old(unget)} || fresh(unget))
      ensures -1 <= s <= room && (reliable ==> s >= 0) && size' <= h.Length
      ensures s >= 0 ==> Taken(old(h[..size]), old(Rest()), s, text, left) && end == End(text)
                         && IsCut(text, left, h[..size'], Rest(), end) && (found <==> end != -1)
      ensures s >= 0 ==> s == Arriving(old(Coming()), room, |old(Rest())|)
                         && (!found ==> Coming() == Later(old(Coming()), s))
    {
      s := Fetch(h, size, room);
      text, left, size', found, end := "", Rest(), 0, false, -1;
      if s >= 0 {
        var filled := size + s;
        text := h[..filled];
        size', found, end := CutAt(h, filled, text, left);
      }
    }

    method Fetch(h: array<char>, size: nat, room: nat) returns (s: int)
      requires Valid() && size + room < h.Length && h != unget && room > 0
      modifies this`unget, this`next, this`socket, this`pieces, h
      ensures Valid() && unget in {null, old(unget)}
      ensures -1 <= s <= room && (reliable ==> s >= 0)
      ensures s >= 0 ==> Taken(old(h[..size]), old(Rest()), s, h[..size + s], Rest())
      ensures s >= 0 ==> s == Arriving(old(Coming()), room, |old(Rest())|) && Coming() == Later(old(Coming()), s)
    {
      s := Read(h, size, room);
    }

    /** Ends the text with a zero byte and the header where it ends. */
    method CutAt(h: array<char>, size: nat, ghost text: string, ghost left: string)
      returns (size': nat, found: bool, ghost end: int)
      requires Valid() && size < h.Length && h != unget && text == h[..size] && left == Rest()
      modifies this`unget, this`next, h
      ensures Valid() && (unget == old(unget) || fresh(unget)) && size' <= size
      ensures IsCut(text, left, h[..size'], Rest(), end)
      ensures end == End(text) && (found <==> end != -1)
      ensures !found ==> Coming() == old(Coming())
    {
      h[size] := '\0';
      assert h[..size] == text;
      end := End(text);
      var unsize := UngetData(h, size);
      found := unsize >= 0;
      size' := if found then size - unsize else size;
    }

    /** The loop of ReadHttpHdr; the answer is the buffer and how much of it is the header, -1 on error. */
    method ReadHeader(maxsize: int, supplied: bool) returns (h: array<char>, size: int)
      requires Valid() && maxsize >= -1 && (supplied ==> maxsize >= 0)
      modifies this`unget, this`next, this`socket, this`pieces
      ensures Valid() && size <= h.Length && (reliable ==> size >= 0)
      ensures maxsize >= 0 && size > 0 ==> size < maxsize
      ensures size >= 0 ==> h[..size] + Rest() == old(Rest()) && Cut(old(Rest()), maxsize, size)
      ensures size >= 0 ==> size == HeaderLength(old(Rest()), maxsize, old(Coming()))
    {
      var total: nat := StartTotal(maxsize);
      h := new char[if supplied then maxsize else total + 1];
      size := 0;
      ghost var w, before := Rest(), Coming();
      var done := false;
      while !done
        invariant Valid() && (unget in {null, old(unget)} || fresh(unget))
        invariant fresh(h) && h != unget && h.Length >= total
        invariant 0 <= size <= h.Length && (size < total || size == 0)
        invariant if maxsize >= 0 then total == maxsize else total > 0
        invariant Continued(w, maxsize, h[..size], Rest(), done) && size <= |w|
        invariant Paced(w, maxsize, StartTotal(maxsize), 0, before, size, Coming(), done, total)
        decreases !done, |w| - size, if size + 1 < total then 0 else 1
      {
        if size + 1 >= total {
          if maxsize >= 0 {
            CutShort(w, maxsize, size, h[..size]);
            done := true;
          } else {
            h, total := Grow(h, size, total);
          }
        } else {
          var more;
          more, done := ReadMore(h, size, total, maxsize, w);
          if more < 0 {
            return h, -1;
          }
          size := more;
        }
      }
    }

    /**
      The header, and the status and content size in it; no header on a bad argument, an error or
      no data. The header and its final zero fit `maxsize`. Its length depends on the stream and
      the schedule by which it comes only.
     */
    method ReadHttpHdr(maxsize: int, supplied: bool) returns (hdr: Option<string>, status: int, contentsize: int)
      requires Valid()
      modifies this`unget, this`next, this`socket, this`pieces
      ensures Valid()
      ensures hdr.Some? ==> hdr.value != "" && hdr.value + Rest() == old(Rest())
                            && Cut(old(Rest()), maxsize, |hdr.value|)
                            && status == StatusOf(CText(hdr.value)) && contentsize == ContentOf(CText(hdr.value))
      ensures hdr.Some? && maxsize >= 0 ==> |hdr.value| < maxsize
      ensures hdr.Some? ==> |hdr.value| == HeaderLength(old(Rest()), maxsize, old(Coming()))
      ensures hdr.None? && reliable ==>
                Rest() == old(Rest())
                && (maxsize < -1 || (supplied && maxsize < 0) || maxsize in {0, 1} || old(Rest()) == "")
    {
      hdr, status, contentsize := None, 0, 0;
      if maxsize < -1 || (supplied && maxsize < 0) {
        return;
      }
      var h, size := ReadHeader(maxsize, supplied);
      if size <= 0 {
        assert size == 0 ==> h[..size] + Rest() == Rest();
        NothingCut(old(Rest()), maxsize);
        return;
      }
      var text := CText(h[..size]);
      return Some(h[..size]), StatusOf(text), ContentOf(text);
    }

    /** The system call that writes: any number of the bytes offered, at least one if reliable. */
    method Send(data: string) returns (s: int)
      requires data != ""
      modifies this`sent
      ensures -1 <= s <= |data| && (reliable ==> s > 0)
      ensures sent == old(sent) + if s < 0 then "" else data[..s]
    {
      s :| -1 <= s <= |data| && (reliable ==> s > 0);
      if s > 0 {
        sent := sent + data[..s];
      }
    }

    /** What was sent is a first part of the data, all of it when the size is returned. */
    method WriteAll(data: string, size: int) returns (n: int)
      requires size <= |data|
      modifies this`sent
      ensures size <= 0 ==> n == size && sent == old(sent)
      ensures size > 0 ==> -1 <= n <= size && old(sent) <= sent <= old(sent) + data[..size]
      ensures size > 0 && n >= 0 ==> sent == old(sent) + data[..n]
      ensures reliable ==> n == size
    {
      if size <= 0 {
        return size;
      }
      n := 0;
      while n < size
        invariant 0 <= n <= size
        invariant sent == old(sent) + data[..n]
      {
        FrontSent(old(sent), data, n, size);
        var s := Send(data[n..size]);
        if s < 0 {
          return -1;
        } else if s == 0 {
          break;
        }
        assert data[..n] + data[n..size][..s] == data[..n + s];
        n := n + s;
      }
      FrontSent(old(sent), data, n, size);
    }

    /** A response; a size of -1 means that the data is a string. What was sent is a first part of it. */
    method WriteHttp(status: int, hdr: Option<string>, data: Option<string>, kind: Option<string>, size: int)
      returns (stat: int)
      requires data.Some? ==> size <= |data.value|
      modifies this`sent
      ensures stat == 0 || (stat == -1 && !reliable)
      ensures var length := if size == -1 && data.Some? then |CText(data.value)| else size;
              var whole := Response(status, hdr.GetOr(""), kind.GetOr("application/binary"), length)
                           + if data.Some? && length > 0 then data.value[..length] else "";
              old(sent) <= sent <= old(sent) + whole && (stat == 0 ==> sent == old(sent) + whole)
    {
      var length := if size == -1 && data.Some? then |CText(data.value)| else size;
      var buffer := Response(status, hdr.GetOr(""), kind.GetOr("application/binary"), length);
      ghost var before, body := sent, Body(data, length);
      var ok := SendText(buffer);
      HeadSent(before, buffer, body);
      if !ok {
        return -1;
      }
      ok := SendBody(data, length);
      BodySent(before, buffer, body, sent);
      stat := if ok then 0 else -1;
    }

    method SendText(text: string) returns (ok: bool)
      requires text != ""
      modifies this`sent
      ensures old(sent) <= sent <= old(sent) + text && (ok ==> sent == old(sent) + text)
      ensures reliable ==> ok
    {
      var n := WriteAll(text, |text|);
      assert text[..|text|] == text;
      ok := n == |text|;
    }

    method SendBody(data: Option<string>, length: int) returns (ok: bool)
      requires data.Some? ==> length <= |data.value|
      modifies this`sent
      ensures old(sent) <= sent <= old(sent) + Body(data, length) && (ok ==> sent == old(sent) + Body(data, length))
      ensures reliable ==> ok
    {
      ok := true;
      if data.Some? {
        var n := WriteAll(data.value, length);
        ok := n == length;
      }
    }
  }

  function Body(data: Option<string>, length: int): string
    requires data.Some? ==> length <= |data.value|
  {
    if data.Some? && length > 0 then data.value[..length] else ""
  }

  lemma FrontSent(sent: string, data: string, n: nat, size: nat)
    requires n <= size <= |data|
    ensures sent <= sent + data[..n] <= sent + data[..size]
  {
    assert data[..size][..n] == data[..n];
    assert sent + data[..size] == sent + data[..n] + data[..size][n..];
  }

  lemma HeadSent(sent: string, head: string, body: string)
    ensures sent + head <= sent + (head + body) && sent + (head + body) == sent + head + body
  {
  }

  lemma BodySent(sent: string, head: string, body: string, now: string)
    requires sent + head <= now <= sent + head + body
    ensures sent <= now <= sent + (head + body)
    ensures now == sent + head + body ==> now == sent + (head + body)
  {
    HeadSent(sent, head, body);
    assert now[..|sent|] == (sent + head)[..|sent|];
  }

  /** memcpy to a place in a buffer. */
  method Copy(buf: array<char>, off: nat, data: string)
    requires off + |data| <= buf.Length
    modifies buf
    ensures buf[..off + |data|] == old(buf[..off]) + data
  {
    forall i | 0 <= i < |data| {
      buf[off + i] := data[i];
    }
  }

  /** Twice the room, with the header so far. */
  method Grow(h: array<char>, size: nat, total: nat) returns (h': array<char>, total': nat)
    requires size <= h.Length && size <= total && total > 0
    ensures fresh(h') && total' == 2 * total == h'.Length && h'[..size] == h[..size]
  {
    total' := 2 * total;
    h' := new char[total'](i requires i >= 0 => '\0');
    forall i | 0 <= i < size {
      h'[i] := h[i];
    }
  }

  /**
    The headers of `k` bytes that can be read from a stream: one that ends where it should, in what
    was at hand; or all there is, or all there is room for, when no end is in sight.
   */
  ghost predicate Cut(w: string, maxsize: int, k: nat) {
    k <= |w| && (maxsize >= 0 ==> k <= Room(maxsize))
    && (Found(w, k, if maxsize >= 0 then Room(maxsize) else |w|)
        || (End(w[..k]) == -1 && (k == |w| || k == Room(maxsize))))
  }

  /** How much of a limited buffer is left for the header. */
  function Room(maxsize: int): int {
    if maxsize == 0 then 0 else maxsize - 1
  }

  /** The effect of a read on the text so far. */
  ghost predicate Taken(h: string, rest: string, s: nat, text: string, left: string) {
    s <= |rest| && text == h + rest[..s] && left == rest[s..] && (s == 0 ==> rest == "")
  }

  /** The effect of cutting the text where a header ends, if it does. */
  ghost predicate IsCut(text: string, left: string, h: string, rest: string, end: int) {
    -1 <= end <= |text|
    && if end == -1 then h == text && rest == left else h == text[..end] && rest == text[end..] + left
  }

  lemma TurnAdvances(h: string, rest: string, s: nat, text: string, left: string, h': string, rest': string,
                     limit: nat, end: int)
    requires Taken(h, rest, s, text, left) && IsCut(text, left, h', rest', end) && end == End(text) && |text| <= limit
    ensures Advanced(h, rest, h', rest', limit, end != -1 || s == 0)
  {
    Shifted(h, rest, s);
    Rejoined(text, left, |h'|);
    if end != -1 {
      assert (h + rest)[..|text|] == text;
      assert End((h + rest)[..|text|]) == |h'|;
    }
  }

  /** The loop on values goes the same way, from one state to another or to its end. */
  ghost predicate Paced(w: string, maxsize: int, total: nat, size: nat, sch: Schedule,
                        size': nat, sch': Schedule, done: bool, total': nat := total)
    requires size + sch.queued <= |w| && (size < total || size == 0) && (maxsize < 0 ==> total > 0)
    requires size' <= |w| && (size' < total' || size' == 0) && (maxsize < 0 ==> total' > 0)
    requires done || size' + sch'.queued <= |w|
  {
    HeaderBy(MarksOf(w), maxsize, total, size, sch)
    == if done then size' else HeaderBy(MarksOf(w), maxsize, total', size', sch')
  }

  lemma TurnPaced(w: string, h: string, rest: string, s: nat, n: nat, text: string, left: string, h': string,
                  rest': string, maxsize: int, total: nat, room: nat, sch: Schedule, sch': Schedule, end: int)
    requires w == h + rest && n == |h| + s && room == total - |h| - 1 > 0
    requires Taken(h, rest, s, text, left) && IsCut(text, left, h', rest', end) && end == End(text)
    requires sch.queued <= |rest| && s == Arriving(sch, room, |rest|) && (end == -1 ==> sch' == Later(sch, s))
    ensures |h'| <= |w| && |h'| < total && (end != -1 || s == 0 || |h'| + sch'.queued <= |w|)
    ensures Paced(w, maxsize, total, |h|, sch, |h'|, sch', end != -1 || s == 0)
  {
    assert w[..n] == text;
    SeenIsEnd(w, n);
    var m := MarksOf(w);
    TurnBy(m, maxsize, total, |h|, room, |rest|, sch, s, n, end, |h'|, sch');
  }

  lemma TurnDone(h: string, rest: string, s: nat, text: string, left: string, h': string, rest': string,
                 maxsize: int, total: nat, room: nat, sch: Schedule, sch': Schedule, end: int)
    requires Taken(h, rest, s, text, left) && IsCut(text, left, h', rest', end) && end == End(text)
    requires room == total - |h| - 1 > 0
    requires sch.queued <= |rest| && s == Arriving(sch, room, |rest|) && (end == -1 ==> sch' == Later(sch, s))
    requires End(h) == -1 && (maxsize >= 0 ==> total == maxsize)
    ensures Continued(h + rest, maxsize, h', rest', end != -1 || s == 0) && (end == -1 && s > 0 ==> |h'| > |h|)
    ensures |h'| <= |h + rest| && |h'| < total && (end != -1 || s == 0 || |h'| + sch'.queued <= |h + rest|)
    ensures Paced(h + rest, maxsize, total, |h|, sch, |h'|, sch', end != -1 || s == 0)
  {
    TurnAdvances(h, rest, s, text, left, h', rest', total - 1, end);
    AdvancedCut(h, rest, h', rest', total - 1, end != -1 || s == 0, maxsize);
    TurnPaced(h + rest, h, rest, s, |h| + s, text, left, h', rest', maxsize, total, room, sch, sch', end);
  }

  /** On the marks of the stream: from `size` bytes to `size'`, or to the end. */
  lemma TurnBy(m: Marks, maxsize: int, total: nat, size: nat, room: nat, left: nat, sch: Schedule, s: nat,
               n: nat, end: int, size': nat, sch': Schedule)
    requires m.Valid() && size + sch.queued <= m.length && room == total - size - 1 > 0
    requires left == m.length - size && s == Arriving(sch, room, left) && n == size + s && end == m.Seen(n)
    requires size' == (if end != -1 then end else n) && (end == -1 ==> sch' == Later(sch, s))
    ensures size' < total && size' <= m.length && (end != -1 || size' + sch'.queued <= m.length)
    ensures HeaderBy(m, maxsize, total, size, sch)
         == if end != -1 || s == 0 then size' else HeaderBy(m, maxsize, total, size', sch')
  {
    HeaderTurn(m, maxsize, total, size, sch, s);
  }

  lemma Rejoined(text: string, left: string, n: nat)
    requires n <= |text|
    ensures text[..n] + (text[n..] + left) == text + left
  {
  }

  lemma TakeFront(q: string, s: string, n: nat)
    requires n <= |q|
    ensures (q + s)[..n] == q[..n] && (q + s)[n..] == q[n..] + s
  {
  }

  lemma Shifted(h: string, rest: string, n: nat)
    requires n <= |rest|
    ensures h + rest[..n] + rest[n..] == h + rest
  {
  }

  /** What one turn does to the header so far and the bytes still to come. */
  ghost predicate Advanced(h: string, rest: string, h': string, rest': string, limit: nat, done: bool) {
    && h' + rest' == h + rest
    && (!done ==> |h'| > |h| && End(h') == -1)
    && (done ==> Found(h + rest, |h'|, limit) || (rest == "" && h' == h))
  }

  /** Where the loop stands: the header so far, and that it has its end or none is in sight. */
  ghost predicate Continued(w: string, maxsize: int, h: string, rest: string, done: bool) {
    h + rest == w && if done then Cut(w, maxsize, |h|) else End(h) == -1
  }

  /** A header of `k` bytes is found when enough of the text is at hand, within the limit. */
  ghost predicate Found(w: string, k: nat, limit: int) {
    exists n :: k <= n <= |w| && n <= limit && End(w[..n]) == k
  }

  lemma CutShort(w: string, maxsize: int, size: nat, h: string)
    requires size <= |w| && h == w[..size] && End(h) == -1 && maxsize >= 0 && size == Room(maxsize)
    ensures Cut(w, maxsize, size)
  {
  }

  lemma AdvancedCut(h: string, rest: string, h': string, rest': string, limit: nat, done: bool, maxsize: int)
    requires Advanced(h, rest, h', rest', limit, done) && End(h) == -1 && |h'| <= limit
    requires maxsize >= 0 ==> limit == maxsize - 1
    ensures Continued(h + rest, maxsize, h', rest', done)
  {
    var w := h + rest;
    assert w[..|h'|] == h';
  }

  lemma NothingCut(w: string, maxsize: int)
    ensures Cut(w, maxsize, 0) ==> w == "" || (maxsize >= 0 && 1 >= maxsize)
  {
  }

  // ----- What the header is -----

  /**
    Unless two bare newlines come first, the header is the one that is there, whatever the pieces
    in which the stream arrives, when it fits.
   */
  lemma HeaderExact(w: string, maxsize: int, k: nat)
    requires Cut(w, maxsize, k) && !BareFirst(w) && End(w) != -1
    requires maxsize >= 0 ==> End(w) < maxsize
    ensures k == End(w)
  {
    UniformUnlessBareFirst(w);
    EndPrefix(w, k);
    if End(w[..k]) != -1 {
      assert End(w[..k]) in {-1, End(w)};
    }
    assert w[..|w|] == w;
  }

  /** A header that does not fit is cut short, and the bytes after the cut are still to be read. */
  lemma HeaderTruncated(w: string, maxsize: int, k: nat)
    requires Cut(w, maxsize, k) && !BareFirst(w) && 1 <= maxsize <= End(w)
    ensures k == maxsize - 1
  {
    UniformUnlessBareFirst(w);
    assert forall n :: k <= n <= |w| && End(w[..n]) == k ==> End(w[..n]) in {-1, End(w)};
  }

  /** One stream, two headers: the pieces in which it arrives decide, when both ends can be in sight. */
  method ReadTwice(w: string, maxsize: int) returns (slow: Option<string>, fast: Option<string>)
    requires maxsize >= -1 && BothInSight(w, maxsize)
    ensures slow == Some(w[..Ends(CText(w), BARE)]) && fast == Some(w[..End(w)]) && slow != fast
  {
    TwoHeaders(w, maxsize, 0);
    var bare := Ends(CText(w), BARE);
    slow := ReadBy(w, Ones(bare), maxsize, bare);
    fast := ReadBy(w, [], maxsize, End(w));
  }

  /** Reads a stream that comes in some pieces. */
  method ReadBy(w: string, pieces: seq<nat>, maxsize: int, ghost k: nat) returns (hdr: Option<string>)
    requires maxsize >= -1 && 0 < k < |w| + 1 && (maxsize >= 0 ==> k < maxsize)
    requires HeaderLength(w, maxsize, Schedule(0, pieces)) == k
    ensures hdr == Some(w[..k])
  {
    var status, size;
    var c := new Connection(w, pieces, true);
    hdr, status, size := c.ReadHttpHdr(maxsize, false);
    Front(hdr.value, c.Rest());
  }

  lemma Front(h: string, rest: string)
    ensures (h + rest)[..|h|] == h
  {
  }

  /** One end answers, the other reads the answer. */
  method Exchange(status: int, extra: seq<string>, data: string, kind: string, pieces: seq<nat>)
    returns (hdr: Option<string>, status': int, size': int, ghost left: string)
    requires AllLines(extra) && IsPlain(kind) && NoneStarts(extra, LENGTH_FIELD) && data != ""
    ensures hdr == Some(Response(status, Text(extra), kind, |data|)) && left == data
    ensures status' == (if status >= 0 then status else BAD_REQUEST) && size' == |data|
  {
    var message := Answer(status, extra, data, kind);
    var client := new Connection(message, pieces, true);
    hdr, status', size' := client.ReadHttpHdr(-1, false);
    left := client.Rest();
    ReadsResponse(status, extra, kind, data, Response(status, Text(extra), kind, |data|), hdr.value, left);
  }

  method Answer(status: int, extra: seq<string>, data: string, kind: string) returns (message: string)
    ensures message == Response(status, Text(extra), kind, |data|) + data
  {
    var server := new Connection("", [], true);
    var stat := server.WriteHttp(status, Some(Text(extra)), Some(data), Some(kind), |data|);
    message := server.sent;
    JustSent(Response(status, Text(extra), kind, |data|), data);
  }

  lemma JustSent(head: string, data: string)
    ensures "" + (head + data) == head + data && data[..|data|] == data
  {
  }

  lemma ReadsResponse(status: int, extra: seq<string>, kind: string, data: string, head: string, hdr: string,
                      left: string)
    requires AllLines(extra) && IsPlain(kind) && NoneStarts(extra, LENGTH_FIELD) && data != ""
    requires head == Response(status, Text(extra), kind, |data|)
    requires hdr + left == head + data && Cut(head + data, -1, |hdr|)
    ensures hdr == head && left == data
    ensures StatusOf(CText(hdr)) == (if status >= 0 then status else BAD_REQUEST) && ContentOf(CText(hdr)) == |data|
  {
    ResponseReadBack(status, extra, kind, |data|, data);
    HeaderExact(head + data, -1, |hdr|);
    assert (hdr + left)[..|hdr|] == hdr && (head + data)[..|head|] == head;
    assert (hdr + left)[|hdr|..] == left && (head + data)[|head|..] == data;
    HeadIsText(status, extra, kind, |data|);
    StatusReadBack(status, extra, kind, |data|);
    SizeReadBack(status, extra, kind, |data|);
  }

  lemma HeadIsText(status: int, extra: seq<string>, kind: string, size: int)
    requires AllLines(extra) && IsPlain(kind)
    ensures CText(Response(status, Text(extra), kind, size)) == Response(status, Text(extra), kind, size)
  {
    var h := Response(status, Text(extra), kind, size);
    ResponseIsText(status, extra, kind, size);
    ResponseAllLines(status, extra, kind, size);
    TextRuled(ResponseLines(status, extra, kind, size));
    CTextIs(h, |h|);
  }
}
