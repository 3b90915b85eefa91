/**
  How the length of a header that is read depends on the pieces in which its stream arrives: the
  loop of ReadHttpHdr (ptp/net.cpp) on values.
 */
module PtpArrival {
  import opened PtpHttp

  const FIRST_ROOM := 512

  /** What matters of a text: its length, and where its first blank line and bare newlines end, or -1. */
  datatype Marks = Marks(length: nat, blank: int, bare: int)
  {
    predicate Valid() {
      (blank == -1 || 0 < blank <= length) && (bare == -1 || 0 < bare <= length)
    }

    /** The end of the header in the first `n` bytes. */
    function Seen(n: nat): int {
      Either(Within(blank, n), Within(bare, n))
    }

    /** Two bare newlines end before the first blank line does. */
    predicate BareFirst() {
      0 <= bare < blank
    }
  }

  function MarksOf(w: string): (m: Marks)
    ensures m.Valid() && m.length == |w| && (m.BareFirst() <==> BareFirst(w)) && m.Seen(|w|) == End(w)
  {
    Marks(|w|, Ends(CText(w), BLANK), Ends(CText(w), BARE))
  }

  lemma SeenIsEnd(w: string, n: nat)
    requires n <= |w|
    ensures End(w[..n]) == MarksOf(w).Seen(n)
  {
    EndPrefix(w, n);
  }

  /**
    How the bytes of a stream come: those queued by earlier calls first, then as many as each read
    finds, then all the rest.
   */
  datatype Schedule = Schedule(queued: nat, pieces: seq<nat>)

  /** What a read into `size` bytes yields when `left` bytes are to come: at least one, if any. */
  function Arriving(sch: Schedule, size: nat, left: nat): (s: nat)
    requires sch.queued <= left
    ensures s <= size && s <= left && (s == 0 <==> size == 0 || left == 0)
    ensures sch.queued > 0 ==> s <= sch.queued
  {
    var there :=
      if sch.queued > 0 then sch.queued
      else if sch.pieces == [] then left
      else if sch.pieces[0] == 0 then 1
      else sch.pieces[0];
    if there <= size && there <= left then there else if size <= left then size else left
  }

  /** What is left of the schedule after a read of `s` bytes. */
  function Later(sch: Schedule, s: nat): Schedule
    requires sch.queued > 0 ==> s <= sch.queued
  {
    if sch.queued > 0 then Schedule(sch.queued - s, sch.pieces)
    else Schedule(0, if sch.pieces == [] then [] else sch.pieces[1..])
  }

  /** The length of the header the loop ends with, from `size` bytes in a buffer for `total`. */
  function HeaderBy(m: Marks, maxsize: int, total: nat, size: nat, sch: Schedule): (k: nat)
    requires m.Valid() && size + sch.queued <= m.length
    requires (size < total || size == 0) && (maxsize < 0 ==> total > 0)
    decreases m.length - size, if size + 1 < total then 0 else 1
  {
    if size + 1 >= total then
      if maxsize >= 0 then size else HeaderBy(m, maxsize, 2 * total, size, sch)
    else
      var s := Arriving(sch, total - size - 1, m.length - size);
      if m.Seen(size + s) != -1 then m.Seen(size + s)
      else if s == 0 then size
      else HeaderBy(m, maxsize, total, size + s, Later(sch, s))
  }

  /** One turn of the loop, with room in the buffer. */
  lemma HeaderTurn(m: Marks, maxsize: int, total: nat, size: nat, sch: Schedule, s: nat)
    requires m.Valid() && size + sch.queued <= m.length && size + 1 < total
    requires s == Arriving(sch, total - size - 1, m.length - size)
    ensures HeaderBy(m, maxsize, total, size, sch)
         == if m.Seen(size + s) != -1 then m.Seen(size + s)
            else if s == 0 then size
            else HeaderBy(m, maxsize, total, size + s, Later(sch, s))
  {
  }

  function StartTotal(maxsize: int): (total: nat)
    ensures maxsize < 0 ==> total > 0
  {
    if maxsize >= 0 then maxsize else FIRST_ROOM
  }

  /** The length of the header read from a stream that comes by a schedule. */
  function HeaderLength(w: string, maxsize: int, sch: Schedule): nat
    requires sch.queued <= |w|
  {
    HeaderBy(MarksOf(w), maxsize, StartTotal(maxsize), 0, sch)
  }

  // ----- When the pieces do not matter -----

  /** The size of the buffer by the time it can hold `n` bytes and the final zero. */
  function Capacity(maxsize: int, total: nat, n: int): (c: nat)
    requires maxsize < 0 ==> total > 0
    ensures maxsize < 0 ==> n < c
    ensures maxsize >= 0 || n < total ==> c == total
    decreases n - total
  {
    if maxsize >= 0 || n < total then total else Capacity(maxsize, 2 * total, n)
  }

  /** The buffer starts with 512 places if unlimited, and doubles until it can. */
  lemma CapacityIs(maxsize: int, n: int)
    ensures var c := Capacity(maxsize, StartTotal(maxsize), n);
            if maxsize >= 0 then c == maxsize
            else n < c && exists k: nat :: c == 512 * Power2(k) && (k > 0 ==> c / 2 <= n)
  {
    if maxsize < 0 {
      var k := Doublings(maxsize, FIRST_ROOM, n);
    }
  }

  function Power2(k: nat): nat {
    if k == 0 then 1 else 2 * Power2(k - 1)
  }

  lemma {:induction false} Doublings(maxsize: int, total: nat, n: int) returns (k: nat)
    requires maxsize < 0 && total > 0
    ensures Capacity(maxsize, total, n) == total * Power2(k)
    ensures k > 0 ==> Capacity(maxsize, total, n) / 2 <= n
    decreases n - total
  {
    if n < total {
      k := 0;
    } else {
      k := Doublings(maxsize, 2 * total, n);
      Twice(total, Power2(k));
      k := k + 1;
    }
  }

  lemma Twice(a: nat, b: nat)
    ensures 2 * a * b == a * (2 * b)
  {
  }

  lemma CapacityDoubles(maxsize: int, total: nat, n: int)
    requires maxsize < 0 && 0 < total <= n
    ensures Capacity(maxsize, 2 * total, n) == Capacity(maxsize, total, n)
  {
  }

  /** Both ends can come into sight together: the later one fits the buffer the earlier one needs. */
  predicate Ambiguous(m: Marks, maxsize: int, total: nat)
    requires maxsize < 0 ==> total > 0
  {
    m.BareFirst() && m.blank < Capacity(maxsize, total, m.bare)
  }

  /** The header there is, or what there is room for, when only one header is possible. */
  function Settled(m: Marks, maxsize: int, total: nat): int {
    var end := if m.BareFirst() then m.bare else m.Seen(m.length);
    if end != -1 && (maxsize < 0 || end < total) then end
    else if maxsize < 0 || m.length < total then m.length
    else if total == 0 then 0
    else total - 1
  }

  lemma {:induction false} PiecesDoNotMatter(m: Marks, maxsize: int, total: nat, size: nat, sch: Schedule)
    requires m.Valid() && size + sch.queued <= m.length && (size < total || size == 0)
    requires if maxsize < 0 then total > 0 else total == maxsize
    requires m.Seen(size) == -1 && !Ambiguous(m, maxsize, total)
    ensures HeaderBy(m, maxsize, total, size, sch) == Settled(m, maxsize, total)
    decreases m.length - size, if size + 1 < total then 0 else 1
  {
    if size + 1 >= total {
      if maxsize < 0 {
        NotAmbiguousDoubled(m, maxsize, total, size);
        PiecesDoNotMatter(m, maxsize, 2 * total, size, sch);
      }
      SettledUnlimited(m, maxsize, total, 2 * total);
    } else {
      var s := Arriving(sch, total - size - 1, m.length - size);
      HeaderTurn(m, maxsize, total, size, sch, s);
      if m.Seen(size + s) != -1 {
        SettledSeen(m, maxsize, total, size + s);
      } else if s > 0 {
        PiecesDoNotMatter(m, maxsize, total, size + s, Later(sch, s));
      }
    }
  }

  lemma NotAmbiguousDoubled(m: Marks, maxsize: int, total: nat, size: nat)
    requires m.Valid() && maxsize < 0 && 0 < total <= size + 1 && size <= m.length
    requires m.Seen(size) == -1 && !Ambiguous(m, maxsize, total)
    ensures !Ambiguous(m, maxsize, 2 * total)
  {
    if m.BareFirst() {
      CapacityDoubles(maxsize, total, m.bare);
    }
  }

  lemma SettledUnlimited(m: Marks, maxsize: int, total: nat, total': nat)
    ensures maxsize < 0 ==> Settled(m, maxsize, total) == Settled(m, maxsize, total')
  {
  }

  lemma SettledSeen(m: Marks, maxsize: int, total: nat, n: nat)
    requires m.Valid() && n < total && n <= m.length && m.Seen(n) != -1 && (maxsize < 0 ==> total > 0)
    requires !Ambiguous(m, maxsize, total)
    ensures m.Seen(n) == Settled(m, maxsize, total)
  {
  }

  /** When the bare newlines are queued already, the queue decides. */
  lemma {:induction false} QueueDecides(m: Marks, maxsize: int, total: nat, size: nat, sch: Schedule)
    requires m.Valid() && size + sch.queued <= m.length && (size < total || size == 0)
    requires if maxsize < 0 then total > 0 else total == maxsize
    requires Ambiguous(m, maxsize, total) && size < m.bare <= size + sch.queued
    ensures HeaderBy(m, maxsize, total, size, sch) == if m.blank <= size + sch.queued then m.blank else m.bare
    decreases m.length - size, if size + 1 < total then 0 else 1
  {
    if size + 1 >= total {
      CapacityDoubles(maxsize, total, m.bare);
      QueueDecides(m, maxsize, 2 * total, size, sch);
    } else {
      var s := Arriving(sch, total - size - 1, m.length - size);
      HeaderTurn(m, maxsize, total, size, sch, s);
      if size + s < m.bare {
        QueueDecides(m, maxsize, total, size + s, Later(sch, s));
      }
    }
  }

  // ----- When they do -----

  function Ones(n: nat): seq<nat> {
    seq(n, _ => 1)
  }

  lemma OnesLater(n: nat)
    requires n > 0
    ensures Ones(n) != [] && Ones(n)[0] == 1 && Later(Schedule(0, Ones(n)), 1) == Schedule(0, Ones(n - 1))
  {
  }

  /** A turn that makes the buffer larger. */
  lemma GrowTurn(m: Marks, maxsize: int, total: nat, size: nat, sch: Schedule)
    requires m.Valid() && size + sch.queued <= m.length && (size < total || size == 0)
    requires if maxsize < 0 then total > 0 else total == maxsize
    requires Ambiguous(m, maxsize, total) && size < m.bare && size + 1 >= total
    ensures maxsize < 0 && Ambiguous(m, maxsize, 2 * total)
    ensures HeaderBy(m, maxsize, total, size, sch) == HeaderBy(m, maxsize, 2 * total, size, sch)
  {
    CapacityDoubles(maxsize, total, m.bare);
  }

  /** A turn that reads from the queue, without seeing an end. */
  lemma QueuedTurn(m: Marks, maxsize: int, total: nat, size: nat, queued: nat, pieces: seq<nat>) returns (s: nat)
    requires m.Valid() && size + queued <= m.length && size + 1 < total && queued > 0
    requires m.BareFirst() && size + queued < m.bare
    ensures 0 < s <= queued && size + s < total
    ensures HeaderBy(m, maxsize, total, size, Schedule(queued, pieces))
         == HeaderBy(m, maxsize, total, size + s, Schedule(queued - s, pieces))
  {
    s := Arriving(Schedule(queued, pieces), total - size - 1, m.length - size);
    HeaderTurn(m, maxsize, total, size, Schedule(queued, pieces), s);
  }

  /** A turn that reads one byte. */
  lemma OneTurn(m: Marks, maxsize: int, total: nat, size: nat, n: nat)
    requires m.Valid() && m.BareFirst() && size + 1 < total && m.bare == size + n && n > 0
    ensures HeaderBy(m, maxsize, total, size, Schedule(0, Ones(n)))
         == if n == 1 then m.bare else HeaderBy(m, maxsize, total, size + 1, Schedule(0, Ones(n - 1)))
  {
    OnesLater(n);
    HeaderTurn(m, maxsize, total, size, Schedule(0, Ones(n)), 1);
  }

  /** Byte by byte after the queue, the bare newlines are seen first. */
  lemma {:induction false} ByteByByte(m: Marks, maxsize: int, total: nat, size: nat, queued: nat, n: nat)
    requires m.Valid() && (size < total || size == 0)
    requires if maxsize < 0 then total > 0 else total == maxsize
    requires Ambiguous(m, maxsize, total) && size + queued + n == m.bare && n > 0
    ensures HeaderBy(m, maxsize, total, size, Schedule(queued, Ones(n))) == m.bare
    decreases m.length - size, if size + 1 < total then 0 else 1
  {
    if size + 1 >= total {
      GrowTurn(m, maxsize, total, size, Schedule(queued, Ones(n)));
      ByteByByte(m, maxsize, 2 * total, size, queued, n);
    } else if queued > 0 {
      var s := QueuedTurn(m, maxsize, total, size, queued, Ones(n));
      ByteByByte(m, maxsize, total, size + s, queued - s, n);
    } else {
      OneTurn(m, maxsize, total, size, n);
      if n > 1 {
        ByteByByte(m, maxsize, total, size + 1, 0, n - 1);
      }
    }
  }

  /** A turn that reads all there is room for: up to the `n`th byte. */
  lemma AllTurn(m: Marks, maxsize: int, total: nat, size: nat) returns (n: nat)
    requires m.Valid() && m.BareFirst() && size < m.bare && size + 1 < total
    requires m.bare < total ==> m.blank < total
    ensures size < n < total && n <= m.length
    ensures HeaderBy(m, maxsize, total, size, Schedule(0, []))
         == if n >= m.bare then m.blank else HeaderBy(m, maxsize, total, n, Schedule(0, []))
  {
    n := if total - 1 <= m.length then total - 1 else m.length;
    HeaderTurn(m, maxsize, total, size, Schedule(0, []), n - size);
  }

  /** All at once after the queue, the blank line is. */
  lemma {:induction false} AllAtOnce(m: Marks, maxsize: int, total: nat, size: nat, queued: nat)
    requires m.Valid() && (size < total || size == 0)
    requires if maxsize < 0 then total > 0 else total == maxsize
    requires Ambiguous(m, maxsize, total) && size + queued < m.bare
    ensures HeaderBy(m, maxsize, total, size, Schedule(queued, [])) == m.blank
    decreases m.length - size, if size + 1 < total then 0 else 1
  {
    if size + 1 >= total {
      GrowTurn(m, maxsize, total, size, Schedule(queued, []));
      AllAtOnce(m, maxsize, 2 * total, size, queued);
    } else if queued > 0 {
      var s := QueuedTurn(m, maxsize, total, size, queued, []);
      AllAtOnce(m, maxsize, total, size + s, queued - s);
    } else {
      var n := AllTurn(m, maxsize, total, size);
      if n < m.bare {
        AllAtOnce(m, maxsize, total, n, 0);
      }
    }
  }

  // ----- The exact condition -----

  /** Two bare newlines end before the first blank line, which ends within the room the buffer then has. */
  predicate BothInSight(w: string, maxsize: int) {
    BareFirst(w) && End(w) < Capacity(maxsize, StartTotal(maxsize), Ends(CText(w), BARE))
  }

  /** Whether, after `queued` bytes, the pieces can decide between two headers. */
  predicate PiecesDecide(w: string, maxsize: int, queued: nat) {
    BothInSight(w, maxsize) && queued < Ends(CText(w), BARE)
  }

  /** The length of the header when they cannot. */
  function SettledLength(w: string, maxsize: int, queued: nat): int {
    if BothInSight(w, maxsize) then if End(w) <= queued then End(w) else Ends(CText(w), BARE)
    else Settled(MarksOf(w), maxsize, StartTotal(maxsize))
  }

  /**
    With any number of bytes queued, the header is the same for all ways in which the rest of the
    stream can arrive exactly when its two possible ends cannot come into sight together or the
    earlier one is queued already. Otherwise two headers are possible: up to the bare newlines when
    the rest arrives byte by byte, up to the blank line when it is there at once.
   */
  lemma HeaderSettledIff(w: string, maxsize: int, queued: nat)
    requires queued <= |w|
    ensures (forall p, q ::
               HeaderLength(w, maxsize, Schedule(queued, p)) == HeaderLength(w, maxsize, Schedule(queued, q)))
       <==> !PiecesDecide(w, maxsize, queued)
    ensures !PiecesDecide(w, maxsize, queued) ==>
              forall p :: HeaderLength(w, maxsize, Schedule(queued, p)) == SettledLength(w, maxsize, queued)
    ensures PiecesDecide(w, maxsize, queued) ==>
              var bare := Ends(CText(w), BARE);
              && queued < bare < End(w)
              && HeaderLength(w, maxsize, Schedule(queued, Ones(bare - queued))) == bare
              && HeaderLength(w, maxsize, Schedule(queued, [])) == End(w)
  {
    if PiecesDecide(w, maxsize, queued) {
      TwoHeaders(w, maxsize, queued);
      var bare := Ends(CText(w), BARE);
      assert HeaderLength(w, maxsize, Schedule(queued, Ones(bare - queued)))
          != HeaderLength(w, maxsize, Schedule(queued, []));
    } else {
      forall p ensures HeaderLength(w, maxsize, Schedule(queued, p)) == SettledLength(w, maxsize, queued) {
        OneHeader(w, maxsize, Schedule(queued, p));
      }
    }
  }

  lemma TwoHeaders(w: string, maxsize: int, queued: nat)
    requires queued <= |w| && PiecesDecide(w, maxsize, queued)
    ensures var bare := Ends(CText(w), BARE);
            && queued < bare < End(w)
            && HeaderLength(w, maxsize, Schedule(queued, Ones(bare - queued))) == bare
            && HeaderLength(w, maxsize, Schedule(queued, [])) == End(w)
  {
    var m, total := MarksOf(w), StartTotal(maxsize);
    ByteByByte(m, maxsize, total, 0, queued, m.bare - queued);
    AllAtOnce(m, maxsize, total, 0, queued);
  }

  lemma OneHeader(w: string, maxsize: int, sch: Schedule)
    requires sch.queued <= |w| && !PiecesDecide(w, maxsize, sch.queued)
    ensures HeaderLength(w, maxsize, sch) == SettledLength(w, maxsize, sch.queued)
  {
    if BothInSight(w, maxsize) {
      QueueDecides(MarksOf(w), maxsize, StartTotal(maxsize), 0, sch);
    } else {
      PiecesDoNotMatter(MarksOf(w), maxsize, StartTotal(maxsize), 0, sch);
    }
  }
}
