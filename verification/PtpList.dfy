/**
  The intrusive circular list with a sentinel (ptp/list.cpp, ptp/include/ptp/list.h).
  Locking is left out: every operation here runs with the list to itself.
 */
module PtpList {

  class Entry {
    var next: Entry
    var prev: Entry

    constructor ()
      ensures Detached()
    {
      next := this;
      prev := this;
    }

    /** Linked to nothing but itself. */
    predicate Detached()
      reads this
    {
      next == this && prev == this
    }
  }

  ghost predicate Distinct(r: seq<Entry>) {
    forall i, j :: 0 <= i < j < |r| ==> r[i] != r[j]
  }

  /** Going round the ring, r[i] is followed by its successor, seen from both sides. */
  ghost predicate LinkedAt(r: seq<Entry>, i: nat)
    requires i < |r|
    reads r
  {
    var succ := if i + 1 < |r| then r[i + 1] else r[0];
    r[i].next == succ && succ.prev == r[i]
  }

  /** `r` lists, in order, the nodes of one cycle in which `next` and `prev` are mutually inverse. */
  ghost predicate Ring(r: seq<Entry>)
    reads r
  {
    |r| > 0 && Distinct(r) && forall i: nat :: i < |r| ==> LinkedAt(r, i)
  }

  function DropAt(r: seq<Entry>, k: nat): seq<Entry>
    requires k < |r|
  {
    r[..k] + r[k + 1..]
  }

  class List {
    const head: Entry
    ghost var ring: seq<Entry>  // the sentinel, then the elements

    ghost predicate Valid()
      reads this, ring
    {
      Ring(ring) && ring[0] == head
    }

    /** The abstract list. */
    ghost function Elems(): seq<Entry>
      requires Valid()
      reads this, ring
    {
      ring[1..]
    }

    constructor ()
      ensures Valid() && Elems() == [] && fresh(ring)
    {
      head := new Entry();
      ring := [head];
    }

    predicate IsValid(entry: Entry?) {
      entry != null && entry != head
    }

    method GetHead() returns (entry: Entry?)
      requires Valid()
      ensures entry == if Elems() == [] then null else Elems()[0]
    {
      assert LinkedAt(ring, 0);
      entry := if IsValid(head.next) then head.next else null;
    }

    method GetTail() returns (entry: Entry?)
      requires Valid()
      ensures entry == if Elems() == [] then null else Elems()[|Elems()| - 1]
    {
      assert LinkedAt(ring, |ring| - 1);
      entry := if IsValid(head.prev) then head.prev else null;
    }

    method Insert(entry: Entry)
      requires Valid() && entry !in ring
      modifies this, head, entry, head.next
      ensures Valid() && Elems() == [entry] + old(Elems()) && ring == [head, entry] + old(ring)[1..]
    {
      ghost var was := ring;
      ghost var now := [head, entry] + ring[1..];
      assert LinkedAt(was, 0);
      var next := head.next;
      entry.next := next;
      entry.prev := head;
      next.prev := entry;
      head.next := entry;
      ring := now;
      forall i: nat | i < |now|
        ensures LinkedAt(now, i)
      {
        assert i >= 2 ==> old(LinkedAt(was, i - 1)) && now[i] == was[i - 1];
      }
    }

    method Append(entry: Entry)
      requires Valid() && entry !in ring
      modifies this, head, entry, head.prev
      ensures Valid() && Elems() == old(Elems()) + [entry] && ring == old(ring) + [entry]
    {
      ghost var was := ring;
      ghost var now := ring + [entry];
      assert LinkedAt(was, |was| - 1);
      var prev := head.prev;
      entry.next := head;
      entry.prev := prev;
      prev.next := entry;
      head.prev := entry;
      ring := now;
      forall i: nat | i < |now|
        ensures LinkedAt(now, i)
      {
        assert i < |was| ==> old(LinkedAt(was, i));
      }
    }

    /**
      Takes an entry out of whichever list holds it, which is `owner` but need not be this
      one: only the entry's own links are followed. `k` is the entry's place in that ring, or 0
      if the entry has been removed before; then nothing changes.
     */
    method Remove(entry: Entry, ghost owner: List, ghost k: nat)
      requires owner.Valid() && k < |owner.ring|
      requires if k == 0 then entry.Detached() && entry !in owner.ring else owner.ring[k] == entry
      modifies owner, entry, entry.next, entry.prev
      ensures owner.Valid() && owner.ring == if k == 0 then old(owner.ring) else DropAt(old(owner.ring), k)
      ensures entry.Detached()
    {
      ghost var was := owner.ring;
      ghost var now := if k == 0 then was else DropAt(was, k);
      assert k > 0 ==> LinkedAt(was, k - 1) && LinkedAt(was, k);
      var next := entry.next;
      var prev := entry.prev;
      next.prev := prev;
      prev.next := next;
      entry.next := entry;
      entry.prev := entry;
      owner.ring := now;
      forall i: nat | i < |now|
        ensures LinkedAt(now, i)
      {
        assert k == 0 || i < k ==> old(LinkedAt(was, i));
        assert k > 0 && i >= k ==> old(LinkedAt(was, i + 1));
      }
    }

    /** A node's neighbours are its neighbours in the ring. */
    lemma Neighbours(k: nat)
      requires Valid() && k < |ring|
      ensures ring[k].next == if k + 1 < |ring| then ring[k + 1] else head
      ensures ring[k].prev == ring[if k > 0 then k - 1 else |ring| - 1]
    {
      assert LinkedAt(ring, k) && LinkedAt(ring, if k > 0 then k - 1 else |ring| - 1);
    }

    /** One turn of the walk below: `tmp` is the element after `it`, which is removed if it is a victim. */
    method WalkTurn(it: Entry, victims: set<Entry>, ghost n: nat, ghost all: seq<Entry>, ghost m: nat)
      returns (tmp: Entry, ghost next: nat)
      requires Valid() && Walked(ring, n, all, m, victims) && n < |ring| && ring[n] == it
      modifies this, it, it.next, it.prev
      ensures Valid() && Walked(ring, next, all, m + 1, victims)
      ensures tmp == if next < |ring| then ring[next] else head
    {
      Neighbours(n);
      WalkStep(ring, n, all, m, victims);
      tmp := it.next;
      next := n + 1;
      if it in victims {
        Remove(it, this, n);
        next := n;
      }
    }

    /**
      The iteration macro with a body that removes the elements in `victims`. The next element
      is fetched before the body runs, so removing the current one does not disturb the walk.
     */
    method RemoveAll(victims: set<Entry>)
      requires Valid()
      modifies this, ring
      ensures Valid() && Elems() == Keep(old(Elems()), victims)
    {
      ghost var all := ring;
      ghost var n: nat, m: nat := 1, 1;
      var tmp := GetHead();
      while IsValid(tmp)
        invariant Valid() && Walked(ring, n, all, m, victims)
        invariant tmp == if n < |ring| then ring[n] else if m == 1 then null else head
        decreases |all| - m
      {
        var it: Entry := tmp;
        Neighbours(n);
        assert it in all && it.next in all && it.prev in all;
        tmp, n := WalkTurn(it, victims, n, all, m);
        m := m + 1;
      }
      WalkEnds(ring, n, all, m, victims);
    }
  }

  /** `s` without the elements of `victims`. */
  function Keep(s: seq<Entry>, victims: set<Entry>): seq<Entry> {
    if s == [] then [] else (if s[0] in victims then [] else [s[0]]) + Keep(s[1..], victims)
  }

  lemma {:induction false} KeepStep(s: seq<Entry>, e: Entry, victims: set<Entry>)
    ensures Keep(s + [e], victims) == Keep(s, victims) + if e in victims then [] else [e]
  {
    if s != [] {
      assert (s + [e])[1..] == s[1..] + [e];
      KeepStep(s[1..], e, victims);
    }
  }

  /** A walk over the ring `all` has passed all[1..m] and kept ring[1..n] of it. */
  ghost predicate Walked(ring: seq<Entry>, n: nat, all: seq<Entry>, m: nat, victims: set<Entry>) {
    && 0 < n <= |ring| && 0 < m <= |all|
    && ring[n..] == all[m..] && ring[1..n] == Keep(all[1..m], victims)
    && forall e | e in ring :: e in all
  }

  lemma WalkStep(ring: seq<Entry>, n: nat, all: seq<Entry>, m: nat, victims: set<Entry>)
    requires Walked(ring, n, all, m, victims) && n < |ring|
    ensures m < |all| && ring[n] == all[m]
    ensures if ring[n] in victims then Walked(DropAt(ring, n), n, all, m + 1, victims)
            else Walked(ring, n + 1, all, m + 1, victims)
  {
    assert ring[n..][0] == all[m..][0] && ring[n..][1..] == all[m..][1..];
    assert all[1..m + 1] == all[1..m] + [all[m]];
    KeepStep(all[1..m], all[m], victims);
    if ring[n] in victims {
      DropSplits(ring, n);
    } else {
      assert ring[1..n + 1] == ring[1..n] + [ring[n]];
    }
  }

  lemma WalkEnds(ring: seq<Entry>, n: nat, all: seq<Entry>, m: nat, victims: set<Entry>)
    requires Walked(ring, n, all, m, victims) && n == |ring|
    ensures ring[1..] == Keep(all[1..], victims)
  {
    assert ring[1..n] == ring[1..] && all[1..m] == all[1..];
  }

  lemma DropSplits(ring: seq<Entry>, n: nat)
    requires 0 < n < |ring|
    ensures DropAt(ring, n)[n..] == ring[n + 1..] && DropAt(ring, n)[1..n] == ring[1..n]
    ensures forall e | e in DropAt(ring, n) :: e in ring
  {
  }

  /** `s` without `x`. */
  function Without(s: seq<Entry>, x: Entry): (r: seq<Entry>)
    ensures x !in r
    ensures x !in s ==> r == s
  {
    if s == [] then [] else (if s[0] == x then [] else [s[0]]) + Without(s[1..], x)
  }

  lemma {:induction false} WithoutAt(s: seq<Entry>, k: nat)
    requires k < |s| && Distinct(s)
    ensures Without(s, s[k]) == DropAt(s, k)
  {
    if k > 0 {
      WithoutAt(s[1..], k - 1);
      assert s[..k] == [s[0]] + s[1..][..k - 1];
    }
  }

  /** Dropping element `k` of a ring removes it from the elements after the sentinel, and nothing else. */
  lemma DropEffect(ring: seq<Entry>, k: nat)
    requires 0 < k < |ring| && Distinct(ring)
    ensures DropAt(ring, k)[1..] == Without(ring[1..], ring[k])
    ensures forall e | e in DropAt(ring, k) :: e in ring
    ensures forall e | e in ring :: e in DropAt(ring, k) || e == ring[k]
  {
    WithoutAt(ring[1..], k - 1);
    DropAfterFirst(ring, k);
    DropSplits(ring, k);
    assert ring == ring[..k] + [ring[k]] + ring[k + 1..];
  }

  lemma DropAfterFirst(ring: seq<Entry>, k: nat)
    requires 0 < k < |ring|
    ensures DropAt(ring, k)[1..] == DropAt(ring[1..], k - 1)
  {
  }

  ghost function Position(s: seq<Entry>, x: Entry): (k: nat)
    requires x in s
    ensures k < |s| && s[k] == x
  {
    if s[0] == x then 0 else 1 + Position(s[1..], x)
  }

  datatype Op = Insert(entry: Entry) | Append(entry: Entry) | Remove(entry: Entry)

  /** The effect of one operation on the abstract list. */
  function Step(elems: seq<Entry>, op: Op): seq<Entry> {
    match op
    case Insert(e) => [e] + elems
    case Append(e) => elems + [e]
    case Remove(e) => Without(elems, e)
  }

  function Steps(elems: seq<Entry>, ops: seq<Op>): seq<Entry>
    decreases |ops|
  {
    if ops == [] then elems else Steps(Step(elems, ops[0]), ops[1..])
  }

  /** No operation inserts an entry that is in the list when its turn comes. */
  predicate Legal(elems: seq<Entry>, ops: seq<Op>)
    decreases |ops|
  {
    ops == [] || ((ops[0].Remove? || ops[0].entry !in elems) && Legal(Step(elems, ops[0]), ops[1..]))
  }

  /** One operation on the heap does what it does to the abstract list. */
  method Perform(list: List, op: Op)
    requires list.Valid() && op.entry != list.head && Legal(list.Elems(), [op])
    requires op.entry in list.ring || op.entry.Detached()
    modifies list, list.ring, op.entry
    ensures list.Valid() && list.Elems() == Step(old(list.Elems()), op)
    ensures list.Elems() == match op
              case Insert(e) => [e] + old(list.Elems())
              case Append(e) => old(list.Elems()) + [e]
              case Remove(e) => Without(old(list.Elems()), e)
    ensures op.entry in list.ring || op.entry.Detached()
    ensures forall e | e in list.ring :: e in old(list.ring) || e == op.entry
    ensures forall e | e in old(list.ring) :: e in list.ring || e == op.entry
  {
    list.Neighbours(0);
    ghost var was := list.ring;
    match op
    case Insert(e) =>
      list.Insert(e);
      assert list.ring[1] == e && forall i :: 1 <= i < |was| ==> list.ring[i + 1] == was[i];
    case Append(e) =>
      list.Append(e);
      assert list.ring[|was|] == e && forall i :: 0 <= i < |was| ==> list.ring[i] == was[i];
    case Remove(e) =>
      ghost var k := if e in was then Position(was, e) else 0;
      if k > 0 {
        list.Neighbours(k);
        DropEffect(was, k);
      }
      list.Remove(e, list, k);
  }

  /**
    Any sequence of operations: throughout, the heap holds one ring that follows the abstract
    list. Entries outside the list are detached, so removing them again is harmless.
   */
  method Run(list: List, ops: seq<Op>, ghost domain: set<Entry>)
    requires (forall e | e in list.ring :: e in domain) && (forall op | op in ops :: op.entry in domain)
    requires list.Valid() && Legal(list.Elems(), ops)
    requires forall op | op in ops :: op.entry != list.head && (op.entry in list.ring || op.entry.Detached())
    modifies list, domain
    ensures list.Valid() && list.Elems() == Steps(old(list.Elems()), ops)
    decreases |ops|
  {
    if ops != [] {
      Perform(list, ops[0]);
      Run(list, ops[1..], domain);
    }
  }
}
