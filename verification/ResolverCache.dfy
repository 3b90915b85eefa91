/**
  The four-entry host name cache (openssl/apps/s_socket.c).

  The resolver is a function from names to addresses. A cached entry is a copy of the answer;
  that GetHostByName copies only its outer structure is left out.
 */
module ResolverCache {
  import opened Common

  const CACHE_SIZE := 4
  const NAME_SIZE := 128

  type Resolver = string -> Option<int>
  type Entry = (string, int)

  /** The part of a name that is stored and compared. */
  function Key(name: string): string {
    if |name| <= NAME_SIZE then name else name[..NAME_SIZE]
  }

  /** Names are kept apart exactly when they differ within their first 128 characters. */
  lemma SameKey(a: string, b: string)
    ensures Key(a) == Key(b) <==> a == b || (|a| >= 128 && |b| >= 128 && a[..128] == b[..128])
  {
    if |a| > 128 && |b| == 128 {
      assert b[..128] == b;
    } else if |a| == 128 && |b| > 128 {
      assert a[..128] == a;
    }
  }

  // ----- The cache as a list, most recently used first -----

  /** The place of `key` in the list, or the list's length. */
  function Find(recent: seq<Entry>, key: string): (k: nat)
    ensures k <= |recent|
    ensures k < |recent| ==> recent[k].0 == key
    ensures forall i :: 0 <= i < k ==> recent[i].0 != key
  {
    if recent == [] || recent[0].0 == key then 0 else 1 + Find(recent[1..], key)
  }

  function Take(s: seq<Entry>): seq<Entry> {
    if |s| <= CACHE_SIZE then s else s[..CACHE_SIZE]
  }

  /** One lookup: the new list and the answer. */
  function Lookup(recent: seq<Entry>, name: string, r: Resolver): (seq<Entry>, Option<int>) {
    var k := Find(recent, Key(name));
    if k < |recent| then ([recent[k]] + recent[..k] + recent[k + 1..], Some(recent[k].1))
    else
      match r(name)
      case None => (recent, None)
      case Some(a) => (Take([(Key(name), a)] + recent), Some(a))
  }

  // ----- Slots and the list they stand for -----

  /** A slot; order 0 marks one not in use, otherwise it says when the slot was last used. */
  datatype Slot = Slot(name: string, ent: int, order: nat)

  /** Puts a slot in its place in a list ordered by use, latest first. */
  function Place(s: Slot, r: seq<Slot>): seq<Slot> {
    if s.order == 0 then r
    else if r == [] || s.order > r[0].order then [s] + r
    else [r[0]] + Place(s, r[1..])
  }

  /** The slots in use, latest first. */
  function Ranking(slots: seq<Slot>): seq<Slot> {
    if slots == [] then [] else Place(slots[0], Ranking(slots[1..]))
  }

  /** The list without the slot used at time `order`. */
  function Pull(r: seq<Slot>, order: nat): seq<Slot> {
    if r == [] then [] else if r[0].order == order then r[1..] else [r[0]] + Pull(r[1..], order)
  }

  function Entries(r: seq<Slot>): seq<Entry> {
    seq(|r|, i requires 0 <= i < |r| => (r[i].name, r[i].ent))
  }

  /** No two slots in use share a time of use or a name, and no time exceeds the clock. */
  predicate Consistent(slots: seq<Slot>, clock: nat) {
    && (forall i :: 0 <= i < |slots| ==> slots[i].order <= clock)
    && (forall i, j :: 0 <= i < j < |slots| && slots[i].order > 0 ==> slots[i].order != slots[j].order)
    && (forall i, j :: 0 <= i < j < |slots| && slots[i].order > 0 && slots[j].order > 0 ==>
                         slots[i].name != slots[j].name)
  }

  predicate Descending(r: seq<Slot>) {
    forall i, j :: 0 <= i < j < |r| ==> r[i].order > r[j].order
  }

  lemma {:induction false} PlaceDescending(s: Slot, r: seq<Slot>)
    requires Descending(r) && forall x | x in r :: x.order != s.order
    ensures Descending(Place(s, r))
    ensures forall x :: x in Place(s, r) <==> x in r || (x == s && s.order > 0)
    ensures |Place(s, r)| == |r| + if s.order > 0 then 1 else 0
  {
    if s.order > 0 && r != [] && s.order < r[0].order {
      PlaceDescending(s, r[1..]);
      forall x | x in Place(s, r[1..])
        ensures x.order < r[0].order
      {
      }
    }
  }

  /** The ranking holds exactly the slots in use. */
  lemma {:induction false} RankingHolds(slots: seq<Slot>, clock: nat)
    requires Consistent(slots, clock)
    ensures Descending(Ranking(slots)) && |Ranking(slots)| <= |slots|
    ensures forall x :: x in Ranking(slots) <==> x in slots && x.order > 0
    ensures (forall x | x in slots :: x.order > 0) ==> |Ranking(slots)| == |slots|
    ensures (exists x :: x in slots && x.order == 0) ==> |Ranking(slots)| < |slots|
  {
    if slots != [] {
      RankingHolds(slots[1..], clock);
      PlaceDescending(slots[0], Ranking(slots[1..]));
    }
  }

  lemma {:induction false} PullPlace(s: Slot, r: seq<Slot>)
    requires forall x | x in r :: x.order != s.order && x.order > 0
    ensures Pull(Place(s, r), s.order) == r
  {
    if r != [] {
      PullPlace(s, r[1..]);
    }
  }

  lemma {:induction false} PullNothing(r: seq<Slot>, order: nat)
    requires forall x | x in r :: x.order != order
    ensures Pull(r, order) == r
  {
    if r != [] {
      PullNothing(r[1..], order);
    }
  }

  lemma {:induction false} PullPlaceOther(s: Slot, r: seq<Slot>, order: nat)
    requires s.order != order && Descending(r)
    ensures Pull(Place(s, r), order) == Place(s, Pull(r, order))
  {
    if r != [] {
      PullPlaceOther(s, r[1..], order);
      assert |r| > 1 ==> r[1].order < r[0].order;
    }
  }

  lemma OthersDiffer(slots: seq<Slot>, clock: nat)
    requires Consistent(slots, clock) && slots != []
    ensures forall x | x in Ranking(slots[1..]) :: x.order != slots[0].order && x.order > 0
  {
    RankingHolds(slots[1..], clock);
    forall x | x in Ranking(slots[1..])
      ensures x.order != slots[0].order
    {
      var j :| 0 <= j < |slots[1..]| && slots[1..][j] == x;
      assert slots[j + 1] == x;
    }
  }

  /** Writing a slot with the latest time puts it in front and takes the old one out. */
  lemma {:induction false} Overwrite(slots: seq<Slot>, clock: nat, i: nat, s: Slot)
    requires Consistent(slots, clock) && i < |slots| && s.order > clock
    ensures Ranking(slots[i := s]) == [s] + Pull(Ranking(slots), slots[i].order)
  {
    if i == 0 {
      OverwriteFirst(slots, clock, s);
    } else {
      assert slots[i := s][1..] == slots[1..][i - 1 := s];
      Overwrite(slots[1..], clock, i - 1, s);
      OverwriteLater(slots, clock, i, s);
    }
  }

  lemma OverwriteFirst(slots: seq<Slot>, clock: nat, s: Slot)
    requires Consistent(slots, clock) && slots != [] && s.order > clock
    ensures Ranking(slots[0 := s]) == [s] + Pull(Ranking(slots), slots[0].order)
  {
    var r := Ranking(slots[1..]);
    assert slots[0 := s][1..] == slots[1..];
    RankingHolds(slots[1..], clock);
    OthersDiffer(slots, clock);
    if slots[0].order == 0 {
      PullNothing(r, 0);
    } else {
      PullPlace(slots[0], r);
    }
    PlaceFirst(s, r);
  }

  lemma PlaceFirst(s: Slot, r: seq<Slot>)
    requires s.order > 0 && forall x | x in r :: x.order < s.order
    ensures Place(s, r) == [s] + r
  {
  }

  lemma OverwriteLater(slots: seq<Slot>, clock: nat, i: nat, s: Slot)
    requires Consistent(slots, clock) && 0 < i < |slots| && s.order > clock
    requires slots[i := s][1..] == slots[1..][i - 1 := s]
    requires Ranking(slots[1..][i - 1 := s]) == [s] + Pull(Ranking(slots[1..]), slots[i].order)
    ensures Ranking(slots[i := s]) == [s] + Pull(Ranking(slots), slots[i].order)
  {
    var r := Ranking(slots[1..]);
    RankingHolds(slots[1..], clock);
    if slots[0].order != slots[i].order {
      PullPlaceOther(slots[0], r, slots[i].order);
    }
    PlaceBehind(slots[0], s, Pull(r, slots[i].order));
  }

  lemma PlaceBehind(x: Slot, s: Slot, r: seq<Slot>)
    requires x.order < s.order
    ensures Place(x, [s] + r) == [s] + Place(x, r)
  {
    assert ([s] + r)[1..] == r;
  }

  lemma DropLater<T>(s: seq<T>, k: nat)
    requires 0 < k < |s|
    ensures s[..k] + s[k + 1..] == [s[0]] + (s[1..][..k - 1] + s[1..][k..])
  {
  }

  lemma {:induction false} PullAt(r: seq<Slot>, k: nat)
    requires Descending(r) && k < |r|
    ensures Pull(r, r[k].order) == r[..k] + r[k + 1..]
  {
    if k > 0 {
      PullAt(r[1..], k - 1);
      DropLater(r, k);
    }
  }

  /** Where the list holds a name that some slot in use has. */
  lemma FindSlot(slots: seq<Slot>, clock: nat, i: nat) returns (k: nat)
    requires Consistent(slots, clock) && i < |slots| && slots[i].order > 0
    ensures k == Find(Entries(Ranking(slots)), slots[i].name) < |Ranking(slots)| && Ranking(slots)[k] == slots[i]
  {
    RankingHolds(slots, clock);
    k := FindIn(Ranking(slots), slots[i]);
    SameName(slots, clock, i, Ranking(slots)[k]);
  }

  lemma FindIn(r: seq<Slot>, s: Slot) returns (k: nat)
    requires s in r
    ensures k == Find(Entries(r), s.name) < |r| && r[k].name == s.name && r[k] in r
  {
    var j :| 0 <= j < |r| && r[j] == s;
    k := Find(Entries(r), s.name);
    assert Entries(r)[j].0 == s.name;
  }

  /** Slots in use with the same name are the same. */
  lemma SameName(slots: seq<Slot>, clock: nat, i: nat, s: Slot)
    requires Consistent(slots, clock) && i < |slots| && slots[i].order > 0
    requires s in slots && s.order > 0 && s.name == slots[i].name
    ensures s == slots[i]
  {
    var m :| 0 <= m < |slots| && slots[m] == s;
  }

  lemma StampedConsistent(slots: seq<Slot>, clock: nat, i: nat, s: Slot)
    requires Consistent(slots, clock) && i < |slots| && s.order == clock + 1
    requires forall j :: 0 <= j < |slots| && j != i && slots[j].order > 0 ==> slots[j].name != s.name
    ensures Consistent(slots[i := s], clock + 1)
  {
  }

  /** A hit moves the entry found to the front. */
  lemma {:induction false} HitStep(slots: seq<Slot>, clock: nat, i: nat) returns (k: nat)
    requires Consistent(slots, clock) && i < |slots| && slots[i].order > 0
    ensures var v := Entries(Ranking(slots));
            && k == Find(v, slots[i].name) < |v| && v[k] == (slots[i].name, slots[i].ent)
            && Entries(Ranking(slots[i := slots[i].(order := clock + 1)])) == [v[k]] + v[..k] + v[k + 1..]
    ensures Consistent(slots[i := slots[i].(order := clock + 1)], clock + 1)
  {
    var r := Ranking(slots);
    RankingHolds(slots, clock);
    k := FindSlot(slots, clock, i);
    Overwrite(slots, clock, i, slots[i].(order := clock + 1));
    PullAt(r, k);
    EntriesMoved(r, k, slots[i].(order := clock + 1));
    StampedConsistent(slots, clock, i, slots[i].(order := clock + 1));
  }

  lemma {:induction false} EntriesMoved(r: seq<Slot>, k: nat, s: Slot)
    requires k < |r| && s.name == r[k].name && s.ent == r[k].ent
    ensures Entries([s] + (r[..k] + r[k + 1..])) == [Entries(r)[k]] + Entries(r)[..k] + Entries(r)[k + 1..]
  {
    var now, v := [s] + (r[..k] + r[k + 1..]), Entries(r);
    forall i | 0 <= i < |r|
      ensures Entries(now)[i] == ([v[k]] + v[..k] + v[k + 1..])[i]
    {
      assert now[i] == if i == 0 then s else if i <= k then r[i - 1] else r[i];
    }
  }

  /** A name that no slot in use has is not in the list. */
  lemma FindNothing(slots: seq<Slot>, clock: nat, key: string)
    requires Consistent(slots, clock)
    requires forall s :: 0 <= s < |slots| && slots[s].order > 0 ==> slots[s].name != key
    ensures Find(Entries(Ranking(slots)), key) == |Ranking(slots)|
  {
    var r := Ranking(slots);
    RankingHolds(slots, clock);
    forall k | 0 <= k < |r|
      ensures Entries(r)[k].0 != key
    {
      assert r[k] in r;
    }
  }

  /** What replacing the slot used least recently takes out of the ranking: nothing, or the last of four. */
  lemma PullLeast(slots: seq<Slot>, clock: nat, low: nat)
    requires Consistent(slots, clock) && |slots| == CACHE_SIZE && low < CACHE_SIZE
    requires forall s :: 0 <= s < CACHE_SIZE ==> slots[low].order <= slots[s].order
    ensures var r := Ranking(slots);
            Pull(r, slots[low].order) == if |r| < CACHE_SIZE then r else r[..CACHE_SIZE - 1]
    ensures |Ranking(slots)| <= CACHE_SIZE
  {
    var r := Ranking(slots);
    RankingHolds(slots, clock);
    if slots[low].order == 0 {
      assert slots[low] in slots;
      PullNothing(r, 0);
    } else {
      LeastIsLast(slots, clock, low);
      PullAt(r, CACHE_SIZE - 1);
    }
  }

  lemma {:induction false} EntriesTaken(r: seq<Slot>, s: Slot)
    requires |r| <= CACHE_SIZE
    ensures Entries([s] + if |r| < CACHE_SIZE then r else r[..CACHE_SIZE - 1]) == Take([(s.name, s.ent)] + Entries(r))
  {
  }

  /** A miss that resolves puts the new entry in front and drops the fifth. */
  lemma MissStep(slots: seq<Slot>, clock: nat, low: nat, key: string, ent: int)
    requires Consistent(slots, clock) && |slots| == CACHE_SIZE && low < CACHE_SIZE
    requires forall s :: 0 <= s < CACHE_SIZE ==> slots[low].order <= slots[s].order
    requires forall s :: 0 <= s < CACHE_SIZE && slots[s].order > 0 ==> slots[s].name != key
    ensures Find(Entries(Ranking(slots)), key) == |Ranking(slots)|
    ensures Entries(Ranking(slots[low := Slot(key, ent, clock + 1)])) == Take([(key, ent)] + Entries(Ranking(slots)))
    ensures Consistent(slots[low := Slot(key, ent, clock + 1)], clock + 1)
  {
    FindNothing(slots, clock, key);
    Overwrite(slots, clock, low, Slot(key, ent, clock + 1));
    StampedConsistent(slots, clock, low, Slot(key, ent, clock + 1));
    PullLeast(slots, clock, low);
    EntriesTaken(Ranking(slots), Slot(key, ent, clock + 1));
  }

  /** What a hit does to the list is a lookup. */
  lemma HitLookup(slots: seq<Slot>, clock: nat, i: nat, name: string, r: Resolver, touched: seq<Slot>)
    requires Consistent(slots, clock) && i < |slots| && slots[i].order > 0 && slots[i].name == Key(name)
    requires touched == slots[i := slots[i].(order := clock + 1)]
    ensures Consistent(touched, clock + 1)
    ensures Lookup(Entries(Ranking(slots)), name, r) == (Entries(Ranking(touched)), Some(slots[i].ent))
  {
    var k := HitStep(slots, clock, i);
  }

  /** What a miss does to the list is a lookup. */
  lemma MissLookup(slots: seq<Slot>, clock: nat, low: nat, name: string, r: Resolver, filled: seq<Slot>)
    requires Consistent(slots, clock) && |slots| == CACHE_SIZE && low < CACHE_SIZE
    requires forall s :: 0 <= s < CACHE_SIZE ==> slots[low].order <= slots[s].order
    requires forall s :: 0 <= s < CACHE_SIZE && slots[s].order > 0 ==> slots[s].name != Key(name)
    requires filled == if r(name).Some? then slots[low := Slot(Key(name), r(name).value, clock + 1)] else slots
    ensures Consistent(filled, clock + 1)
    ensures Lookup(Entries(Ranking(slots)), name, r) == (Entries(Ranking(filled)), r(name))
  {
    MissStep(slots, clock, low, Key(name), r(name).GetOr(0));
  }

  /** When all slots are in use, the one with the least time is the last of the ranking. */
  lemma LeastIsLast(slots: seq<Slot>, clock: nat, low: nat)
    requires Consistent(slots, clock) && |slots| == CACHE_SIZE && low < CACHE_SIZE && slots[low].order > 0
    requires forall s :: 0 <= s < CACHE_SIZE ==> slots[low].order <= slots[s].order
    ensures |Ranking(slots)| == CACHE_SIZE && Ranking(slots)[CACHE_SIZE - 1] == slots[low]
  {
    var r := Ranking(slots);
    RankingHolds(slots, clock);
    assert slots[low] in r;
    var j :| 0 <= j < |r| && r[j] == slots[low];
    assert r[CACHE_SIZE - 1] in slots;
  }

  lemma {:induction false} NoneInUse(slots: seq<Slot>)
    requires forall s | s in slots :: s.order == 0
    ensures Ranking(slots) == []
  {
    if slots != [] {
      NoneInUse(slots[1..]);
    }
  }

  // ----- The class -----

  class Cache {
    const resolver: Resolver
    const slots: array<Slot>
    var hits: nat
    var misses: nat

    predicate Valid()
      reads this, slots
    {
      slots.Length == CACHE_SIZE && Consistent(slots[..], hits + misses)
    }

    /** The cache as a list, most recently used first. */
    function Recent(): seq<Entry>
      reads this, slots
    {
      Entries(Ranking(slots[..]))
    }

    constructor (resolver: Resolver)
      ensures Valid() && Recent() == [] && this.resolver == resolver && fresh(slots)
    {
      this.resolver := resolver;
      slots := new Slot[CACHE_SIZE](_ => Slot("", 0, 0));
      hits, misses := 0, 0;
      new;
      NoneInUse(slots[..]);
    }

    /** The scan: the slot that holds the name, or else the slot to replace. */
    method Scan(name: string) returns (i: nat, lowi: nat)
      requires Valid()
      ensures i <= CACHE_SIZE && lowi < CACHE_SIZE
      ensures i < CACHE_SIZE ==> slots[i].order > 0 && slots[i].name == Key(name)
      ensures i == CACHE_SIZE ==>
                && (forall s :: 0 <= s < CACHE_SIZE && slots[s].order > 0 ==> slots[s].name != Key(name))
                && (forall s :: 0 <= s < CACHE_SIZE ==> slots[lowi].order <= slots[s].order)
    {
      i, lowi := 0, 0;
      var low := 0;
      while i < CACHE_SIZE
        invariant i <= CACHE_SIZE && lowi < CACHE_SIZE
        invariant forall s :: 0 <= s < i && slots[s].order > 0 ==> slots[s].name != Key(name)
        invariant i > 0 ==> low == slots[lowi].order && forall s :: 0 <= s < i ==> low <= slots[s].order
      {
        if i == 0 || low > slots[i].order {
          low, lowi := slots[i].order, i;
        }
        if slots[i].order > 0 && slots[i].name == Key(name) {
          break;
        }
        i := i + 1;
      }
    }

    /** No slot holds the name: ask the resolver and keep its answer in slot `lowi`. */
    method Miss(name: string, lowi: nat) returns (ret: Option<int>)
      requires Valid() && lowi < CACHE_SIZE
      requires forall s :: 0 <= s < CACHE_SIZE ==> slots[lowi].order <= slots[s].order
      requires forall s :: 0 <= s < CACHE_SIZE && slots[s].order > 0 ==> slots[s].name != Key(name)
      modifies this, slots
      ensures Valid() && (Recent(), ret) == Lookup(old(Recent()), name, resolver)
    {
      ghost var was, clock := slots[..], hits + misses;
      misses := misses + 1;
      ret := resolver(name);
      if ret.Some? {
        Fill(lowi, Slot(Key(name), ret.value, misses + hits));
      }
      MissLookup(was, clock, lowi, name, resolver, slots[..]);
    }

    method Fill(i: nat, s: Slot)
      requires i < slots.Length
      modifies slots
      ensures slots[..] == old(slots[..])[i := s]
    {
      slots[i] := s;
    }

    /** Slot `i` holds the name. */
    method Hit(ghost name: string, i: nat) returns (ret: Option<int>)
      requires Valid() && i < CACHE_SIZE && slots[i].order > 0 && slots[i].name == Key(name)
      modifies this, slots
      ensures Valid() && (Recent(), ret) == Lookup(old(Recent()), name, resolver)
    {
      ghost var was, clock := slots[..], hits + misses;
      hits := hits + 1;
      ret := Some(slots[i].ent);
      Fill(i, slots[i].(order := misses + hits));
      HitLookup(was, clock, i, name, resolver, slots[..]);
    }

    /** One lookup does to the slots what it does to the list. */
    method GetHostByName(name: string) returns (ret: Option<int>)
      requires Valid()
      modifies this, slots
      ensures Valid() && (Recent(), ret) == Lookup(old(Recent()), name, resolver)
    {
      var i, lowi := Scan(name);
      if i == CACHE_SIZE {
        ret := Miss(name, lowi);
      } else {
        ret := Hit(name, i);
      }
    }
  }

  // ----- Laws of whole runs -----

  /** The list after a run of lookups. */
  function RunFrom(recent: seq<Entry>, names: seq<string>, r: Resolver): seq<Entry>
    decreases |names|
  {
    if names == [] then recent else RunFrom(Lookup(recent, names[0], r).0, names[1..], r)
  }

  /** Among the names in `all`, the resolver gives the same answer to those with the same stored part. */
  ghost predicate Respects(all: iset<string>, r: Resolver) {
    forall a, b | a in all && b in all :: Key(a) == Key(b) && r(a).Some? ==> r(b) == r(a)
  }

  ghost predicate DrawnFrom(names: seq<string>, all: iset<string>) {
    forall i :: 0 <= i < |names| ==> names[i] in all
  }

  /** Every entry is what the resolver answers for every name in `all` stored under its key. */
  ghost predicate Faithful(recent: seq<Entry>, all: iset<string>, r: Resolver) {
    forall i, name | 0 <= i < |recent| && name in all :: Key(name) == recent[i].0 ==> r(name) == Some(recent[i].1)
  }

  /** The names that are stored whole. */
  ghost function ShortNames(): iset<string> {
    iset name: string | |name| <= 128
  }

  ghost predicate DistinctKeys(recent: seq<Entry>) {
    forall i, j :: 0 <= i < j < |recent| ==> recent[i].0 != recent[j].0
  }

  lemma LookupFaithful(recent: seq<Entry>, name: string, all: iset<string>, r: Resolver)
    requires name in all && Respects(all, r) && Faithful(recent, all, r)
    ensures Faithful(Lookup(recent, name, r).0, all, r) && Lookup(recent, name, r).1 == r(name)
  {
    var k := Find(recent, Key(name));
    var now := Lookup(recent, name, r).0;
    forall i, n | 0 <= i < |now| && n in all && Key(n) == now[i].0
      ensures r(n) == Some(now[i].1)
    {
      if k < |recent| {
        assert now[i] == recent[if i == 0 then k else if i <= k then i - 1 else i];
      } else if r(name).Some? && i > 0 {
        assert now[i] == recent[i - 1];
      }
    }
  }

  lemma LookupDistinct(recent: seq<Entry>, name: string, r: Resolver)
    requires DistinctKeys(recent) && |recent| <= CACHE_SIZE
    ensures DistinctKeys(Lookup(recent, name, r).0) && |Lookup(recent, name, r).0| <= CACHE_SIZE
  {
  }

  lemma {:induction false} RunKeeps(recent: seq<Entry>, names: seq<string>, r: Resolver)
    requires DistinctKeys(recent) && |recent| <= 4
    ensures DistinctKeys(RunFrom(recent, names, r)) && |RunFrom(recent, names, r)| <= 4
    decreases |names|
  {
    if names != [] {
      LookupDistinct(recent, names[0], r);
      RunKeeps(Lookup(recent, names[0], r).0, names[1..], r);
    }
  }

  lemma {:induction false} RunFaithful(recent: seq<Entry>, names: seq<string>, all: iset<string>, r: Resolver)
    requires Respects(all, r) && DrawnFrom(names, all) && Faithful(recent, all, r)
    ensures Faithful(RunFrom(recent, names, r), all, r)
    decreases |names|
  {
    if names != [] {
      LookupFaithful(recent, names[0], all, r);
      RunFaithful(Lookup(recent, names[0], r).0, names[1..], all, r);
    }
  }

  /** After every run over names in `all`, a lookup of one of them answers as the resolver does. */
  ghost predicate AnswersRight(all: iset<string>, r: Resolver) {
    forall names: seq<string>, name: string | DrawnFrom(names, all) && name in all ::
      Lookup(RunFrom([], names, r), name, r).1 == r(name)
  }

  /**
    Lookups of names from any set are answered as the resolver would in every run exactly when it
    agrees on those of them with the same first 128 characters: a longer name can be answered with
    another's address.
   */
  lemma AnswersRightIff(all: iset<string>, r: Resolver)
    ensures AnswersRight(all, r) <==> Respects(all, r)
  {
    if Respects(all, r) {
      forall names: seq<string>, name: string | DrawnFrom(names, all) && name in all
        ensures Lookup(RunFrom([], names, r), name, r).1 == r(name)
      {
        RunFaithful([], names, all, r);
        LookupFaithful(RunFrom([], names, r), name, all, r);
      }
    }
    if AnswersRight(all, r) {
      forall a, b | a in all && b in all && Key(a) == Key(b) && r(a).Some?
        ensures r(b) == r(a)
      {
        AfterOne(a, b, r);
        assert DrawnFrom([a], all);
        assert Lookup(RunFrom([], [a], r), b, r).1 == r(b);
      }
    }
  }

  /** A name stored under the same key as the last one is answered alike. */
  lemma AfterOne(a: string, b: string, r: Resolver)
    requires Key(a) == Key(b) && r(a).Some?
    ensures Lookup(RunFrom([], [a], r), b, r).1 == r(a)
  {
    assert [a][1..] == [];
    assert RunFrom([], [a], r) == RunFrom(Lookup([], a, r).0, [], r) == [(Key(a), r(a).value)];
  }

  /** Every entry stored under a whole name of fewer than 128 characters is the answer for that name. */
  ghost predicate ShorterFaithful(recent: seq<Entry>, r: Resolver) {
    forall i :: 0 <= i < |recent| && |recent[i].0| < NAME_SIZE ==> r(recent[i].0) == Some(recent[i].1)
  }

  lemma LookupShorter(recent: seq<Entry>, name: string, r: Resolver)
    requires ShorterFaithful(recent, r)
    ensures ShorterFaithful(Lookup(recent, name, r).0, r)
    ensures |name| < NAME_SIZE ==> Lookup(recent, name, r).1 == r(name)
  {
    var k := Find(recent, Key(name));
    var now := Lookup(recent, name, r).0;
    forall i | 0 <= i < |now| && |now[i].0| < NAME_SIZE
      ensures r(now[i].0) == Some(now[i].1)
    {
      if k < |recent| {
        assert now[i] == recent[if i == 0 then k else if i <= k then i - 1 else i];
      } else if r(name).Some? && i > 0 {
        assert now[i] == recent[i - 1];
      }
    }
  }

  lemma {:induction false} RunShorter(recent: seq<Entry>, names: seq<string>, r: Resolver)
    requires ShorterFaithful(recent, r)
    ensures ShorterFaithful(RunFrom(recent, names, r), r)
    decreases |names|
  {
    if names != [] {
      LookupShorter(recent, names[0], r);
      RunShorter(Lookup(recent, names[0], r).0, names[1..], r);
    }
  }

  /** A name of fewer than 128 characters is answered as the resolver would after every run, long names included. */
  lemma ShorterNameAnswersRight(names: seq<string>, name: string, r: Resolver)
    requires |name| < 128
    ensures Lookup(RunFrom([], names, r), name, r).1 == r(name)
  {
    RunShorter([], names, r);
    LookupShorter(RunFrom([], names, r), name, r);
  }

  /** One of exactly 128 is not, once a longer name that starts with it has another answer. */
  lemma WholeKeyAnsweredWrong(a: string, b: string, r: Resolver)
    requires |a| == 128 && b != "" && r(a + b).Some? && r(a) != r(a + b)
    ensures Lookup(RunFrom([], [a + b], r), a, r).1 == r(a + b) != r(a)
  {
    assert (a + b)[..NAME_SIZE] == a;
    AfterOne(a + b, a, r);
  }

  /**
    In runs over names of at most 128 characters all of these are answered as the resolver would,
    whatever the resolver.
   */
  lemma ShortNamesAnswerRight(r: Resolver)
    ensures AnswersRight(ShortNames(), r)
  {
    ShortNamesRespected(r);
    AnswersRightIff(ShortNames(), r);
  }

  lemma ShortNamesRespected(r: Resolver)
    ensures Respects(ShortNames(), r)
  {
  }

  /** The distinct names that resolved, most recently used first. */
  function MostRecent(names: seq<string>, r: Resolver): seq<Entry> {
    if names == [] then []
    else
      var name, before := names[|names| - 1], MostRecent(names[..|names| - 1], r);
      match r(name)
      case None => before
      case Some(a) => [(Key(name), a)] + WithoutKey(before, Key(name))
  }

  function WithoutKey(s: seq<Entry>, key: string): seq<Entry> {
    if s == [] then [] else (if s[0].0 == key then [] else [s[0]]) + WithoutKey(s[1..], key)
  }

  lemma {:induction false} RunLast(recent: seq<Entry>, names: seq<string>, r: Resolver)
    requires names != []
    ensures RunFrom(recent, names, r) == Lookup(RunFrom(recent, names[..|names| - 1], r), names[|names| - 1], r).0
    decreases |names|
  {
    if |names| > 1 {
      RunLast(Lookup(recent, names[0], r).0, names[1..], r);
      assert names[1..][..|names| - 2] == names[..|names| - 1][1..];
    }
  }

  lemma {:induction false} WithoutKeyAt(s: seq<Entry>, key: string)
    requires DistinctKeys(s)
    ensures var k := Find(s, key); WithoutKey(s, key) == if k < |s| then s[..k] + s[k + 1..] else s
  {
    if s != [] {
      TailDistinct(s);
      WithoutKeyAt(s[1..], key);
      if s[0].0 == key {
        assert forall i :: 0 <= i < |s[1..]| ==> s[1..][i] == s[i + 1];
        NotFound(s[1..], key);
      } else {
        var k := Find(s[1..], key);
        if k < |s[1..]| {
          DropLater(s, k + 1);
        }
      }
    }
  }

  lemma TailDistinct(s: seq<Entry>)
    requires DistinctKeys(s) && s != []
    ensures DistinctKeys(s[1..])
  {
    forall i, j | 0 <= i < j < |s[1..]|
      ensures s[1..][i].0 != s[1..][j].0
    {
      assert s[i + 1].0 != s[j + 1].0;
    }
  }

  lemma {:induction false} WithoutKeyHas(s: seq<Entry>, key: string, e: Entry)
    ensures e in WithoutKey(s, key) <==> e in s && e.0 != key
  {
    if s != [] {
      WithoutKeyHas(s[1..], key, e);
    }
  }

  lemma {:induction false} WithoutKeyDistinct(s: seq<Entry>, key: string)
    requires DistinctKeys(s)
    ensures DistinctKeys(WithoutKey(s, key))
  {
    if s != [] {
      TailDistinct(s);
      WithoutKeyDistinct(s[1..], key);
      if s[0].0 != key {
        forall e | e in WithoutKey(s[1..], key) ensures e.0 != s[0].0 {
          WithoutKeyHas(s[1..], key, e);
          var j :| 0 <= j < |s[1..]| && s[1..][j] == e;
          assert s[j + 1] == e;
        }
        DistinctCons(s[0], WithoutKey(s[1..], key));
      }
    }
  }

  lemma DistinctCons(e: Entry, s: seq<Entry>)
    requires DistinctKeys(s) && forall x | x in s :: x.0 != e.0
    ensures DistinctKeys([e] + s)
  {
  }

  lemma NotFound(s: seq<Entry>, key: string)
    requires forall i :: 0 <= i < |s| ==> s[i].0 != key
    ensures Find(s, key) == |s|
  {
  }

  /**
    After every run over names on which the resolver agrees, the cache holds exactly the four most
    recently used distinct names that resolved.
   */
  lemma {:induction false} HoldsMostRecent(names: seq<string>, all: iset<string>, r: Resolver)
    requires Respects(all, r) && DrawnFrom(names, all)
    ensures var all := MostRecent(names, r);
            RunFrom([], names, r) == Take(all) == if |all| <= 4 then all else all[..4]
    ensures DistinctKeys(MostRecent(names, r))
  {
    if names != [] {
      var n := |names| - 1;
      HoldsMostRecent(names[..n], all, r);
      RunLast([], names, r);
      RunFaithful([], names[..n], all, r);
      UseStep(MostRecent(names[..n], r), names[n], all, r);
    }
  }

  /** So it does after every run over names of at most 128 characters. */
  lemma ShortNamesMostRecent(names: seq<string>, r: Resolver)
    requires forall i :: 0 <= i < |names| ==> |names[i]| <= 128
    ensures RunFrom([], names, r) == Take(MostRecent(names, r))
  {
    ShortNamesRespected(r);
    HoldsMostRecent(names, ShortNames(), r);
  }

  lemma UseStep(all: seq<Entry>, name: string, known: iset<string>, r: Resolver)
    requires DistinctKeys(all) && name in known && Faithful(Take(all), known, r)
    ensures var now := match r(name) case None => all case Some(a) => [(Key(name), a)] + WithoutKey(all, Key(name));
            DistinctKeys(now) && Lookup(Take(all), name, r).0 == Take(now)
  {
    FindInFront(all, |Take(all)|, Key(name));
    if r(name).Some? {
      UseResolved(all, name, known, r, (Key(name), r(name).value));
    } else {
      var k := Find(all, Key(name));
      assert k < |Take(all)| ==> Take(all)[k].0 == Key(name);
    }
  }

  lemma UseResolved(all: seq<Entry>, name: string, known: iset<string>, r: Resolver, e: Entry)
    requires DistinctKeys(all) && name in known && Faithful(Take(all), known, r)
    requires r(name).Some? && e == (Key(name), r(name).value)
    ensures DistinctKeys([e] + WithoutKey(all, e.0)) && Lookup(Take(all), name, r).0 == Take([e] + WithoutKey(all, e.0))
  {
    UseDistinct(all, e);
    WithoutKeyAt(all, e.0);
    FindInFront(all, |Take(all)|, e.0);
    var k := Find(all, e.0);
    if k < |Take(all)| {
      assert Take(all)[k] == e;
      UseKept(all, k, e);
    } else {
      UseNew(all, k, e);
    }
  }

  lemma UseDistinct(all: seq<Entry>, e: Entry)
    requires DistinctKeys(all)
    ensures DistinctKeys([e] + WithoutKey(all, e.0))
  {
    WithoutKeyDistinct(all, e.0);
    forall x | x in WithoutKey(all, e.0) ensures x.0 != e.0 {
      WithoutKeyHas(all, e.0, x);
    }
    DistinctCons(e, WithoutKey(all, e.0));
  }

  lemma UseKept(all: seq<Entry>, k: nat, e: Entry)
    requires k < |all| && k < CACHE_SIZE
    ensures [e] + Take(all)[..k] + Take(all)[k + 1..] == Take([e] + (all[..k] + all[k + 1..]))
  {
  }

  lemma UseNew(all: seq<Entry>, k: nat, e: Entry)
    requires |Take(all)| <= k <= |all|
    ensures Take([e] + Take(all)) == Take([e] + if k < |all| then all[..k] + all[k + 1..] else all)
  {
  }

  lemma {:induction false} FindInFront(s: seq<Entry>, n: nat, key: string)
    requires n <= |s|
    ensures Find(s[..n], key) == if Find(s, key) < n then Find(s, key) else n
  {
    if n > 0 {
      assert s[..n][1..] == s[1..][..n - 1];
      FindInFront(s[1..], n - 1, key);
    }
  }
}
