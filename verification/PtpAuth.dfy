/** Challenge and response authentication (ptp/auth.cpp). */
module PtpAuth {
  import opened Common

  type Bytes = seq<bv8>

  const CHALLENGE_SIZE := 128
  const RESPONSE_SIZE := 20

  /** A pending response. `serial` stands for the object's identity: which challenge made it. */
  datatype Pending = Pending(serial: nat, resp: Bytes, expire: nat, context: int)

  /** A walk's outcome: what stays in the list, what was dropped as expired, and the match. */
  datatype Walk = Walk(rest: seq<Pending>, dropped: seq<Pending>, found: Option<Pending>)

  /** The walk of `Verify`: it drops the expired entries it meets and stops at the first match. */
  function Search(pending: seq<Pending>, resp: Bytes, now: nat): Walk {
    if pending == [] then Walk([], [], None)
    else
      var p := pending[0];
      if p.expire > now && p.resp == resp then Walk(pending[1..], [], Some(p))
      else
        var w := Search(pending[1..], resp, now);
        if p.expire <= now then w.(dropped := [p] + w.dropped) else w.(rest := [p] + w.rest)
  }

  /** No entry is lost or made up by the walk. */
  lemma {:induction false} SearchConserves(pending: seq<Pending>, resp: Bytes, now: nat)
    ensures var w := Search(pending, resp, now);
            multiset(pending) == multiset(w.rest) + multiset(w.dropped) + multiset(Found(w))
  {
    if pending != [] {
      assert pending == [pending[0]] + pending[1..];
      SearchConserves(pending[1..], resp, now);
    }
  }

  function Found(w: Walk): seq<Pending> {
    if w.found.Some? then [w.found.value] else []
  }

  /** Entries meet the response's test when they are unexpired and carry it. */
  predicate Answers(p: Pending, resp: Bytes, now: nat) {
    p.resp == resp && p.expire > now
  }

  /** The walk finds the first entry that answers, drops only expired ones, and keeps the order. */
  lemma {:induction false} SearchFinds(pending: seq<Pending>, resp: Bytes, now: nat)
    ensures var w := Search(pending, resp, now);
            && (forall p | p in w.dropped :: p.expire <= now)
            && (w.found.None? <==> forall p | p in pending :: !Answers(p, resp, now))
            && (w.found.None? ==> forall p | p in w.rest :: p.expire > now)
            && (w.found.Some? ==> exists k :: 0 <= k < |pending| && pending[k] == w.found.value
                                              && Answers(pending[k], resp, now)
                                              && forall j :: 0 <= j < k ==> !Answers(pending[j], resp, now))
  {
    if pending != [] && !Answers(pending[0], resp, now) {
      var w := Search(pending[1..], resp, now);
      SearchFinds(pending[1..], resp, now);
      if w.found.Some? {
        var k :| 0 <= k < |pending[1..]| && pending[1..][k] == w.found.value
                 && Answers(pending[1..][k], resp, now)
                 && forall j :: 0 <= j < k ==> !Answers(pending[1..][j], resp, now);
        assert forall j :: 0 < j < k + 1 ==> pending[j] == pending[1..][j - 1];
        assert pending[k + 1] == w.found.value;
      }
    }
  }

  // ----- The protocol as a history -----

  datatype Event =
    | Issued(resp: Bytes, lifetime: nat, context: int)
    | Verified(resp: Bytes)

  /** The list in memory, and everything that ever happened to the challenges. */
  datatype History = History(
    pending: seq<Pending>, issued: seq<Pending>, consumed: seq<Pending>, expired: seq<Pending>, now: nat)

  const START := History([], [], [], [], 0)

  /** One call, at time `now`. */
  function Step(h: History, e: Event, now: nat): History {
    match e
    case Issued(resp, lifetime, context) =>
      var p := Pending(|h.issued|, resp, now + lifetime, context);
      History([p] + h.pending, h.issued + [p], h.consumed, h.expired, now)
    case Verified(resp) =>
      var w := Search(h.pending, resp, now);
      History(w.rest, h.issued, h.consumed + Found(w), h.expired + w.dropped, now)
  }

  /** A sequence of calls with their times. */
  function Run(h: History, events: seq<(Event, nat)>): History
    decreases |events|
  {
    if events == [] then h
    else Run(Step(h, events[0].0, events[0].1), events[1..])
  }

  /** The clock does not go back. */
  predicate Timely(now: nat, events: seq<(Event, nat)>)
    decreases |events|
  {
    events == [] || (now <= events[0].1 && Timely(events[0].1, events[1..]))
  }

  /**
    What holds after every run: each issued challenge is exactly one of pending, consumed and
    dropped; what was dropped had expired; the list is in reverse order of issue.
   */
  ghost predicate Sound(h: History) {
    && multiset(h.issued) == multiset(h.pending) + multiset(h.consumed) + multiset(h.expired)
    && (forall i :: 0 <= i < |h.issued| ==> h.issued[i].serial == i)
    && (forall p | p in h.expired :: p.expire <= h.now)
    && LatestFirst(h.pending)
  }

  predicate LatestFirst(s: seq<Pending>) {
    s == [] || ((forall q | q in s[1..] :: q.serial < s[0].serial) && LatestFirst(s[1..]))
  }

  lemma StepSound(h: History, e: Event, now: nat)
    requires Sound(h) && h.now <= now
    ensures Sound(Step(h, e, now))
  {
    match e
    case Issued(resp, lifetime, context) => IssueSound(h, resp, lifetime, context, now);
    case Verified(resp) => VerifySound(h, resp, now);
  }

  lemma IssueSound(h: History, resp: Bytes, lifetime: nat, context: int, now: nat)
    requires Sound(h) && h.now <= now
    ensures Sound(Step(h, Issued(resp, lifetime, context), now))
  {
    forall p | p in h.pending
      ensures p.serial < |h.issued|
    {
      InMultiset(h.issued, h.pending, p);
    }
    var g := Step(h, Issued(resp, lifetime, context), now);
    assert g.pending[1..] == h.pending;
  }

  lemma VerifySound(h: History, resp: Bytes, now: nat)
    requires Sound(h) && h.now <= now
    ensures Sound(Step(h, Verified(resp), now))
  {
    SearchConserves(h.pending, resp, now);
    SearchFinds(h.pending, resp, now);
    SearchOrdered(h.pending, resp, now);
    Distributed(h, Search(h.pending, resp, now));
  }

  /** The pending entries go three ways. */
  lemma Distributed(h: History, w: Walk)
    requires multiset(h.issued) == multiset(h.pending) + multiset(h.consumed) + multiset(h.expired)
    requires multiset(h.pending) == multiset(w.rest) + multiset(w.dropped) + multiset(Found(w))
    ensures multiset(h.issued) == multiset(w.rest) + multiset(h.consumed + Found(w)) + multiset(h.expired + w.dropped)
  {
  }

  lemma InMultiset(issued: seq<Pending>, part: seq<Pending>, p: Pending)
    requires multiset(part) <= multiset(issued) && p in part
    ensures p in issued
  {
    assert p in multiset(part);
  }

  lemma {:induction false} SearchOrdered(pending: seq<Pending>, resp: Bytes, now: nat)
    requires LatestFirst(pending)
    ensures LatestFirst(Search(pending, resp, now).rest)
    ensures forall p | p in Search(pending, resp, now).rest :: p in pending
  {
    if pending != [] {
      SearchOrdered(pending[1..], resp, now);
      var rest := Search(pending[1..], resp, now).rest;
      assert ([pending[0]] + rest)[1..] == rest;
    }
  }

  /** The invariant holds at the end of every run. */
  lemma {:induction false} RunSound(h: History, events: seq<(Event, nat)>)
    requires Sound(h) && Timely(h.now, events)
    ensures Sound(Run(h, events))
    decreases |events|
  {
    if events != [] {
      StepSound(h, events[0].0, events[0].1);
      RunSound(Step(h, events[0].0, events[0].1), events[1..]);
    }
  }

  lemma IssueAdds(h: History, resp: Bytes, lifetime: nat, context: int, now: nat)
    ensures var after := Step(h, Issued(resp, lifetime, context), now);
            && after.pending == [Pending(|h.issued|, resp, now + lifetime, context)] + h.pending
            && |after.issued| == |h.issued| + 1
  {
  }

  lemma VerifyLeaves(h: History, resp: Bytes, now: nat)
    ensures var after := Step(h, Verified(resp), now);
            after.pending == Search(h.pending, resp, now).rest && after.issued == h.issued
  {
  }

  lemma {:induction false} SerialsOnce(issued: seq<Pending>, p: Pending)
    requires forall i :: 0 <= i < |issued| ==> issued[i].serial == i
    ensures multiset(issued)[p] <= 1 && (p in issued <==> p.serial < |issued| && issued[p.serial] == p)
  {
    if issued != [] {
      var n := |issued| - 1;
      assert issued == issued[..n] + [issued[n]];
      SerialsOnce(issued[..n], p);
    }
  }

  /** Each issued challenge is in exactly one of the three places. */
  lemma ExactlyOne(h: History, p: Pending)
    requires Sound(h)
    ensures (if p in h.pending then 1 else 0) + (if p in h.consumed then 1 else 0) + (if p in h.expired then 1 else 0)
            == if p in h.issued then 1 else 0
    ensures multiset(h.consumed)[p] <= 1
  {
    SerialsOnce(h.issued, p);
    assert multiset(h.issued)[p] == multiset(h.pending)[p] + multiset(h.consumed)[p] + multiset(h.expired)[p];
    assert p in h.issued <==> multiset(h.issued)[p] > 0;
    assert p in h.pending <==> multiset(h.pending)[p] > 0;
    assert p in h.consumed <==> multiset(h.consumed)[p] > 0;
    assert p in h.expired <==> multiset(h.expired)[p] > 0;
  }

  /** A challenge that a response may still claim: issued, not consumed, unexpired, and matching. */
  predicate Claimable(h: History, p: Pending, resp: Bytes, now: nat) {
    p in h.issued && p !in h.consumed && p.resp == resp && now < p.expire
  }

  /**
    A response is accepted exactly when some challenge ever issued is still claimable, and it then
    claims the latest such challenge, although expired entries behind the match were not purged.
   */
  lemma VerifyExact(h: History, resp: Bytes, now: nat)
    requires Sound(h) && h.now <= now
    ensures var found := Search(h.pending, resp, now).found;
            && (found.Some? <==> exists p :: Claimable(h, p, resp, now))
            && (found.Some? ==> Claimable(h, found.value, resp, now)
                                && forall p :: Claimable(h, p, resp, now) ==> p.serial <= found.value.serial)
  {
    var found := Search(h.pending, resp, now).found;
    SearchFinds(h.pending, resp, now);
    forall p
      ensures Claimable(h, p, resp, now) <==> p in h.pending && Answers(p, resp, now)
    {
      ExactlyOne(h, p);
    }
    if found.Some? {
      var k :| 0 <= k < |h.pending| && h.pending[k] == found.value && Answers(h.pending[k], resp, now)
               && forall j :: 0 <= j < k ==> !Answers(h.pending[j], resp, now);
      forall p | Claimable(h, p, resp, now)
        ensures p.serial <= found.value.serial
      {
        LatestIsFirst(h.pending, k, p);
      }
    }
  }

  lemma {:induction false} LatestIsFirst(pending: seq<Pending>, k: nat, p: Pending)
    requires LatestFirst(pending) && k < |pending| && p in pending[k..]
    ensures p.serial <= pending[k].serial
  {
    if k > 0 {
      assert pending[k..] == pending[1..][k - 1..];
      LatestIsFirst(pending[1..], k - 1, p);
    } else {
      assert p == pending[0] || p in pending[1..];
    }
  }

  /** Over all runs: what `Verify` answers after any sequence of calls. */
  lemma RunVerifyExact(events: seq<(Event, nat)>, resp: Bytes, now: nat)
    requires Timely(0, events) && Run(START, events).now <= now
    ensures var h := Run(START, events);
            var found := Search(h.pending, resp, now).found;
            && (found.Some? <==> exists p :: Claimable(h, p, resp, now))
            && (found.Some? ==> Claimable(h, found.value, resp, now)
                                && forall p :: Claimable(h, p, resp, now) ==> p.serial <= found.value.serial)
  {
    RunSound(START, events);
    VerifyExact(Run(START, events), resp, now);
  }

  /** A challenge is issued with its response; until it expires its response finds it, and then no more. */
  lemma IssuedIs(h: History, resp: Bytes, lifetime: nat, context: int, now: nat, later: nat)
    requires Sound(h) && h.now <= now <= later
    ensures var after := Step(h, Issued(resp, lifetime, context), now);
            var p := Pending(|h.issued|, resp, now + lifetime, context);
            && after.issued == h.issued + [p] && after.consumed == h.consumed && after.expired == h.expired
            && (Search(after.pending, resp, later).found == Some(p) <==> later < now + lifetime)
  {
    var after := Step(h, Issued(resp, lifetime, context), now);
    IssueSound(h, resp, lifetime, context, now);
    VerifyExact(after, resp, later);
  }

  /** What was consumed stays consumed. */
  lemma {:induction false} RunConsumes(h: History, events: seq<(Event, nat)>, p: Pending)
    requires p in h.consumed
    ensures p in Run(h, events).consumed
    decreases |events|
  {
    if events != [] {
      RunConsumes(Step(h, events[0].0, events[0].1), events[1..], p);
    }
  }

  /** Over all runs: what was claimed once is never claimed again, whatever happens in between. */
  lemma ClaimedOnce(events: seq<(Event, nat)>, resp: Bytes, now: nat, between: seq<(Event, nat)>, resp2: Bytes,
                    now2: nat)
    requires Timely(0, events) && Run(START, events).now <= now && Timely(now, between)
    requires Run(Step(Run(START, events), Verified(resp), now), between).now <= now2
    ensures var h := Run(START, events);
            var first := Search(h.pending, resp, now).found;
            var later := Run(Step(h, Verified(resp), now), between);
            first.Some? ==> first != Search(later.pending, resp2, now2).found
  {
    var h := Run(START, events);
    var after := Step(h, Verified(resp), now);
    RunSound(START, events);
    VerifySound(h, resp, now);
    RunSound(after, between);
    VerifyExact(Run(after, between), resp2, now2);
    var first := Search(h.pending, resp, now).found;
    if first.Some? {
      RunConsumes(after, between, first.value);
    }
  }

  // ----- The class -----

  /** What the library supplies: public-key encryption by key number, and the digest. */
  datatype Library = Library(
    encrypt: (int, Bytes) -> Option<Bytes>,
    decrypt: (int, Bytes) -> Option<Bytes>,
    digest: Bytes -> Bytes)
  {
    /** Decryption with the right private key undoes encryption. */
    ghost predicate Paired(key: int) {
      forall nonce :: encrypt(key, nonce).Some? ==> decrypt(key, encrypt(key, nonce).value) == Some(nonce)
    }
  }

  const NONCE_SIZE := 117

  class Authenticator {
    const lib: Library
    const local: Option<int>  // the key number of the store's own identity
    var pending: seq<Pending>
    var count: nat  // names the next pending object
    ghost var history: History

    ghost predicate Valid()
      reads this
    {
      Sound(history) && history.pending == pending && |history.issued| == count
    }

    constructor (lib: Library, local: Option<int>)
      ensures Valid() && history == START && this.lib == lib && this.local == local
    {
      this.lib := lib;
      this.local := local;
      pending, count := [], 0;
      history := START;
    }

    /**
      Issues a challenge for the holder of key `id`. `nonce` is what the random source yields and
      `now` the clock. Without an output buffer, or on an error, nothing is recorded.
     */
    method Challenge(id: Option<int>, lifetime: nat, context: int, wanted: bool, nonce: Bytes, now: nat)
      returns (size: int, chal: Bytes)
      requires Valid() && history.now <= now && |nonce| == NONCE_SIZE
      modifies this
      ensures Valid()
      ensures size == if id.None? || (wanted && lib.encrypt(id.value, nonce).None?) then -1 else 128
      ensures if size > 0 && wanted
              then history == Step(old(history), Issued(lib.digest(nonce), lifetime, context), now)
                   && lib.encrypt(id.value, nonce) == Some(chal)
              else history == old(history)
    {
      chal := [];
      if id.None? {
        return -1, [];
      }
      if wanted {
        var resp := lib.digest(nonce);
        var cipher := lib.encrypt(id.value, nonce);
        if cipher.None? {
          return -1, [];
        }
        chal := cipher.value;
        IssueSound(history, resp, lifetime, context, now);
        IssueAdds(history, resp, lifetime, context, now);
        pending := [Pending(count, resp, now + lifetime, context)] + pending;
        count := count + 1;
        history := Step(history, Issued(resp, lifetime, context), now);
      }
      size := CHALLENGE_SIZE;
    }

    /** Answers a challenge with the digest of the nonce in it. */
    method Respond(chal: Option<Bytes>, wanted: bool) returns (size: int, resp: Bytes)
      ensures size == -1 || size == 20
      ensures size == -1 <==>
                wanted && !(chal.Some? && local.Some? && lib.decrypt(local.value, chal.value).Some?
                            && |lib.decrypt(local.value, chal.value).value| == 117)
      ensures size != -1 && wanted ==> resp == lib.digest(lib.decrypt(local.value, chal.value).value)
    {
      resp := [];
      if wanted {
        if chal.None? || local.None? {
          return -1, [];
        }
        var nonce := lib.decrypt(local.value, chal.value);
        if nonce.None? || |nonce.value| != NONCE_SIZE {
          return -1, [];
        }
        resp := lib.digest(nonce.value);
      }
      size := RESPONSE_SIZE;
    }

    /**
      Checks a response: returns the context of the challenge it claims, or 0. The walk removes
      entries from the list as it goes.
     */
    method Verify(resp: Option<Bytes>, now: nat) returns (context: int)
      requires Valid() && history.now <= now
      modifies this
      ensures Valid()
      ensures resp.None? ==> context == 0 && history == old(history)
      ensures resp.Some? ==>
                && history == Step(old(history), Verified(resp.value), now)
                && context == match Search(old(pending), resp.value, now).found case Some(p) => p.context case None => 0
    {
      if resp.None? {
        return 0;
      }
      ghost var after := Step(history, Verified(resp.value), now);
      VerifySound(history, resp.value, now);
      VerifyLeaves(history, resp.value, now);
      context := PurgeAndFind(resp.value, now);
      history := after;
    }

    /** The walk over the list, which removes entries while it passes them. */
    method PurgeAndFind(resp: Bytes, now: nat) returns (context: int)
      modifies this`pending
      ensures pending == Search(old(pending), resp, now).rest
      ensures context == match Search(old(pending), resp, now).found case Some(p) => p.context case None => 0
    {
      context := 0;
      ghost var was, kept, todo := Search(pending, resp, now), [], pending;
      var i := 0;
      while i < |pending|
        invariant 0 <= i == |kept| && pending == kept + todo && context == 0
        invariant was.rest == kept + Search(todo, resp, now).rest
        invariant was.found == Search(todo, resp, now).found
        decreases |todo|
      {
        var p := pending[i];
        assert p == todo[0];
        if p.expire <= now {
          pending := pending[..i] + pending[i + 1..];
        } else if p.resp == resp {
          pending := pending[..i] + pending[i + 1..];
          context := p.context;
          break;
        } else {
          kept := kept + [p];
          i := i + 1;
        }
        todo := todo[1..];
      }
    }
  }

  /**
    The handshake: the response of the key's holder is accepted at any time before the challenge
    expires, and answers with its context unless a later claimable challenge has the same digest.
   */
  lemma Handshake(lib: Library, key: int, nonce: Bytes, h: History, p: Pending, now: nat)
    requires Sound(h) && h.now <= now && lib.Paired(key) && |nonce| == NONCE_SIZE
    requires lib.encrypt(key, nonce).Some?
    requires p in h.issued && p !in h.consumed && p.resp == lib.digest(nonce) && now < p.expire
    ensures var reply := lib.digest(lib.decrypt(key, lib.encrypt(key, nonce).value).value);
            var found := Search(h.pending, reply, now).found;
            && found.Some? && found.value.serial >= p.serial
            && ((forall q :: Claimable(h, q, reply, now) ==> q == p) ==> found == Some(p))
  {
    assert Claimable(h, p, lib.digest(nonce), now);
    VerifyExact(h, lib.digest(nonce), now);
  }
}
