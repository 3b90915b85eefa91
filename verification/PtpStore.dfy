/**
  The certificate archive (ptp/store.cpp): inserting and finding entries, and writing them as,
  and reading them from, a PKCS #12 archive (section 4 of RFC 7292).

  Encoding, encryption and message authentication are symbolic: an archive carries the passwords
  it was made with, and reading it compares them.
 */
module PtpStore {
  import opened Common
  import opened ResumableSearch

  type Bytes = seq<bv8>

  const KEY_SIZE := 16
  const KEY_FRIENDLY := ".KEYDATA."

  datatype Certificate = Certificate(name: string, modulus: Bytes)

  datatype PrivateKey = PrivateKey(secret: Bytes)

  datatype Entry =
    | Identity(cert: Certificate, key: Option<PrivateKey>, exportkey: bool, friendly: Option<string>, id: Option<Bytes>)
    | Key(data: Bytes, friendly: Option<string>, id: Option<Bytes>)
    | Secret(data: Bytes, friendly: Option<string>, id: Option<Bytes>)

  /** The contents of a bag; `None` stands for contents that cannot be decoded. */
  datatype Contents =
    | CertBag(cert: Option<Certificate>)
    | KeyBag(key: Option<PrivateKey>)
    | ShroudedKeyBag(passwd: string, key: Option<PrivateKey>)
    | SecretBag(data: Option<Bytes>)
    | OtherBag

  datatype Bag = Bag(contents: Contents, friendly: Option<string>, id: Option<Bytes>)

  datatype Safe = DataSafe(bags: seq<Bag>) | EncryptedSafe(passwd: string, bags: seq<Bag>) | OtherSafe

  datatype Archive = Archive(macpasswd: Option<string>, safes: seq<Safe>)

  // ----- Sizes, and the two inserts -----

  /** A caller gives the size of some bytes, or -1 when they are a string. */
  predicate Sized(s: Bytes, size: int) {
    if size == -1 then 0 in s else 0 <= size <= |s|
  }

  function Counted(s: Bytes, size: int): (r: Bytes)
    requires Sized(s, size)
    ensures r <= s && |r| == if size == -1 then |r| else size
    ensures size == -1 ==> 0 !in r && |r| < |s| && s[|r|] == 0
  {
    if size == -1 then s[..StrLen(s, 0)] else s[..size]
  }

  /** What is kept of an identifier: an empty one is the same as none. */
  function IdOf(id: Option<Bytes>, size: int): (r: Option<Bytes>)
    requires id.Some? && size != 0 ==> Sized(id.value, size)
    ensures r.Some? <==> id.Some? && size != 0
    ensures r.Some? ==> r.value == Counted(id.value, size)
  {
    if id == None || size == 0 then None else Some(Counted(id.value, size))
  }

  function Kept(id: Option<Bytes>): Option<Bytes> {
    if id == Some([]) then None else id
  }

  /** Key data has a fixed size: longer data is cut, shorter data is padded with zero bytes. */
  function Resize(data: Bytes): (r: Bytes)
    ensures |r| == KEY_SIZE
    ensures forall i :: 0 <= i < KEY_SIZE ==> r[i] == if i < |data| then data[i] else 0
  {
    seq(KEY_SIZE, i requires 0 <= i < KEY_SIZE => if i < |data| then data[i] else 0)
  }

  /** Data becomes a key exactly when it carries the reserved name. */
  function DataEntry(data: Bytes, friendly: Option<string>, id: Option<Bytes>): Entry {
    if friendly == Some(KEY_FRIENDLY) then Key(Resize(data), friendly, id) else Secret(data, friendly, id)
  }

  /** What both inserts keep true of every entry. */
  predicate WellFormed(e: Entry) {
    (e.Key? ==> |e.data| == KEY_SIZE && e.friendly == Some(KEY_FRIENDLY))
    && (e.Secret? ==> e.friendly != Some(KEY_FRIENDLY))
  }

  ghost predicate AllWellFormed(es: seq<Entry>) {
    forall i :: 0 <= i < |es| ==> WellFormed(es[i])
  }

  // ----- What reading a run of bags gives -----

  predicate IsKey(b: Bag) {
    b.contents.KeyBag? || b.contents.ShroudedKeyBag?
  }

  function KeyOf(b: Bag, passwd: Option<string>): Option<PrivateKey> {
    match b.contents
    case KeyBag(key) => key
    case ShroudedKeyBag(p, key) => if passwd == Some(p) then key else None
    case _ => None
  }

  /** The entry of a certificate, given the names of its own bag and the bag after it. */
  function CertEntry(cert: Certificate, friendly: Option<string>, id: Option<Bytes>, next: Option<Bag>,
                     passwd: Option<string>): Entry {
    if next == None then Identity(cert, None, false, friendly, Kept(id))
    else
      var b := next.value;
      var key := KeyOf(b, passwd);
      if IsKey(b) then Identity(cert, key, key.Some?, friendly, Kept(id))
      else Identity(cert, None, false, b.friendly, Kept(b.id))
  }

  /** What a bag contributes: it depends on the bag itself and the one after it. */
  function Own(b: Bag, next: Option<Bag>, passwd: Option<string>): seq<Entry> {
    match b.contents
    case CertBag(Some(cert)) => [CertEntry(cert, b.friendly, b.id, next, passwd)]
    case SecretBag(Some(data)) => [DataEntry(data, b.friendly, Kept(b.id))]
    case _ => []
  }

  function Ahead(bags: seq<Bag>): Option<Bag> {
    if bags == [] then None else Some(bags[0])
  }

  function Paired(bags: seq<Bag>, passwd: Option<string>): seq<Entry> {
    if bags == [] then [] else Own(bags[0], Ahead(bags[1..]), passwd) + Paired(bags[1..], passwd)
  }

  /** The bags of a safe, when it can be opened. */
  function Opened(safe: Safe, passwd: Option<string>): seq<Bag> {
    match safe
    case DataSafe(bags) => bags
    case EncryptedSafe(p, bags) => if passwd == Some(p) then bags else []
    case OtherSafe => []
  }

  function PairedSafe(safe: Safe, passwd: Option<string>): seq<Entry> {
    Paired(Opened(safe, passwd), passwd)
  }

  function PairedAll(safes: seq<Safe>, passwd: Option<string>): seq<Entry> {
    if safes == [] then [] else
      PairedAll(safes[..|safes| - 1], passwd) + PairedSafe(safes[|safes| - 1], passwd)
  }

  /** The entries read from an archive, when its authentication code is accepted. */
  function Unpacked(a: Archive, passwd: Option<string>, macpasswd: Option<string>): Option<seq<Entry>> {
    if macpasswd == a.macpasswd then Some(PairedAll(a.safes, passwd)) else None
  }

  // ----- What is written -----

  /** The bags of an entry: a certificate is followed by its key if that is to be exported. */
  function BagsOf(e: Entry): seq<Bag> {
    match e
    case Identity(cert, key, exportkey, friendly, id) =>
      [Bag(CertBag(Some(cert)), friendly, id)]
      + if exportkey && key.Some? then [Bag(KeyBag(key), None, None)] else []
    case Key(data, friendly, id) => [Bag(SecretBag(Some(data)), friendly, id)]
    case Secret(data, friendly, id) => [Bag(SecretBag(Some(data)), friendly, id)]
  }

  function Flatten(es: seq<Entry>): seq<Bag> {
    if es == [] then [] else BagsOf(es[0]) + Flatten(es[1..])
  }

  function Packed(es: seq<Entry>, passwd: Option<string>, macpasswd: Option<string>): Archive {
    var bags := Flatten(es);
    Archive(macpasswd, [if passwd.Some? then EncryptedSafe(passwd.value, bags) else DataSafe(bags)])
  }

  // ----- The list of entries -----

  class Entries {
    var items: seq<Entry>

    constructor ()
      ensures items == []
    {
      items := [];
    }

    method InsertIdentity(cert: Certificate, key: Option<PrivateKey>, exportkey: bool, friendly: Option<string>,
                          id: Option<Bytes>, idsize: int)
      requires id.Some? && idsize != 0 ==> Sized(id.value, idsize)
      modifies this
      ensures items == old(items) + [Identity(cert, key, exportkey, friendly, IdOf(id, idsize))]
    {
      var kept := None;
      if id.Some? && idsize != 0 {
        kept := Some(Counted(id.value, idsize));
      }
      items := items + [Identity(cert, key, exportkey, friendly, kept)];
    }

    method InsertData(data: Bytes, size: int, friendly: Option<string>, id: Option<Bytes>, idsize: int)
      requires Sized(data, size) && (friendly == Some(KEY_FRIENDLY) ==> size >= 0)
      requires id.Some? && idsize != 0 ==> Sized(id.value, idsize)
      modifies this
      ensures items == old(items) + [DataEntry(Counted(data, size), friendly, IdOf(id, idsize))]
    {
      var kept := None;
      if id.Some? && idsize != 0 {
        kept := Some(Counted(id.value, idsize));
      }
      if friendly == Some(KEY_FRIENDLY) {
        var n := if size > KEY_SIZE then KEY_SIZE else size;
        var block := data[..n] + seq(KEY_SIZE - n, _ => 0);
        assert block == Resize(data[..size]);
        items := items + [Key(block, friendly, kept)];
      } else {
        items := items + [Secret(Counted(data, size), friendly, kept)];
      }
    }

    /** One turn of the loop over the bags of a safe. */
    method ImportBag(bag: Bag, passwd: Option<string>, cert: Option<Certificate>, friendly: Option<string>,
                     id: Option<Bytes>, ghost rest: seq<Bag>)
      returns (cert': Option<Certificate>, friendly': Option<string>, id': Option<Bytes>)
      modifies this
      ensures items + Awaiting(cert', friendly', id', rest, passwd)
           == old(items) + Awaiting(cert, friendly, id, [bag] + rest, passwd)
    {
      AwaitingStep(cert, friendly, id, bag, rest, passwd);
      friendly', id' := ImportPending(bag, passwd, cert, friendly, id);
      cert' := ImportContents(bag, passwd, friendly', id');
      assert Awaiting(cert', friendly', id', rest, passwd) == Awaiting(cert', bag.friendly, bag.id, rest, passwd);
      ConcatAssoc(old(items), Before(cert, friendly, id, bag, passwd), Inserted(bag, passwd),
                  Awaiting(cert', friendly', id', rest, passwd));
    }

    /** The first half of the turn: the bag's names or key, and the certificate that waited for it. */
    method ImportPending(bag: Bag, passwd: Option<string>, cert: Option<Certificate>, friendly: Option<string>,
                         id: Option<Bytes>)
      returns (friendly': Option<string>, id': Option<Bytes>)
      modifies this
      ensures friendly' == (if IsKey(bag) then friendly else bag.friendly) && id' == if IsKey(bag) then id else bag.id
      ensures items == old(items) + Before(cert, friendly, id, bag, passwd)
    {
      friendly', id' := friendly, id;
      var key: Option<PrivateKey> := None;
      match bag.contents {
        case KeyBag(k) => key := k;
        case ShroudedKeyBag(p, k) => if passwd == Some(p) { key := k; }
        case _ => friendly', id' := bag.friendly, bag.id;
      }
      if cert.Some? {
        IdWhole(id');
        InsertIdentity(cert.value, key, key.Some?, friendly', id', if id'.Some? then |id'.value| else 0);
      }
    }

    /** The second half: a certificate is set aside, secret data is inserted. */
    method ImportContents(bag: Bag, ghost passwd: Option<string>, friendly: Option<string>, id: Option<Bytes>)
      returns (cert: Option<Certificate>)
      requires !IsKey(bag) ==> friendly == bag.friendly && id == bag.id
      modifies this
      ensures cert == if bag.contents.CertBag? then bag.contents.cert else None
      ensures items == old(items) + Inserted(bag, passwd)
    {
      cert := None;
      match bag.contents {
        case CertBag(c) => cert := c;
        case SecretBag(Some(data)) =>
          assert data[..|data|] == data;
          IdWhole(id);
          InsertData(data, |data|, friendly, id, if id.Some? then |id.value| else 0);
        case _ =>
      }
    }

    method ImportBags(bags: seq<Bag>, passwd: Option<string>)
      modifies this
      ensures items == old(items) + Paired(bags, passwd)
    {
      var cert, friendly, id := None, None, None;
      for j := 0 to |bags|
        invariant items + Awaiting(cert, friendly, id, bags[j..], passwd) == old(items) + Paired(bags, passwd)
      {
        assert bags[j..] == [bags[j]] + bags[j + 1..];
        cert, friendly, id := ImportBag(bags[j], passwd, cert, friendly, id, bags[j + 1..]);
      }
      if cert.Some? {
        IdWhole(id);
        InsertIdentity(cert.value, None, false, friendly, id, if id.Some? then |id.value| else 0);
      }
    }

    /** The answer is 0, or -1 when the authentication code is wrong; a safe that cannot be opened is passed over. */
    method Import(a: Archive, passwd: Option<string>, macpasswd: Option<string>) returns (status: int)
      modifies this
      ensures status == if macpasswd == a.macpasswd then 0 else -1
      ensures items == old(items) + Unpacked(a, passwd, macpasswd).GetOr([])
    {
      if macpasswd != a.macpasswd {
        return -1;
      }
      ImportSafes(a.safes, passwd);
      status := 0;
    }

    method ImportSafes(safes: seq<Safe>, passwd: Option<string>)
      modifies this
      ensures items == old(items) + PairedAll(safes, passwd)
    {
      ghost var start, read: seq<Entry> := items, [];
      for i := 0 to |safes|
        invariant items == start + read && read == PairedAll(safes[..i], passwd)
      {
        read := ImportSafe(safes, i, passwd, start, read);
      }
      assert safes[..|safes|] == safes;
    }

    method ImportSafe(safes: seq<Safe>, i: nat, passwd: Option<string>, ghost start: seq<Entry>, ghost read: seq<Entry>)
      returns (ghost read': seq<Entry>)
      requires i < |safes| && items == start + read && read == PairedAll(safes[..i], passwd)
      modifies this
      ensures items == start + read' && read' == PairedAll(safes[..i + 1], passwd)
    {
      var bags := Opened(safes[i], passwd);
      ghost var own := PairedSafe(safes[i], passwd);
      ImportBags(bags, passwd);
      read' := read + own;
      Grouped(start, read, own);
      PairedAllSnoc(safes, i, passwd);
    }

    method Export(passwd: Option<string>, macpasswd: Option<string>) returns (a: Archive)
      ensures a == Packed(items, passwd, macpasswd)
    {
      var bags: seq<Bag> := [];
      for i := 0 to |items|
        invariant bags == Flatten(items[..i])
      {
        FlattenSnoc(items, i);
        var own := ExportEntry(items[i]);
        bags := bags + own;
      }
      assert items[..|items|] == items;
      var safe := if passwd.Some? then EncryptedSafe(passwd.value, bags) else DataSafe(bags);
      a := Archive(macpasswd, [safe]);
    }

    method ExportEntry(e: Entry) returns (bags: seq<Bag>)
      ensures bags == BagsOf(e)
    {
      if e.Identity? {
        bags := [Bag(CertBag(Some(e.cert)), e.friendly, e.id)];
        if e.exportkey && e.key.Some? {
          bags := bags + [Bag(KeyBag(e.key), None, None)];
        }
      } else {
        bags := [Bag(SecretBag(Some(e.data)), e.friendly, e.id)];
      }
    }
  }

  lemma PairedAllSnoc(safes: seq<Safe>, i: nat, passwd: Option<string>)
    requires i < |safes|
    ensures PairedAll(safes[..i + 1], passwd)
         == PairedAll(safes[..i], passwd) + PairedSafe(safes[i], passwd)
  {
    assert safes[..i + 1][..i] == safes[..i];
  }

  lemma {:induction false} FlattenSnoc(es: seq<Entry>, i: nat)
    requires i < |es|
    ensures Flatten(es[..i + 1]) == Flatten(es[..i]) + BagsOf(es[i])
  {
    if i == 0 {
      assert es[..1][1..] == [];
    } else {
      FlattenSnoc(es[1..], i - 1);
      assert es[..i + 1][1..] == es[1..][..i];
      assert es[..i][1..] == es[1..][..i - 1];
    }
  }

  lemma IdWhole(id: Option<Bytes>)
    ensures IdOf(id, if id.Some? then |id.value| else 0) == Kept(id)
  {
    match id
    case None =>
    case Some(b) => assert b[..|b|] == b;
  }

  /** The entry of a pending certificate, once the bag after it is seen. */
  function Before(cert: Option<Certificate>, friendly: Option<string>, id: Option<Bytes>, bag: Bag,
                  passwd: Option<string>): seq<Entry> {
    if cert.Some? then [CertEntry(cert.value, friendly, id, Some(bag), passwd)] else []
  }

  /** What a bag inserts at once: all but certificates, which wait for the next bag. */
  function Inserted(bag: Bag, passwd: Option<string>): seq<Entry> {
    if bag.contents.CertBag? then [] else Own(bag, None, passwd)
  }

  lemma Grouped(a: seq<Entry>, b: seq<Entry>, c: seq<Entry>)
    ensures a + b + c == a + (b + c)
  {
  }

  lemma ConcatAssoc(a: seq<Entry>, b: seq<Entry>, c: seq<Entry>, d: seq<Entry>)
    ensures a + b + c + d == a + (b + c + d)
  {
  }

  /** What is still to be inserted: the pending certificate and the remaining bags. */
  function Awaiting(cert: Option<Certificate>, friendly: Option<string>, id: Option<Bytes>, bags: seq<Bag>,
                    passwd: Option<string>): seq<Entry> {
    (if cert.Some? then [CertEntry(cert.value, friendly, id, Ahead(bags), passwd)] else []) + Paired(bags, passwd)
  }

  lemma AwaitingStep(cert: Option<Certificate>, friendly: Option<string>, id: Option<Bytes>, bag: Bag, rest: seq<Bag>,
                     passwd: Option<string>)
    ensures var next := if bag.contents.CertBag? then bag.contents.cert else None;
            Awaiting(cert, friendly, id, [bag] + rest, passwd)
            == Before(cert, friendly, id, bag, passwd)
               + Inserted(bag, passwd)
               + Awaiting(next, bag.friendly, bag.id, rest, passwd)
  {
    assert ([bag] + rest)[1..] == rest;
  }

  // ----- Reading back what was written -----

  /** The identity's private key is to be exported, and is there. */
  predicate Exports(e: Entry) {
    e.Identity? && e.exportkey && e.key.Some?
  }

  predicate Keyless(e: Entry) {
    e.Identity? && !Exports(e)
  }

  /** An entry without a private key that is not to be exported. */
  function Public(e: Entry): Entry {
    if Keyless(e) then e.(key := None, exportkey := false) else e
  }

  function Named(e: Entry, names: Entry): Entry {
    match e
    case Identity(cert, key, exportkey, _, _) => Identity(cert, key, exportkey, names.friendly, Kept(names.id))
    case Key(data, _, _) => Key(data, names.friendly, Kept(names.id))
    case Secret(data, _, _) => Secret(data, names.friendly, Kept(names.id))
  }

  /**
    The entries after one round: nothing but private keys that were not to be exported is lost,
    and only names change: a certificate written without a key takes those of the entry after it.
   */
  function Renamed(es: seq<Entry>): (r: seq<Entry>)
    ensures |r| == |es|
    ensures forall i :: 0 <= i < |es| ==> r[i] == RenamedAt(es, i)
  {
    seq(|es|, i requires 0 <= i < |es| => RenamedAt(es, i))
  }

  function RenamedAt(es: seq<Entry>, i: nat): Entry
    requires i < |es|
  {
    Named(Public(es[i]), if Keyless(es[i]) && i + 1 < |es| then es[i + 1] else es[i])
  }

  lemma RenamedFront(es: seq<Entry>)
    requires es != []
    ensures Renamed(es) == [RenamedAt(es, 0)] + Renamed(es[1..])
  {
    var r := [RenamedAt(es, 0)] + Renamed(es[1..]);
    forall i | 0 <= i < |es| ensures Renamed(es)[i] == r[i] {
      if i > 0 {
        assert RenamedAt(es, i) == RenamedAt(es[1..], i - 1);
      }
    }
  }

  lemma AheadNames(es: seq<Entry>)
    ensures es == [] ==> Ahead(Flatten(es)) == None
    ensures es != [] ==> Ahead(Flatten(es)).Some? && !IsKey(Ahead(Flatten(es)).value)
    ensures es != [] ==> Ahead(Flatten(es)).value.friendly == es[0].friendly && Ahead(Flatten(es)).value.id == es[0].id
  {
  }

  function ReadEntry(e: Entry, next: Option<Bag>, passwd: Option<string>): Entry {
    match e
    case Identity(cert, key, exportkey, friendly, id) =>
      if Keyless(e) then CertEntry(cert, friendly, id, next, passwd)
      else Identity(cert, key, true, friendly, Kept(id))
    case _ => DataEntry(e.data, e.friendly, Kept(e.id))
  }

  /** What the bags of one entry read as, in front of the bags of the others. */
  lemma PairedFront(e: Entry, rest: seq<Bag>, passwd: Option<string>)
    ensures Paired(BagsOf(e) + rest, passwd)
         == [ReadEntry(e, Ahead(rest), passwd)] + Paired(rest, passwd)
  {
    var bags := BagsOf(e) + rest;
    if e.Identity? && !Keyless(e) {
      var key := Bag(KeyBag(e.key), None, None);
      assert bags[1..] == [key] + rest;
      assert ([key] + rest)[1..] == rest;
      assert Paired([key] + rest, passwd) == Paired(rest, passwd);
    } else {
      assert bags[1..] == rest;
    }
  }

  lemma ResizeFull(data: Bytes)
    requires |data| == KEY_SIZE
    ensures Resize(data) == data
  {
  }

  /** Reading what was written gives every entry back, in order, with names as said. */
  lemma {:induction false} PairedFlatten(es: seq<Entry>, passwd: Option<string>)
    requires AllWellFormed(es)
    ensures Paired(Flatten(es), passwd) == Renamed(es)
  {
    if es != [] {
      PairedFlatten(es[1..], passwd);
      PairedFront(es[0], Flatten(es[1..]), passwd);
      FrontRenamed(es, passwd);
      RenamedFront(es);
    }
  }

  lemma FrontRenamed(es: seq<Entry>, passwd: Option<string>)
    requires AllWellFormed(es) && es != []
    ensures RenamedAt(es, 0) == ReadEntry(es[0], Ahead(Flatten(es[1..])), passwd)
  {
    assert WellFormed(es[0]);
    AheadNames(es[1..]);
    if es[0].Key? {
      ResizeFull(es[0].data);
    }
    if |es| > 1 {
      assert WellFormed(es[1]);
    }
  }

  /**
    The archive as a whole: the wrong authentication password gives an error, the wrong archive
    password gives nothing, and the right ones give the entries back.
   */
  lemma RoundTrip(es: seq<Entry>, p: Option<string>, m: Option<string>, p': Option<string>, m': Option<string>)
    requires AllWellFormed(es)
    ensures Unpacked(Packed(es, p, m), p', m')
         == if m' != m then None else if p == None || p' == p then Some(Renamed(es)) else Some([])
  {
    var a := Packed(es, p, m);
    var safe := a.safes[0];
    PairedAllSnoc(a.safes, 0, p');
    assert a.safes[..1] == a.safes && a.safes[..0] == [];
    assert [] + Paired(Opened(safe, p'), p') == Paired(Opened(safe, p'), p');
    PairedFlatten(es, p');
  }

  /**
    Everything comes back as it was exactly when there is no private key that is not to be
    exported (nor an order to export one that is not there), no identifier is empty, and no
    certificate written without a key precedes an entry with other names.
   */
  lemma RoundTripExact(es: seq<Entry>)
    ensures Renamed(es) == es <==>
              && (forall i :: 0 <= i < |es| ==> Public(es[i]) == es[i] && es[i].id != Some([]))
              && (forall i :: 0 <= i < |es| - 1 && Keyless(es[i]) ==>
                    es[i].friendly == es[i + 1].friendly && es[i].id == es[i + 1].id)
  {
    forall i | 0 <= i < |es|
      ensures RenamedAt(es, i) == es[i] ==> Public(es[i]) == es[i] && es[i].id != Some([])
    {
    }
    if Renamed(es) == es {
      forall i | 0 <= i < |es|
        ensures RenamedAt(es, i) == es[i]
      {
        assert Renamed(es)[i] == RenamedAt(es, i);
      }
      forall i | 0 <= i < |es| - 1 && Keyless(es[i])
        ensures es[i].friendly == es[i + 1].friendly && es[i].id == es[i + 1].id
      {
        assert RenamedAt(es, i) == es[i] && RenamedAt(es, i + 1) == es[i + 1];
      }
    } else {
      var i :| 0 <= i < |es| && Renamed(es)[i] != es[i];
      assert Public(es[i]) != es[i] || es[i].id == Some([]) || (Keyless(es[i]) && i < |es| - 1);
    }
  }

  /**
    No private key is shrouded, with or without a password. The plain key bags are exactly those of
    the identities whose key is to be exported and is there.
   */
  lemma {:induction false} NeverShrouded(es: seq<Entry>, b: Bag)
    ensures b in Flatten(es) ==> !b.contents.ShroudedKeyBag?
    ensures b in Flatten(es) && b.contents.KeyBag? <==>
              exists i :: 0 <= i < |es| && Exports(es[i]) && b == Bag(KeyBag(es[i].key), None, None)
  {
    if es != [] {
      NeverShrouded(es[1..], b);
      KeyBagsOf(es[0], b);
      if exists i :: 0 <= i < |es| && Exports(es[i]) && b == Bag(KeyBag(es[i].key), None, None) {
        var i :| 0 <= i < |es| && Exports(es[i]) && b == Bag(KeyBag(es[i].key), None, None);
        assert i > 0 ==> es[1..][i - 1] == es[i];
      }
      if b in Flatten(es[1..]) && b.contents.KeyBag? {
        var i :| 0 <= i < |es[1..]| && Exports(es[1..][i]) && b == Bag(KeyBag(es[1..][i].key), None, None);
        assert es[i + 1] == es[1..][i];
      }
    }
  }

  lemma KeyBagsOf(e: Entry, b: Bag)
    ensures b in BagsOf(e) ==> !b.contents.ShroudedKeyBag?
    ensures b in BagsOf(e) && b.contents.KeyBag? <==> Exports(e) && b == Bag(KeyBag(e.key), None, None)
  {
  }

  /** One certificate alone: it and its key come back under the right passwords, and nothing under others. */
  lemma SingleRoundTrip(cert: Certificate, key: Option<PrivateKey>, exportkey: bool, p: Option<string>,
                        m: Option<string>, p': Option<string>, m': Option<string>)
    ensures var read := Unpacked(Packed([Identity(cert, key, exportkey, None, None)], p, m), p', m').GetOr([]);
            read == if m' == m && (p == None || p' == p)
                    then [Identity(cert, if exportkey then key else None, exportkey && key.Some?, None, None)] else []
  {
    var es := [Identity(cert, key, exportkey, None, None)];
    RoundTrip(es, p, m, p', m');
    assert Renamed(es)[0] == RenamedAt(es, 0);
  }

  // ----- Reading any archive -----

  /** The decoded certificates and secrets among some bags. */
  function Decoded(bags: seq<Bag>): seq<Contents> {
    if bags == [] then [] else Decoding(bags[0]) + Decoded(bags[1..])
  }

  predicate Holds(e: Entry, c: Contents) {
    match e
    case Identity(cert, _, _, _, _) => c == CertBag(Some(cert))
    case Key(data, _, _) => c.SecretBag? && c.data.Some? && data == Resize(c.data.value)
    case Secret(data, _, _) => c == SecretBag(Some(data))
  }

  /** Each becomes one entry, in order, whatever else the archive holds, and the entries are well formed. */
  lemma {:induction false} PairedKeepsOrder(bags: seq<Bag>, passwd: Option<string>)
    ensures |Paired(bags, passwd)| == |Decoded(bags)|
    ensures forall i :: 0 <= i < |Decoded(bags)| ==> Holds(Paired(bags, passwd)[i], Decoded(bags)[i])
    ensures AllWellFormed(Paired(bags, passwd))
  {
    if bags != [] {
      PairedKeepsOrder(bags[1..], passwd);
      OwnKeeps(bags[0], Ahead(bags[1..]), passwd);
    }
  }

  function Decoding(b: Bag): seq<Contents> {
    match b.contents
    case CertBag(Some(_)) => [b.contents]
    case SecretBag(Some(_)) => [b.contents]
    case _ => []
  }

  /** The entry a bag leads to: it stands behind those of the bags before it. */
  ghost function EntryOf(bags: seq<Bag>, j: nat, passwd: Option<string>): (e: Entry)
    requires j < |bags| && Decoding(bags[j]) != []
  {
    PairedPlace(bags, j, passwd);
    Paired(bags, passwd)[|Decoded(bags[..j])|]
  }

  lemma {:induction false} PairedPlace(bags: seq<Bag>, j: nat, passwd: Option<string>)
    requires j < |bags| && Decoding(bags[j]) != []
    ensures |Decoded(bags[..j])| < |Paired(bags, passwd)|
    ensures [Paired(bags, passwd)[|Decoded(bags[..j])|]] == Own(bags[j], Ahead(bags[j + 1..]), passwd)
  {
    var n := |Decoded(bags[..j])|;
    OwnKeeps(bags[0], Ahead(bags[1..]), passwd);
    if j > 0 {
      PairedPlace(bags[1..], j - 1, passwd);
      assert bags[..j][1..] == bags[1..][..j - 1];
      assert bags[1..][j..] == bags[j + 1..];
      assert n == |Decoding(bags[0])| + |Decoded(bags[1..][..j - 1])|;
    }
  }

  /**
    A certificate takes its key from the bag behind it: from a plain key bag, and from a shrouded
    one under the password it was made with; it is then to be exported. It keeps its own names if
    that bag is for a key, whatever comes of it, or there is none, and takes those of any other bag.
   */
  lemma CertificateRead(bags: seq<Bag>, j: nat, cert: Certificate, passwd: Option<string>)
    requires j < |bags| && bags[j].contents == CertBag(Some(cert))
    ensures var e, own := EntryOf(bags, j, passwd), bags[j];
            if j + 1 == |bags| then e == Identity(cert, None, false, own.friendly, Kept(own.id))
            else
              match bags[j + 1].contents
              case KeyBag(Some(k)) => e == Identity(cert, Some(k), true, own.friendly, Kept(own.id))
              case KeyBag(None) => e == Identity(cert, None, false, own.friendly, Kept(own.id))
              case ShroudedKeyBag(p, Some(k)) =>
                e == if passwd == Some(p) then Identity(cert, Some(k), true, own.friendly, Kept(own.id))
                     else Identity(cert, None, false, own.friendly, Kept(own.id))
              case ShroudedKeyBag(_, None) => e == Identity(cert, None, false, own.friendly, Kept(own.id))
              case _ => e == Identity(cert, None, false, bags[j + 1].friendly, Kept(bags[j + 1].id))
  {
    PairedPlace(bags, j, passwd);
    assert j + 1 < |bags| ==> bags[j + 1..][0] == bags[j + 1];
  }

  /** Secret data becomes a secret, or under the reserved name a key of sixteen bytes. */
  lemma SecretRead(bags: seq<Bag>, j: nat, data: Bytes, passwd: Option<string>)
    requires j < |bags| && bags[j].contents == SecretBag(Some(data))
    ensures var e, own := EntryOf(bags, j, passwd), bags[j];
            && e.friendly == own.friendly && e.id == Kept(own.id)
            && if own.friendly == Some(".KEYDATA.") then
                 e.Key? && |e.data| == 16 && forall i :: 0 <= i < 16 ==> e.data[i] == if i < |data| then data[i] else 0
               else e.Secret? && e.data == data
  {
    PairedPlace(bags, j, passwd);
  }

  /** An empty identifier is none. */
  lemma KeptIs(id: Option<Bytes>)
    ensures Kept(Some([])) == None && (id != Some([]) ==> Kept(id) == id)
  {
  }

  /** The entries of an archive are those of its safes, in order, as far as these can be opened. */
  lemma {:induction false} SafesRead(before: seq<Safe>, after: seq<Safe>, bags: seq<Bag>, p: string,
                                      passwd: Option<string>)
    ensures PairedAll(before + after, passwd) == PairedAll(before, passwd) + PairedAll(after, passwd)
    ensures PairedAll([DataSafe(bags)], passwd) == Paired(bags, passwd)
    ensures PairedAll([EncryptedSafe(p, bags)], passwd) == if passwd == Some(p) then Paired(bags, passwd) else []
    ensures PairedAll([OtherSafe], passwd) == []
  {
    if after == [] {
      assert before + after == before;
    } else {
      var k := |after| - 1;
      assert (before + after)[..|before + after| - 1] == before + after[..k];
      SafesRead(before, after[..k], bags, p, passwd);
      Grouped(PairedAll(before, passwd), PairedAll(after[..k], passwd), PairedSafe(after[k], passwd));
    }
    OneSafe(DataSafe(bags), passwd);
    OneSafe(EncryptedSafe(p, bags), passwd);
    OneSafe(OtherSafe, passwd);
  }

  lemma OneSafe(safe: Safe, passwd: Option<string>)
    ensures PairedAll([safe], passwd) == PairedSafe(safe, passwd)
  {
    assert [safe][..0] == [];
  }

  // ----- What is written, bag by bag -----

  /** How many entries are written with a key. */
  function KeyCount(es: seq<Entry>): nat {
    if es == [] then 0 else (if Exports(es[0]) then 1 else 0) + KeyCount(es[1..])
  }

  /**
    Each entry is written as one bag with its names, behind those of the entries before it, and a
    bag with its private key, without names, follows exactly if the key is there and to be exported.
   */
  lemma {:induction false} Written(es: seq<Entry>, i: nat)
    requires i < |es|
    ensures |Flatten(es)| == |es| + KeyCount(es)
    ensures var n, e := i + KeyCount(es[..i]), es[i];
            && n < |Flatten(es)|
            && Flatten(es)[n] == Bag(if e.Identity? then CertBag(Some(e.cert)) else SecretBag(Some(e.data)),
                                     e.friendly, e.id)
            && (e.Identity? && e.exportkey && e.key.Some? ==>
                  n + 1 < |Flatten(es)| && Flatten(es)[n + 1] == Bag(KeyBag(e.key), None, None))
  {
    FlattenLength(es);
    if i > 0 {
      Written(es[1..], i - 1);
      assert es[..i][1..] == es[1..][..i - 1];
      assert |BagsOf(es[0])| == 1 + if Exports(es[0]) then 1 else 0;
    }
  }

  lemma {:induction false} FlattenLength(es: seq<Entry>)
    ensures |Flatten(es)| == |es| + KeyCount(es)
  {
    if es != [] {
      FlattenLength(es[1..]);
    }
  }

  lemma OwnKeeps(b: Bag, next: Option<Bag>, passwd: Option<string>)
    ensures var own := Own(b, next, passwd);
            && |own| == |Decoding(b)| <= 1
            && forall i :: 0 <= i < |own| ==> Holds(own[i], Decoding(b)[i]) && WellFormed(own[i])
  {
  }

  // ----- Many rounds -----

  function Rounds(es: seq<Entry>, n: nat): (r: seq<Entry>)
    ensures |r| == |es|
  {
    if n == 0 then es else Renamed(Rounds(es, n - 1))
  }

  /** The entry whose names a run of certificates without keys ends up with. */
  function Anchor(es: seq<Entry>, i: nat): (j: nat)
    requires i < |es|
    ensures i <= j < |es|
    decreases |es| - i
  {
    if Keyless(es[i]) && i + 1 < |es| then Anchor(es, i + 1) else i
  }

  function Min(a: int, b: int): int {
    if a < b then a else b
  }

  /** Each round moves the names of such a run one place up, never past the run's last entry. */
  lemma {:induction false} Drift(es: seq<Entry>, n: nat, i: nat)
    requires i < |es|
    ensures var a, b := Rounds(es, n)[i], es[Min(i + n, Anchor(es, i))];
            a.friendly == b.friendly && Kept(a.id) == Kept(b.id)
    ensures Keyless(Rounds(es, n)[i]) <==> Keyless(es[i])
    decreases n
  {
    if n > 0 {
      var before := Rounds(es, n - 1);
      Drift(es, n - 1, i);
      assert Rounds(es, n)[i] == RenamedAt(before, i);
      if Keyless(es[i]) && i + 1 < |es| {
        Drift(es, n - 1, i + 1);
      }
    }
  }

  // ----- The store -----

  class Store {
    const list: Entries
    const path: Option<string>
    const passwd: Option<string>
    const macpasswd: Option<string>

    constructor (path: Option<string>, passwd: Option<string>, macpasswd: Option<string>)
      ensures this.path == path && this.passwd == passwd && this.macpasswd == macpasswd
      ensures fresh(list) && list.items == []
    {
      this.path, this.passwd, this.macpasswd := path, passwd, macpasswd;
      list := new Entries();
    }

    /** `medium` is the archive at the path, if there is one. The old entries go even when reading fails. */
    method Load(medium: Option<Archive>) returns (status: int)
      modifies list
      ensures path == None ==> status == -1 && list.items == old(list.items)
      ensures path.Some? ==>
                var read := if medium.Some? then Unpacked(medium.value, passwd, macpasswd) else None;
                status == (if read.Some? then 0 else -1) && list.items == read.GetOr([])
    {
      if path == None {
        return -1;
      }
      list.items := [];
      status := -1;
      if medium.Some? {
        status := list.Import(medium.value, passwd, macpasswd);
      }
    }

    method Save() returns (status: int, medium: Option<Archive>)
      ensures path == None ==> status == -1 && medium == None
      ensures path.Some? ==> status == 0 && medium == Some(Packed(list.items, passwd, macpasswd))
    {
      if path == None {
        return -1, None;
      }
      var a := list.Export(passwd, macpasswd);
      return 0, Some(a);
    }

    /** An identity is copied in; its private key only if it is to be exported. The answer -1 means there is none. */
    method InsertIdentity(ident: Option<(Certificate, Option<PrivateKey>)>, exportkey: bool, friendly: Option<string>,
                          id: Option<Bytes>, idsize: int) returns (status: int)
      requires id.Some? && idsize != 0 ==> Sized(id.value, idsize)
      modifies list
      ensures status == if ident == None then -1 else 0
      ensures list.items == old(list.items) + match ident
                case None => []
                case Some((cert, key)) =>
                  [Identity(cert, if exportkey then key else None, exportkey, friendly, IdOf(id, idsize))]
    {
      if ident == None {
        return -1;
      }
      var copy := if !exportkey then None else ident.value.1;
      list.InsertIdentity(ident.value.0, copy, exportkey, friendly, id, idsize);
      status := 0;
    }

    method InsertSecret(data: Option<Bytes>, size: int, friendly: Option<string>, id: Option<Bytes>, idsize: int)
      returns (status: int)
      requires data.Some? ==> Sized(data.value, size) && (friendly == Some(KEY_FRIENDLY) ==> size >= 0)
      requires id.Some? && idsize != 0 ==> Sized(id.value, idsize)
      modifies list
      ensures status == if data == None then -1 else 0
      ensures list.items == old(list.items)
                + if data == None then [] else [DataEntry(Counted(data.value, size), friendly, IdOf(id, idsize))]
    {
      if data == None {
        return -1;
      }
      list.InsertData(data.value, size, friendly, id, idsize);
      status := 0;
    }

    method InsertKey(key: Option<Bytes>, id: Option<Bytes>, idsize: int) returns (status: int)
      requires key.Some? ==> |key.value| == KEY_SIZE
      requires id.Some? && idsize != 0 ==> Sized(id.value, idsize)
      modifies list
      ensures status == if key == None then -1 else 0
      ensures list.items == old(list.items)
                + if key == None then [] else [Key(key.value, Some(KEY_FRIENDLY), IdOf(id, idsize))]
    {
      if key == None {
        return -1;
      }
      assert key.value[..KEY_SIZE] == key.value;
      ResizeFull(key.value);
      list.InsertData(key.value, KEY_SIZE, Some(KEY_FRIENDLY), id, idsize);
      status := 0;
    }

    /** `from` is the place of the previous result, -1 to begin; the answer -1 means none. */
    method Find(kind: Option<Kind>, friendly: Option<string>, id: Option<Bytes>, from: int) returns (entry: int)
      requires -1 <= from
      ensures entry == Next(list.items, Wanted(kind, friendly, id), from)
    {
      var pending := from;
      for k := 0 to |list.items|
        invariant pending == (if k <= from then from else -1)
        invariant forall i :: from < i < k ==> !Wanted(kind, friendly, id)(list.items[i])
      {
        var e := list.items[k];
        if pending == -1
           && (kind == None || kind == Some(KindOf(e)))
           && (friendly == None || friendly == e.friendly)
           && (id == None || id.value == e.id.GetOr([])) {
          NextIsUnique(list.items, Wanted(kind, friendly, id), from, k);
          return k;
        } else if k == pending {
          pending := -1;
        }
      }
      NextIsUnique(list.items, Wanted(kind, friendly, id), from, -1);
      return -1;
    }

    method FindIdentity(name: Option<string>, haskey: bool, modulus: Option<Bytes>, from: int) returns (entry: int)
      requires -1 <= from && (0 <= from < |list.items| ==> list.items[from].Identity?)
      ensures entry == Next(list.items, WantedIdentity(name, haskey, modulus), from)
    {
      var pending := from;
      for k := 0 to |list.items|
        invariant pending == (if k <= from then from else -1)
        invariant forall i :: from < i < k ==> !WantedIdentity(name, haskey, modulus)(list.items[i])
      {
        var e := list.items[k];
        if e.Identity? {
          if pending == -1 && (name == None || name.value == e.cert.name) && (!haskey || e.key.Some?) {
            if modulus == None || modulus.value == e.cert.modulus {
              NextIsUnique(list.items, WantedIdentity(name, haskey, modulus), from, k);
              return k;
            }
          } else if k == pending {
            pending := -1;
          }
        }
      }
      NextIsUnique(list.items, WantedIdentity(name, haskey, modulus), from, -1);
      return -1;
    }
  }

  datatype Kind = IDENTITY | KEY | SECRET

  function KindOf(e: Entry): Kind {
    if e.Identity? then IDENTITY else if e.Key? then KEY else SECRET
  }

  function Wanted(kind: Option<Kind>, friendly: Option<string>, id: Option<Bytes>): Entry -> bool {
    (e: Entry) => (kind == None || kind.value == KindOf(e))
                  && (friendly == None || e.friendly == friendly)
                  && (id == None || e.id.GetOr([]) == id.value)
  }

  function WantedIdentity(name: Option<string>, haskey: bool, modulus: Option<Bytes>): Entry -> bool {
    (e: Entry) => e.Identity? && (name == None || e.cert.name == name.value) && (haskey ==> e.key.Some?)
                  && (modulus == None || e.cert.modulus == modulus.value)
  }

  /** An entry is asked for when it has each of the type, name and identifier that is given. */
  lemma WantedIs(kind: Option<Kind>, friendly: Option<string>, id: Option<Bytes>, e: Entry)
    ensures Wanted(kind, friendly, id)(e) <==>
              && (kind == Some(IDENTITY) ==> e.Identity?)
              && (kind == Some(KEY) ==> e.Key?)
              && (kind == Some(SECRET) ==> e.Secret?)
              && (friendly.Some? ==> e.friendly == friendly)
              && (id.Some? ==> e.id == id || (id == Some([]) && e.id == None))
  {
  }

  /** And a certificate when it has the name, a private key, and the modulus. */
  lemma WantedIdentityIs(name: Option<string>, haskey: bool, modulus: Option<Bytes>, e: Entry)
    ensures WantedIdentity(name, haskey, modulus)(e) <==>
              && e.Identity?
              && (name.Some? ==> name == Some(e.cert.name))
              && (haskey ==> e.key != None)
              && (modulus.Some? ==> modulus == Some(e.cert.modulus))
  {
  }
}
