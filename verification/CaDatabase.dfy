/**
  The certificate authority's database (openssl/apps/ca.c): the checks made when it is loaded, its
  two indexes, and the certify and revoke commands that add and change rows.

  The clock and the time format check are parameters. A session is one start of the program: it
  loads the file, certifies requests, revokes at most one certificate, and writes the file back.
 */
module CaDatabase {
  import opened Common

  /** A row of the file. An empty revocation date stands for an absent one: both are written alike. */
  datatype Row = Row(kind: string, expiry: string, revoked: string, serial: string, file: string, name: string)

  datatype Certificate = Certificate(name: string, serial: int, expiry: string)

  predicate HasKind(row: Row, kind: char) {
    row.kind != "" && row.kind[0] == kind
  }

  // ----- Serial numbers as text -----

  function Digit(d: nat): (c: char)
    requires d < 16
    ensures IsDigit(c)
  {
    "0123456789ABCDEF"[d]
  }

  predicate IsDigit(c: char) {
    '0' <= c <= '9' || 'A' <= c <= 'F' || 'a' <= c <= 'f'
  }

  function DigitValue(c: char): int {
    if '0' <= c <= '9' then c as int - 48 else if 'A' <= c <= 'F' then c as int - 55 else 0
  }

  function Byte(b: nat): (s: string)
    requires b < 256
    ensures |s| == 2 && forall c | c in s :: IsDigit(c)
  {
    [Digit(b / 16), Digit(b % 16)]
  }

  /** Two digits for each byte, without leading zero bytes. */
  function Bytes(n: nat): (s: string)
    ensures |s| % 2 == 0 && (|s| == 0 <==> n == 0)
    ensures forall c | c in s :: IsDigit(c)
  {
    if n == 0 then "" else Bytes(n / 256) + Byte(n % 256)
  }

  function Hex(n: int): string {
    if n < 0 then "-" + Bytes(-n) else if n == 0 then "0" else Bytes(n)
  }

  /** Serials are compared without their leading zeros. */
  function Strip(s: string): string {
    if s != "" && s[0] == '0' then Strip(s[1..]) else s
  }

  function Value(s: string): int {
    if s == "" then 0 else Value(s[..|s| - 1]) * 16 + DigitValue(s[|s| - 1])
  }

  function Number(s: string): int {
    if s != "" && s[0] == '-' then -Value(s[1..]) else Value(s)
  }

  lemma {:induction false} ValueZero(s: string)
    ensures Value("0" + s) == Value(s)
  {
    var z := "0" + s;
    if s != "" {
      assert z[..|z| - 1] == "0" + s[..|s| - 1];
      ValueZero(s[..|s| - 1]);
    }
  }

  lemma {:induction false} ValueStrip(s: string)
    ensures Value(Strip(s)) == Value(s)
  {
    if s != "" && s[0] == '0' {
      ValueStrip(s[1..]);
      ValueZero(s[1..]);
      assert s == "0" + s[1..];
    }
  }

  lemma DigitRead(d: nat)
    requires d < 16
    ensures DigitValue(Digit(d)) == d
  {
  }

  lemma ValueSnoc(s: string, c: char)
    ensures Value(s + [c]) == Value(s) * 16 + DigitValue(c)
  {
    assert (s + [c])[..|s|] == s;
  }

  lemma ValueByte(s: string, b: nat)
    requires b < 256
    ensures Value(s + Byte(b)) == Value(s) * 256 + b
  {
    ValueSnoc(s, Digit(b / 16));
    ValueSnoc(s + [Digit(b / 16)], Digit(b % 16));
    DigitRead(b / 16);
    DigitRead(b % 16);
    assert s + Byte(b) == s + [Digit(b / 16)] + [Digit(b % 16)];
  }

  lemma {:induction false} ValueBytes(n: nat)
    ensures Value(Bytes(n)) == n
  {
    if n > 0 {
      ValueBytes(n / 256);
      ValueByte(Bytes(n / 256), n % 256);
    }
  }

  lemma {:induction false} StripKeepsDigits(s: string)
    requires forall c | c in s :: IsDigit(c)
    ensures forall c | c in Strip(s) :: IsDigit(c)
  {
    if s != "" && s[0] == '0' {
      StripKeepsDigits(s[1..]);
    }
  }

  lemma BytesStripped(n: int)
    requires n > 0
    ensures Number(Strip(Hex(n))) == n
  {
    ValueStrip(Bytes(n));
    ValueBytes(n);
    StripKeepsDigits(Bytes(n));
    var s := Strip(Bytes(n));
    assert s != "" ==> s[0] in s;
  }

  lemma NumberHex(n: int)
    ensures Number(Strip(Hex(n))) == n
  {
    if n > 0 {
      BytesStripped(n);
    } else if n < 0 {
      NegativeRead(n);
    } else {
      ZeroRead();
    }
  }

  lemma SignRead(s: string)
    ensures Number(Strip("-" + s)) == 0 - Value(s)
  {
    assert ("-" + s)[0] == '-' && ("-" + s)[1..] == s;
  }

  lemma SignedBytes(m: nat, s: string)
    requires s == Bytes(m)
    ensures Number(Strip("-" + s)) == 0 - m
  {
    SignRead(s);
    ValueBytes(m);
  }

  lemma NegativeRead(n: int)
    requires n < 0
    ensures Number(Strip(Hex(n))) == n
  {
    SignedBytes(-n, Bytes(-n));
  }

  lemma ZeroRead()
    ensures Number(Strip(Hex(0))) == 0
  {
    assert "0"[1..] == "";
  }

  /** Serials written by the program clash exactly when they are the same number. */
  lemma SameSerial(a: int, b: int)
    ensures Strip(Hex(a)) == Strip(Hex(b)) <==> a == b
  {
    NumberHex(a);
    NumberHex(b);
  }

  /** Digits, read as a number in base 16. */
  lemma ValueIs(s: string, d: nat)
    requires d < 16
    ensures Value("") == 0 && Value(s + ["0123456789ABCDEF"[d]]) == 16 * Value(s) + d
  {
    ValueSnoc(s, "0123456789ABCDEF"[d]);
    DigitRead(d);
  }

  /** A serial is written with capital digits, two for each byte; one that is negative with a minus sign. */
  lemma HexIs(n: int)
    ensures Hex(0) == "0" && (n < 0 ==> Hex(n) == "-" + Hex(-n))
    ensures n > 0 ==> Value(Hex(n)) == n && |Hex(n)| % 2 == 0 && Hex(n)[..2] != "00"
    ensures n > 0 ==> forall c | c in Hex(n) :: c in "0123456789ABCDEF"
  {
    if n > 0 {
      ValueBytes(n);
      BytesCapital(n);
    }
  }

  lemma {:induction false} BytesCapital(n: nat)
    ensures forall c | c in Bytes(n) :: c in "0123456789ABCDEF"
    ensures n > 0 ==> Bytes(n)[..2] != "00"
  {
    if n > 0 {
      BytesCapital(n / 256);
      var b := n % 256;
      assert Digit(b / 16) in "0123456789ABCDEF" && Digit(b % 16) in "0123456789ABCDEF";
      if n < 256 {
        assert Bytes(n) == Byte(n);
        DigitRead(b / 16);
        DigitRead(b % 16);
        assert Byte(n)[..2] == [Digit(b / 16), Digit(b % 16)];
      } else {
        assert Bytes(n)[..2] == Bytes(n / 256)[..2];
      }
    }
  }

  /** Leading zeros, and nothing else, are left out when serials are compared. */
  lemma {:induction false} StripIs(s: string) returns (zeros: string)
    ensures s == zeros + Strip(s) && (forall i :: 0 <= i < |zeros| ==> zeros[i] == '0')
    ensures Strip(s) != "" ==> Strip(s)[0] != '0'
  {
    zeros := "";
    if s != "" && s[0] == '0' {
      zeros := StripIs(s[1..]);
      zeros := "0" + zeros;
    }
  }

  // ----- What a file must satisfy to be loaded -----

  predicate SerialText(s: string) {
    |s| % 2 == 0 && |s| >= 2 && forall i :: 0 <= i < |s| ==> IsDigit(s[i])
  }

  predicate RowOk(row: Row, time: string -> bool) {
    (if HasKind(row, 'R') then time(row.revoked) else row.revoked == "")
    && time(row.expiry) && SerialText(row.serial)
  }

  predicate Alike(a: Row, b: Row) {
    Strip(a.serial) == Strip(b.serial) || (HasKind(a, 'V') && HasKind(b, 'V') && a.name == b.name)
  }

  /** Serials differ up to leading zeros, and names of valid rows differ. */
  ghost predicate Unique(rows: seq<Row>) {
    forall i, j :: 0 <= i < j < |rows| ==> !Alike(rows[i], rows[j])
  }

  /** That is: no two serials are alike, and no two valid rows have the same name. */
  lemma UniqueIs(rows: seq<Row>)
    ensures Unique(rows) <==>
              && (forall i, j :: 0 <= i < j < |rows| ==> Strip(rows[i].serial) != Strip(rows[j].serial))
              && (forall i, j :: 0 <= i < j < |rows| && "V" <= rows[i].kind && "V" <= rows[j].kind ==>
                                   rows[i].name != rows[j].name)
  {
    if Unique(rows) {
      forall i, j | 0 <= i < j < |rows|
        ensures Strip(rows[i].serial) != Strip(rows[j].serial)
        ensures HasKind(rows[i], 'V') && HasKind(rows[j], 'V') ==> rows[i].name != rows[j].name
      {
        assert !Alike(rows[i], rows[j]);
      }
    }
  }

  /** And a row is in order when it has the dates its type asks for and a serial of whole bytes. */
  lemma RowOkIs(row: Row, time: string -> bool)
    ensures RowOk(row, time) <==>
              && (if "R" <= row.kind then time(row.revoked) else row.revoked == "")
              && time(row.expiry) && |row.serial| % 2 == 0 && row.serial != ""
              && forall c | c in row.serial :: c in "0123456789" || c in "ABCDEF" || c in "abcdef"
  {
    forall c: char
      ensures IsDigit(c) <==> c in "0123456789" || c in "ABCDEF" || c in "abcdef"
    {
      DigitIs(c);
    }
    assert forall i :: 0 <= i < |row.serial| ==> row.serial[i] in row.serial;
  }

  lemma DigitIs(c: char)
    ensures IsDigit(c) <==> c in "0123456789" || c in "ABCDEF" || c in "abcdef"
  {
    if '0' <= c <= '9' {
      assert "0123456789"[c as int - 48] == c;
    } else if 'A' <= c <= 'F' {
      assert "ABCDEF"[c as int - 65] == c;
    } else if 'a' <= c <= 'f' {
      assert "abcdef"[c as int - 97] == c;
    }
  }

  ghost predicate Loadable(rows: seq<Row>, time: string -> bool) {
    Unique(rows) && forall i :: 0 <= i < |rows| ==> RowOk(rows[i], time)
  }

  lemma HexIsSerialText(n: int)
    ensures SerialText(Hex(n)) <==> n > 0
  {
    if n > 0 {
      assert forall i :: 0 <= i < |Hex(n)| ==> Hex(n)[i] in Hex(n);
    } else if n < 0 {
      assert !IsDigit(Hex(n)[0]);
    }
  }

  // ----- Indexes -----

  ghost predicate SerialIndex(rows: seq<Row>, m: map<string, nat>) {
    (forall i :: 0 <= i < |rows| ==> Strip(rows[i].serial) in m && m[Strip(rows[i].serial)] == i)
    && forall k | k in m :: m[k] < |rows| && Strip(rows[m[k]].serial) == k
  }

  ghost predicate NameIndex(rows: seq<Row>, m: map<string, nat>) {
    (forall i :: 0 <= i < |rows| && HasKind(rows[i], 'V') ==> rows[i].name in m && m[rows[i].name] == i)
    && forall k | k in m :: m[k] < |rows| && HasKind(rows[m[k]], 'V') && rows[m[k]].name == k
  }

  lemma IndexedIsUnique(rows: seq<Row>, s: map<string, nat>, n: map<string, nat>)
    requires SerialIndex(rows, s) && NameIndex(rows, n)
    ensures Unique(rows)
  {
  }

  lemma SerialIndexGrows(rows: seq<Row>, row: Row, m: map<string, nat>)
    requires SerialIndex(rows, m) && Strip(row.serial) !in m
    ensures SerialIndex(rows + [row], m[Strip(row.serial) := |rows|])
  {
  }

  lemma NameIndexGrows(rows: seq<Row>, row: Row, m: map<string, nat>)
    requires NameIndex(rows, m) && (HasKind(row, 'V') ==> row.name !in m)
    ensures NameIndex(rows + [row], if HasKind(row, 'V') then m[row.name := |rows|] else m)
  {
  }

  // ----- The two commands on rows -----

  /** The row the program writes for a new certificate. */
  function NewRow(cert: Certificate): Row {
    Row("V", cert.expiry, "", Hex(cert.serial), "unknown", cert.name)
  }

  ghost predicate Clash(rows: seq<Row>, row: Row) {
    exists i :: 0 <= i < |rows| && Alike(rows[i], row)
  }

  function Revoking(row: Row, now: string): Row {
    row.(kind := "R", revoked := now)
  }

  /** The first row with a serial, or the number of rows. */
  function RowOf(rows: seq<Row>, key: string): (i: nat)
    ensures i <= |rows|
    ensures i < |rows| ==> Strip(rows[i].serial) == key
    ensures forall k :: 0 <= k < i ==> Strip(rows[k].serial) != key
  {
    if rows == [] || Strip(rows[0].serial) == key then 0 else 1 + RowOf(rows[1..], key)
  }

  /** Certifying fails on a clash and otherwise appends. */
  ghost function Certified(rows: seq<Row>, cert: Certificate): Option<seq<Row>> {
    if Clash(rows, NewRow(cert)) then None else Some(rows + [NewRow(cert)])
  }

  /**
    Revoking: a certificate with a known serial must have the name on record and not be revoked
    already; one with an unknown serial is first added, which its name may prevent.
   */
  ghost function Revoked(rows: seq<Row>, cert: Certificate, now: string): Option<seq<Row>> {
    var i := RowOf(rows, Strip(Hex(cert.serial)));
    if i < |rows| then
      if rows[i].name != cert.name || HasKind(rows[i], 'R') then None
      else Some(rows[i := Revoking(rows[i], now)])
    else if Clash(rows, NewRow(cert)) then None
    else Some(rows + [Revoking(NewRow(cert), now)])
  }

  /** Certifying fails exactly on a known serial or a name that is valid, and else adds one row at the end. */
  lemma CertifiedIs(rows: seq<Row>, cert: Certificate)
    ensures Certified(rows, cert) == None <==>
              exists i :: 0 <= i < |rows| && (Strip(rows[i].serial) == Strip(Hex(cert.serial))
                                              || (HasKind(rows[i], 'V') && rows[i].name == cert.name))
    ensures Certified(rows, cert).Some? ==>
              Certified(rows, cert).value == rows + [Row("V", cert.expiry, "", Hex(cert.serial), "unknown", cert.name)]
  {
    var row := NewRow(cert);
    assert forall i :: 0 <= i < |rows| ==>
      (Alike(rows[i], row) <==>
        Strip(rows[i].serial) == Strip(Hex(cert.serial)) || (HasKind(rows[i], 'V') && rows[i].name == cert.name));
  }

  /** Revoking a serial on record changes the type and the date of the first row that has it, and nothing else. */
  lemma RevokedKnown(rows: seq<Row>, i: nat, cert: Certificate, now: string)
    requires i < |rows| && Strip(rows[i].serial) == Strip(Hex(cert.serial))
    requires forall k :: 0 <= k < i ==> Strip(rows[k].serial) != Strip(Hex(cert.serial))
    ensures var a := rows[i];
            Revoked(rows, cert, now) ==
            if a.name != cert.name || "R" <= a.kind then None
            else Some(rows[..i] + [Row("R", a.expiry, now, a.serial, a.file, a.name)] + rows[i + 1..])
  {
    var a := rows[i];
    assert RowOf(rows, Strip(Hex(cert.serial))) == i;
    assert rows[i := Revoking(a, now)] == rows[..i] + [Revoking(a, now)] + rows[i + 1..];
  }

  /** Revoking a serial that is not on record adds its row, already revoked, unless its name is valid elsewhere. */
  lemma RevokedUnknown(rows: seq<Row>, cert: Certificate, now: string)
    requires forall k :: 0 <= k < |rows| ==> Strip(rows[k].serial) != Strip(Hex(cert.serial))
    ensures Revoked(rows, cert, now) ==
            if exists i :: 0 <= i < |rows| && HasKind(rows[i], 'V') && rows[i].name == cert.name then None
            else Some(rows + [Row("R", cert.expiry, now, Hex(cert.serial), "unknown", cert.name)])
  {
    assert RowOf(rows, Strip(Hex(cert.serial))) == |rows|;
    var row := NewRow(cert);
    assert forall i :: 0 <= i < |rows| ==>
      (Alike(rows[i], row) <==> HasKind(rows[i], 'V') && rows[i].name == cert.name);
  }

  // ----- The database in memory -----

  /** The checks on one row. */
  method CheckRow(row: Row, time: string -> bool) returns (ok: bool)
    ensures ok <==> RowOk(row, time)
  {
    if !HasKind(row, 'R') && row.revoked != "" {
      return false;
    }
    if HasKind(row, 'R') && !time(row.revoked) {
      return false;
    }
    if !time(row.expiry) {
      return false;
    }
    if |row.serial| % 2 != 0 || |row.serial| < 2 {
      return false;
    }
    for p := 0 to |row.serial|
      invariant forall i :: 0 <= i < p ==> IsDigit(row.serial[i])
    {
      if !IsDigit(row.serial[p]) {
        return false;
      }
    }
    ok := true;
  }

  method CheckRows(rows: seq<Row>, time: string -> bool) returns (ok: bool)
    ensures ok <==> forall i :: 0 <= i < |rows| ==> RowOk(rows[i], time)
  {
    for i := 0 to |rows|
      invariant forall k :: 0 <= k < i ==> RowOk(rows[k], time)
    {
      ok := CheckRow(rows[i], time);
      if !ok {
        return;
      }
    }
    ok := true;
  }

  method IndexSerials(rows: seq<Row>) returns (m: map<string, nat>, ok: bool)
    ensures ok ==> SerialIndex(rows, m)
    ensures !ok ==> !Unique(rows)
  {
    m := map[];
    for i := 0 to |rows|
      invariant SerialIndex(rows[..i], m)
    {
      var key := Strip(rows[i].serial);
      if key in m {
        assert rows[..i][m[key]] == rows[m[key]];
        assert Alike(rows[m[key]], rows[i]);
        return m, false;
      }
      SerialIndexGrows(rows[..i], rows[i], m);
      assert rows[..i] + [rows[i]] == rows[..i + 1];
      m := m[key := i];
    }
    assert rows[..|rows|] == rows;
    ok := true;
  }

  method IndexNames(rows: seq<Row>) returns (m: map<string, nat>, ok: bool)
    ensures ok ==> NameIndex(rows, m)
    ensures !ok ==> !Unique(rows)
  {
    m := map[];
    for i := 0 to |rows|
      invariant NameIndex(rows[..i], m)
    {
      if HasKind(rows[i], 'V') && rows[i].name in m {
        ghost var k := m[rows[i].name];
        assert rows[..i][k] == rows[k];
        assert Alike(rows[k], rows[i]);
        return m, false;
      }
      NameIndexGrows(rows[..i], rows[i], m);
      assert rows[..i] + [rows[i]] == rows[..i + 1];
      if HasKind(rows[i], 'V') {
        m := m[rows[i].name := i];
      }
    }
    assert rows[..|rows|] == rows;
    ok := true;
  }

  class Database {
    var rows: seq<Row>
    var bySerial: map<string, nat>
    var byName: map<string, nat>

    ghost predicate Indexed()
      reads this
    {
      SerialIndex(rows, bySerial) && NameIndex(rows, byName)
    }

    constructor () {
    }

    method Load(file: seq<Row>, time: string -> bool) returns (ok: bool)
      modifies this
      ensures ok <==> Loadable(file, time)
      ensures ok ==> rows == file && Indexed()
    {
      rows := file;
      ok := CheckRows(file, time);
      if !ok {
        return;
      }
      bySerial, ok := IndexSerials(file);
      if !ok {
        return;
      }
      byName, ok := IndexNames(file);
      if ok {
        IndexedIsUnique(file, bySerial, byName);
      }
    }

    /** Appends a row unless an index already holds its serial, or its name if it is valid. */
    method Insert(row: Row) returns (ok: bool)
      requires Indexed()
      modifies this
      ensures Indexed()
      ensures ok <==> !Clash(old(rows), row)
      ensures rows == if ok then old(rows) + [row] else old(rows)
    {
      var key := Strip(row.serial);
      ClashByIndex(rows, row, bySerial, byName);
      if key in bySerial || (HasKind(row, 'V') && row.name in byName) {
        return false;
      }
      SerialIndexGrows(rows, row, bySerial);
      NameIndexGrows(rows, row, byName);
      bySerial := bySerial[key := |rows|];
      if HasKind(row, 'V') {
        byName := byName[row.name := |rows|];
      }
      rows := rows + [row];
      ok := true;
    }

    /** The database half of do_body; the answer is -1, 0 when the operator declines, or 1. */
    method Certify(cert: Certificate, confirmed: bool) returns (ok: int)
      requires Indexed()
      modifies this
      ensures Indexed()
      ensures ok == if Certified(old(rows), cert) == None then -1 else if confirmed then 1 else 0
      ensures rows == if ok == 1 then Certified(old(rows), cert).value else old(rows)
    {
      var row := NewRow(cert);
      ClashByIndex(rows, row, bySerial, byName);
      if row.name in byName || Strip(row.serial) in bySerial {
        return -1;
      }
      if !confirmed {
        return 0;
      }
      var inserted := Insert(row);
      ok := if inserted then 1 else -1;
    }

    /** do_revoke. It calls itself once at most; it leaves the name index as it was, out of date. */
    method Revoke(cert: Certificate, now: string) returns (ok: int)
      requires Indexed()
      modifies this
      ensures SerialIndex(rows, bySerial)
      ensures ok == if Revoked(old(rows), cert, now) == None then -1 else 1
      ensures rows == Revoked(old(rows), cert, now).GetOr(old(rows))
      decreases if Strip(Hex(cert.serial)) in bySerial then 0 else 1
    {
      var row := NewRow(cert);
      var key := Strip(row.serial);
      RowByIndex(rows, key, bySerial);
      if key !in bySerial {
        var inserted := Insert(row);
        if !inserted {
          return -1;
        }
        NewRowFound(old(rows), row, bySerial);
        RevokedWhenNew(old(rows), cert, now);
        ok := Revoke(cert, now);
      } else {
        var i := bySerial[key];
        if rows[i].name != cert.name || HasKind(rows[i], 'R') {
          return -1;
        }
        Mark(i, now);
        ok := 1;
      }
    }

    method Mark(i: nat, now: string)
      requires i < |rows| && SerialIndex(rows, bySerial)
      modifies this`rows
      ensures SerialIndex(rows, bySerial) && rows == old(rows)[i := Revoking(old(rows)[i], now)]
    {
      rows := rows[i := Revoking(rows[i], now)];
    }
  }

  lemma ClashByIndex(rows: seq<Row>, row: Row, s: map<string, nat>, n: map<string, nat>)
    requires SerialIndex(rows, s) && NameIndex(rows, n)
    ensures Clash(rows, row) <==> Strip(row.serial) in s || (HasKind(row, 'V') && row.name in n)
  {
    if Strip(row.serial) in s {
      assert Alike(rows[s[Strip(row.serial)]], row);
    } else if HasKind(row, 'V') && row.name in n {
      assert Alike(rows[n[row.name]], row);
    }
  }

  lemma RowByIndex(rows: seq<Row>, key: string, s: map<string, nat>)
    requires SerialIndex(rows, s)
    ensures RowOf(rows, key) == if key in s then s[key] else |rows|
  {
    var i := RowOf(rows, key);
    if key in s {
      assert Strip(rows[s[key]].serial) == key;
      assert Strip(rows[i].serial) == key;
    } else {
      assert forall k :: 0 <= k < |rows| ==> Strip(rows[k].serial) in s;
    }
  }

  lemma NewRowFound(rows: seq<Row>, row: Row, s: map<string, nat>)
    requires SerialIndex(rows + [row], s)
    ensures Strip(row.serial) in s && s[Strip(row.serial)] == |rows|
    ensures RowOf(rows + [row], Strip(row.serial)) == |rows|
  {
    assert (rows + [row])[|rows|] == row;
    RowByIndex(rows + [row], Strip(row.serial), s);
  }

  lemma RevokedWhenNew(rows: seq<Row>, cert: Certificate, now: string)
    requires RowOf(rows + [NewRow(cert)], Strip(Hex(cert.serial))) == |rows|
    ensures Revoked(rows + [NewRow(cert)], cert, now) == Some(rows + [Revoking(NewRow(cert), now)])
  {
    var row := NewRow(cert);
    LastReplaced(rows, row, Revoking(row, now));
    assert (rows + [row])[|rows|] == row;
  }

  lemma LastReplaced(rows: seq<Row>, a: Row, b: Row)
    ensures (rows + [a])[|rows| := b] == rows + [b]
  {
  }

  // ----- Sessions -----

  /** A request; the subject is absent when the policy refuses it. */
  datatype Request = Request(signed: bool, subject: Option<string>, expiry: string, confirmed: bool)

  datatype Session = Session(serial: int, requests: seq<Request>, commit: bool, revoke: Option<Certificate>,
                             now: string)

  /** The rows and the next serial after some requests, or nothing when one of them stops the session. */
  ghost function CertifiedAll(rows: seq<Row>, serial: int, requests: seq<Request>): Option<(seq<Row>, int)>
    decreases |requests|
  {
    if requests == [] then Some((rows, serial)) else
      var q := requests[0];
      if !q.signed then CertifiedAll(rows, serial, requests[1..])
      else if q.subject == None then None
      else
        var after := Certified(rows, Certificate(q.subject.value, serial, q.expiry));
        if after == None then None
        else if !q.confirmed then CertifiedAll(rows, serial, requests[1..])
        else CertifiedAll(after.value, serial + 1, requests[1..])
  }

  /** The file after a session that starts from `rows`. */
  ghost function Saved(rows: seq<Row>, x: Session): seq<Row> {
    match CertifiedAll(rows, x.serial, x.requests)
    case None => rows
    case Some((after, next)) =>
      if next != x.serial && !x.commit then rows
      else if x.revoke == None then after
      else Revoked(after, x.revoke.value, x.now).GetOr(after)
  }

  lemma {:induction false} NothingNew(rows: seq<Row>, serial: int, requests: seq<Request>)
    requires CertifiedAll(rows, serial, requests).Some?
    ensures CertifiedAll(rows, serial, requests).value.1 >= serial
    ensures CertifiedAll(rows, serial, requests).value.1 == serial ==>
              CertifiedAll(rows, serial, requests).value.0 == rows
    decreases |requests|
  {
    if requests != [] {
      var q := requests[0];
      if q.signed && q.confirmed {
        var after := Certified(rows, Certificate(q.subject.value, serial, q.expiry));
        NothingNew(after.value, serial + 1, requests[1..]);
      } else {
        NothingNew(rows, serial, requests[1..]);
      }
    }
  }

  /** The requests that lead to a certificate: those with a good signature that the operator confirms. */
  function Issued(requests: seq<Request>): (r: seq<Request>)
    ensures forall q | q in r :: q in requests
  {
    if requests == [] then [] else
      (if requests[0].signed && requests[0].confirmed then [requests[0]] else []) + Issued(requests[1..])
  }

  /** Each such request adds a row, in order, with consecutive serials. */
  lemma {:induction false} IssuedRow(rows: seq<Row>, serial: int, requests: seq<Request>, k: nat,
                                      place: nat, number: int)
    requires CertifiedAll(rows, serial, requests).Some? && k < |Issued(requests)|
    requires place == |rows| + k && number == serial + k
    ensures var after := CertifiedAll(rows, serial, requests).value.0;
            && place < |after| && Issued(requests)[k].subject == Some(after[place].name)
            && after[place] == Row("V", Issued(requests)[k].expiry, "", Hex(number), "unknown", after[place].name)
    decreases |requests|
  {
    var q := requests[0];
    if q.signed && q.confirmed {
      var row := NewRow(Certificate(q.subject.value, serial, q.expiry));
      OneIssued(rows, row, serial, requests, k);
      if k == 0 {
        assert place == |rows| && number == serial;
      } else {
        IssuedRow(rows + [row], serial + 1, requests[1..], k - 1, place, number);
      }
    } else {
      NotIssued(rows, serial, requests);
      IssuedRow(rows, serial, requests[1..], k, place, number);
    }
  }

  lemma NotIssued(rows: seq<Row>, serial: int, requests: seq<Request>)
    requires requests != [] && !(requests[0].signed && requests[0].confirmed)
    requires CertifiedAll(rows, serial, requests).Some?
    ensures CertifiedAll(rows, serial, requests) == CertifiedAll(rows, serial, requests[1..])
    ensures Issued(requests) == Issued(requests[1..])
  {
  }

  /** And nothing else changes. */
  lemma {:induction false} IssuedCount(rows: seq<Row>, serial: int, requests: seq<Request>)
    requires CertifiedAll(rows, serial, requests).Some?
    ensures var (after, next) := CertifiedAll(rows, serial, requests).value;
            && next == serial + |Issued(requests)| && |after| == |rows| + |Issued(requests)|
            && after[..|rows|] == rows
    decreases |requests|
  {
    if requests != [] {
      var q := requests[0];
      if q.signed && q.confirmed {
        var now := rows + [NewRow(Certificate(q.subject.value, serial, q.expiry))];
        IssuedCount(now, serial + 1, requests[1..]);
        var after := CertifiedAll(now, serial + 1, requests[1..]).value.0;
        assert after[..|rows|] == after[..|now|][..|rows|] == rows;
      } else {
        IssuedCount(rows, serial, requests[1..]);
      }
    }
  }

  lemma OneIssued(rows: seq<Row>, row: Row, serial: int, requests: seq<Request>, k: nat)
    requires requests != [] && requests[0].signed && requests[0].confirmed && k < |Issued(requests)|
    requires CertifiedAll(rows, serial, requests).Some?
    requires row == NewRow(Certificate(requests[0].subject.value, serial, requests[0].expiry))
    ensures var (after, next) := CertifiedAll(rows, serial, requests).value;
            && CertifiedAll(rows + [row], serial + 1, requests[1..]) == Some((after, next))
            && next == serial + |Issued(requests)| && |after| == |rows| + |Issued(requests)|
            && after[..|rows|] == rows && after[|rows|] == row
            && (k > 0 ==> Issued(requests)[k] == Issued(requests[1..])[k - 1])
  {
    IssuedCount(rows, serial, requests);
    IssuedCount(rows + [row], serial + 1, requests[1..]);
    var after := CertifiedAll(rows, serial, requests).value.0;
    assert after[..|rows| + 1][|rows|] == row;
  }

  /** A session certifies its requests one after another. */
  lemma {:induction false} RequestsConcat(rows: seq<Row>, serial: int, a: seq<Request>, b: seq<Request>)
    ensures CertifiedAll(rows, serial, a + b) ==
            match CertifiedAll(rows, serial, a)
            case None => None
            case Some((after, next)) => CertifiedAll(after, next, b)
    decreases |a|
  {
    if a == [] {
      assert a + b == b;
    } else {
      assert (a + b)[1..] == a[1..] + b;
      var q := a[0];
      if q.signed && q.subject.Some? {
        var after := Certified(rows, Certificate(q.subject.value, serial, q.expiry));
        if after.Some? && q.confirmed {
          RequestsConcat(after.value, serial + 1, a[1..], b);
        } else {
          RequestsConcat(rows, serial, a[1..], b);
        }
      } else {
        RequestsConcat(rows, serial, a[1..], b);
      }
    }
  }

  /**
    One request: without a good signature it is passed over; a subject the policy refuses, a serial
    on record or a name that is valid stops the session, also if the operator would decline.
   */
  lemma OneRequest(rows: seq<Row>, serial: int, q: Request)
    ensures CertifiedAll(rows, serial, [q]) ==
            if !q.signed then Some((rows, serial))
            else if q.subject == None then None
            else if Certified(rows, Certificate(q.subject.value, serial, q.expiry)) == None then None
            else if !q.confirmed then Some((rows, serial))
            else Some((rows + [Row("V", q.expiry, "", Hex(serial), "unknown", q.subject.value)], serial + 1))
  {
    assert [q][1..] == [];
  }

  /** What a session leaves: nothing new if it is stopped or new certificates are not committed. */
  lemma SavedIs(rows: seq<Row>, x: Session)
    ensures CertifiedAll(rows, x.serial, x.requests) == None ==> Saved(rows, x) == rows
    ensures Issued(x.requests) != [] && !x.commit ==> Saved(rows, x) == rows
    ensures CertifiedAll(rows, x.serial, x.requests).Some? && (Issued(x.requests) == [] || x.commit) ==>
              var after := CertifiedAll(rows, x.serial, x.requests).value.0;
              Saved(rows, x) == if x.revoke == None then after else Revoked(after, x.revoke.value, x.now).GetOr(after)
  {
    if CertifiedAll(rows, x.serial, x.requests).Some? {
      IssuedCount(rows, x.serial, x.requests);
    }
  }

  method CertifyRequests(db: Database, serial: int, requests: seq<Request>) returns (next: int, ok: bool)
    requires db.Indexed()
    modifies db
    ensures db.Indexed()
    ensures CertifiedAll(old(db.rows), serial, requests) == if ok then Some((db.rows, next)) else None
  {
    next := serial;
    for i := 0 to |requests|
      invariant db.Indexed()
      invariant CertifiedAll(old(db.rows), serial, requests) == CertifiedAll(db.rows, next, requests[i..])
    {
      var q := requests[i];
      if q.signed {
        if q.subject == None {
          return next, false;
        }
        var done := db.Certify(Certificate(q.subject.value, next, q.expiry), q.confirmed);
        if done < 0 {
          return next, false;
        }
        next := next + done;
      }
    }
    ok := true;
  }

  /** The certify and revoke parts of the program; the answer is the database file it leaves. */
  method RunSession(file: seq<Row>, x: Session, time: string -> bool) returns (saved: seq<Row>)
    ensures saved == if Loadable(file, time) then Saved(file, x) else file
  {
    var db := new Database();
    saved := file;
    var ok := db.Load(file, time);
    if !ok {
      return;
    }
    var next;
    next, ok := CertifyRequests(db, x.serial, x.requests);
    if !ok {
      return;
    }
    NothingNew(file, x.serial, x.requests);
    if next != x.serial {
      if !x.commit {
        return;
      }
      saved := db.rows;
    }
    var revoked := RevokeAsked(db, x.revoke, x.now);
    if revoked {
      saved := db.rows;
    }
  }

  method RevokeAsked(db: Database, revoke: Option<Certificate>, now: string) returns (done: bool)
    requires db.Indexed()
    modifies db
    ensures db.rows == if revoke == None then old(db.rows)
                       else Revoked(old(db.rows), revoke.value, now).GetOr(old(db.rows))
    ensures !done ==> db.rows == old(db.rows)
  {
    done := false;
    if revoke.Some? {
      var ok := db.Revoke(revoke.value, now);
      done := ok > 0;
    }
  }

  // ----- Every run -----

  /** What later versions of a row may differ in: an unrevoked one may have become revoked. */
  predicate Evolves(a: Row, b: Row) {
    && b.expiry == a.expiry && b.serial == a.serial && b.file == a.file && b.name == a.name
    && (b == a || (b.kind == "R" && !("R" <= a.kind)))
  }

  /** The rows are all still there, in order, and each has evolved at most. */
  ghost predicate Extends(a: seq<Row>, b: seq<Row>) {
    |a| <= |b| && forall i :: 0 <= i < |a| ==> Evolves(a[i], b[i])
  }

  lemma ExtendsTrans(a: seq<Row>, b: seq<Row>, c: seq<Row>)
    requires Extends(a, b) && Extends(b, c)
    ensures Extends(a, c)
  {
    forall i | 0 <= i < |a| ensures Evolves(a[i], c[i]) {
      assert Evolves(a[i], b[i]) && Evolves(b[i], c[i]);
    }
  }

  lemma UniqueGrows(rows: seq<Row>, row: Row)
    requires Unique(rows) && !Clash(rows, row)
    ensures Unique(rows + [row])
  {
    forall i, j | 0 <= i < j < |rows + [row]| ensures !Alike((rows + [row])[i], (rows + [row])[j]) {
      if j < |rows| {
        assert !Alike(rows[i], rows[j]);
      } else {
        assert !Alike(rows[i], row);
      }
    }
  }

  lemma UniqueRevoking(rows: seq<Row>, i: nat, now: string)
    requires i < |rows| && Unique(rows)
    ensures Unique(rows[i := Revoking(rows[i], now)])
  {
    var after := rows[i := Revoking(rows[i], now)];
    forall j, k | 0 <= j < k < |after| ensures !Alike(after[j], after[k]) {
      assert !Alike(rows[j], rows[k]);
    }
  }

  lemma CertifiedKeeps(rows: seq<Row>, cert: Certificate)
    requires Unique(rows) && Certified(rows, cert).Some?
    ensures Unique(Certified(rows, cert).value) && Extends(rows, Certified(rows, cert).value)
  {
    UniqueGrows(rows, NewRow(cert));
  }

  lemma RevokedKeeps(rows: seq<Row>, cert: Certificate, now: string)
    requires Unique(rows) && Revoked(rows, cert, now).Some?
    ensures Unique(Revoked(rows, cert, now).value) && Extends(rows, Revoked(rows, cert, now).value)
  {
    var i := RowOf(rows, Strip(Hex(cert.serial)));
    if i < |rows| {
      UniqueRevoking(rows, i, now);
    } else {
      UniqueGrows(rows, NewRow(cert));
      UniqueRevoking(rows + [NewRow(cert)], |rows|, now);
      LastReplaced(rows, NewRow(cert), Revoking(NewRow(cert), now));
    }
  }

  lemma {:induction false} CertifiedAllKeeps(rows: seq<Row>, serial: int, requests: seq<Request>)
    requires Unique(rows) && CertifiedAll(rows, serial, requests).Some?
    ensures Unique(CertifiedAll(rows, serial, requests).value.0)
    ensures Extends(rows, CertifiedAll(rows, serial, requests).value.0)
    decreases |requests|
  {
    if requests != [] {
      var q := requests[0];
      if q.signed && q.confirmed {
        var cert := Certificate(q.subject.value, serial, q.expiry);
        var after := Certified(rows, cert).value;
        CertifiedKeeps(rows, cert);
        CertifiedAllKeeps(after, serial + 1, requests[1..]);
        ExtendsTrans(rows, after, CertifiedAll(rows, serial, requests).value.0);
      } else {
        CertifiedAllKeeps(rows, serial, requests[1..]);
      }
    }
  }

  lemma SavedKeeps(rows: seq<Row>, x: Session)
    requires Unique(rows)
    ensures Unique(Saved(rows, x)) && Extends(rows, Saved(rows, x))
  {
    match CertifiedAll(rows, x.serial, x.requests)
    case None =>
    case Some((after, next)) =>
      CertifiedAllKeeps(rows, x.serial, x.requests);
      if x.revoke.Some? && Revoked(after, x.revoke.value, x.now).Some? {
        RevokedKeeps(after, x.revoke.value, x.now);
        ExtendsTrans(rows, after, Revoked(after, x.revoke.value, x.now).value);
      }
  }

  /** The file after some sessions; one that cannot load it leaves it alone. */
  ghost function Run(rows: seq<Row>, sessions: seq<Session>, time: string -> bool): seq<Row> {
    if sessions == [] then rows else
      var n := |sessions| - 1;
      var before := Run(rows, sessions[..n], time);
      if Loadable(before, time) then Saved(before, sessions[n]) else before
  }

  /** A session adds to what the ones before it left, if that can be loaded. */
  lemma RunIs(rows: seq<Row>, sessions: seq<Session>, x: Session, time: string -> bool)
    ensures Run(rows, [], time) == rows
    ensures var before := Run(rows, sessions, time);
            Run(rows, sessions + [x], time) == if Loadable(before, time) then Saved(before, x) else before
  {
    assert (sessions + [x])[..|sessions|] == sessions;
  }

  /** Serials and names of valid certificates stay unique, and no row is lost, altered or unrevoked. */
  lemma {:induction false} RunKeeps(rows: seq<Row>, sessions: seq<Session>, time: string -> bool)
    requires Unique(rows)
    ensures Unique(Run(rows, sessions, time)) && Extends(rows, Run(rows, sessions, time))
    ensures forall i :: 0 <= i < |rows| ==>
              var a, b := rows[i], Run(rows, sessions, time)[i];
              b == a || (!("R" <= a.kind) && b == Row("R", a.expiry, b.revoked, a.serial, a.file, a.name))
  {
    if sessions != [] {
      var n := |sessions| - 1;
      var before := Run(rows, sessions[..n], time);
      RunKeeps(rows, sessions[..n], time);
      SavedKeeps(before, sessions[n]);
      ExtendsTrans(rows, before, Saved(before, sessions[n]));
    }
  }

  // ----- Revocation dates -----

  /** A revocation date stands on revoked rows, and only there. */
  predicate Dated(row: Row) {
    HasKind(row, 'R') <==> row.revoked != ""
  }

  ghost predicate AllDated(rows: seq<Row>) {
    forall i :: 0 <= i < |rows| ==> Dated(rows[i])
  }

  /** A file that can be loaded is so dated, when the empty text is not a date. */
  lemma LoadableDated(rows: seq<Row>, time: string -> bool)
    requires Loadable(rows, time) && !time("")
    ensures AllDated(rows)
  {
    forall i | 0 <= i < |rows| ensures Dated(rows[i]) {
      assert RowOk(rows[i], time);
    }
  }

  lemma {:induction false} CertifiedAllDated(rows: seq<Row>, serial: int, requests: seq<Request>)
    requires AllDated(rows) && CertifiedAll(rows, serial, requests).Some?
    ensures AllDated(CertifiedAll(rows, serial, requests).value.0)
    decreases |requests|
  {
    if requests != [] {
      var q := requests[0];
      if q.signed && q.confirmed {
        var cert := Certificate(q.subject.value, serial, q.expiry);
        CertifiedAllDated(Certified(rows, cert).value, serial + 1, requests[1..]);
      } else {
        CertifiedAllDated(rows, serial, requests[1..]);
      }
    }
  }

  lemma RevokedDated(rows: seq<Row>, cert: Certificate, now: string)
    requires AllDated(rows) && now != "" && Revoked(rows, cert, now).Some?
    ensures AllDated(Revoked(rows, cert, now).value)
  {
  }

  lemma SavedDated(rows: seq<Row>, x: Session)
    requires AllDated(rows) && x.now != ""
    ensures AllDated(Saved(rows, x))
  {
    match CertifiedAll(rows, x.serial, x.requests)
    case None =>
    case Some((after, next)) =>
      CertifiedAllDated(rows, x.serial, x.requests);
      if x.revoke.Some? && Revoked(after, x.revoke.value, x.now).Some? {
        RevokedDated(after, x.revoke.value, x.now);
      }
  }

  /** After every run a revocation date stands exactly on the revoked rows; the clock need only yield some text. */
  lemma {:induction false} RunDated(rows: seq<Row>, sessions: seq<Session>, time: string -> bool)
    requires AllDated(rows)
    requires forall k :: 0 <= k < |sessions| ==> sessions[k].now != ""
    ensures AllDated(Run(rows, sessions, time))
  {
    if sessions != [] {
      var n := |sessions| - 1;
      RunDated(rows, sessions[..n], time);
      SavedDated(Run(rows, sessions[..n], time), sessions[n]);
    }
  }

  lemma RevokedStays(a: Row, b: Row)
    requires Evolves(a, b) && HasKind(a, 'R')
    ensures b == a
  {
  }

  /** A revoked serial can never be revoked or issued again. */
  lemma RevokedForever(rows: seq<Row>, i: nat, sessions: seq<Session>, time: string -> bool, cert: Certificate,
                       now: string)
    requires Unique(rows) && i < |rows|
    requires HasKind(rows[i], 'R') && Strip(rows[i].serial) == Strip(Hex(cert.serial))
    ensures Revoked(Run(rows, sessions, time), cert, now) == None
    ensures Certified(Run(rows, sessions, time), cert) == None
  {
    RunKeeps(rows, sessions, time);
    var after := Run(rows, sessions, time);
    RevokedStays(rows[i], after[i]);
    assert Alike(after[i], NewRow(cert));
    forall k | 0 <= k < i ensures Strip(after[k].serial) != Strip(after[i].serial) {
      assert !Alike(after[k], after[i]);
    }
  }

  // ----- The file can be loaded again -----

  lemma LoadableGrows(rows: seq<Row>, row: Row, time: string -> bool)
    requires Loadable(rows, time) && !Clash(rows, row)
    ensures Loadable(rows + [row], time) <==> RowOk(row, time)
  {
    UniqueGrows(rows, row);
    assert (rows + [row])[|rows|] == row;
  }

  /** A new row is one the next load accepts exactly when its expiry date is well formed and its serial positive. */
  lemma CertifiedLoadable(rows: seq<Row>, cert: Certificate, time: string -> bool)
    requires Loadable(rows, time) && Certified(rows, cert).Some?
    ensures Loadable(Certified(rows, cert).value, time) <==> time(cert.expiry) && cert.serial > 0
  {
    LoadableGrows(rows, NewRow(cert), time);
    HexIsSerialText(cert.serial);
  }

  lemma RevokingLoadable(rows: seq<Row>, i: nat, now: string, time: string -> bool)
    requires Loadable(rows, time) && i < |rows|
    ensures Loadable(rows[i := Revoking(rows[i], now)], time) <==> time(now)
  {
    UniqueRevoking(rows, i, now);
    var after := rows[i := Revoking(rows[i], now)];
    assert RowOk(after[i], time) <==> time(now) by {
      assert RowOk(rows[i], time);
    }
  }

  lemma NoClashRevoking(rows: seq<Row>, row: Row, now: string)
    requires !Clash(rows, row)
    ensures !Clash(rows, Revoking(row, now))
  {
    forall k | 0 <= k < |rows| ensures !Alike(rows[k], Revoking(row, now)) {
      assert !Alike(rows[k], row);
    }
  }

  lemma RevokedLoadable(rows: seq<Row>, cert: Certificate, now: string, time: string -> bool)
    requires Loadable(rows, time) && Revoked(rows, cert, now).Some?
    ensures Loadable(Revoked(rows, cert, now).value, time) <==>
              time(now) && (RowOf(rows, Strip(Hex(cert.serial))) < |rows| || (time(cert.expiry) && cert.serial > 0))
  {
    var i := RowOf(rows, Strip(Hex(cert.serial)));
    if i < |rows| {
      RevokingLoadable(rows, i, now, time);
    } else {
      NoClashRevoking(rows, NewRow(cert), now);
      LoadableGrows(rows, Revoking(NewRow(cert), now), time);
      HexIsSerialText(cert.serial);
    }
  }

  /** Dates are well formed and serials positive. */
  ghost predicate Sane(x: Session, time: string -> bool) {
    x.serial > 0 && time(x.now)
    && (forall i :: 0 <= i < |x.requests| ==> time(x.requests[i].expiry))
    && (x.revoke.Some? ==> x.revoke.value.serial > 0 && time(x.revoke.value.expiry))
  }

  lemma {:induction false} CertifiedAllLoadable(rows: seq<Row>, serial: int, requests: seq<Request>,
                                                time: string -> bool)
    requires Loadable(rows, time) && serial > 0
    requires forall i :: 0 <= i < |requests| ==> time(requests[i].expiry)
    requires CertifiedAll(rows, serial, requests).Some?
    ensures Loadable(CertifiedAll(rows, serial, requests).value.0, time)
    decreases |requests|
  {
    if requests != [] {
      var q := requests[0];
      if q.signed && q.confirmed {
        var cert := Certificate(q.subject.value, serial, q.expiry);
        CertifiedLoadable(rows, cert, time);
        CertifiedAllLoadable(Certified(rows, cert).value, serial + 1, requests[1..], time);
      } else {
        CertifiedAllLoadable(rows, serial, requests[1..], time);
      }
    }
  }

  lemma SavedLoadable(rows: seq<Row>, x: Session, time: string -> bool)
    requires Loadable(rows, time) && Sane(x, time)
    ensures Loadable(Saved(rows, x), time)
  {
    match CertifiedAll(rows, x.serial, x.requests)
    case None =>
    case Some((after, next)) =>
      CertifiedAllLoadable(rows, x.serial, x.requests, time);
      if x.revoke.Some? && Revoked(after, x.revoke.value, x.now).Some? {
        RevokedLoadable(after, x.revoke.value, x.now, time);
      }
  }

  /** With well-formed dates and positive serials the program never writes a file it cannot load. */
  lemma {:induction false} RunLoadable(rows: seq<Row>, sessions: seq<Session>, time: string -> bool)
    requires Loadable(rows, time)
    requires forall k :: 0 <= k < |sessions| ==> Sane(sessions[k], time)
    ensures Loadable(Run(rows, sessions, time), time)
  {
    if sessions != [] {
      var n := |sessions| - 1;
      RunLoadable(rows, sessions[..n], time);
      SavedLoadable(Run(rows, sessions[..n], time), sessions[n], time);
    }
  }
}
