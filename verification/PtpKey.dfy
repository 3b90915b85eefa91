/**
  Streaming and one-shot authenticated encryption (ptp/key.cpp).

  The session cipher is a block cipher in output-feedback mode: byte number n of a message
  is combined by exclusive-or with byte number n of a keystream that depends on the key
  and the initialisation vector only. The keystream and the message digest come from the
  cipher library, so they are parameters.
 */
module PtpKey {
  import opened Common

  type byte = bv8

  const KEY_SIZE := 16
  const IV_SIZE := 8
  const DIGEST_SIZE := 20
  const DIGEST_PADDED_SIZE := 2 * DIGEST_SIZE

  /** What the library supplies: keystream(key, iv, n), the digest, the cipher's block size. */
  datatype Suite = Suite(
    keystream: (seq<byte>, seq<byte>, nat) -> byte,
    digest: seq<byte> -> seq<byte>,
    blockSize: nat)
  {
    ghost predicate Valid() {
      forall m :: |digest(m)| == DIGEST_SIZE
    }
  }

  /** A cipher ready to run: suite, key and initialisation vector. */
  datatype Cipher = Cipher(suite: Suite, key: seq<byte>, iv: seq<byte>)

  const NO_IV: seq<byte> := [0, 0, 0, 0, 0, 0, 0, 0]

  // ----- What the operations are meant to compute -----

  /** `data` under the keystream, when its first byte is byte number `from` of the message. */
  function Mask(c: Cipher, from: nat, data: seq<byte>): (r: seq<byte>)
    ensures |r| == |data|
  {
    seq(|data|, i requires 0 <= i < |data| => data[i] ^ c.suite.keystream(c.key, c.iv, from + i))
  }

  lemma MaskTwice(c: Cipher, from: nat, data: seq<byte>)
    ensures Mask(c, from, Mask(c, from, data)) == data
  {
    forall i | 0 <= i < |data|
      ensures Mask(c, from, Mask(c, from, data))[i] == data[i]
    {
      XorTwice(data[i], c.suite.keystream(c.key, c.iv, from + i));
    }
  }

  lemma XorTwice(x: byte, k: byte)
    ensures (x ^ k) ^ k == x
  {
  }

  lemma MaskConcat(c: Cipher, from: nat, a: seq<byte>, b: seq<byte>)
    ensures Mask(c, from, a + b) == Mask(c, from, a) + Mask(c, from + |a|, b)
  {
    forall i | 0 <= i < |a + b|
      ensures Mask(c, from, a + b)[i] == (Mask(c, from, a) + Mask(c, from + |a|, b))[i]
    {
    }
  }

  /** Three parts of a sequence, from two and two. */
  lemma Parts(whole: seq<byte>, a: seq<byte>, rest: seq<byte>, b: seq<byte>, c: seq<byte>)
    requires whole == a + rest && rest == b + c
    ensures whole == (a + b) + c
  {
  }

  lemma Regroup(a: seq<byte>, b: seq<byte>, c: seq<byte>)
    ensures (a + b) + c == a + (b + c)
  {
  }

  lemma PrefixConcat(a: seq<byte>, x: seq<byte>, b: seq<byte>)
    requires x <= b
    ensures a + x <= a + b
  {
    assert a + b == a + x + b[|x|..];
  }

  /** Decrypting `n` more bytes after the first `k`. */
  lemma Advance(c: Cipher, body: seq<byte>, k: nat, n: nat)
    requires k + n <= |body|
    ensures Mask(c, 0, body[..k]) + Mask(c, k, body[k..][..n]) == Mask(c, 0, body[..k + n])
    ensures Mask(c, 0, body[..k + n]) <= Mask(c, 0, body)
    ensures body[k..][n..] == body[k + n..]
  {
    assert body[..k + n] == body[..k] + body[k..][..n];
    MaskConcat(c, 0, body[..k], body[k..][..n]);
    assert body == body[..k + n] + body[k + n..];
    MaskConcat(c, 0, body[..k + n], body[k + n..]);
  }

  /** The encrypted message without its initialisation vector. */
  function SealBody(c: Cipher, digest: bool, plain: seq<byte>): seq<byte> {
    Mask(c, 0, plain + if digest then c.suite.digest(plain) else [])
  }

  /** The masked plaintext starts the sealed body. */
  lemma SealExtends(c: Cipher, digest: bool, plain: seq<byte>)
    ensures Mask(c, 0, plain) <= SealBody(c, digest, plain)
  {
    MaskConcat(c, 0, plain, if digest then c.suite.digest(plain) else []);
  }

  /** The masked plaintext and then a first part of its masked digest start it too. */
  lemma TagSealed(c: Cipher, plain: seq<byte>, out: seq<byte>, sent: seq<byte>)
    requires out == Mask(c, 0, plain) && sent <= Mask(c, |plain|, c.suite.digest(plain))
    ensures out + sent <= SealBody(c, true, plain)
    ensures sent == Mask(c, |plain|, c.suite.digest(plain)) ==> out + sent == SealBody(c, true, plain)
  {
    MaskConcat(c, 0, plain, c.suite.digest(plain));
    PrefixConcat(out, sent, Mask(c, |plain|, c.suite.digest(plain)));
  }

  /** The whole encrypted message. `random` is the vector the random source yields. */
  function Seal(suite: Suite, key: seq<byte>, random: seq<byte>, iv: bool, digest: bool, plain: seq<byte>): seq<byte> {
    if iv then random + SealBody(Cipher(suite, key, random), digest, plain)
    else SealBody(Cipher(suite, key, NO_IV), digest, plain)
  }

  lemma SealParts(suite: Suite, key: seq<byte>, random: seq<byte>, iv: bool, digest: bool, plain: seq<byte>,
                  vector: seq<byte>, body: seq<byte>)
    requires vector == if iv then random else []
    requires body <= SealBody(Cipher(suite, key, if iv then random else NO_IV), digest, plain)
    ensures vector + body <= Seal(suite, key, random, iv, digest, plain)
    ensures body == SealBody(Cipher(suite, key, if iv then random else NO_IV), digest, plain) ==>
              vector + body == Seal(suite, key, random, iv, digest, plain)
  {
    PrefixConcat(vector, body, SealBody(Cipher(suite, key, if iv then random else NO_IV), digest, plain));
  }

  /** The plaintext carried by a message body, or None if it is too short or its digest is wrong. */
  function OpenBody(c: Cipher, digest: bool, body: seq<byte>): Option<seq<byte>> {
    var text := Mask(c, 0, body);
    if !digest then Some(text)
    else if |text| < DIGEST_SIZE then None
    else
      var data := text[..|text| - DIGEST_SIZE];
      if c.suite.digest(data) == text[|text| - DIGEST_SIZE..] then Some(data) else None
  }

  /** The plaintext carried by a whole message. */
  function Open(suite: Suite, key: seq<byte>, iv: bool, digest: bool, message: seq<byte>): Option<seq<byte>> {
    if !iv then OpenBody(Cipher(suite, key, NO_IV), digest, message)
    else if |message| < IV_SIZE then None
    else OpenBody(Cipher(suite, key, message[..IV_SIZE]), digest, message[IV_SIZE..])
  }

  /** What a message body carries before any check: its decryption without the digest. */
  function CarriedBody(c: Cipher, digest: bool, body: seq<byte>): seq<byte> {
    var text := Mask(c, 0, body);
    if !digest then text else if |text| < DIGEST_SIZE then [] else text[..|text| - DIGEST_SIZE]
  }

  function Carried(suite: Suite, key: seq<byte>, iv: bool, digest: bool, message: seq<byte>): seq<byte> {
    if !iv then CarriedBody(Cipher(suite, key, NO_IV), digest, message)
    else if |message| < IV_SIZE then []
    else CarriedBody(Cipher(suite, key, message[..IV_SIZE]), digest, message[IV_SIZE..])
  }

  /** The most bytes that must wait for the digest check. */
  function MostHeld(digest: bool): nat {
    if digest then DIGEST_PADDED_SIZE else 0
  }

  /** Whether a receiving buffer of `readsize` bytes can take in a body of `n` bytes. */
  predicate Fits(digest: bool, readsize: nat, n: nat) {
    n <= readsize || readsize > MostHeld(digest)
  }

  /** Whether a body of `n` bytes leaves a buffer of `readsize` bytes with less than a digest. */
  predicate Starved(digest: bool, readsize: nat, n: nat) {
    digest && (n < DIGEST_SIZE || readsize < DIGEST_SIZE)
  }

  function VectorSize(iv: bool): nat {
    if iv then IV_SIZE else 0
  }

  /** How many of the last `held` bytes are data. */
  function Before(digest: bool, held: nat): nat
    requires digest ==> held >= DIGEST_SIZE
  {
    if digest then held - DIGEST_SIZE else held
  }

  /** How streaming decryption ends: with a size or -1, or with a negative count for the digest. */
  datatype Ending = Returned(total: int) | NegativeCount

  /** The vector a message starts with, or eight zeros for one without. */
  ghost predicate IsVector(iv: bool, message: seq<byte>, vector: seq<byte>) {
    if iv then |message| >= 8 && vector == message[..8] else vector == [0, 0, 0, 0, 0, 0, 0, 0]
  }

  /**
    The sealed message byte by byte: the vector if there is one, then the plaintext and its digest
    of twenty bytes if there is one, combined with the keystream of the key and the vector.
   */
  lemma SealIs(suite: Suite, key: seq<byte>, random: seq<byte>, iv: bool, digest: bool, plain: seq<byte>)
    requires suite.Valid() && |random| == 8
    ensures var m, v := Seal(suite, key, random, iv, digest, plain), if iv then 8 else 0;
            var vector := if iv then random else [0, 0, 0, 0, 0, 0, 0, 0];
            && |m| >= v && IsVector(iv, m, vector) && IsSealed(Cipher(suite, key, vector), digest, plain, m[v..])
  {
    var vector := if iv then random else [0, 0, 0, 0, 0, 0, 0, 0];
    BodyIs(Cipher(suite, key, vector), digest, plain);
    if iv {
      Behind(random, SealBody(Cipher(suite, key, random), digest, plain));
    }
  }

  lemma Behind(front: seq<byte>, body: seq<byte>)
    ensures (front + body)[..|front|] == front && (front + body)[|front|..] == body
  {
  }

  ghost predicate IsSealed(c: Cipher, digest: bool, plain: seq<byte>, body: seq<byte>)
    requires c.suite.Valid()
  {
    && |body| == |plain| + (if digest then 20 else 0)
    && (forall i :: 0 <= i < |plain| ==> body[i] == plain[i] ^ c.suite.keystream(c.key, c.iv, i))
    && (digest ==> forall i :: 0 <= i < 20 ==>
          body[|plain| + i] == c.suite.digest(plain)[i] ^ c.suite.keystream(c.key, c.iv, |plain| + i))
  }

  lemma BodyIs(c: Cipher, digest: bool, plain: seq<byte>)
    requires c.suite.Valid()
    ensures IsSealed(c, digest, plain, SealBody(c, digest, plain))
  {
    if digest {
      MaskConcat(c, 0, plain, c.suite.digest(plain));
    } else {
      assert plain + [] == plain;
    }
  }

  /** What a message carries, byte by byte: all after the vector but the digest. */
  lemma CarriedIs(suite: Suite, key: seq<byte>, iv: bool, digest: bool, message: seq<byte>)
    ensures var v, d := if iv then 8 else 0, if digest then 20 else 0;
            var carried := Carried(suite, key, iv, digest, message);
            if |message| < v + d then carried == []
            else
              var vector := if iv then message[..8] else [0, 0, 0, 0, 0, 0, 0, 0];
              && |carried| == |message| - v - d
              && forall i :: 0 <= i < |carried| ==> carried[i] == message[v + i] ^ suite.keystream(key, vector, i)
  {
  }

  /** It opens exactly when it is long enough and the digest it carries is right. */
  lemma OpenIs(suite: Suite, key: seq<byte>, iv: bool, digest: bool, message: seq<byte>)
    ensures var v, d := if iv then 8 else 0, if digest then 20 else 0;
            var carried, result := Carried(suite, key, iv, digest, message), Open(suite, key, iv, digest, message);
            if |message| < v + d then result == None
            else
              var vector := if iv then message[..8] else [0, 0, 0, 0, 0, 0, 0, 0];
              var tag := Mask(Cipher(suite, key, vector), |carried|, message[|message| - d..]);
              result == if digest && suite.digest(carried) != tag then None else Some(carried)
  {
    var v, d := if iv then 8 else 0, if digest then 20 else 0;
    if |message| >= v + d {
      var c, body := Cipher(suite, key, if iv then message[..8] else NO_IV), if iv then message[8..] else message;
      OpenBodyIs(c, digest, body, d);
      assert iv ==> message[8..][|message| - 8 - d..] == message[|message| - d..];
    }
  }

  lemma OpenBodyIs(c: Cipher, digest: bool, body: seq<byte>, d: nat)
    requires d == if digest then 20 else 0
    requires |body| >= d
    ensures var carried := CarriedBody(c, digest, body);
            && |carried| == |body| - d
            && OpenBody(c, digest, body) ==
               (if digest && c.suite.digest(carried) != Mask(c, |carried|, body[|body| - d..]) then None
                else Some(carried))
  {
    var n := |body| - d;
    assert body == body[..n] + body[n..];
    MaskConcat(c, 0, body[..n], body[n..]);
  }

  /** Opening undoes sealing, for every plaintext (the empty one included) and every vector. */
  lemma OpenSeal(suite: Suite, key: seq<byte>, random: seq<byte>, iv: bool, digest: bool, plain: seq<byte>)
    requires suite.Valid() && |random| == IV_SIZE
    ensures Open(suite, key, iv, digest, Seal(suite, key, random, iv, digest, plain)) == Some(plain)
  {
    var c := Cipher(suite, key, if iv then random else NO_IV);
    var text := plain + if digest then suite.digest(plain) else [];
    MaskTwice(c, 0, text);
    if digest {
      assert text[..|text| - DIGEST_SIZE] == plain;
      assert text[|text| - DIGEST_SIZE..] == suite.digest(plain);
    } else {
      assert text == plain;
    }
    if iv {
      var message := Seal(suite, key, random, iv, digest, plain);
      assert message[..IV_SIZE] == random;
      assert message[IV_SIZE..] == SealBody(c, digest, plain);
    }
  }

  /** Sealing is the only way to make a message that opens: what opens to `plain` under its own vector is its seal. */
  lemma SealOpen(suite: Suite, key: seq<byte>, iv: bool, digest: bool, message: seq<byte>)
    requires Open(suite, key, iv, digest, message).Some?
    ensures var plain := Open(suite, key, iv, digest, message).value;
            var random := if iv then message[..IV_SIZE] else NO_IV;
            Seal(suite, key, random, iv, digest, plain) == message
  {
    var random := if iv then message[..IV_SIZE] else NO_IV;
    var body := if iv then message[IV_SIZE..] else message;
    var c := Cipher(suite, key, random);
    var text := Mask(c, 0, body);
    MaskTwice(c, 0, body);
    if digest {
      assert text == text[..|text| - DIGEST_SIZE] + text[|text| - DIGEST_SIZE..];
    } else {
      assert text + [] == text;
    }
    if iv {
      assert message == random + body;
    }
  }

  // ----- The library's contexts: a stream position, and the bytes a digest has absorbed -----

  lemma MaskIs(c: Cipher, pos: nat, data: seq<byte>, out: seq<byte>)
    requires |out| == |data|
    requires forall k :: 0 <= k < |out| ==> out[k] == data[k] ^ c.suite.keystream(c.key, c.iv, pos + k)
    ensures out == Mask(c, pos, data)
  {
  }

  /** Transforms buf[off..off + size] in place from keystream position `pos`. */
  method CipherUpdate(c: Cipher, pos: nat, buf: array<byte>, off: nat, size: nat)
    requires off + size <= buf.Length
    modifies buf
    ensures buf[off..off + size] == Mask(c, pos, old(buf[off..off + size]))
    ensures buf[..off] == old(buf[..off]) && buf[off + size..] == old(buf[off + size..])
  {
    for i := off to off + size
      invariant forall k :: 0 <= k < off || i <= k < buf.Length ==> buf[k] == old(buf[k])
      invariant forall k :: off <= k < i ==> buf[k] == old(buf[k]) ^ c.suite.keystream(c.key, c.iv, pos + k - off)
    {
      buf[i] := buf[i] ^ c.suite.keystream(c.key, c.iv, pos + i - off);
    }
    MaskIs(c, pos, old(buf[off..off + size]), buf[off..off + size]);
  }

  method DigestUpdate(absorbed: seq<byte>, buf: array<byte>, size: nat) returns (newAbsorbed: seq<byte>)
    requires size <= buf.Length
    ensures newAbsorbed == absorbed + buf[..size]
  {
    newAbsorbed := absorbed + buf[..size];
  }

  /** A stream cipher holds nothing back. */
  method CipherFinal() returns (size: nat)
    ensures size == 0
  {
    size := 0;
  }

  // ----- The caller's callbacks -----

  /**
    The read callback: any schedule of short counts, and of failures unless `reliable`.
    A reliable source returns 0 only at the end of its data.
   */
  class Source {
    const reliable: bool
    var rest: seq<byte>

    constructor (data: seq<byte>, reliable: bool)
      ensures rest == data && this.reliable == reliable
    {
      rest := data;
      this.reliable := reliable;
    }

    method Read(buf: array<byte>, off: nat, size: nat) returns (s: int)
      requires off + size <= buf.Length
      modifies this, buf
      ensures -1 <= s <= size && s <= |old(rest)|
      ensures rest == old(rest)[if s < 0 then 0 else s..]
      ensures s >= 0 ==> buf[..off + s] == old(buf[..off]) + old(rest)[..s]
      ensures reliable ==> s >= 0 && (s == 0 ==> size == 0 || old(rest) == [])
    {
      s :| -1 <= s <= size && s <= |rest| && (reliable ==> s >= 0 && (s == 0 ==> size == 0 || rest == []));
      if s > 0 {
        forall i | 0 <= i < s {
          buf[off + i] := rest[i];
        }
        rest := rest[s..];
      }
    }
  }

  /** The write callback. A reliable sink takes at least one byte when offered any. */
  class Sink {
    const reliable: bool
    var written: seq<byte>

    constructor (reliable: bool)
      ensures written == [] && this.reliable == reliable
    {
      written := [];
      this.reliable := reliable;
    }

    method Write(buf: array<byte>, off: nat, size: nat) returns (s: int)
      requires off + size <= buf.Length
      modifies this
      ensures -1 <= s <= size
      ensures written == old(written) + if s < 0 then [] else buf[off..off + s]
      ensures reliable && size > 0 ==> s > 0
    {
      s :| -1 <= s <= size && (reliable && size > 0 ==> s > 0);
      if s > 0 {
        written := written + buf[off..off + s];
      }
    }
  }

  /** Reads until the buffer's window is full, the source returns 0, or it fails. */
  method ReadAll(read: Source, buf: array<byte>, off: nat, size: nat) returns (r: int, ghost got: seq<byte>)
    requires off + size <= buf.Length
    modifies read, buf
    ensures -1 <= r <= size
    ensures old(read.rest) == got + read.rest
    ensures r >= 0 ==> |got| == r && buf[..off + r] == old(buf[..off]) + got
    ensures r >= 0 && off == 0 ==> buf[..r] == got
    ensures read.reliable ==> r >= 0 && (r < size ==> read.rest == [])
  {
    got := [];
    var readsize := 0;
    while readsize < size
      invariant 0 <= readsize <= size
      invariant |got| == readsize && buf[..off + readsize] == old(buf[..off]) + got
      invariant old(read.rest) == got + read.rest
    {
      ghost var before := read.rest;
      var s := read.Read(buf, off + readsize, size - readsize);
      if s < 0 {
        return -1, got;
      }
      Parts(old(read.rest), got, before, before[..s], read.rest);
      Regroup(old(buf[..off]), got, before[..s]);
      got := got + before[..s];
      if s == 0 {
        break;
      }
      readsize := readsize + s;
    }
    r := readsize;
    assert off == 0 ==> old(buf[..off]) + got == got;
  }

  /**
    Writes until everything is sent, the sink takes nothing, or it fails. Without a sink it
    only counts. `sent` is what a sink was, or would have been, given.
   */
  method WriteAll(write: Sink?, buf: array<byte>, size: int, total: int)
    returns (r: int, newTotal: int, ghost sent: seq<byte>)
    requires size <= buf.Length
    modifies write
    ensures write == null ==> r == size && newTotal == total + size
    ensures write != null ==> write.written == old(write.written) + sent
    ensures sent <= if size > 0 then buf[..size] else []
    ensures write != null && r >= 0 ==> r == |sent| && newTotal == total + r
    ensures write != null && r < 0 ==> r == -1 && newTotal == total && size > 0
    ensures (write == null || write.reliable) && size >= 0 ==> r == size
    ensures r == size && size >= 0 ==> sent == buf[..size]
  {
    if write == null {
      return size, total + size, if size > 0 then buf[..size] else [];
    }
    sent := [];
    var writesize := 0;
    while writesize < size
      invariant 0 <= writesize <= if size > 0 then size else 0
      invariant sent == buf[..writesize]
      invariant write.written == old(write.written) + sent
    {
      var s := write.Write(buf, writesize, size - writesize);
      if s > 0 {
        sent := sent + buf[writesize..writesize + s];
        assert sent == buf[..writesize + s];
      }
      if s < 0 {
        return -1, total, sent;
      } else if s == 0 {
        break;
      }
      writesize := writesize + s;
    }
    return writesize, total + writesize, sent;
  }

  method SendVector(write: Sink?, vector: seq<byte>, total: int)
    returns (ok: bool, newTotal: int, ghost sent: seq<byte>)
    requires |vector| == IV_SIZE
    modifies write
    ensures write != null ==> write.written == old(write.written) + sent
    ensures sent <= vector && (ok ==> sent == vector && newTotal == total + IV_SIZE)
    ensures write == null || write.reliable ==> ok
  {
    var buffer := new byte[IV_SIZE](i requires 0 <= i < IV_SIZE => vector[i]);
    assert buffer[..IV_SIZE] == vector;
    var r;
    r, newTotal, sent := WriteAll(write, buffer, IV_SIZE, total);
    ok := r == IV_SIZE;
  }

  /** Encrypts the first `size` bytes of the buffer in place and sends them. */
  method EncryptAndSend(write: Sink?, c: Cipher, pos: nat, buf: array<byte>, size: nat, total: int)
    returns (ok: bool, newTotal: int, ghost sent: seq<byte>)
    requires size <= buf.Length
    modifies write, buf
    ensures write != null ==> write.written == old(write.written) + sent
    ensures sent <= Mask(c, pos, old(buf[..size]))
    ensures ok ==> sent == Mask(c, pos, old(buf[..size])) && newTotal == total + size
    ensures write == null || write.reliable ==> ok
  {
    assert buf[..size] == buf[0..size];
    CipherUpdate(c, pos, buf, 0, size);
    assert buf[..size] == buf[0..size];
    var r;
    r, newTotal, sent := WriteAll(write, buf, size, total);
    ok := r == size;
  }

  /**
    Decrypts and sends what the buffer holds beyond the bytes that may still turn out to be
    the digest, and moves those to the front.
   */
  method DecryptAndSend(write: Sink?, c: Cipher, pos: nat, digest: bool, absorbed: seq<byte>, buf: array<byte>,
                        size: nat, total: int, ghost data: seq<byte>)
    returns (ok: bool, held: nat, newAbsorbed: seq<byte>, newTotal: int, ghost sent: seq<byte>)
    requires size <= buf.Length && data == buf[..size]
    modifies write, buf
    ensures held == HeldBack(digest, size)
    ensures write != null ==> write.written == old(write.written) + sent
    ensures sent <= Mask(c, pos, data[..size - held])
    ensures ok ==> sent == Mask(c, pos, data[..size - held]) && newTotal == total + size - held
    ensures ok ==> buf[..held] == data[size - held..]
    ensures ok && digest ==> newAbsorbed == absorbed + sent
    ensures write == null || write.reliable ==> ok
  {
    held, newAbsorbed, newTotal, sent, ok := HeldBack(digest, size), absorbed, total, [], true;
    var n := size - held;
    if n > 0 {
      assert buf[0..n] == data[..n] && buf[n..][..held] == data[n..];
      CipherUpdate(c, pos, buf, 0, n);
      assert buf[..n] == buf[0..n] && buf[n..size] == buf[n..][..held];
      if digest {
        newAbsorbed := DigestUpdate(newAbsorbed, buf, n);
      }
      var r;
      r, newTotal, sent := WriteAll(write, buf, n, total);
      ok := r == n;
      if ok && digest {
        MoveToFront(buf, n, held);
      }
    }
  }

  /** How many of `size` buffered bytes must wait, because the digest may be among them. */
  function HeldBack(digest: bool, size: nat): (held: nat)
    ensures held <= size
  {
    if !digest then 0 else if size > DIGEST_PADDED_SIZE then DIGEST_PADDED_SIZE else size
  }

  /** The part of the buffered bytes that can be decrypted now, and the part that must wait. */
  function Released(digest: bool, pending: seq<byte>): seq<byte> {
    pending[..|pending| - HeldBack(digest, |pending|)]
  }

  function Withheld(digest: bool, pending: seq<byte>): seq<byte> {
    pending[|pending| - HeldBack(digest, |pending|)..]
  }

  /**
    The receiving loop's invariant: `out` is the decryption of all of `body` but its last
    bytes `held`, which wait undecrypted in the buffer.
   */
  ghost predicate Holding(c: Cipher, digest: bool, held: seq<byte>, body: seq<byte>, out: seq<byte>) {
    && |held| == HeldBack(digest, |body|)
    && |body| == |out| + |held|
    && out == Mask(c, 0, body[..|out|])
    && held == body[|out|..]
  }

  /** Together with where the cipher, the digest and the count stand. */
  ghost predicate Waiting(c: Cipher, digest: bool, held: seq<byte>, body: seq<byte>, out: seq<byte>, pos: nat,
                          total: int, absorbed: seq<byte>) {
    Holding(c, digest, held, body, out) && total == pos == |out| && (digest ==> absorbed == out)
  }

  /** What was sent is decrypted data only, with room left for a digest. */
  ghost predicate Early(c: Cipher, digest: bool, body: seq<byte>, out: seq<byte>) {
    out <= Mask(c, 0, body) && (digest && out != [] ==> |out| + DIGEST_PADDED_SIZE <= |body|)
  }

  lemma HoldingStep(c: Cipher, digest: bool, held: seq<byte>, chunk: seq<byte>, body: seq<byte>, out: seq<byte>,
                    sent: seq<byte>)
    requires Holding(c, digest, held, body, out)
    requires sent <= Mask(c, |out|, Released(digest, held + chunk))
    ensures out + sent <= Mask(c, 0, body + chunk)
    ensures digest && out + sent != [] ==> |out + sent| + DIGEST_PADDED_SIZE <= |body + chunk|
    ensures sent == Mask(c, |out|, Released(digest, held + chunk)) ==>
              Holding(c, digest, Withheld(digest, held + chunk), body + chunk, out + sent)
  {
    var all, n := body + chunk, |Released(digest, held + chunk)|;
    HoldingParts(digest, held, chunk, body, |out|);
    Advance(c, all, |out|, n);
    PrefixConcat(out, sent, Mask(c, |out|, Released(digest, held + chunk)));
  }

  lemma HoldingParts(digest: bool, held: seq<byte>, chunk: seq<byte>, body: seq<byte>, k: nat)
    requires k <= |body| && held == body[k..]
    ensures var n := |Released(digest, held + chunk)|;
            && (body + chunk)[..k] == body[..k] && (body + chunk)[k..] == held + chunk
            && (body + chunk)[k..][..n] == Released(digest, held + chunk)
            && (body + chunk)[k + n..] == Withheld(digest, held + chunk)
  {
    var n := |Released(digest, held + chunk)|;
    assert body + chunk == body[..k] + (held + chunk);
    assert (body + chunk)[k + n..] == (body + chunk)[k..][n..];
  }

  /** What the last step sees: the bytes still held decide what the whole body carries. */
  lemma HoldingEnd(c: Cipher, digest: bool, held: seq<byte>, body: seq<byte>, out: seq<byte>)
    requires Holding(c, digest, held, body, out)
    ensures var text := Mask(c, |out|, held);
            if !digest then CarriedBody(c, digest, body) == out + text
            else if |held| < DIGEST_SIZE then out == [] && body == held
            else
              var data := out + text[..|held| - DIGEST_SIZE];
              && CarriedBody(c, digest, body) == data
              && OpenBody(c, digest, body) ==
                 (if c.suite.digest(data) == text[|held| - DIGEST_SIZE..] then Some(data) else None)
  {
    var text := Mask(c, |out|, held);
    Advance(c, body, |out|, |held|);
    assert body[..|body|] == body && held[..|held|] == held;
    assert Mask(c, 0, body) == out + text;
    if digest && |held| >= DIGEST_SIZE {
      var n := |body| - DIGEST_SIZE;
      assert (out + text)[..n] == out + text[..|held| - DIGEST_SIZE];
      assert (out + text)[n..] == text[|held| - DIGEST_SIZE..];
    }
  }

  /** Moves buf[from..from + n] to the front; the two ranges may overlap. */
  method MoveToFront(buf: array<byte>, from: nat, n: nat)
    requires from + n <= buf.Length
    modifies buf
    ensures buf[..n] == old(buf[from..from + n])
  {
    forall i | 0 <= i < n {
      buf[i] := buf[from + i];
    }
  }

  // ----- The operations -----

  class Key {
    const suite: Suite
    const key: seq<byte>

    constructor (suite: Suite, key: seq<byte>)
      requires |key| == KEY_SIZE
      ensures this.suite == suite && this.key == key
    {
      this.suite := suite;
      this.key := key;
    }

    /** One turn of the sending loop: fill the buffer, digest it, encrypt it and send it. */
    method EncryptStep(read: Source, write: Sink?, c: Cipher, digest: bool, buffer: array<byte>, readsize: nat,
                       pos: nat, absorbed: seq<byte>, total: int)
      returns (size: int, ok: bool, newPos: nat, newAbsorbed: seq<byte>, newTotal: int, ghost chunk: seq<byte>,
               ghost sent: seq<byte>)
      requires readsize <= buffer.Length
      modifies read, write, buffer
      ensures old(read.rest) == chunk + read.rest
      ensures write != null ==> write.written == old(write.written) + sent
      ensures sent <= Mask(c, pos, chunk)
      ensures ok ==> size == |chunk| == |sent| && sent == Mask(c, pos, chunk)
      ensures ok ==> newPos == pos + size && newTotal == total + size && (digest ==> newAbsorbed == absorbed + chunk)
      ensures read.reliable && (write == null || write.reliable) ==> ok
      ensures read.reliable && size == 0 && readsize > 0 ==> read.rest == []
    {
      newPos, newAbsorbed, newTotal, sent := pos, absorbed, total, [];
      size, chunk := ReadAll(read, buffer, 0, readsize);
      ok := size >= 0;
      if size > 0 {
        if digest {
          newAbsorbed := DigestUpdate(absorbed, buffer, size);
        }
        ok, newTotal, sent := EncryptAndSend(write, c, pos, buffer, size, total);
        newPos := pos + size;
      }
    }

    /**
      The sending loop. `pos` and `absorbed` are the cipher's and the digest's state at its end.
     */
    method EncryptData(read: Source, write: Sink?, c: Cipher, digest: bool, buffer: array<byte>, readsize: nat,
                       start: nat)
      returns (ok: bool, total: int, pos: nat, absorbed: seq<byte>, ghost consumed: seq<byte>, ghost out: seq<byte>)
      requires readsize <= buffer.Length
      modifies read, write, buffer
      ensures old(read.rest) == consumed + read.rest
      ensures write != null ==> write.written == old(write.written) + out
      ensures out <= Mask(c, 0, consumed)
      ensures ok ==> total == start + |out| && out == Mask(c, 0, consumed)
      ensures ok ==> pos == |consumed| && (digest ==> absorbed == consumed)
      ensures read.reliable && (write == null || write.reliable) ==> ok && (readsize > 0 ==> read.rest == [])
    {
      consumed, out, total, pos, absorbed, ok := [], [], start, 0, [], true;
      while true
        invariant ok && old(read.rest) == consumed + read.rest
        invariant pos == |consumed| && (digest ==> absorbed == consumed)
        invariant total == start + |out| && out == Mask(c, 0, consumed)
        invariant write != null ==> write.written == old(write.written) + out
        decreases |read.rest|
      {
        var size;
        ghost var chunk, sent;
        ghost var from := pos;
        size, ok, pos, absorbed, total, chunk, sent := EncryptStep(read, write, c, digest, buffer, readsize, pos,
                                                                     absorbed, total);
        MaskConcat(c, 0, consumed, chunk);
        PrefixConcat(out, sent, Mask(c, from, chunk));
        consumed, out := consumed + chunk, out + sent;
        if !ok || size <= 0 {
          break;
        }
      }
    }

    /**
      Streaming encryption. Whatever the two callbacks do, `out`, what was written, is a prefix
      of the seal of `consumed`, what was read; a size is returned only when it is all of it.
      `random` is the vector the random source yields.
     */
    method EncryptStream(read: Source?, write: Sink?, random: seq<byte>, iv: bool, digest: bool, readsize: nat)
      returns (total: int, ghost consumed: seq<byte>, ghost out: seq<byte>)
      requires suite.Valid() && |random| == IV_SIZE
      requires digest ==> readsize + suite.blockSize >= DIGEST_SIZE
      modifies read, write
      ensures read == null ==> total == -1 && consumed == [] && out == []
      ensures read != null ==> old(read.rest) == consumed + read.rest
      ensures write != null ==> write.written == old(write.written) + out
      ensures out <= Seal(suite, key, random, iv, digest, consumed)
      ensures total == -1 || (total == |out| && out == Seal(suite, key, random, iv, digest, consumed))
      ensures read != null && read.reliable && (write == null || write.reliable) ==>
                total >= 0 && (readsize > 0 ==> read.rest == [])
    {
      consumed, out, total := [], [], 0;
      if read == null {
        return -1, [], [];
      }
      var ivData := NO_IV;
      if iv {
        ivData := random;
        var ok;
        ok, total, out := SendVector(write, random, total);
        if !ok {
          return -1, [], out;
        }
      }
      var buffer := new byte[readsize + suite.blockSize];
      assert out == if iv then random else [];
      ghost var body;
      total, consumed, body := EncryptBody(read, write, Cipher(suite, key, ivData), digest, buffer, readsize, total);
      SealParts(suite, key, random, iv, digest, consumed, out, body);
      out := out + body;
    }

    method EncryptDigest(write: Sink?, c: Cipher, pos: nat, absorbed: seq<byte>, buffer: array<byte>, total: int)
      returns (ok: bool, newTotal: int, ghost sent: seq<byte>)
      requires c.suite.Valid() && DIGEST_SIZE <= buffer.Length
      modifies write, buffer
      ensures write != null ==> write.written == old(write.written) + sent
      ensures sent <= Mask(c, pos, c.suite.digest(absorbed))
      ensures ok ==> sent == Mask(c, pos, c.suite.digest(absorbed)) && newTotal == total + |sent|
      ensures write == null || write.reliable ==> ok
    {
      var tag := c.suite.digest(absorbed);
      forall i | 0 <= i < DIGEST_SIZE {
        buffer[i] := tag[i];
      }
      assert buffer[..DIGEST_SIZE] == tag;
      ok, newTotal, sent := EncryptAndSend(write, c, pos, buffer, DIGEST_SIZE, total);
    }

    /** Everything after the vector: the data, then its digest, then whatever the cipher kept. */
    method EncryptBody(read: Source, write: Sink?, c: Cipher, digest: bool, buffer: array<byte>, readsize: nat,
                       start: nat)
      returns (total: int, ghost consumed: seq<byte>, ghost out: seq<byte>)
      requires c.suite.Valid() && readsize <= buffer.Length
      requires digest ==> DIGEST_SIZE <= buffer.Length
      modifies read, write, buffer
      ensures old(read.rest) == consumed + read.rest
      ensures write != null ==> write.written == old(write.written) + out
      ensures out <= SealBody(c, digest, consumed)
      ensures total == -1 || (total == start + |out| && out == SealBody(c, digest, consumed))
      ensures read.reliable && (write == null || write.reliable) ==>
                total >= 0 && (readsize > 0 ==> read.rest == [])
    {
      var ok, pos, absorbed;
      ok, total, pos, absorbed, consumed, out := EncryptData(read, write, c, digest, buffer, readsize, start);
      SealExtends(c, digest, consumed);
      if ok && digest {
        ghost var sent;
        ok, total, sent := EncryptDigest(write, c, pos, absorbed, buffer, total);
        TagSealed(c, consumed, out, sent);
        out := out + sent;
      }
      assert consumed + [] == consumed;
      if ok {
        var rest := CipherFinal();
        var r;
        ghost var sent;
        r, total, sent := WriteAll(write, buffer, rest, total);
        ok := r == rest;
      }
      if !ok {
        total := -1;
      }
    }

    /** One turn of the receiving loop. `s` is what the read step returned. */
    method DecryptStep(read: Source, write: Sink?, c: Cipher, digest: bool, buffer: array<byte>, pos: nat, size: nat,
                       absorbed: seq<byte>, total: int, ghost held: seq<byte>)
      returns (s: int, ok: bool, newPos: nat, newSize: nat, newAbsorbed: seq<byte>, newTotal: int,
               ghost chunk: seq<byte>, ghost sent: seq<byte>)
      requires size <= buffer.Length && held == buffer[..size]
      modifies read, write, buffer
      ensures old(read.rest) == chunk + read.rest
      ensures write != null ==> write.written == old(write.written) + sent
      ensures s >= 0 ==> |held + chunk| <= buffer.Length && newSize == HeldBack(digest, |held + chunk|)
      ensures if s < 0 then sent == [] else sent <= Mask(c, pos, Released(digest, held + chunk))
      ensures ok ==> s == |chunk| && sent == Mask(c, pos, Released(digest, held + chunk))
      ensures ok ==> newSize <= buffer.Length && buffer[..newSize] == Withheld(digest, held + chunk)
      ensures ok ==> newPos == pos + |sent| && newTotal == total + |sent| && (digest ==> newAbsorbed == absorbed + sent)
      ensures read.reliable && (write == null || write.reliable) ==> ok
      ensures read.reliable && s == 0 ==> read.rest == [] || size == buffer.Length
    {
      newPos, newSize, newAbsorbed, newTotal, sent := pos, size, absorbed, total, [];
      s, chunk := ReadAll(read, buffer, size, buffer.Length - size);
      ok := s >= 0;
      if ok {
        var filled := size + s;
        ok, newSize, newAbsorbed, newTotal, sent := DecryptAndSend(write, c, pos, digest, absorbed, buffer, filled,
                                                                       total, held + chunk);
        newPos := pos + filled - newSize;
      }
    }

    /** The turn as a step of what was received, `body`, and what was sent for it, `out`. */
    method DecryptTurn(read: Source, write: Sink?, c: Cipher, digest: bool, buffer: array<byte>, pos: nat, size: nat,
                       absorbed: seq<byte>, total: int,
                       ghost all: seq<byte>, ghost start: seq<byte>, ghost body: seq<byte>, ghost out: seq<byte>)
      returns (s: int, ok: bool, newPos: nat, newSize: nat, newAbsorbed: seq<byte>, newTotal: int,
               ghost body': seq<byte>, ghost out': seq<byte>)
      requires size <= buffer.Length && all == body + read.rest && (write != null ==> write.written == start + out)
      requires Waiting(c, digest, buffer[..size], body, out, pos, total, absorbed)
      modifies read, write, buffer
      ensures all == body' + read.rest && (write != null ==> write.written == start + out')
      ensures Early(c, digest, body', out') && |body'| >= |body| && (ok && s > 0 ==> |body'| > |body|)
      ensures ok ==> newSize <= buffer.Length
                     && Waiting(c, digest, buffer[..newSize], body', out', newPos, newTotal, newAbsorbed)
      ensures ok && out == [] && buffer.Length <= MostHeld(digest) ==> out' == []
      ensures ok ==> s >= 0
      ensures read.reliable && (write == null || write.reliable) ==> ok
      ensures read.reliable && ok && s == 0 ==> read.rest == [] || newSize == buffer.Length
    {
      ghost var held, rest, chunk, sent := buffer[..size], read.rest, [], [];
      s, ok, newPos, newSize, newAbsorbed, newTotal, chunk, sent := DecryptStep(read, write, c, digest, buffer, pos,
                                                                                size, absorbed, total, held);
      Parts(all, body, rest, chunk, read.rest);
      Regroup(start, out, sent);
      HoldingStep(c, digest, held, chunk, body, out, sent);
      body', out' := body + chunk, out + sent;
      assert s == 0 && ok ==> held + chunk == held;
    }

    /** The receiving loop. At its end, `size` bytes wait in the buffer for the digest check. */
    method DecryptData(read: Source, write: Sink?, c: Cipher, digest: bool, buffer: array<byte>)
      returns (ok: bool, total: int, pos: nat, size: nat, absorbed: seq<byte>, ghost body: seq<byte>,
               ghost out: seq<byte>)
      modifies read, write, buffer
      ensures old(read.rest) == body + read.rest
      ensures write != null ==> write.written == old(write.written) + out
      ensures Early(c, digest, body, out)
      ensures ok ==> size <= buffer.Length && Waiting(c, digest, buffer[..size], body, out, pos, total, absorbed)
      ensures read.reliable && (write == null || write.reliable) ==> ok
      ensures read.reliable && ok ==> read.rest == [] || size == buffer.Length
      ensures ok && buffer.Length <= MostHeld(digest) ==> out == []
    {
      ok, total, pos, size, absorbed, body, out := true, 0, 0, 0, [], [], [];
      ghost var all, start := read.rest, if write == null then [] else write.written;
      while true
        invariant ok && all == body + read.rest && (write != null ==> write.written == start + out)
        invariant size <= buffer.Length && Waiting(c, digest, buffer[..size], body, out, pos, total, absorbed)
        invariant buffer.Length <= MostHeld(digest) ==> out == []
        decreases |all| - |body|
      {
        var s;
        s, ok, pos, size, absorbed, total, body, out := DecryptTurn(read, write, c, digest, buffer, pos, size,
                                                                    absorbed, total, all, start, body, out);
        if !ok || s <= 0 {
          break;
        }
      }
    }

    /**
      What remains once the source has ended: the end of the data, and the digest check. When a
      digest is expected and fewer bytes than it has are left, the code goes on to hand the digest
      a negative count, for which the library promises nothing: that ends the model's run.
     */
    method DecryptTail(write: Sink?, c: Cipher, pos: nat, digest: bool, absorbed: seq<byte>, buffer: array<byte>,
                       held: nat, start: nat, ghost body: seq<byte>, ghost out: seq<byte>)
      returns (ending: Ending, ghost sent: seq<byte>)
      requires c.suite.Valid() && held <= buffer.Length
      requires Holding(c, digest, buffer[..held], body, out)
      requires start == pos == |out| && (digest ==> absorbed == out)
      modifies write, buffer
      ensures write != null ==> write.written == old(write.written) + sent
      ensures out + sent <= CarriedBody(c, digest, body)
      ensures ending == NegativeCount <==> digest && |body| < DIGEST_SIZE
      ensures ending == NegativeCount ==> out + sent == []
      ensures ending.Returned? && (write == null || write.reliable) ==> out + sent == CarriedBody(c, digest, body)
      ensures ending.Returned? ==> ending.total >= -1
      ensures ending.Returned? && ending.total >= 0 ==>
                OpenBody(c, digest, body) == Some(out + sent) && ending.total == |out + sent|
      ensures (write == null || write.reliable) && OpenBody(c, digest, body).Some? ==>
                ending.Returned? && ending.total >= 0
    {
      HoldingEnd(c, digest, buffer[..held], body, out);
      ghost var text := Mask(c, pos, buffer[..held]);
      DecryptHeld(c, pos, buffer, held);
      sent := [];
      var fsize := CipherFinal();
      if digest && held + fsize < DIGEST_SIZE {
        return NegativeCount, [];
      }
      var total;
      total, sent := SendChecked(write, c, digest, absorbed, buffer, held + fsize, start, text);
      ending := Returned(total);
    }

    method DecryptHeld(c: Cipher, pos: nat, buffer: array<byte>, held: nat)
      requires held <= buffer.Length
      modifies buffer
      ensures buffer[..held] == Mask(c, pos, old(buffer[..held]))
    {
      if held > 0 {
        assert buffer[0..held] == buffer[..held];
        CipherUpdate(c, pos, buffer, 0, held);
        assert buffer[0..held] == buffer[..held];
      }
    }

    /** Sends what the buffer holds before the digest, and checks the digest. */
    method SendChecked(write: Sink?, c: Cipher, digest: bool, absorbed: seq<byte>, buffer: array<byte>, held: nat,
                       start: nat, ghost text: seq<byte>)
      returns (total: int, ghost sent: seq<byte>)
      requires held <= buffer.Length && text == buffer[..held] && (digest ==> held >= DIGEST_SIZE)
      modifies write
      ensures write != null ==> write.written == old(write.written) + sent
      ensures total >= -1 && sent <= text[..Before(digest, held)]
      ensures write == null || write.reliable ==> sent == text[..Before(digest, held)]
      ensures total >= 0 ==> sent == text[..Before(digest, held)] && total == start + |sent|
      ensures total >= 0 && digest ==> c.suite.digest(absorbed + sent) == text[Before(digest, held)..]
      ensures (write == null || write.reliable) && total < 0 ==>
                digest && c.suite.digest(absorbed + text[..Before(digest, held)]) != text[Before(digest, held)..]
    {
      var size := Before(digest, held);
      assert buffer[..size] == text[..size];
      var newAbsorbed := absorbed;
      if digest {
        newAbsorbed := DigestUpdate(absorbed, buffer, size);
      }
      var r;
      r, total, sent := WriteAll(write, buffer, size, start);
      if r != size {
        return -1, sent;
      }
      if digest {
        assert buffer[size..held] == text[size..];
        if buffer[size..held] != c.suite.digest(newAbsorbed) {
          total := -1;
        }
      }
    }

    /** Everything after the vector. */
    method DecryptBody(read: Source, write: Sink?, c: Cipher, digest: bool, readsize: nat)
      returns (ending: Ending, ghost body: seq<byte>, ghost out: seq<byte>)
      requires c.suite.Valid()
      modifies read, write
      ensures old(read.rest) == body + read.rest
      ensures write != null ==> write.written == old(write.written) + out
      ensures out <= CarriedBody(c, digest, body)
      ensures ending == NegativeCount ==> digest && |body| < DIGEST_SIZE && out == []
      ensures ending.Returned? ==> ending.total >= -1
      ensures ending.Returned? && ending.total >= 0 ==> OpenBody(c, digest, body) == Some(out) && ending.total == |out|
      ensures read.reliable && (write == null || write.reliable) ==>
                && (ending == NegativeCount <==> Starved(digest, readsize, |old(read.rest)|))
                && (ending.Returned? ==> (ending.total >= 0 <==> OpenBody(c, digest, body).Some?))
                && (ending.Returned? ==> out == CarriedBody(c, digest, body))
                && (read.rest == [] <==> Fits(digest, readsize, |old(read.rest)|))
    {
      var buffer := new byte[readsize];
      var ok, pos, size, absorbed, total;
      ok, total, pos, size, absorbed, body, out := DecryptData(read, write, c, digest, buffer);
      if ok {
        ghost var sent;
        assert |old(read.rest)| == |body| + |read.rest|;
        ending, sent := DecryptTail(write, c, pos, digest, absorbed, buffer, size, total, body, out);
        out := out + sent;
      } else {
        ending := Returned(-1);
      }
    }

    /**
      Streaming decryption. Whatever the two callbacks do, `out`, what was written, is a prefix
      of what `consumed`, what was read, carries: never a byte of the digest. A size is returned
      only when the digest is right and everything was written, and -1 otherwise. With callbacks
      that never fail, a size is returned exactly when the message opens, all it carries is written
      even when its digest is wrong, and all input is taken in exactly when it fits the buffer. The
      call does not return at all, as far as is modelled, exactly when a digest is expected and the
      input after the vector, or the buffer, is shorter.
     */
    method DecryptStream(read: Source?, write: Sink?, iv: bool, digest: bool, readsize: nat)
      returns (ending: Ending, ghost consumed: seq<byte>, ghost out: seq<byte>)
      requires suite.Valid()
      modifies read, write
      ensures read == null ==> ending == Returned(-1) && consumed == [] && out == []
      ensures read != null ==> old(read.rest) == consumed + read.rest
      ensures write != null ==> write.written == old(write.written) + out
      ensures out <= Carried(suite, key, iv, digest, consumed)
      ensures ending == NegativeCount ==> digest && |consumed| < (if iv then 28 else 20) && out == []
      ensures ending.Returned? ==> ending.total >= -1
      ensures ending.Returned? && ending.total >= 0 ==>
                Open(suite, key, iv, digest, consumed) == Some(out) && ending.total == |out|
      ensures read != null && read.reliable && (write == null || write.reliable) ==>
                var body := |old(read.rest)| - if iv then 8 else 0;
                && (ending == NegativeCount <==> body >= 0 && digest && (body < 20 || readsize < 20))
                && (ending.Returned? ==> (ending.total >= 0 <==> Open(suite, key, iv, digest, consumed).Some?))
                && (ending.Returned? ==> out == Carried(suite, key, iv, digest, consumed))
                && (read.rest == [] <==> body <= readsize || body < 0 || readsize > if digest then 40 else 0)
    {
      consumed, out := [], [];
      if read == null {
        return Returned(-1), [], [];
      }
      var ivData := NO_IV;
      if iv {
        var ivBuffer := new byte[IV_SIZE];
        var r;
        r, consumed := ReadAll(read, ivBuffer, 0, IV_SIZE);
        if r != IV_SIZE {
          return Returned(-1), consumed, [];
        }
        ivData := ivBuffer[..IV_SIZE];
      }
      ghost var body;
      ending, body, out := DecryptBody(read, write, Cipher(suite, key, ivData), digest, readsize);
      if iv {
        assert (consumed + body)[..IV_SIZE] == ivData && (consumed + body)[IV_SIZE..] == body;
      } else {
        assert consumed + body == body;
      }
      assert Open(suite, key, iv, digest, consumed + body) == OpenBody(Cipher(suite, key, ivData), digest, body);
      consumed := consumed + body;
    }

    /**
      One-shot encryption: the same seal as the streaming form, but an empty plaintext is an
      error. Without an output buffer only the size is computed. The buffers may be the same.
     */
    method EncryptOnce(plain: array?<byte>, size: int, cipher: array?<byte>, random: seq<byte>, iv: bool, digest: bool)
      returns (total: int)
      requires suite.Valid() && |random| == IV_SIZE
      requires plain != null ==> size <= plain.Length
      requires cipher != null && plain != null && size > 0 ==> Overhead(iv, digest) + size <= cipher.Length
      modifies cipher
      ensures cipher == null && size > 0 ==> total == size + Overhead(iv, digest)
      ensures size <= 0 || (plain == null && cipher != null) ==> total == -1
      ensures total == -1 && cipher != null ==> cipher[..] == old(cipher[..])
      ensures cipher != null && plain != null && size > 0 ==>
                && total == size + Overhead(iv, digest)
                && cipher[..total] == Seal(suite, key, random, iv, digest, old(plain[..size]))
                && cipher[total..] == old(cipher[total..])
    {
      total := size + Overhead(iv, digest);
      if cipher == null && size > 0 {
        return total;
      }
      if plain == null || size <= 0 {
        return -1;
      }
      var tag := if digest then suite.digest(plain[..size]) else [];
      var ivData := if iv then random else NO_IV;
      var body := EncryptParts(Cipher(suite, key, ivData), plain[..size], tag);
      CopyOut((if iv then ivData else []) + body, cipher);
    }

    /**
      One-shot decryption: opens the message as the streaming form does, but writes nothing
      unless the digest is right, and treats a message that carries no data as an error.
     */
    method DecryptOnce(cipher: array?<byte>, size: int, plain: array?<byte>, iv: bool, digest: bool)
      returns (total: int)
      requires suite.Valid()
      requires cipher != null ==> size <= cipher.Length
      requires cipher != null && plain != null ==> size - Overhead(iv, digest) <= plain.Length
      modifies plain
      ensures size <= Overhead(iv, digest) ==> total == -1
      ensures size > Overhead(iv, digest) && plain == null ==> total == size - Overhead(iv, digest)
      ensures size > Overhead(iv, digest) && plain != null && cipher == null ==> total == -1
      ensures size > Overhead(iv, digest) && plain != null && cipher != null ==>
                match Open(suite, key, iv, digest, old(cipher[..size]))
                case None => total == -1
                case Some(data) => total == |data| == size - Overhead(iv, digest)
                                   && plain[..total] == data && plain[total..] == old(plain[total..])
      ensures total == -1 && plain != null ==> plain[..] == old(plain[..])
    {
      total := size - Overhead(iv, digest);
      if plain == null && total > 0 {
        return total;
      }
      if cipher == null || total <= 0 {
        return -1;
      }
      var ivSize := if iv then IV_SIZE else 0;
      var message := cipher[..size];
      var ivData := if iv then message[..IV_SIZE] else NO_IV;
      var text := DecryptAll(Cipher(suite, key, ivData), message[ivSize..]);
      if digest && suite.digest(text[..total]) != text[total..] {
        return -1;
      }
      CopyOut(text[..total], plain);
    }
  }

  /** Decrypts a whole body in a buffer of its own. */
  method DecryptAll(c: Cipher, body: seq<byte>) returns (text: seq<byte>)
    ensures text == Mask(c, 0, body)
  {
    var buffer := new byte[|body|](i requires 0 <= i < |body| => body[i]);
    assert buffer[0..buffer.Length] == body;
    CipherUpdate(c, 0, buffer, 0, |body|);
    assert buffer[..] == buffer[0..buffer.Length];
    text := buffer[..];
  }

  /** Encrypts the data and then the digest into one buffer. */
  method EncryptParts(c: Cipher, data: seq<byte>, tag: seq<byte>) returns (body: seq<byte>)
    ensures body == Mask(c, 0, data + tag)
  {
    var text, n := data + tag, |data|;
    var buffer := new byte[|text|](i requires 0 <= i < |text| => text[i]);
    assert buffer[..] == text;
    UpdateFront(c, buffer, data, tag);
    UpdateBack(c, buffer, n, tag);
    MaskConcat(c, 0, data, tag);
    assert buffer[..] == buffer[..n] + buffer[n..];
    body := buffer[..];
  }

  method UpdateFront(c: Cipher, buffer: array<byte>, data: seq<byte>, tag: seq<byte>)
    requires buffer.Length == |data| + |tag| && buffer[..] == data + tag
    modifies buffer
    ensures buffer[..|data|] == Mask(c, 0, data) && buffer[|data|..] == tag
  {
    var n := |data|;
    assert buffer[0..n] == (data + tag)[..n] == data;
    assert buffer[n..] == (data + tag)[n..] == tag;
    CipherUpdate(c, 0, buffer, 0, n);
    assert buffer[..n] == buffer[0..n];
  }

  method UpdateBack(c: Cipher, buffer: array<byte>, n: nat, tag: seq<byte>)
    requires buffer.Length == n + |tag| && buffer[n..] == tag
    modifies buffer
    ensures buffer[..n] == old(buffer[..n]) && buffer[n..] == Mask(c, n, tag)
  {
    assert buffer[n..n + |tag|] == buffer[n..];
    CipherUpdate(c, n, buffer, n, |tag|);
    assert buffer[n..n + |tag|] == buffer[n..];
  }

  /** What the vector and the digest add to a message. */
  function Overhead(iv: bool, digest: bool): nat {
    VectorSize(iv) + if digest then DIGEST_SIZE else 0
  }

  method CopyOut(data: seq<byte>, dst: array<byte>)
    requires |data| <= dst.Length
    modifies dst
    ensures dst[..|data|] == data && dst[|data|..] == old(dst[|data|..])
  {
    forall i | 0 <= i < |data| {
      dst[i] := data[i];
    }
  }

  /**
    Sealing a stream and opening what came out gives back the data, for every schedule of
    short reads and writes and for every admissible pair of buffer sizes.
   */
  method StreamRoundTrip(k: Key, plain: seq<byte>, random: seq<byte>, iv: bool, digest: bool, sealSize: nat,
                         openSize: nat)
    returns (total: int, result: seq<byte>)
    requires k.suite.Valid() && |random| == IV_SIZE
    requires sealSize > 0 && (digest ==> sealSize + k.suite.blockSize >= DIGEST_SIZE)
    requires Fits(digest, openSize, |plain| + if digest then DIGEST_SIZE else 0)
    ensures total == |plain| && result == plain
  {
    var source := new Source(plain, true);
    var sink := new Sink(true);
    ghost var consumed, out;
    total, consumed, out := k.EncryptStream(source, sink, random, iv, digest, sealSize);
    assert consumed == plain && sink.written == Seal(k.suite, k.key, random, iv, digest, plain);
    OpenSeal(k.suite, k.key, random, iv, digest, plain);

    source := new Source(sink.written, true);
    sink := new Sink(true);
    var ending;
    ending, consumed, out := k.DecryptStream(source, sink, iv, digest, openSize);
    assert consumed == Seal(k.suite, k.key, random, iv, digest, plain);
    total, result := ending.total, sink.written;
  }

  /** The documented error for an empty input is not what a call with a digest ends with. */
  method EmptyInput(k: Key, write: Sink?, readsize: nat) returns (ending: Ending)
    requires k.suite.Valid() && (write == null || write.reliable)
    modifies write
    ensures ending == NegativeCount
  {
    var source := new Source([], true);
    ghost var consumed, out;
    ending, consumed, out := k.DecryptStream(source, write, false, true, readsize);
  }
}
