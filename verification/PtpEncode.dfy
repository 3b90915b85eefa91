/** Base64 encoding and decoding (ptp/encode.cpp). */
module PtpEncode {
  import opened Common

  type Octet = x: int | 0 <= x < 256

  // ----- The encoding of section 4 of RFC 4648 -----

  /** The character for a six-bit value: upper case, lower case, digits, plus, slash. */
  function Letter(v: int): char
    requires 0 <= v < 64
  {
    (if v < 26 then 65 + v
     else if v < 52 then 97 + (v - 26)
     else if v < 62 then 48 + (v - 52)
     else if v == 62 then 43 else 47) as char
  }

  /** The alphabet: the capitals, the small letters, the digits, the plus sign and the slash. */
  lemma AlphabetIs(v: nat)
    ensures v < 26 ==> Letter(v) == "ABCDEFGHIJKLMNOPQRSTUVWXYZ"[v] && Letter(26 + v) == "abcdefghijklmnopqrstuvwxyz"[v]
    ensures v < 10 ==> Letter(52 + v) == "0123456789"[v]
    ensures Letter(62) == '+' && Letter(63) == '/'
  {
  }

  /** Octet `i` of the data, or the zero that pads the last group. */
  function OctetAt(x: seq<Octet>, i: nat): Octet {
    if i < |x| then x[i] else 0
  }

  /** Piece `q` of the four six-bit pieces of group `t`, taken from the one or two octets it lies in. */
  function SextetIn(x: seq<Octet>, t: nat, q: nat): (v: int)
    requires q < 4
    ensures 0 <= v < 64
  {
    var b0, b1, b2 := OctetAt(x, 3 * t), OctetAt(x, 3 * t + 1), OctetAt(x, 3 * t + 2);
    match q
    case 0 => b0 / 4
    case 1 => b0 % 4 * 16 + b1 / 16
    case 2 => b1 % 16 * 4 + b2 / 64
    case 3 => b2 % 64
  }

  /** The 24 bits of group `g`, as a number. */
  function Group(x: seq<Octet>, g: nat): int {
    OctetAt(x, 3 * g) * 65536 + OctetAt(x, 3 * g + 1) * 256 + OctetAt(x, 3 * g + 2)
  }

  /** The four pieces of a group are the digits of its 24 bits in base 64. */
  lemma SextetsOfGroup(x: seq<Octet>, g: nat)
    ensures Group(x, g) ==
            SextetIn(x, g, 0) * 262144 + SextetIn(x, g, 1) * 4096 + SextetIn(x, g, 2) * 64 + SextetIn(x, g, 3)
  {
  }

  /** How many pieces carry data. */
  function Pieces(n: nat): nat {
    (4 * n + 2) / 3
  }

  function EncodedLength(n: nat): nat {
    (n + 2) / 3 * 4
  }

  /** Character `p` of the four for group `t`: a letter for a piece that carries data, or padding. */
  function CharIn(x: seq<Octet>, t: nat, p: nat): char
    requires p < 4
  {
    if p < 2 || 3 * t + p - 1 < |x| then Letter(SextetIn(x, t, p)) else '='
  }

  /** The groups from number `t` on. */
  function GroupsFrom(x: seq<Octet>, t: nat): string
    decreases |x| - 3 * t
  {
    if 3 * t >= |x| then "" else
      [CharIn(x, t, 0), CharIn(x, t, 1), CharIn(x, t, 2), CharIn(x, t, 3)] + GroupsFrom(x, t + 1)
  }

  /** The padded encoding, without line breaks. */
  function Encoding(x: seq<Octet>): (e: string)
    ensures |e| == EncodedLength(|x|)
  {
    GroupsLength(x, 0);
    GroupsFrom(x, 0)
  }

  lemma {:induction false} GroupsLength(x: seq<Octet>, t: nat)
    ensures |GroupsFrom(x, t)| == if 3 * t < |x| then EncodedLength(|x|) - 4 * t else 0
    decreases |x| - 3 * t
  {
    if 3 * t < |x| {
      GroupsLength(x, t + 1);
    }
  }

  // ----- Line breaks -----

  /** How many characters of the encoding stand before line break number `m`. */
  function Break(bpl: nat, m: nat): nat {
    4 * (m * bpl) / 3
  }

  /** The encoding from character `from`, in line `m` of lines 0 to `last`, to its end. */
  function Lines(e: string, bpl: nat, last: nat, from: nat, m: nat): string
    requires m <= last && from <= Break(bpl, m + 1)
    requires Break(bpl, last) <= |e| && from <= |e|
    decreases last - m
  {
    if m == last then e[from..]
    else
      BreakMonotone(bpl, m + 1, last);
      BreakMonotone(bpl, m + 1, m + 2);
      e[from..Break(bpl, m + 1)] + "\n" + Lines(e, bpl, last, Break(bpl, m + 1), m + 1)
  }

  lemma {:induction false} BreakMonotone(bpl: nat, m: nat, n: nat)
    requires m <= n
    ensures m * bpl <= n * bpl && Break(bpl, m) <= Break(bpl, n)
  {
    assert (n - m) * bpl == n * bpl - m * bpl;
  }

  lemma DivMod(n: int, d: int, q: int, r: int)
    requires 0 <= r < d && n == d * q + r
    ensures n / d == q && n % d == r
  {
    assert (n / d - q) * d == r - n % d;
    OnlyMultiple(n / d - q, d);
  }

  lemma OnlyMultiple(k: int, d: int)
    requires -d < k * d < d
    ensures k == 0
  {
  }

  lemma LinesLength(e: string, bpl: nat, last: nat, from: nat, m: nat)
    requires m <= last && from <= Break(bpl, m + 1)
    requires Break(bpl, last) <= |e| && from <= |e|
    ensures |Lines(e, bpl, last, from, m)| == |e| - from + last - m
    decreases last - m
  {
    if m < last {
      BreakMonotone(bpl, m + 1, last);
      BreakMonotone(bpl, m + 1, m + 2);
      LinesLength(e, bpl, last, Break(bpl, m + 1), m + 1);
    }
  }

  /** Text of line `m` before `from` goes in front of what follows. */
  lemma LinesExtend(e: string, bpl: nat, last: nat, earlier: nat, from: nat, m: nat)
    requires m <= last && earlier <= from <= Break(bpl, m + 1)
    requires Break(bpl, last) <= |e| && from <= |e|
    ensures Lines(e, bpl, last, earlier, m) == e[earlier..from] + Lines(e, bpl, last, from, m)
  {
    if m < last {
      BreakMonotone(bpl, m + 1, last);
      assert e[earlier..Break(bpl, m + 1)] == e[earlier..from] + e[from..Break(bpl, m + 1)];
    } else {
      assert e[earlier..] == e[earlier..from] + e[from..];
    }
  }

  // ----- The encoder -----

  /** The size the encoder reports: the encoding and one character for each line break. */
  function TotalLength(n: nat, bpl: nat): nat
    requires bpl > 0
  {
    EncodedLength(n) + if n > bpl then (n - 1) / bpl else 0
  }

  /** How many characters are still to be written when octets 0 to `i` are still to be taken. */
  function Unwritten(i: int): nat
    requires i >= -1
  {
    4 * (i + 2) / 3
  }

  /** What the encoder leaves in dst[0..total]; with one octet a line it never writes dst[0]. */
  ghost predicate Encoded(x: seq<Octet>, bpl: nat, text: string)
    requires |x| > 0 && bpl > 0
  {
    var last := (|x| - 1) / bpl;
    LastBreak(|x|, bpl);
    BreakMonotone(bpl, 1, 2);
    if bpl == 1 && |x| > 1 then |text| > 0 && text[1..] == Lines(Encoding(x), 1, last, 0, 1)
    else text == Lines(Encoding(x), bpl, last, 0, 0)
  }

  lemma LastBreak(n: nat, bpl: nat)
    requires n > 0 && bpl > 0
    ensures var last := (n - 1) / bpl;
            && last * bpl < n <= (last + 1) * bpl
            && Break(bpl, last) <= EncodedLength(n)
            && (n <= bpl ==> last == 0) && (bpl == 1 ==> last == n - 1)
  {
    var last := (n - 1) / bpl;
    LineBounds(n, bpl, last, (n - 1) % bpl);
    BreakFits(n, last * bpl, bpl, last);
  }

  lemma LineBounds(n: nat, bpl: nat, last: nat, r: nat)
    requires n > 0 && bpl > 0 && last == (n - 1) / bpl && r == (n - 1) % bpl
    ensures last * bpl + r == n - 1 && r < bpl && (last + 1) * bpl == last * bpl + bpl
    ensures (n <= bpl ==> last == 0) && (bpl == 1 ==> last == n - 1)
  {
    SmallQuotient(n - 1, bpl);
  }

  lemma SmallQuotient(a: nat, d: nat)
    requires d > 0
    ensures (a < d ==> a / d == 0) && (d == 1 ==> a / d == a) && a / d * d + a % d == a
  {
  }

  lemma BreakFits(n: nat, before: nat, bpl: nat, last: nat)
    requires before == last * bpl && before < n
    ensures Break(bpl, last) <= EncodedLength(n)
  {
    assert 4 * before / 3 <= (n + 2) / 3 * 4;
  }

  /** The size of the last line, as the encoder computes it. */
  lemma LastLine(n: nat, bpl: nat)
    requires n > 0 && bpl > 0
    ensures n - (n - 1) / bpl * bpl == if n % bpl == 0 then bpl else n % bpl
  {
    var last, r := (n - 1) / bpl, (n - 1) % bpl;
    assert n - 1 == bpl * last + r;
    if r == bpl - 1 {
      DivMod(n, bpl, last + 1, 0);
    } else {
      DivMod(n, bpl, last, r + 1);
    }
  }

  /** Where the characters after octet number 3 * t + r start: 4 * t + r, but 4 * t + 4 for r = 3. */
  lemma UnwrittenAt(t: nat, r: nat)
    requires r <= 3 && 3 * t + r >= 1
    ensures Unwritten(3 * t + r - 2) == 4 * t + r + r / 3
  {
  }

  /** The characters between octets `i` and `i + 1`, in the terms of the encoder's switch. */
  function Between(x: Octet, prev: Octet, phase: nat): string {
    if phase == 0 then [Letter(prev / 4)]
    else if phase == 2 then [Letter(x % 4 * 16 + prev / 16)]
    else [Letter(x % 16 * 4 + prev / 64), Letter(prev % 64)]
  }

  /** Where the pieces of group `t` stand. */
  lemma GroupChar(x: seq<Octet>, e: string, t: nat, q: nat)
    requires e == Encoding(x) && 3 * t < |x| && q < 4
    ensures 4 * t + 4 <= |e| && (3 * t + 3 >= |x| ==> 4 * t + 4 == |e|)
    ensures e[4 * t + q] == if q < 2 || 3 * t + q - 1 < |x| then Letter(SextetIn(x, t, q)) else '='
  {
    GroupPlace(|x|, t);
    GroupsFromAt(x, 0, t, q);
  }

  lemma GroupPlace(n: nat, t: nat)
    requires 3 * t < n
    ensures 4 * t + 4 <= EncodedLength(n) && (3 * t + 3 >= n ==> 4 * t + 4 == EncodedLength(n))
  {
  }

  lemma {:induction false} GroupsFromAt(x: seq<Octet>, from: nat, t: nat, q: nat)
    requires from <= t && 3 * t < |x| && q < 4
    ensures 4 * (t - from) + q < |GroupsFrom(x, from)| && GroupsFrom(x, from)[4 * (t - from) + q] == CharIn(x, t, q)
    decreases t - from
  {
    if from < t {
      GroupsFromAt(x, from + 1, t, q);
    }
  }

  /** The characters before octet 3 * t + r, for each phase r of a group. */
  lemma Before0(x: seq<Octet>, e: string, t: nat)
    requires e == Encoding(x) && 0 < 3 * t < |x|
    ensures 4 * t + 1 <= |e| && e[4 * t..4 * t + 1] == Between(x[3 * t - 1], x[3 * t], 0)
  {
    GroupChar(x, e, t, 0);
  }

  lemma Before1(x: seq<Octet>, e: string, t: nat)
    requires e == Encoding(x) && 3 * t + 1 < |x|
    ensures 4 * t + 2 <= |e| && e[4 * t + 1..4 * t + 2] == Between(x[3 * t], x[3 * t + 1], 2)
  {
    GroupChar(x, e, t, 1);
  }

  lemma Before2(x: seq<Octet>, e: string, t: nat)
    requires e == Encoding(x) && 3 * t + 2 < |x|
    ensures 4 * t + 4 <= |e| && e[4 * t + 2..4 * t + 4] == Between(x[3 * t + 1], x[3 * t + 2], 4)
  {
    GroupChar(x, e, t, 2);
    GroupChar(x, e, t, 3);
  }

  /** The characters between octets `i` and `i + 1` are those the switch emits. */
  lemma BetweenIsEncoding(x: seq<Octet>, e: string, i: nat, t: nat, r: nat)
    requires i + 1 < |x| && e == Encoding(x) && i + 1 == 3 * t + r && r < 3
    ensures Unwritten(i - 1) <= Unwritten(i) <= |e|
    ensures e[Unwritten(i - 1)..Unwritten(i)] == Between(x[i], x[i + 1], 2 * r)
  {
    var lo, hi := Unwritten(i - 1), Unwritten(i);
    assert lo == 4 * t + r && hi == (if r == 2 then 4 * t + 4 else 4 * t + r + 1) by {
      UnwrittenAt(t, r);
      UnwrittenAt(t, r + 1);
    }
    assert lo <= hi <= |e| && e[lo..hi] == Between(x[i], x[i + 1], 2 * r) by {
      if r == 0 {
        Before0(x, e, t);
        assert i == 3 * t - 1 && i + 1 == 3 * t;
      } else if r == 1 {
        Before1(x, e, t);
        assert i == 3 * t;
      } else {
        Before2(x, e, t);
        assert i == 3 * t + 1;
      }
    }
  }

  /** The encoder's switch: the characters between two octets, written right to left. */
  method EmitBetween(dst: array<char>, d: nat, bits: nat, x: Octet, prev: Octet, ghost total: nat) returns (newD: int)
    requires bits == 0 || bits == 2 || bits == 4
    requires d < total <= dst.Length && d + 1 >= |Between(x, prev, bits)|
    modifies dst
    ensures newD == d - |Between(x, prev, bits)|
    ensures dst[newD + 1..total] == Between(x, prev, bits) + old(dst[d + 1..total])
    ensures dst[..newD + 1] == old(dst[..newD + 1]) && dst[total..] == old(dst[total..])
  {
    newD := d;
    if bits == 0 {
      newD := PutFront(dst, newD, Letter(prev / 4), total);
    } else if bits == 2 {
      newD := PutFront(dst, newD, Letter(x % 4 * 16 + prev / 16), total);
    } else if bits == 4 {
      newD := PutFront(dst, newD, Letter(prev % 64), total);
      newD := PutFront(dst, newD, Letter(x % 16 * 4 + prev / 64), total);
    }
  }

  /** Writes one more character in front of the text that ends at `total`. */
  method PutFront(dst: array<char>, d: nat, c: char, ghost total: nat) returns (newD: int)
    requires d < total <= dst.Length
    modifies dst
    ensures newD == d - 1 && dst[d..total] == [c] + old(dst[d + 1..total])
    ensures dst[..d] == old(dst[..d]) && dst[total..] == old(dst[total..])
  {
    dst[d] := c;
    newD := d - 1;
  }

  /**
    The loop's invariant: dst[d + 1..total] is the encoding from the characters after octet i + 1
    on, `m` is the number of the line octet i + 1 is in, and `cnt` octets of it are left.
   */
  ghost predicate Written(x: seq<Octet>, e: string, bpl: nat, last: nat, i: int, m: nat, cnt: int, text: string)
    requires i >= -1 && m <= last && |x| > 0 && Break(bpl, last) <= |e|
  {
    && 0 <= cnt == i + 2 - m * bpl <= bpl
    && Unwritten(i) <= Break(bpl, m + 1) && Unwritten(i) <= |e|
    && text == Lines(e, bpl, last, Unwritten(i), m)
  }

  /** A line break is due exactly when the line is complete. */
  lemma BreakDue(x: seq<Octet>, e: string, bpl: nat, last: nat, i: int, m: nat, text: string)
    requires i >= 0 && m <= last && |x| > 0 && Break(bpl, last) <= |e| && bpl > 0
    requires Written(x, e, bpl, last, i, m, 0, text)
    ensures m > 0 && Written(x, e, bpl, last, i, m - 1, bpl, "\n" + text)
  {
    assert (m - 1) * bpl == m * bpl - bpl;
    assert e[Unwritten(i)..Break(bpl, m)] == "";
  }

  /** Emitting the characters between octets i and i + 1 takes one octet off the line. */
  lemma OctetDone(x: seq<Octet>, e: string, bpl: nat, last: nat, i: int, m: nat, cnt: int, text: string)
    requires 0 <= i && i + 1 < |x| && m <= last && e == Encoding(x) && Break(bpl, last) <= |e|
    requires cnt > 0 && Written(x, e, bpl, last, i, m, cnt, text)
    ensures Unwritten(i - 1) <= Unwritten(i)
    ensures Written(x, e, bpl, last, i - 1, m, cnt - 1, e[Unwritten(i - 1)..Unwritten(i)] + text)
  {
    LinesExtend(e, bpl, last, Unwritten(i - 1), Unwritten(i), m);
  }

  /** The padded end of the encoding, after the last whole group's worth of octets. */
  function Padding(prev: Octet, bits: nat): string {
    if bits == 2 then [Letter(prev % 4 * 16), '=', '=']
    else if bits == 4 then [Letter(prev % 16 * 4), '=']
    else []
  }

  lemma PaddingIsEncoding(x: seq<Octet>, e: string, t: nat, r: nat)
    requires e == Encoding(x) && |x| == 3 * t + r && r < 3 && |x| > 0
    ensures Unwritten(|x| - 2) <= |e| && e[Unwritten(|x| - 2)..] == Padding(x[|x| - 1], 2 * r)
  {
    var lo := Unwritten(|x| - 2);
    assert lo == 4 * t + r by {
      UnwrittenAt(t, r);
    }
    assert lo <= |e| && e[lo..] == Padding(x[|x| - 1], 2 * r) by {
      if r == 1 {
        Padding1(x, e, t);
      } else if r == 2 {
        Padding2(x, e, t);
      }
    }
  }

  lemma Padding1(x: seq<Octet>, e: string, t: nat)
    requires e == Encoding(x) && |x| == 3 * t + 1
    ensures |e| == 4 * t + 4 && e[4 * t + 1..] == Padding(x[3 * t], 2)
  {
    GroupChar(x, e, t, 1);
    GroupChar(x, e, t, 2);
    GroupChar(x, e, t, 3);
  }

  lemma Padding2(x: seq<Octet>, e: string, t: nat)
    requires e == Encoding(x) && |x| == 3 * t + 2
    ensures |e| == 4 * t + 4 && e[4 * t + 2..] == Padding(x[3 * t + 1], 4)
  {
    GroupChar(x, e, t, 2);
    GroupChar(x, e, t, 3);
  }

  method EmitPadding(dst: array<char>, total: nat, bits: nat, prev: Octet) returns (newD: int)
    requires total < dst.Length && total >= |Padding(prev, bits)|
    modifies dst
    ensures newD == total - 1 - |Padding(prev, bits)|
    ensures dst[newD + 1..total] == Padding(prev, bits)
    ensures dst[..newD + 1] == old(dst[..newD + 1]) && dst[total..] == old(dst[total..])
  {
    newD := total - 1;
    if bits == 2 {
      dst[newD] := '=';
      newD := newD - 1;
      dst[newD] := '=';
      newD := newD - 1;
      dst[newD] := Letter(prev % 4 * 16);
      newD := newD - 1;
    } else if bits == 4 {
      dst[newD] := '=';
      newD := newD - 1;
      dst[newD] := Letter(prev % 16 * 4);
      newD := newD - 1;
    }
  }

  /** How much of the output is still to be written bounds the write position. */
  lemma WrittenLength(x: seq<Octet>, e: string, bpl: nat, last: nat, i: int, m: nat, cnt: int, text: string)
    requires i >= -1 && m <= last && |x| > 0 && Break(bpl, last) <= |e|
    requires Written(x, e, bpl, last, i, m, cnt, text)
    ensures |e| + last - |text| == Unwritten(i) + m
  {
    LinesLength(e, bpl, last, Unwritten(i), m);
  }

  /** Where the encoder stands before it takes octet `i`: write position, phase and line. */
  ghost predicate Standing(x: seq<Octet>, bpl: nat, last: nat, dst: array<char>, total: nat, i: int, m: nat, d: int,
                           cnt: int, bits: nat)
    requires |x| > 0
    reads dst
  {
    && -1 <= i <= |x| - 2 && m <= last && Break(bpl, last) <= EncodedLength(|x|)
    && total == EncodedLength(|x|) + last && total < dst.Length
    && d == Unwritten(i) + m - 1 && d < total
    && bits == 2 * ((i + 2) % 3)
    && Written(x, Encoding(x), bpl, last, i, m, cnt, dst[d + 1..total])
  }

  /** The first half of a turn of the loop: count the octet off, after a line break if one is due. */
  method CountOff(x: seq<Octet>, dst: array<char>, bpl: nat, d: int, cnt: int, ghost last: nat, ghost total: nat,
                  ghost i: nat, ghost m: nat, ghost bits: nat)
    returns (newD: int, newCnt: int, ghost newM: nat)
    requires bpl > 0 && |x| > 0 && Standing(x, bpl, last, dst, total, i, m, d, cnt, bits)
    modifies dst
    ensures 0 <= newCnt < bpl && Standing(x, bpl, last, dst, total, i, newM, newD, newCnt + 1, bits)
    ensures newD <= d && dst[total..] == old(dst[total..]) && dst[..newD + 1] == old(dst[..newD + 1])
  {
    newD, newCnt, newM := d, cnt, m;
    if newCnt > 0 {
      newCnt := newCnt - 1;
    } else {
      ghost var text := dst[d + 1..total];
      BreakDue(x, Encoding(x), bpl, last, i, m, text);
      WrittenLength(x, Encoding(x), bpl, last, i, m, cnt, text);
      dst[newD] := '\n';
      newD := newD - 1;
      newCnt := bpl - 1;
      newM := m - 1;
      assert dst[newD + 1..total] == "\n" + text;
    }
  }

  lemma PhaseStep(i: nat)
    ensures (2 * ((i + 2) % 3) + 4) % 6 == 2 * ((i + 1) % 3)
  {
  }

  /** A whole turn of the loop, for octet `i`. */
  method EncodeStep(x: seq<Octet>, dst: array<char>, bpl: nat, i: nat, d: int, cnt: int, bits: nat, prev: Octet,
                    ghost last: nat, ghost total: nat, ghost m: nat)
    returns (newD: int, newCnt: int, newBits: nat, newPrev: Octet, ghost newM: nat)
    requires bpl > 0 && |x| > 0 && Standing(x, bpl, last, dst, total, i, m, d, cnt, bits)
    requires prev == x[i + 1]
    modifies dst
    ensures Standing(x, bpl, last, dst, total, i - 1, newM, newD, newCnt, newBits)
    ensures newPrev == x[i] && newCnt < bpl
    ensures newD <= d && dst[total..] == old(dst[total..]) && dst[..newD + 1] == old(dst[..newD + 1])
  {
    newD, newCnt, newM := CountOff(x, dst, bpl, d, cnt, last, total, i, m, bits);
    ghost var text := dst[newD + 1..total];
    newPrev := x[i];
    newBits := (bits + 4) % 6;
    PhaseStep(i);
    ghost var e := Encoding(x);
    BetweenIsEncoding(x, e, i, (i + 1) / 3, (i + 1) % 3);
    OctetDone(x, e, bpl, last, i, newM, newCnt + 1, text);
    ghost var piece := e[Unwritten(i - 1)..Unwritten(i)];
    assert |piece| == Unwritten(i) - Unwritten(i - 1);
    newD := EmitBetween(dst, newD, newBits, newPrev, prev, total);
    assert dst[newD + 1..total] == piece + text;
  }

  lemma Twice(n: nat)
    ensures 2 * n % 6 == 2 * (n % 3)
  {
    assert n == n / 3 * 3 + n % 3;
    DivMod(2 * n, 6, n / 3, 2 * (n % 3));
  }

  /** The phase of the last octet, and the number of octets on the last line. */
  method StartPhase(n: nat, bpl: nat) returns (cnt: nat, bits: nat)
    requires n > 0 && bpl > 0
    ensures bits == 2 * (n % 3) && 0 < cnt <= bpl && cnt == n - (n - 1) / bpl * bpl
  {
    LastLine(n, bpl);
    Twice(n);
    bits := 2 * n % 6;
    cnt := n % bpl;
    if cnt <= 0 {
      cnt := bpl;
    }
  }

  /** Initial phase, line position and padding. */
  method EncodeStart(x: seq<Octet>, dst: array<char>, bpl: nat, total: nat, ghost last: nat)
    returns (d: int, cnt: nat, bits: nat)
    requires |x| > 0 && bpl > 0 && last == (|x| - 1) / bpl && total == EncodedLength(|x|) + last < dst.Length
    modifies dst
    ensures Standing(x, bpl, last, dst, total, |x| - 2, last, d, cnt, bits)
    ensures dst[total..] == old(dst[total..]) && dst[..d + 1] == old(dst[..d + 1])
  {
    ghost var e, i := Encoding(x), |x| - 2;
    cnt, bits := StartPhase(|x|, bpl);
    LastBreak(|x|, bpl);
    PaddingIsEncoding(x, e, |x| / 3, |x| % 3);
    LineHolds(|x|, bpl, last, cnt);
    ghost var padding := Padding(x[|x| - 1], bits);
    assert |padding| == |e| - Unwritten(i) && padding == Lines(e, bpl, last, Unwritten(i), last);
    assert Written(x, e, bpl, last, i, last, cnt, padding);
    d := EmitPadding(dst, total, bits, x[|x| - 1]);
  }

  /** The last line reaches to the end of the encoding. */
  lemma LineHolds(n: nat, bpl: nat, last: nat, cnt: nat)
    requires 0 < cnt <= bpl && n == last * bpl + cnt
    ensures Unwritten(n - 2) <= Break(bpl, last + 1)
  {
    assert (last + 1) * bpl == last * bpl + bpl;
  }

  /** The very first character closes the text. */
  method EncodeEnd(x: seq<Octet>, dst: array<char>, bpl: nat, total: nat, d: int, cnt: int, bits: nat, prev: Octet,
                   ghost last: nat, ghost m: nat)
    requires |x| > 0 && bpl > 0 && last == (|x| - 1) / bpl && prev == x[0]
    requires Standing(x, bpl, last, dst, total, -1, m, d, cnt, bits) && (|x| > 1 ==> cnt < bpl)
    modifies dst
    ensures Encoded(x, bpl, dst[..total]) && dst[total..] == old(dst[total..])
    ensures bpl == 1 && |x| > 1 ==> dst[0] == old(dst[0])
  {
    ghost var e, text := Encoding(x), dst[d + 1..total];
    if bits == 2 {
      dst[d] := Letter(prev / 4);
    }
    GroupChar(x, e, 0, 0);
    assert dst[d..total] == e[0..1] + text;
    TextClosed(x, e, bpl, last, m, cnt, text, d, dst[..total]);
  }

  lemma TextClosed(x: seq<Octet>, e: string, bpl: nat, last: nat, m: nat, cnt: int, text: string, d: nat, whole: string)
    requires |x| > 0 && bpl > 0 && last == (|x| - 1) / bpl && e == Encoding(x) && m <= last
    requires Break(bpl, last) <= |e| && d == m && 1 <= |e|
    requires Written(x, e, bpl, last, -1, m, cnt, text) && (|x| > 1 ==> cnt < bpl)
    requires d <= |whole| && whole[d..] == e[0..1] + text
    ensures Encoded(x, bpl, whole)
    ensures d == if bpl == 1 && |x| > 1 then 1 else 0
  {
    LinesExtend(e, bpl, last, 0, 1, m);
    LineZero(bpl, m);
    LastBreak(|x|, bpl);
  }

  lemma LineZero(bpl: nat, m: nat)
    requires bpl > 0 && m * bpl <= 1
    ensures m == 0 || (m == 1 && bpl == 1)
  {
    if m > 0 {
      assert m * bpl >= m && m * bpl >= bpl;
    }
  }

  /** The encoder's loop over the octets, right to left. */
  method EncodeLoop(x: seq<Octet>, dst: array<char>, bpl: nat, d0: int, cnt0: nat, bits0: nat, ghost last: nat,
                    ghost total: nat)
    returns (d: int, cnt: int, bits: nat, prev: Octet, ghost m: nat)
    requires |x| > 0 && bpl > 0 && Standing(x, bpl, last, dst, total, |x| - 2, last, d0, cnt0, bits0)
    modifies dst
    ensures Standing(x, bpl, last, dst, total, -1, m, d, cnt, bits) && prev == x[0] && (|x| > 1 ==> cnt < bpl)
    ensures d <= d0 && dst[total..] == old(dst[total..]) && dst[0] == old(dst[0])
  {
    d, cnt, bits, prev, m := d0, cnt0, bits0, x[|x| - 1], last;
    var i := |x| - 2;
    while i >= 0
      invariant -1 <= i <= |x| - 2 && prev == x[i + 1]
      invariant Standing(x, bpl, last, dst, total, i, m, d, cnt, bits)
      invariant i < |x| - 2 ==> cnt < bpl
      invariant d <= d0 && dst[total..] == old(dst[total..]) && dst[0] == old(dst[0])
    {
      ghost var first := dst[0];
      d, cnt, bits, prev, m := EncodeStep(x, dst, bpl, i, d, cnt, bits, prev, last, total, m);
      assert dst[..d + 1][0] == first;
      i := i - 1;
    }
  }

  /** The text, right to left, below the terminator at dst[total]. */
  method EncodeText(x: seq<Octet>, dst: array<char>, bpl: nat, total: nat, ghost last: nat)
    requires |x| > 0 && bpl > 0 && last == (|x| - 1) / bpl && total == EncodedLength(|x|) + last < dst.Length
    modifies dst
    ensures Encoded(x, bpl, dst[..total]) && dst[total..] == old(dst[total..])
    ensures bpl == 1 && |x| > 1 ==> dst[0] == old(dst[0])
  {
    ghost var first := dst[0];
    var d, cnt, bits := EncodeStart(x, dst, bpl, total, last);
    assert dst[..d + 1][0] == first;
    var newD, newCnt, newBits, prev;
    ghost var m;
    newD, newCnt, newBits, prev, m := EncodeLoop(x, dst, bpl, d, cnt, bits, last, total);
    EncodeEnd(x, dst, bpl, total, newD, newCnt, newBits, prev, last, m);
  }

  lemma TotalIs(n: nat, bpl: nat, last: nat)
    requires n > 0 && bpl > 0 && last == (n - 1) / bpl
    ensures TotalLength(n, bpl) == EncodedLength(n) + last
  {
    LastBreak(n, bpl);
  }

  /** The encoder after its argument checks. */
  method EncodeInto(x: seq<Octet>, dst: array<char>, bpl: nat, total: nat)
    requires |x| > 0 && bpl > 0 && total == TotalLength(|x|, bpl) < dst.Length
    modifies dst
    ensures Encoded(x, bpl, dst[..total]) && dst[total] == '\0' && dst[total + 1..] == old(dst[total + 1..])
    ensures bpl == 1 && |x| > 1 ==> dst[0] == old(dst[0])
  {
    ghost var last := (|x| - 1) / bpl;
    TotalIs(|x|, bpl, last);
    dst[total] := '\0';
    ghost var end := dst[total..];
    assert end == ['\0'] + old(dst[total + 1..]);
    EncodeText(x, dst, bpl, total, last);
    assert dst[total] == end[0] && dst[total + 1..] == end[1..];
  }

  /** The number of octets to encode: the size given, or the length of a string for -1. */
  function DataSize(src: seq<Octet>, size: int): (n: nat)
    requires if size == -1 then 0 in src else 0 <= size <= |src|
    ensures size != -1 ==> n == size <= |src|
    ensures size == -1 ==> n < |src| && src[n] == 0 && forall i :: 0 <= i < n ==> src[i] != 0
  {
    if size == -1 then StrLen(src, 0) else size
  }

  /**
    EncodeBase64. The output text is the encoding with its line breaks; the terminator follows it
    and nothing beyond is touched. Every cell of the text is written exactly when the lines hold
    at least two octets, or there is only one octet: otherwise dst[0] keeps what it held.
   */
  method EncodeBase64(src: array?<Octet>, size: int, dst: array?<char>, bpl: int) returns (r: int)
    requires src != null ==> if size == -1 then 0 in src[..] else 0 <= size <= src.Length
    requires src != null && dst != null && bpl > 0 ==>
               DataSize(src[..], size) > 0 && TotalLength(DataSize(src[..], size), bpl) < dst.Length
    modifies dst
    ensures src == null || bpl <= 0 ==> r == -1 && (dst != null ==> dst[..] == old(dst[..]))
    ensures src != null && bpl > 0 ==> r == TotalLength(DataSize(src[..], size), bpl)
    ensures src != null && bpl > 0 && dst != null ==>
              && Encoded(src[..DataSize(src[..], size)], bpl, dst[..r])
              && dst[r] == '\0' && dst[r + 1..] == old(dst[r + 1..])
              && (bpl == 1 && DataSize(src[..], size) > 1 ==> dst[0] == old(dst[0]))
  {
    if src == null || bpl <= 0 {
      return -1;
    }
    var n := DataSize(src[..], size);
    r := TotalLength(n, bpl);
    if dst != null {
      EncodeInto(src[..n], dst, bpl, r);
    }
  }

  // ----- The encoder's output -----

  /**
    Each group of three octets is written as the letters for the four digits of its 24 bits in base
    64. What is missing of the last group counts as zero, and digits that nothing is left for are
    written as equals signs.
   */
  lemma GroupEncoded(x: seq<Octet>, t: nat, v: seq<int>)
    requires 3 * t < |x| && |v| == 4 && forall i :: 0 <= i < 4 ==> 0 <= v[i] < 64
    requires var a: int, b: int, c: int := x[3 * t], if 3 * t + 1 < |x| then x[3 * t + 1] else 0,
                                           if 3 * t + 2 < |x| then x[3 * t + 2] else 0;
             v[0] * 262144 + v[1] * 4096 + v[2] * 64 + v[3] == a * 65536 + b * 256 + c
    ensures var e := Encoding(x);
            && 4 * t + 4 <= |e| && (3 * t + 3 >= |x| ==> 4 * t + 4 == |e|)
            && e[4 * t] == Letter(v[0]) && e[4 * t + 1] == Letter(v[1])
            && e[4 * t + 2] == (if 3 * t + 1 < |x| then Letter(v[2]) else '=')
            && e[4 * t + 3] == (if 3 * t + 2 < |x| then Letter(v[3]) else '=')
  {
    SextetsOfGroup(x, t);
    SameDigits(v[0], v[1], v[2], v[3], SextetIn(x, t, 0), SextetIn(x, t, 1), SextetIn(x, t, 2), SextetIn(x, t, 3));
    var e := Encoding(x);
    GroupChar(x, e, t, 0);
    GroupChar(x, e, t, 1);
    GroupChar(x, e, t, 2);
    GroupChar(x, e, t, 3);
  }

  lemma SameDigits(a: int, b: int, c: int, d: int, a': int, b': int, c': int, d': int)
    requires 0 <= a < 64 && 0 <= b < 64 && 0 <= c < 64 && 0 <= d < 64
    requires 0 <= a' < 64 && 0 <= b' < 64 && 0 <= c' < 64 && 0 <= d' < 64
    requires a * 262144 + b * 4096 + c * 64 + d == a' * 262144 + b' * 4096 + c' * 64 + d'
    ensures a == a' && b == b' && c == c' && d == d'
  {
  }

  /** Each line break stands right after the characters that the octets before it complete. */
  lemma {:induction false} BreakAt(e: string, bpl: nat, last: nat, from: nat, m: nat, k: nat)
    requires m < k <= last && from <= Break(bpl, m + 1) && Break(bpl, last) <= |e| && from <= |e|
    ensures var place := Break(bpl, k) - from + (k - 1 - m);
            0 <= place < |Lines(e, bpl, last, from, m)| && Lines(e, bpl, last, from, m)[place] == '\n'
    decreases k - m
  {
    BreakMonotone(bpl, m + 1, last);
    BreakMonotone(bpl, m + 1, m + 2);
    var to := Break(bpl, m + 1);
    var rest := Lines(e, bpl, last, to, m + 1);
    if k == m + 1 {
      BehindBreak(e[from..to], rest, 0);
    } else {
      BreakMonotone(bpl, m + 1, k);
      BreakAt(e, bpl, last, to, m + 1, k);
      BehindBreak(e[from..to], rest, Break(bpl, k) - to + (k - 1 - (m + 1)));
    }
  }

  lemma BehindBreak(line: string, rest: string, p: nat)
    ensures (line + "\n" + rest)[|line|] == '\n'
    ensures p < |rest| ==> (line + "\n" + rest)[|line| + 1 + p] == rest[p]
  {
  }

  /** In the text: after 4 * m * bpl / 3 characters of the encoding, rounded down, and the breaks before it. */
  lemma BreakPlaces(x: seq<Octet>, bpl: nat, text: string, m: nat)
    requires |x| > 0 && bpl > 0 && Encoded(x, bpl, text)
    requires 1 <= m <= (|x| - 1) / bpl && (bpl == 1 ==> m > 1)
    ensures 4 * (m * bpl) / 3 + m - 1 < |text| && text[4 * (m * bpl) / 3 + m - 1] == '\n'
  {
    var last := (|x| - 1) / bpl;
    LastBreak(|x|, bpl);
    BreakMonotone(bpl, 1, 2);
    if bpl == 1 {
      BreakAt(Encoding(x), 1, last, 0, 1, m);
      assert text[1..][4 * m / 3 + m - 2] == text[4 * m / 3 + m - 1];
    } else {
      BreakAt(Encoding(x), bpl, last, 0, 0, m);
    }
  }

  // ----- The layout of the encoder's output -----

  /** The text without its line breaks. */
  function Joined(s: string): string {
    if s == "" then "" else (if s[0] == '\n' then "" else [s[0]]) + Joined(s[1..])
  }

  function BreakCount(s: string): nat {
    if s == "" then 0 else (if s[0] == '\n' then 1 else 0) + BreakCount(s[1..])
  }

  lemma {:induction false} JoinedConcat(a: string, b: string)
    ensures Joined(a + b) == Joined(a) + Joined(b) && BreakCount(a + b) == BreakCount(a) + BreakCount(b)
  {
    if a == "" {
      assert a + b == b;
    } else {
      assert (a + b)[1..] == a[1..] + b;
      JoinedConcat(a[1..], b);
    }
  }

  lemma {:induction false} JoinedLine(s: string)
    requires '\n' !in s
    ensures Joined(s) == s && BreakCount(s) == 0
  {
    if s != "" {
      JoinedLine(s[1..]);
    }
  }

  lemma {:induction false} LineThenBreak(line: string, rest: string)
    requires '\n' !in line
    ensures Joined(line + "\n" + rest) == line + Joined(rest) && BreakCount(line + "\n" + rest) == 1 + BreakCount(rest)
  {
    JoinedConcat(line + "\n", rest);
    JoinedConcat(line, "\n");
    JoinedLine(line);
    JoinedBreak();
  }

  lemma JoinedBreak()
    ensures Joined("\n") == "" && BreakCount("\n") == 1
  {
    assert "\n"[1..] == "";
  }

  /** Deleting the line breaks leaves the encoding, and there is one for each line but the last. */
  lemma {:induction false} LinesContent(e: string, bpl: nat, last: nat, from: nat, m: nat)
    requires m <= last && from <= Break(bpl, m + 1)
    requires Break(bpl, last) <= |e| && from <= |e| && '\n' !in e
    ensures Joined(Lines(e, bpl, last, from, m)) == e[from..]
    ensures BreakCount(Lines(e, bpl, last, from, m)) == last - m
    decreases last - m
  {
    if m == last {
      JoinedLine(e[from..]);
    } else {
      BreakMonotone(bpl, m + 1, last);
      BreakMonotone(bpl, m + 1, m + 2);
      var to := Break(bpl, m + 1);
      LinesContent(e, bpl, last, to, m + 1);
      LineThenBreak(e[from..to], Lines(e, bpl, last, to, m + 1));
      assert e[from..to] + e[to..] == e[from..];
    }
  }

  lemma EncodingHasNoBreaks(x: seq<Octet>)
    ensures '\n' !in Encoding(x)
  {
    forall k | 0 <= k < |Encoding(x)|
      ensures Encoding(x)[k] != '\n'
    {
      var t, p := Split4(k);
      GroupInside(|x|, t, p);
      GroupChar(x, Encoding(x), t, p);
    }
  }

  /**
    What the encoder writes, whatever the line length: the encoding of RFC 4648 with (n - 1) / bpl
    line breaks, except that with one octet a line the first break is never written.
   */
  lemma EncodedContent(x: seq<Octet>, bpl: nat, text: string)
    requires |x| > 0 && bpl > 0 && Encoded(x, bpl, text)
    ensures var lost := if bpl == 1 && |x| > 1 then 1 else 0;
            && lost <= |text| && |text[lost..]| == TotalLength(|x|, bpl) - lost
            && Joined(text[lost..]) == Encoding(x)
            && BreakCount(text[lost..]) == (|x| - 1) / bpl - lost
  {
    var last, e := (|x| - 1) / bpl, Encoding(x);
    LastBreak(|x|, bpl);
    BreakMonotone(bpl, 1, 2);
    EncodingHasNoBreaks(x);
    var m := if bpl == 1 && |x| > 1 then 1 else 0;
    LinesContent(e, bpl, last, 0, m);
    LinesLength(e, bpl, last, 0, m);
    assert text[m..] == Lines(e, bpl, last, 0, m);
  }

  /** With whole groups on a line, each line is the encoding of its own octets. */
  lemma LineIsEncoding(x: seq<Octet>, bpl: nat, m: nat)
    requires bpl > 0 && bpl % 3 == 0 && (m + 1) * bpl <= |x|
    ensures m * bpl <= (m + 1) * bpl && Break(bpl, m) <= Break(bpl, m + 1) <= |Encoding(x)|
    ensures Encoding(x)[Break(bpl, m)..Break(bpl, m + 1)] == Encoding(x[m * bpl..(m + 1) * bpl])
  {
    var q := bpl / 3;
    WholeGroups(q, m);
    WholeGroups(q, m + 1);
    assert (m + 1) * q == m * q + q;
    PartIsEncoded(x, m * q, x[3 * (m * q)..3 * (m * q + q)], q);
  }

  /** And so is the last line, which may be shorter. */
  lemma LastLineIsEncoding(x: seq<Octet>, bpl: nat, last: nat)
    requires |x| > 0 && bpl > 0 && bpl % 3 == 0 && last == (|x| - 1) / bpl
    ensures last * bpl < |x| && Break(bpl, last) <= |Encoding(x)|
    ensures Encoding(x)[Break(bpl, last)..] == Encoding(x[last * bpl..])
  {
    LastBreak(|x|, bpl);
    WholeGroups(bpl / 3, last);
    PartIsEncoded(x, last * (bpl / 3), x[last * bpl..], 0);
  }

  lemma GroupInside(n: nat, t: nat, p: nat)
    requires 4 * t + p < EncodedLength(n)
    ensures 3 * t < n
  {
  }

  /** Groups of the data from group `g` on have the same pieces, if all their octets are there. */
  lemma ShiftedSextet(x: seq<Octet>, y: seq<Octet>, g: nat, t: nat, p: nat)
    requires 3 * g <= |x| && y <= x[3 * g..] && p < 4 && (3 * t + 3 <= |y| || y == x[3 * g..])
    ensures SextetIn(y, t, p) == SextetIn(x, g + t, p)
  {
    assert OctetAt(y, 3 * t) == OctetAt(x, 3 * (g + t));
    assert OctetAt(y, 3 * t + 1) == OctetAt(x, 3 * (g + t) + 1);
    assert OctetAt(y, 3 * t + 2) == OctetAt(x, 3 * (g + t) + 2);
  }

  lemma CharAt(x: seq<Octet>, e: string, t: nat, p: nat, k: nat)
    requires e == Encoding(x) && 3 * t < |x| && p < 4 && k == 4 * t + p
    ensures k < |e| && e[k] == CharIn(x, t, p)
  {
    GroupChar(x, e, t, p);
  }

  lemma WholeGroups(q: nat, m: nat)
    ensures m * (3 * q) == 3 * (m * q) && Break(3 * q, m) == 4 * (m * q)
  {
  }

  /** Whole groups of the data from group `g` on, or all that is left of it, are encoded by themselves. */
  lemma PartIsEncoded(x: seq<Octet>, g: nat, y: seq<Octet>, q: nat)
    requires 3 * g <= |x| && y <= x[3 * g..] && (|y| == 3 * q || y == x[3 * g..])
    ensures 4 * g + |Encoding(y)| <= |Encoding(x)|
    ensures Encoding(x)[4 * g..4 * g + |Encoding(y)|] == Encoding(y)
    ensures |y| == 3 * q ==> |Encoding(y)| == 4 * q
    ensures y == x[3 * g..] ==> 4 * g + |Encoding(y)| == |Encoding(x)|
  {
    var ex, ey := Encoding(x), Encoding(y);
    PartLength(|x|, g, |y|, q);
    forall k | 0 <= k < |ey|
      ensures ex[4 * g..4 * g + |ey|][k] == ey[k]
    {
      var t, p := Split4(k);
      GroupInside(|y|, t, p);
      SameChar(x, ex, y, ey, g, t, p);
    }
  }

  lemma PartLength(n: nat, g: nat, k: nat, q: nat)
    requires 3 * g + k <= n
    ensures 4 * g + EncodedLength(k) <= EncodedLength(n)
    ensures k == 3 * q ==> EncodedLength(k) == 4 * q
    ensures 3 * g + k == n ==> 4 * g + EncodedLength(k) == EncodedLength(n)
  {
  }

  lemma Split4(k: nat) returns (t: nat, p: nat)
    ensures k == 4 * t + p && p < 4
  {
    t, p := k / 4, k % 4;
  }

  lemma SameChar(x: seq<Octet>, ex: string, y: seq<Octet>, ey: string, g: nat, t: nat, p: nat)
    requires 3 * g <= |x| && y <= x[3 * g..] && 3 * t < |y| && p < 4
    requires 3 * t + 3 <= |y| || y == x[3 * g..]
    requires ex == Encoding(x) && ey == Encoding(y)
    ensures 4 * g + (4 * t + p) < |ex| && 4 * t + p < |ey| && ex[4 * g + (4 * t + p)] == ey[4 * t + p]
  {
    ShiftedSextet(x, y, g, t, p);
    CharAt(x, ex, g + t, p, 4 * g + (4 * t + p));
    CharAt(y, ey, t, p, 4 * t + p);
    assert CharIn(y, t, p) == CharIn(x, g + t, p);
  }

  /**
    The documented output size, 2 * size + 4, holds the text and its terminator exactly when
    lines hold at least two octets or the encoding exceeds the data by at most four characters;
    not for seven octets, one a line.
   */
  lemma DocumentedSize(n: nat, bpl: nat)
    requires n > 0 && bpl > 0
    ensures TotalLength(n, bpl) + 1 <= 2 * n + 4 <==> bpl >= 2 || EncodedLength(n) <= n + 4
    ensures TotalLength(7, 1) + 1 > 2 * 7 + 4
  {
    LastBreak(n, bpl);
    if bpl >= 2 {
      AtMostHalf((n - 1) / bpl, bpl, n);
    }
  }

  /** The documented example's output is not the encoding of its data, but of other octets. */
  lemma DocumentedExample()
    ensures Encoding([1, 2, 3, 4]) == "AQIDBA==" != "AAECAw=="
    ensures Encoding([0, 1, 2, 3]) == "AAECAw=="
  {
    TwoGroups([1, 2, 3, 4]);
    TwoGroups([0, 1, 2, 3]);
    ExampleGroups();
    assert "AQIDBA=="[1] != "AAECAw=="[1];
  }

  lemma ExampleGroups()
    ensures var x: seq<Octet> := [1, 2, 3, 4];
            && [CharIn(x, 0, 0), CharIn(x, 0, 1), CharIn(x, 0, 2), CharIn(x, 0, 3)] == "AQID"
            && [CharIn(x, 1, 0), CharIn(x, 1, 1), CharIn(x, 1, 2), CharIn(x, 1, 3)] == "BA=="
    ensures var x: seq<Octet> := [0, 1, 2, 3];
            && [CharIn(x, 0, 0), CharIn(x, 0, 1), CharIn(x, 0, 2), CharIn(x, 0, 3)] == "AAEC"
            && [CharIn(x, 1, 0), CharIn(x, 1, 1), CharIn(x, 1, 2), CharIn(x, 1, 3)] == "Aw=="
  {
  }

  lemma TwoGroups(x: seq<Octet>)
    requires |x| == 4
    ensures Encoding(x) == [CharIn(x, 0, 0), CharIn(x, 0, 1), CharIn(x, 0, 2), CharIn(x, 0, 3)]
                         + [CharIn(x, 1, 0), CharIn(x, 1, 1), CharIn(x, 1, 2), CharIn(x, 1, 3)]
  {
    assert GroupsFrom(x, 2) == "";
    assert GroupsFrom(x, 1) == [CharIn(x, 1, 0), CharIn(x, 1, 1), CharIn(x, 1, 2), CharIn(x, 1, 3)] + "";
  }

  lemma AtMostHalf(last: nat, bpl: nat, n: nat)
    requires last * bpl < n && bpl >= 2
    ensures 2 * last < n
  {
    assert last * bpl == last * 2 + last * (bpl - 2);
  }

  // ----- The decoder -----

  const INVALID := 255

  /** The decoder's table: 80 entries from '+' on, most of them unused. */
  function TableEntry(i: int): (val: int)
    requires 0 <= i < 80
    ensures val == INVALID || 0 <= val < 64
  {
    if i == 0 then 62
    else if i == 4 then 63
    else if 5 <= i < 15 then i - 5 + 52
    else if 22 <= i < 48 then i - 22
    else if 54 <= i < 80 then i - 54 + 26
    else INVALID
  }

  /** The six bits a character stands for, or INVALID if it is outside the alphabet. */
  function Value(c: char): (val: int)
    ensures val == INVALID || 0 <= val < 64
  {
    if 43 <= c as int < 123 then TableEntry(c as int - 43) else INVALID
  }

  lemma ValueOfLetter(v: int)
    requires 0 <= v < 64
    ensures Value(Letter(v)) == v
  {
  }

  lemma LetterOfValue(c: char)
    requires Value(c) != INVALID
    ensures Letter(Value(c)) == c
  {
  }

  type Six = v: int | 0 <= v < 64

  /** The values of the alphabet characters of a text; all others are skipped. */
  function Values(s: string): seq<Six> {
    if s == "" then [] else (if Value(s[0]) == INVALID then [] else [Value(s[0])]) + Values(s[1..])
  }

  function SixAt(v: seq<Six>, k: nat): Six {
    if k < |v| then v[k] else 0
  }

  /** Octet `q` of a group, from the two pieces it lies in. */
  function OctetFrom(a: Six, b: Six, q: nat): Octet
    requires q < 3
  {
    match q
    case 0 => a * 4 + b / 16
    case 1 => a % 16 * 16 + b / 4
    case 2 => a % 4 * 64 + b
  }

  /** Octet `q` of the 24 bits that pieces 4 * g to 4 * g + 3 make up. */
  function OctetIn(v: seq<Six>, g: nat, q: nat): (b: Octet)
    requires q < 3
  {
    OctetFrom(SixAt(v, 4 * g + q), SixAt(v, 4 * g + q + 1), q)
  }

  /** The three octets of a group are the digits of its 24 bits in base 256. */
  lemma OctetsOfGroup(v: seq<Six>, g: nat)
    ensures SixAt(v, 4 * g) * 262144 + SixAt(v, 4 * g + 1) * 4096 + SixAt(v, 4 * g + 2) * 64 + SixAt(v, 4 * g + 3) ==
            OctetIn(v, g, 0) * 65536 + OctetIn(v, g, 1) * 256 + OctetIn(v, g, 2)
  {
  }

  /** The whole octets of a sequence of six-bit pieces; spare bits at the end are dropped. */
  function Octets(v: seq<Six>): (x: seq<Octet>)
    ensures |x| == 3 * |v| / 4
  {
    seq(3 * |v| / 4, j requires 0 <= j < 3 * |v| / 4 => OctetIn(v, j / 3, j % 3))
  }

  /** What is missing of the last group counts as zero. */
  lemma GroupDecoded(v: seq<Six>, t: nat, b: seq<int>)
    requires 4 * t < |v| && |b| == 3 && forall i :: 0 <= i < 3 ==> 0 <= b[i] < 256
    requires var v0: int, v1: int, v2: int, v3: int :=
               v[4 * t], if 4 * t + 1 < |v| then v[4 * t + 1] else 0,
               if 4 * t + 2 < |v| then v[4 * t + 2] else 0, if 4 * t + 3 < |v| then v[4 * t + 3] else 0;
             b[0] * 65536 + b[1] * 256 + b[2] == v0 * 262144 + v1 * 4096 + v2 * 64 + v3
    ensures forall i :: 0 <= i < 3 && 3 * t + i < |Octets(v)| ==> Octets(v)[3 * t + i] == b[i]
  {
    OctetsOfGroup(v, t);
    SameOctets(b[0], b[1], b[2], OctetIn(v, t, 0), OctetIn(v, t, 1), OctetIn(v, t, 2));
    forall i | 0 <= i < 3 && 3 * t + i < |Octets(v)|
      ensures Octets(v)[3 * t + i] == OctetIn(v, t, i)
    {
      assert (3 * t + i) / 3 == t && (3 * t + i) % 3 == i;
    }
  }

  lemma SameOctets(a: int, b: int, c: int, a': int, b': int, c': int)
    requires 0 <= a < 256 && 0 <= b < 256 && 0 <= c < 256
    requires 0 <= a' < 256 && 0 <= b' < 256 && 0 <= c' < 256
    requires a * 65536 + b * 256 + c == a' * 65536 + b' * 256 + c'
    ensures a == a' && b == b' && c == c'
  {
  }

  function Decoding(s: string): seq<Octet> {
    Octets(Values(s))
  }

  /** One more piece completes an octet, unless it is the first of a group. */
  lemma OctetsExtend(v: seq<Six>, val: Six, g: nat, q: nat)
    requires |v| == 4 * g + q && q < 4
    ensures Octets(v + [val]) == Octets(v) + if q == 0 then [] else [OctetIn(v + [val], g, q - 1)]
  {
    var w := v + [val];
    assert 3 * |v| / 4 == 3 * g + (if q == 0 then 0 else q - 1);
    assert 3 * |w| / 4 == 3 * g + q;
    forall j | 0 <= j < 3 * |v| / 4
      ensures Octets(w)[j] == Octets(v)[j]
    {
      var t := j / 3;
      assert 4 * t + j % 3 + 1 < |v|;
      assert forall k: nat :: k < |v| ==> SixAt(w, k) == SixAt(v, k);
    }
    if q > 0 {
      assert (3 * g + (q - 1)) / 3 == g && (3 * g + (q - 1)) % 3 == q - 1;
    }
  }

  lemma {:induction false} ValuesConcat(a: string, b: string)
    ensures Values(a + b) == Values(a) + Values(b)
  {
    if a == "" {
      assert a + b == b;
    } else {
      assert (a + b)[1..] == a[1..] + b;
      ValuesConcat(a[1..], b);
    }
  }

  lemma ValuesStep(s: string, i: nat)
    requires i < |s|
    ensures Values(s[..i + 1]) == Values(s[..i]) + (if Value(s[i]) == INVALID then [] else [Value(s[i])])
    ensures |Octets(Values(s[..i + 1]))| <= |Octets(Values(s))|
  {
    ValuesConcat(s[..i], [s[i]]);
    assert s[..i + 1] == s[..i] + [s[i]];
    ValuesConcat(s[..i + 1], s[i + 1..]);
    assert s == s[..i + 1] + s[i + 1..];
  }

  /** The octet that the last two pieces complete, in the terms of the decoder's shifts. */
  function Completed(prev: int, val: int, bits: nat): Octet {
    if bits == 4 then (prev * 4 + val / 16) % 256
    else if bits == 2 then (prev * 16 + val / 4) % 256
    else (prev * 64 + val) % 256
  }

  /** The decoder's state after the pieces `v`: the last one, the phase, and the octets completed. */
  ghost predicate Reached(v: seq<Six>, prev: int, bits: nat, d: nat) {
    && prev == (if v == [] then 0 else v[|v| - 1])
    && bits == 6 * |v| % 8
    && d == |Octets(v)|
  }

  /** One step of the decoder on an alphabet character: new phase, and the octet it completes. */
  lemma DecodeStep(v: seq<Six>, val: Six, prev: int, bits: nat, d: nat)
    requires Reached(v, prev, bits, d)
    ensures var w, newBits := v + [val], (bits + 6) % 8;
            && Octets(w) == Octets(v) + (if newBits == 6 then [] else [Completed(prev, val, newBits)])
            && Reached(w, val, newBits, if newBits == 6 then d else d + 1)
  {
    var g, q := Split4(|v|);
    DecodePhase(|v|, g, q);
    DecodePhase(|v| + 1, if q == 3 then g + 1 else g, if q == 3 then 0 else q + 1);
    NextPhase(bits, q);
    OctetsExtend(v, val, g, q);
    if q > 0 {
      CompletedIs(v, val, g, q);
    }
  }

  lemma NextPhase(bits: nat, q: nat)
    requires q < 4 && bits == if q == 0 then 0 else 8 - 2 * q
    ensures (bits + 6) % 8 == if q == 3 then 0 else 6 - 2 * q
  {
  }

  lemma DecodePhase(n: nat, g: nat, q: nat)
    requires n == 4 * g + q && q < 4
    ensures 6 * n % 8 == if q == 0 then 0 else 8 - 2 * q
  {
    DivMod(6 * n, 8, 3 * g + if q <= 1 then 0 else q - 1, if q == 0 then 0 else 8 - 2 * q);
  }

  lemma CompletedIs(v: seq<Six>, val: Six, g: nat, q: nat)
    requires |v| == 4 * g + q && 0 < q < 4
    ensures Completed(v[|v| - 1], val, if q == 3 then 0 else 6 - 2 * q) == OctetIn(v + [val], g, q - 1)
  {
    var w := v + [val];
    assert SixAt(w, 4 * g + (q - 1)) == v[|v| - 1] && SixAt(w, 4 * g + q) == val;
    JoinPieces(v[|v| - 1], val);
  }

  lemma JoinPieces(prev: Six, val: Six)
    ensures Completed(prev, val, 4) == prev * 4 + val / 16
    ensures Completed(prev, val, 2) == prev % 16 * 16 + val / 4
    ensures Completed(prev, val, 0) == prev % 4 * 64 + val
  {
    DivMod(prev * 16 + val / 4, 256, prev / 16, prev % 16 * 16 + val / 4);
    DivMod(prev * 64 + val, 256, prev / 4, prev % 4 * 64 + val);
  }

  /** The text the decoder reads: `size` characters, or a string for -1. */
  function Text(src: seq<char>, size: int): (s: string)
    requires if size == -1 then '\0' in src else size <= |src|
    ensures s <= src && (size != -1 ==> |s| == if size > 0 then size else 0)
    ensures size == -1 ==> |s| < |src| && src[|s|] == '\0' && forall i :: 0 <= i < |s| ==> src[i] != '\0'
  {
    if size == -1 then src[..StrLen(src, '\0')] else if size > 0 then src[..size] else ""
  }

  /** DecodeBase64: writes exactly the decoding, or without an output buffer only counts it. */
  method DecodeBase64(src: array?<char>, size: int, dst: array?<Octet>) returns (r: int)
    requires src != null ==> if size == -1 then '\0' in src[..] else size <= src.Length
    requires src != null && dst != null ==> |Decoding(Text(src[..], size))| <= dst.Length
    modifies dst
    ensures src == null ==> r == -1 && (dst != null ==> dst[..] == old(dst[..]))
    ensures src != null ==> r == |Decoding(Text(src[..], size))|
    ensures src != null && dst != null ==>
              dst[..r] == Decoding(Text(src[..], size)) && dst[r..] == old(dst[r..])
  {
    if src == null {
      return -1;
    }
    r := DecodeText(Text(src[..], size), dst);
  }

  method DecodeText(s: string, dst: array?<Octet>) returns (d: nat)
    requires dst != null ==> |Decoding(s)| <= dst.Length
    modifies dst
    ensures d == |Decoding(s)|
    ensures dst != null ==> dst[..d] == Decoding(s) && dst[d..] == old(dst[d..])
  {
    d := 0;
    var prev, bits: nat := 0, 0;
    ghost var v: seq<Six> := [];
    for i := 0 to |s|
      invariant v == Values(s[..i]) && Reached(v, prev, bits, d)
      invariant dst != null ==> d <= dst.Length && dst[..d] == Octets(v) && dst[d..] == old(dst[d..])
    {
      var val := Value(s[i]);
      ValuesStep(s, i);
      if val == INVALID {
        continue;
      }
      DecodeStep(v, val, prev, bits, d);
      bits := (bits + 6) % 8;
      if bits != 6 {
        if dst != null {
          dst[d] := Completed(prev, val, bits);
        }
        d := d + 1;
      }
      v := v + [val];
      prev := val;
    }
    assert s[..|s|] == s;
  }

  // ----- Laws of the decoder -----

  /** Characters outside the alphabet may stand anywhere without changing the result. */
  lemma IgnoredCharacters(a: string, junk: string, b: string)
    requires forall c | c in junk :: Value(c) == INVALID
    ensures Decoding(a + junk + b) == Decoding(a + b)
  {
    ValuesConcat(a, b);
    ValuesConcat(a + junk, b);
    assert Values(a + junk) == Values(a) by {
      ValuesOfJunk(junk);
      ValuesConcat(a, junk);
    }
  }

  lemma {:induction false} ValuesOfJunk(junk: string)
    requires forall c | c in junk :: Value(c) == INVALID
    ensures Values(junk) == []
  {
    if junk != "" {
      ValuesOfJunk(junk[1..]);
    }
  }

  /** The size of the result depends only on how many alphabet characters there are. */
  lemma {:induction false} DecodedSize(s: string)
    ensures |Decoding(s)| == 3 * |Values(s)| / 4
    ensures |Values(s)| == AlphabetCount(s) <= |s|
  {
    if s != "" {
      DecodedSize(s[1..]);
    }
  }

  function AlphabetCount(s: string): nat {
    if s == "" then 0 else (if Value(s[0]) == INVALID then 0 else 1) + AlphabetCount(s[1..])
  }

  /**
    The documented output size, half the text's length rounded down, suffices exactly when three
    quarters of the number of alphabet characters, rounded down, is no more; not for "AAAA".
   */
  lemma DocumentedDecodeSize(s: string)
    ensures |Decoding(s)| <= |s| / 2 <==> 3 * AlphabetCount(s) < 4 * (|s| / 2 + 1)
    ensures |Decoding("AAAA")| > |"AAAA"| / 2
  {
    DecodedSize(s);
    assert Values("AAAA") == [0, 0, 0, 0] by {
      ValuesConcat("AA", "AA");
      assert "AAAA" == "AA" + "AA";
    }
  }

  /** The six-bit pieces of the data. */
  function SextetSeq(x: seq<Octet>): seq<Six> {
    seq(Pieces(|x|), k requires 0 <= k < Pieces(|x|) => SextetIn(x, k / 4, k % 4))
  }

  /** The values of a text whose first characters have the values in `v` and whose others have none. */
  lemma {:induction false} ValuesOfLetters(e: string, v: seq<Six>, k: nat)
    requires k <= |e| && |v| <= |e|
    requires forall i :: 0 <= i < |e| ==> Value(e[i]) == if i < |v| then v[i] else INVALID
    ensures Values(e[..k]) == if k < |v| then v[..k] else v
  {
    if k > 0 {
      ValuesOfLetters(e, v, k - 1);
      ValuesStep(e, k - 1);
      TakeOne(v, k - 1);
    }
  }

  lemma ValuesOfEncoding(x: seq<Octet>, e: string)
    requires e == Encoding(x)
    ensures Values(e) == SextetSeq(x)
  {
    var v := SextetSeq(x);
    PiecesFit(|x|);
    forall i | 0 <= i < |e|
      ensures Value(e[i]) == if i < |v| then v[i] else INVALID
    {
      ValueAt(x, e, i);
    }
    ValuesOfLetters(e, v, |e|);
    assert e[..|e|] == e;
  }

  lemma PiecesFit(n: nat)
    ensures Pieces(n) <= EncodedLength(n)
  {
  }

  lemma ValueAt(x: seq<Octet>, e: string, k: nat)
    requires e == Encoding(x) && k < |e|
    ensures Value(e[k]) == if k < Pieces(|x|) then SextetSeq(x)[k] else INVALID
  {
    var t, p := Split4(k);
    GroupInside(|x|, t, p);
    GroupChar(x, e, t, p);
    PieceInside(|x|, t, p, k);
    ValueOfLetter(SextetIn(x, t, p));
    if k < Pieces(|x|) {
      SextetSeqAt(x, t, p, k);
    }
  }

  lemma PieceInside(n: nat, t: nat, p: nat, k: nat)
    requires 3 * t < n && p < 4 && k == 4 * t + p
    ensures k < Pieces(n) <==> p < 2 || 3 * t + p - 1 < n
  {
  }

  lemma SextetSeqAt(x: seq<Octet>, t: nat, p: nat, k: nat)
    requires p < 4 && k == 4 * t + p < Pieces(|x|)
    ensures SextetSeq(x)[k] == SextetIn(x, t, p)
  {
    assert k / 4 == t && k % 4 == p;
  }

  lemma TakeOne(v: seq<Six>, k: nat)
    ensures k < |v| ==> v[..k + 1] == v[..k] + [v[k]]
  {
  }

  /** Putting the pieces of the data back together gives the data. */
  lemma OctetsOfSextets(x: seq<Octet>)
    ensures Octets(SextetSeq(x)) == x
  {
    var v := SextetSeq(x);
    assert 3 * |v| / 4 == |x|;
    forall j | 0 <= j < |x|
      ensures OctetIn(v, j / 3, j % 3) == x[j]
    {
      OctetBack(x, j / 3, j % 3);
    }
  }

  lemma OctetBack(x: seq<Octet>, t: nat, r: nat)
    requires 3 * t + r < |x| && r < 3
    ensures OctetIn(SextetSeq(x), t, r) == x[3 * t + r]
  {
    OctetOfPieces(SextetSeq(x), x, t, r);
  }

  lemma OctetOfPieces(v: seq<Six>, x: seq<Octet>, t: nat, r: nat)
    requires 3 * t + r < |x| && r < 3 && v == SextetSeq(x)
    ensures OctetIn(v, t, r) == x[3 * t + r]
  {
    PiecesOfOctet(x, t, r);
    SixOfSextets(x, t, r);
    SixOfSextets(x, t, r + 1);
  }

  lemma PiecesOfOctet(x: seq<Octet>, t: nat, r: nat)
    requires 3 * t + r < |x| && r < 3
    ensures OctetFrom(SextetIn(x, t, r), SextetIn(x, t, r + 1), r) == x[3 * t + r]
  {
    JoinSextets(OctetAt(x, 3 * t), OctetAt(x, 3 * t + 1), OctetAt(x, 3 * t + 2));
  }

  lemma JoinSextets(b0: Octet, b1: Octet, b2: Octet)
    ensures b0 / 4 * 4 + (b0 % 4 * 16 + b1 / 16) / 16 == b0
    ensures (b0 % 4 * 16 + b1 / 16) % 16 * 16 + (b1 % 16 * 4 + b2 / 64) / 4 == b1
    ensures (b1 % 16 * 4 + b2 / 64) % 4 * 64 + b2 % 64 == b2
  {
    DivMod(b0 % 4 * 16 + b1 / 16, 16, b0 % 4, b1 / 16);
    DivMod(b1 % 16 * 4 + b2 / 64, 4, b1 % 16, b2 / 64);
  }

  lemma SixOfSextets(x: seq<Octet>, t: nat, p: nat)
    requires p < 4 && (p == 0 || 3 * t + p - 1 < |x|) && 3 * t < |x|
    ensures SixAt(SextetSeq(x), 4 * t + p) == SextetIn(x, t, p)
  {
    assert (4 * t + p) / 4 == t && (4 * t + p) % 4 == p;
  }

  lemma {:induction false} ValuesOfJoined(s: string)
    ensures Values(Joined(s)) == Values(s)
  {
    if s != "" {
      ValuesOfJoined(s[1..]);
      ValuesConcat(if s[0] == '\n' then "" else [s[0]], Joined(s[1..]));
    }
  }

  /** The values of what the encoder wrote are those of the data. */
  lemma ValuesOfEncoded(x: seq<Octet>, bpl: nat, text: string)
    requires |x| > 0 && bpl > 0 && Encoded(x, bpl, text)
    ensures var lost := if bpl == 1 && |x| > 1 then 1 else 0;
            lost <= |text| && Values(text[lost..]) == SextetSeq(x)
  {
    EncodedContent(x, bpl, text);
    var lost := if bpl == 1 && |x| > 1 then 1 else 0;
    ValuesOfJoined(text[lost..]);
    ValuesOfEncoding(x, Encoding(x));
  }

  /** Decoding what the encoder wrote, with any line length, gives the data back. */
  lemma DecodeEncoded(x: seq<Octet>, bpl: nat, text: string)
    requires |x| > 0 && bpl > 0 && Encoded(x, bpl, text)
    ensures var lost := if bpl == 1 && |x| > 1 then 1 else 0;
            lost <= |text| && Decoding(text[lost..]) == x
  {
    ValuesOfEncoded(x, bpl, text);
    OctetsOfSextets(x);
  }

  // ----- The character that one octet per line leaves unwritten -----

  lemma SameGroup(a: seq<Six>, b: seq<Six>, g: nat)
    requires forall q :: 0 <= q < 3 ==> OctetIn(a, g, q) == OctetIn(b, g, q)
    ensures SixAt(a, 4 * g) == SixAt(b, 4 * g) && SixAt(a, 4 * g + 1) == SixAt(b, 4 * g + 1)
    ensures SixAt(a, 4 * g + 2) == SixAt(b, 4 * g + 2) && SixAt(a, 4 * g + 3) == SixAt(b, 4 * g + 3)
  {
    assert OctetIn(a, g, 0) == OctetIn(b, g, 0);
    assert OctetIn(a, g, 1) == OctetIn(b, g, 1);
    assert OctetIn(a, g, 2) == OctetIn(b, g, 2);
  }

  /** Whole groups of pieces are determined by their octets. */
  lemma OctetsDetermine(a: seq<Six>, b: seq<Six>, n: nat)
    requires |a| == |b| == 4 * n && Octets(a) == Octets(b)
    ensures a == b
  {
    forall k | 0 <= k < |a|
      ensures a[k] == b[k]
    {
      var g, p := Split4(k);
      forall q | 0 <= q < 3
        ensures OctetIn(a, g, q) == OctetIn(b, g, q)
      {
        OctetOf(a, n, g, q);
        OctetOf(b, n, g, q);
      }
      SameGroup(a, b, g);
    }
  }

  lemma OctetOf(v: seq<Six>, n: nat, g: nat, q: nat)
    requires |v| == 4 * n && g < n && q < 3
    ensures 3 * g + q < |Octets(v)| && Octets(v)[3 * g + q] == OctetIn(v, g, q)
  {
    assert (3 * g + q) / 3 == g && (3 * g + q) % 3 == q;
  }

  /** One piece in front of whole groups leaves their octets as they are only if all pieces are that one. */
  lemma PieceInFront(v: Six, rest: seq<Six>, n: nat)
    requires |rest| == 4 * n
    ensures Octets([v] + rest) == Octets(rest) <==> forall i :: 0 <= i < |rest| ==> rest[i] == v
  {
    if n > 0 {
      var w := [v] + rest[..4 * n - 1];
      assert [v] + rest == w + [rest[4 * n - 1]];
      OctetsExtend(w, rest[4 * n - 1], n, 0);
      if Octets(w) == Octets(rest) {
        OctetsDetermine(w, rest, n);
        AllAlike(v, rest);
      }
      if forall i :: 0 <= i < |rest| ==> rest[i] == v {
        assert w == rest;
      }
    } else {
      assert [v] + rest == [] + [v];
      OctetsExtend([], v, 0, 0);
    }
  }

  lemma {:induction false} AllAlike(v: Six, rest: seq<Six>)
    requires rest != [] && [v] + rest[..|rest| - 1] == rest
    ensures forall i :: 0 <= i < |rest| ==> rest[i] == v
  {
    var w := [v] + rest[..|rest| - 1];
    for i := 0 to |rest|
      invariant forall k :: 0 <= k < i ==> rest[k] == v
    {
      assert rest[i] == w[i];
    }
  }

  /**
    With one octet per line the first character of the output is not written. What it held before
    is harmless exactly when it is outside the alphabet, or when the data is whole groups whose
    encoding consists of nothing but that character.
   */
  lemma FirstCharacterHarmless(x: seq<Octet>, text: string)
    requires |x| > 1 && Encoded(x, 1, text)
    ensures text != ""
    ensures Decoding(text) == x <==>
              Value(text[0]) == INVALID
              || (|x| % 3 == 0 && forall i :: 0 <= i < |Encoding(x)| ==> Encoding(x)[i] == text[0])
  {
    ValuesOfEncoded(x, 1, text);
    OctetsOfSextets(x);
    var vs, v := SextetSeq(x), Value(text[0]);
    assert Values(text) == (if v == INVALID then [] else [v]) + vs;
    if v == INVALID {
      assert Values(text) == vs;
    } else {
      PiecesAndOne(|x|);
      if |x| % 3 == 0 {
        PieceInFront(v, vs, |x| / 3);
        OneLetter(x, text[0]);
      }
    }
  }

  /** One piece more than the data has makes another octet, but for whole groups. */
  lemma PiecesAndOne(n: nat)
    ensures if n % 3 == 0 then Pieces(n) == 4 * (n / 3) == EncodedLength(n) else 3 * (Pieces(n) + 1) / 4 != n
  {
    PiecesOf(n / 3, n % 3);
  }

  lemma PiecesOf(k: nat, r: nat)
    requires r < 3
    ensures Pieces(3 * k + r) == 4 * k + if r == 0 then 0 else r + 1
    ensures EncodedLength(3 * k + r) == 4 * k + if r == 0 then 0 else 4
    ensures 3 * (4 * k + 1) / 4 == 3 * k && 3 * (4 * k + 3) / 4 == 3 * k + 2 && 3 * (4 * k + 4) / 4 == 3 * k + 3
  {
  }

  lemma OneLetter(x: seq<Octet>, c: char)
    requires |x| % 3 == 0 && Value(c) != INVALID
    ensures (forall i :: 0 <= i < |Encoding(x)| ==> Encoding(x)[i] == c)
       <==> forall i :: 0 <= i < |SextetSeq(x)| ==> SextetSeq(x)[i] == Value(c)
  {
    PiecesAndOne(|x|);
    LetterOfValue(c);
    forall i | 0 <= i < |Encoding(x)|
      ensures Encoding(x)[i] == c <==> SextetSeq(x)[i] == Value(c)
    {
      ValueAt(x, Encoding(x), i);
      assert Value(Encoding(x)[i]) == SextetSeq(x)[i];
      LetterOfValue(Encoding(x)[i]);
    }
  }
}
