/** The Internet checksum of the gateway ping (dmbd_hb.c), against the one's-complement sum of RFC 1071. */
module Checksum {
  import opened Bytes

  /** C int: the accumulator `sum`. Every operation on it below is checked not to overflow. */
  newtype Int32 = x: int | -0x8000_0000 <= x < 0x8000_0000

  const MAX_LENGTH: nat := 65536

  type Word = w: nat | w < 65536

  function WordOf(lo: Byte, hi: Byte): Word {
    lo + 256 * hi
  }

  /** The packet as 16-bit little-endian words; an odd last byte is the low byte of a word of its own. */
  function Words(p: seq<Byte>): seq<Word> {
    if p == [] then []
    else if |p| == 1 then [p[0]]
    else [WordOf(p[0], p[1])] + Words(p[2..])
  }

  function WordSum(ws: seq<Word>): nat {
    if ws == [] then 0 else ws[0] + WordSum(ws[1..])
  }

  // ----- reference: section 1 of RFC 1071 -----

  /** 16-bit one's-complement addition: the carry out of the top bit is added back at the bottom. */
  function OnesAdd(a: Word, b: Word): Word {
    if a + b < 65536 then a + b else a + b - 65535
  }

  function OnesSum(ws: seq<Word>): Word {
    if ws == [] then 0 else OnesAdd(ws[0], OnesSum(ws[1..]))
  }

  /** The checksum: the one's complement of the one's-complement sum of the words. */
  function Cksum(p: seq<Byte>): Word {
    65535 - OnesSum(Words(p))
  }

  // ----- end-around carry and residues modulo 65535 -----

  /** Zero for zero, and otherwise the residue modulo 65535 in 1..65535. */
  function Canon(s: nat): Word {
    if s == 0 then 0 else (s - 1) % 65535 + 1
  }

  lemma CanonIs(s: nat, q: nat, r: nat)
    requires s == q * 65535 + r && 0 < r <= 65535
    ensures Canon(s) == r
  {
    assert s - 1 == q * 65535 + (r - 1);
  }

  lemma CanonSplit(s: nat) returns (q: nat)
    requires 0 < s
    ensures s == q * 65535 + Canon(s) && 0 < Canon(s)
  {
    q := (s - 1) / 65535;
  }

  lemma CanonAdd(a: nat, b: nat)
    ensures Canon(a + b) == Canon(a + Canon(b))
  {
    if b > 0 {
      var q := CanonSplit(b);
      var t := CanonSplit(a + Canon(b));
      CanonIs(a + b, q + t, Canon(a + Canon(b)));
    }
  }

  lemma OnesAddIsCanon(a: Word, b: Word)
    ensures OnesAdd(a, b) == Canon(a + b)
  {
    if a + b > 65535 {
      CanonIs(a + b, 1, a + b - 65535);
    } else if a + b > 0 {
      CanonIs(a + b, 0, a + b);
    }
  }

  /** The one's-complement sum is the ordinary sum reduced modulo 65535, with 65535 standing for a non-zero multiple. */
  lemma {:induction false} OnesSumIsCanon(ws: seq<Word>)
    ensures OnesSum(ws) == Canon(WordSum(ws))
  {
    if ws == [] {
    } else {
      OnesSumIsCanon(ws[1..]);
      OnesAddIsCanon(ws[0], OnesSum(ws[1..]));
      CanonAdd(ws[0], WordSum(ws[1..]));
    }
  }

  /** The complement is congruent to minus the word sum modulo 65535. */
  lemma CksumIsNegatedSum(p: seq<Byte>)
    ensures (Cksum(p) + WordSum(Words(p))) % 65535 == 0
  {
    OnesSumIsCanon(Words(p));
    var s := WordSum(Words(p));
    if s > 0 {
      var q := CanonSplit(s);
      assert Cksum(p) + s == (q + 1) * 65535;
    } else {
      assert Cksum(p) + s == 65535;
    }
  }

  /** Two folds of a 31-bit sum: what is left after truncation to 16 bits is the fully carried sum. */
  lemma TwoFoldsSuffice(s: nat)
    requires s < 0x8000_0000
    ensures var once := s / 65536 + s % 65536;
            var twice := once + once / 65536;
            once < 2 * 65535 && twice < 2 * 65536 && twice % 65536 == Canon(s)
  {
    var hi, lo := s / 65536, s % 65536;
    var once := hi + lo;
    assert s == hi * 65535 + once;
    if once >= 65536 {
      CanonIs(s, hi + 1, once - 65535);
    } else if s > 0 {
      CanonIs(s, hi, once);
    }
  }

  /** Bitwise complement, then truncation to 16 bits. */
  lemma ComplementTruncated(s: nat)
    ensures (-1 - s) % 65536 == 65535 - s % 65536
  {
    assert -1 - s == -65536 * (s / 65536 + 1) + (65535 - s % 65536);
  }

  /** A packet of up to 65536 bytes adds up to less than 2^31. */
  lemma SumBound(p: seq<Byte>)
    ensures 2 * WordSum(Words(p)) <= 65535 * (|p| + 1)
    ensures |p| <= MAX_LENGTH ==> WordSum(Words(p)) < 0x8000_0000
  {
    SumBoundParity(p);
  }

  lemma {:induction false} SumBoundParity(p: seq<Byte>)
    ensures |p| % 2 == 0 ==> 2 * WordSum(Words(p)) <= 65535 * |p|
    ensures |p| % 2 == 1 ==> 2 * WordSum(Words(p)) <= 65535 * (|p| - 1) + 510
    decreases |p|
  {
    if |p| >= 2 {
      SumBoundParity(p[2..]);
    }
  }

  /** The rest of the packet from an even offset on starts with one word. */
  lemma NextWord(p: seq<Byte>, w: nat)
    requires w + 1 < |p|
    ensures WordSum(Words(p[w..])) == WordOf(p[w], p[w + 1]) + WordSum(Words(p[w + 2..]))
  {
    assert p[w..][2..] == p[w + 2..];
  }

  lemma LastByte(p: seq<Byte>, w: nat)
    requires w <= |p| <= w + 1
    ensures WordSum(Words(p[w..])) == if w < |p| then p[w] else 0
  {
    if w < |p| {
      assert p[w..] == [p[w]];
    }
  }

  /** in_cksum: the 32-bit accumulator never overflows, and the answer is the checksum of RFC 1071. */
  method InCksum(addr: array<Byte>, len: nat) returns (answer: Word)
    requires len <= addr.Length && len <= MAX_LENGTH
    ensures answer == Cksum(addr[..len])
  {
    hide Words, WordSum, WordOf, OnesSum, Canon;
    var nleft, w := len, 0;
    var sum: Int32 := 0;
    ghost var p := addr[..len];
    assert p[0..] == p;
    while nleft > 1
      invariant 0 <= nleft <= len && w == len - nleft
      invariant 0 <= sum as int && 2 * sum as int <= 65535 * w
      invariant sum as int + WordSum(Words(p[w..])) == WordSum(Words(p))
    {
      NextWord(p, w);
      sum := sum + WordOf(addr[w], addr[w + 1]) as Int32;
      w := w + 2;
      nleft := nleft - 2;
    }
    LastByte(p, w);
    if nleft == 1 {
      sum := sum + addr[w] as Int32;
    }
    assert sum as int == WordSum(Words(p));
    TwoFoldsSuffice(sum as int);
    OnesSumIsCanon(Words(p));
    sum := sum / 65536 + sum % 65536;
    sum := sum + sum / 65536;
    answer := (-1 - sum as int) % 65536;
    ComplementTruncated(sum as int);
  }

  // ----- the checksum field -----

  /** Storing a 16-bit value the way a little-endian machine does. */
  function Stored(p: seq<Byte>, i: nat, v: Word): (r: seq<Byte>)
    requires i + 1 < |p|
    ensures |r| == |p|
  {
    p[i := v % 256][i + 1 := v / 256]
  }

  lemma {:induction false} StoreChangesSum(p: seq<Byte>, i: nat, v: Word)
    requires i % 2 == 0 && i + 1 < |p|
    ensures WordSum(Words(Stored(p, i, v))) + WordOf(p[i], p[i + 1]) == WordSum(Words(p)) + v
    decreases |p|
  {
    var r := Stored(p, i, v);
    if i == 0 {
      assert r[2..] == p[2..];
    } else {
      assert r[2..] == Stored(p[2..], i - 2, v);
      StoreChangesSum(p[2..], i - 2, v);
    }
  }

  /** Filling a zeroed, word-aligned field with the checksum makes the checksum of the whole packet zero. */
  lemma ChecksumRoundTrip(p: seq<Byte>, i: nat)
    requires i % 2 == 0 && i + 1 < |p| && p[i] == 0 && p[i + 1] == 0
    ensures Cksum(Stored(p, i, Cksum(p))) == 0
  {
    var s, v := WordSum(Words(p)), Cksum(p);
    StoreChangesSum(p, i, v);
    OnesSumIsCanon(Words(p));
    OnesSumIsCanon(Words(Stored(p, i, v)));
    if s == 0 {
      CanonIs(s + v, 0, 65535);
    } else {
      var q := CanonSplit(s);
      CanonIs(s + v, q, 65535);
    }
  }

  /** Two sums of the top residue that differ by exchanging one word for another. */
  lemma TopResidueExchange(s: nat, t: nat, was: Word, v: Word)
    requires t + was == s + v && v != was && 0 < s && Canon(s) == 65535
    ensures 0 < t && Canon(t) == 65535 <==> 0 < t && (v, was) in {(0, 65535), (65535, 0)}
  {
    var q := CanonSplit(s);
    if 0 < t && Canon(t) == 65535 {
      var r := CanonSplit(t);
      var d: int := r as int - q as int;
      assert v as int - was as int == d * 65535;
      assert d == 1 || d == -1;
    } else if 0 < t && (v, was) in {(0, 65535), (65535, 0)} {
      if v == 65535 {
        CanonIs(t, q + 1, 65535);
      } else {
        assert q > 0;
        CanonIs(t, q - 1, 65535);
      }
    }
  }

  /** In a packet that checks out, overwriting one word with a different one goes unnoticed exactly when it exchanges
      0 and 0xFFFF, the two representations of zero, and leaves some word non-zero. */
  lemma OneWordErrorDetected(p: seq<Byte>, i: nat, v: Word)
    requires i % 2 == 0 && i + 1 < |p| && Cksum(p) == 0
    requires v != WordOf(p[i], p[i + 1])
    ensures Cksum(Stored(p, i, v)) == 0 <==>
            0 < WordSum(Words(Stored(p, i, v))) && (v, WordOf(p[i], p[i + 1])) in {(0, 65535), (65535, 0)}
  {
    var s, t := WordSum(Words(p)), WordSum(Words(Stored(p, i, v)));
    StoreChangesSum(p, i, v);
    OnesSumIsCanon(Words(p));
    OnesSumIsCanon(Words(Stored(p, i, v)));
    TopResidueExchange(s, t, WordOf(p[i], p[i + 1]), v);
  }

  // ----- section 2 (A): the order of the words does not matter -----

  lemma {:induction false} SumWithout(ws: seq<Word>, i: nat)
    requires i < |ws|
    ensures WordSum(ws) == ws[i] + WordSum(ws[..i] + ws[i + 1..])
  {
    if i > 0 {
      SumWithout(ws[1..], i - 1);
      assert (ws[..i] + ws[i + 1..])[1..] == ws[1..][..i - 1] + ws[1..][i..];
    } else {
      assert ws[..0] + ws[1..] == ws[1..];
    }
  }

  lemma FindFirst(a: seq<Word>, b: seq<Word>) returns (i: nat)
    requires multiset(a) == multiset(b) && a != []
    ensures i < |b| && b[i] == a[0] && multiset(a[1..]) == multiset(b[..i] + b[i + 1..])
  {
    assert a[0] in multiset(b);
    i :| 0 <= i < |b| && b[i] == a[0];
    assert b == b[..i] + [b[i]] + b[i + 1..];
    assert a == [a[0]] + a[1..];
    assert multiset(a[1..]) == multiset(a) - multiset{a[0]};
    assert multiset(b[..i] + b[i + 1..]) == multiset(b) - multiset{b[i]};
  }

  lemma {:induction false} SumOfPermutation(a: seq<Word>, b: seq<Word>)
    requires multiset(a) == multiset(b)
    ensures WordSum(a) == WordSum(b)
    decreases |a|
  {
    if a == [] {
      assert |multiset(b)| == 0;
    } else {
      var i := FindFirst(a, b);
      SumOfPermutation(a[1..], b[..i] + b[i + 1..]);
      SumWithout(b, i);
    }
  }

  /** Packets made of the same words, in any order, have the same checksum. */
  lemma ChecksumIgnoresOrder(p: seq<Byte>, q: seq<Byte>)
    requires multiset(Words(p)) == multiset(Words(q))
    ensures Cksum(p) == Cksum(q)
  {
    SumOfPermutation(Words(p), Words(q));
    OnesSumIsCanon(Words(p));
    OnesSumIsCanon(Words(q));
  }

  // ----- section 2 (B): byte order does not matter -----

  function Swap(w: Word): Word {
    WordOf(w / 256, w % 256)
  }

  /** Every pair of bytes exchanged, an odd last byte first padded with a zero. */
  function Swapped(p: seq<Byte>): seq<Byte> {
    if p == [] then []
    else if |p| == 1 then [0, p[0]]
    else [p[1], p[0]] + Swapped(p[2..])
  }

  lemma SwapIsTimes256(w: Word)
    ensures 256 * w == (w / 256) * 65535 + Swap(w)
  {
  }

  /** Multiplying a word sum by 256 modulo 65535 exchanges its bytes. */
  lemma {:induction false} SwappedSum(p: seq<Byte>) returns (k: nat)
    ensures 256 * WordSum(Words(p)) == k * 65535 + WordSum(Words(Swapped(p)))
    ensures WordSum(Words(p)) == 0 <==> WordSum(Words(Swapped(p))) == 0
    decreases |p|
  {
    if p == [] {
      k := 0;
    } else if |p| == 1 {
      k := 0;
      assert Swapped(p)[2..] == [];
    } else {
      var j := SwappedSum(p[2..]);
      var w := WordOf(p[0], p[1]);
      SwapIsTimes256(w);
      assert Swapped(p)[2..] == Swapped(p[2..]);
      assert w / 256 == p[1] && w % 256 == p[0];
      k := j + p[1];
    }
  }

  lemma CanonTimes256(s: nat, t: nat, k: nat)
    requires 0 < s && 0 < t && 256 * s == k * 65535 + t
    ensures Canon(t) == Swap(Canon(s))
  {
    var q := CanonSplit(s);
    var c := Canon(s);
    SwapIsTimes256(c);
    var m := 256 * q + c / 256 - k;
    assert t == m * 65535 + Swap(c);
    assert 0 < Swap(c) <= 65535;
    assert m >= 0;
    CanonIs(t, m, Swap(c));
  }

  lemma TwoBytes(w: Word, hi: Byte, lo: Byte)
    requires w == 256 * hi + lo
    ensures w / 256 == hi && w % 256 == lo
  {
  }

  lemma SwapOfComplement(w: Word)
    ensures Swap(65535 - w) == 65535 - Swap(w)
  {
    var hi, lo := w / 256, w % 256;
    TwoBytes(65535 - w, 255 - hi, 255 - lo);
  }

  /** Swapping the bytes of every word swaps the bytes of the checksum. */
  lemma ChecksumOfSwapped(p: seq<Byte>)
    ensures Cksum(Swapped(p)) == Swap(Cksum(p))
  {
    var s, t := WordSum(Words(p)), WordSum(Words(Swapped(p)));
    var k := SwappedSum(p);
    OnesSumIsCanon(Words(p));
    OnesSumIsCanon(Words(Swapped(p)));
    SwapOfComplement(Canon(s));
    if s > 0 {
      CanonTimes256(s, t, k);
    }
  }

  // ----- the Echo message -----

  const ICMP_ECHO: Byte := 8
  const ICMP_SIZE: nat := 28  // sizeof(struct icmp)
  const BUFFER_SIZE: nat := 1024

  function High(n: int): Byte {
    n % 65536 / 256
  }

  function Low(n: int): Byte {
    n % 256
  }

  /** An unsigned Echo message of RFC 792: type, code, zeroed checksum, then identifier and sequence number in network
      byte order, the rest of struct icmp zero, and the data. */
  function Echo(id: int, seqn: int, data: seq<Byte>): (p: seq<Byte>)
    ensures |p| == ICMP_SIZE + |data| && p[2] == p[3] == 0
  {
    [ICMP_ECHO, 0, 0, 0, High(id), Low(id), High(seqn), Low(seqn)] + seq(ICMP_SIZE - 8, _ => 0) + data
  }

  lemma EchoAt(id: int, seqn: int, data: seq<Byte>, k: nat)
    requires k < ICMP_SIZE + |data|
    ensures Echo(id, seqn, data)[k] ==
            if k == 0 then ICMP_ECHO
            else if k == 4 then High(id) else if k == 5 then Low(id)
            else if k == 6 then High(seqn) else if k == 7 then Low(seqn)
            else if k < ICMP_SIZE then 0 else data[k - ICMP_SIZE]
  {
  }

  /** The layout in numbers: type 8, code 0, two big-endian 16-bit fields from byte 4 on, zeros up to byte 28, and then
      the data. */
  predicate IsEcho(p: seq<Byte>, id: int, seqn: int, data: seq<Byte>) {
    && |p| == 28 + |data| && p[0] == 8 && p[1] == 0
    && 256 * p[4] as int + p[5] as int == id % 65536 && 256 * p[6] as int + p[7] as int == seqn % 65536
    && (forall k :: 8 <= k < 28 ==> p[k] == 0)
    && p[28..] == data
  }

  lemma EchoIs(id: int, seqn: int, data: seq<Byte>)
    ensures IsEcho(Echo(id, seqn, data), id, seqn, data)
  {
    BigEndian(id);
    BigEndian(seqn);
    hide High, Low;
    var p := Echo(id, seqn, data);
    EchoAt(id, seqn, data, 0);
    EchoAt(id, seqn, data, 1);
    EchoAt(id, seqn, data, 4);
    EchoAt(id, seqn, data, 5);
    EchoAt(id, seqn, data, 6);
    EchoAt(id, seqn, data, 7);
    forall k | 8 <= k < 28 ensures p[k] == 0 {
      EchoAt(id, seqn, data, k);
    }
    forall k | 0 <= k < |data| ensures p[28..][k] == data[k] {
      EchoAt(id, seqn, data, 28 + k);
    }
  }

  lemma BigEndian(n: int)
    ensures 256 * High(n) as int + Low(n) as int == n % 65536
  {
    var q, m := n / 65536, n % 65536;
    LowByte(256 * q + m / 256, m % 256);
    assert n == 256 * (256 * q + m / 256) + m % 256;
  }

  lemma LowByte(h: int, l: int)
    requires 0 <= l < 256
    ensures (256 * h + l) % 256 == l
  {
  }

  method FillEcho(buff: array<Byte>, id: int, seqn: int, data: seq<Byte>)
    requires ICMP_SIZE + |data| <= buff.Length
    modifies buff
    ensures buff[..ICMP_SIZE + |data|] == Echo(id, seqn, data)
    ensures IsEcho(buff[..28 + |data|], id, seqn, data)
  {
    forall k | 0 <= k < buff.Length {
      buff[k] := 0;
    }
    buff[0] := ICMP_ECHO;
    buff[4], buff[5] := High(id), Low(id);
    buff[6], buff[7] := High(seqn), Low(seqn);
    forall k | 0 <= k < |data| {
      buff[ICMP_SIZE + k] := data[k];
    }
    forall k | 0 <= k < ICMP_SIZE + |data| ensures buff[k] == Echo(id, seqn, data)[k] {
      EchoAt(id, seqn, data, k);
    }
    EchoIs(id, seqn, data);
  }

  /** send_icmp up to sendto: the message differs from the unsigned one only in its checksum field, and the receiver's
      in_cksum over it is zero. */
  method SendIcmp(id: int, seqn: int, data: seq<Byte>) returns (packet: seq<Byte>)
    requires ICMP_SIZE + |data| <= BUFFER_SIZE
    ensures |packet| == ICMP_SIZE + |data| && Cksum(packet) == 0
    ensures packet[0] == 8 && packet[1] == 0
    ensures 256 * packet[4] as int + packet[5] as int == id % 65536
    ensures 256 * packet[6] as int + packet[7] as int == seqn % 65536
    ensures (forall k :: 8 <= k < 28 ==> packet[k] == 0) && packet[28..] == data
    ensures forall k :: 0 <= k < |packet| && k != 2 && k != 3 ==> packet[k] == Echo(id, seqn, data)[k]
  {
    var buff := new Byte[BUFFER_SIZE];
    var n := ICMP_SIZE + |data|;
    FillEcho(buff, id, seqn, data);
    var sum := InCksum(buff, n);
    buff[2], buff[3] := sum % 256, sum / 256;
    packet := buff[..n];
    assert packet == Stored(Echo(id, seqn, data), 2, sum);
    ChecksumRoundTrip(Echo(id, seqn, data), 2);
    EchoIs(id, seqn, data);
    assert packet[28..] == Echo(id, seqn, data)[28..];
  }
}
