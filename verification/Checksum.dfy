/** Internet checksums and checksum steering (Yarrp/net.cpp, Yarrp/trace4.cpp,
    Yarrp/trace6.cpp) on a little-endian machine: 16-bit words are read and written low
    byte first. */
module Checksum {
  import opened Numbers

  type Byte = x: nat | x < 0x100
  type Word = x: nat | x < 0x1_0000

  /** One's-complement arithmetic works modulo this number. */
  const ONES: nat := 0xFFFF

  // ---------------------------------------------------------------- the reference sum

  /** One's-complement addition: the carry comes back in at the low end (RFC 1071, section 1). */
  function AddOnes(a: Word, b: Word): Word {
    if a + b < 0x1_0000 then a + b else a + b - ONES
  }

  /** A word in memory: the low byte first. */
  function WordOf(lo: Byte, hi: Byte): Word {
    (lo as nat) + 0x100 * (hi as nat)
  }

  /** The 16-bit words of a byte string; an odd last byte counts as a low byte. */
  function Words(b: seq<Byte>): seq<Word> {
    if |b| == 0 then []
    else if |b| == 1 then [b[0]]
    else [WordOf(b[0], b[1])] + Words(b[2..])
  }

  function SumOnes(w: seq<Word>): Word {
    if w == [] then 0 else AddOnes(w[0], SumOnes(w[1..]))
  }

  /** A packet verifies when the one's-complement sum of all its words has every bit set. */
  predicate Verifies(w: seq<Word>) {
    SumOnes(w) == ONES
  }

  /** The byte after an odd one counts as zero. */
  lemma {:induction false} OddByte(b: seq<Byte>)
    requires |b| % 2 == 1
    ensures Words(b + [0]) == Words(b)
  {
    if |b| > 1 {
      OddByte(b[2..]);
      assert (b + [0])[2..] == b[2..] + [0];
    }
  }

  /** The example of RFC 1071, section 3, on a little-endian machine. */
  lemma SumExample()
    ensures Words([0x00, 0x01, 0xf2, 0x03, 0xf4, 0xf5, 0xf6, 0xf7]) == [0x0100, 0x03f2, 0xf5f4, 0xf7f6]
    ensures SumOnes([0x0100, 0x03f2, 0xf5f4, 0xf7f6]) == 0xf2dd
  {
    var b: seq<Byte> := [0x00, 0x01, 0xf2, 0x03, 0xf4, 0xf5, 0xf6, 0xf7];
    assert b[2..] == [0xf2, 0x03, 0xf4, 0xf5, 0xf6, 0xf7] && b[2..][2..] == [0xf4, 0xf5, 0xf6, 0xf7];
    assert b[2..][2..][2..] == [0xf6, 0xf7] && b[2..][2..][2..][2..] == [];
  }

  // ---------------------------------------------------------------- plain sums

  function Sum(w: seq<Word>): nat {
    if w == [] then 0 else w[0] + Sum(w[1..])
  }

  /** The 16-bit value a plain sum folds to: 0 only for 0, otherwise from 1 to 0xFFFF. */
  function Fold(s: nat): (r: Word)
    ensures r % ONES == s % ONES && (r == 0 <==> s == 0)
  {
    if s == 0 then 0 else (s - 1) % ONES + 1
  }

  lemma FoldUnique(s: nat, r: Word)
    requires r % ONES == s % ONES && (r == 0 <==> s == 0)
    ensures r == Fold(s)
  {
  }

  /** The one's-complement sum is the folded plain sum. */
  lemma {:induction false} SumOnesFolds(w: seq<Word>)
    ensures SumOnes(w) == Fold(Sum(w))
  {
    if w != [] {
      SumOnesFolds(w[1..]);
      AddOnesFolds(w[0], Sum(w[1..]));
    }
  }

  lemma AddOnesFolds(a: Word, s: nat)
    ensures AddOnes(a, Fold(s)) == Fold(a + s)
  {
    if s > 0 {
      var q, r := (s - 1) / ONES, (s - 1) % ONES;
      var carry := if a + r < ONES then 0 else 1;
      if a + r < 2 * ONES {
        DivModUnique(a + s - 1, ONES, q + carry, a + r - carry * ONES);
      }
    }
  }

  lemma {:induction false} SumConcat(v: seq<Word>, w: seq<Word>)
    ensures Sum(v + w) == Sum(v) + Sum(w)
  {
    if v == [] {
      assert v + w == w;
    } else {
      assert (v + w)[1..] == v[1..] + w;
      SumConcat(v[1..], w);
    }
  }

  lemma {:induction false} WordsSize(b: seq<Byte>)
    ensures |Words(b)| == (|b| + 1) / 2
  {
    if |b| > 1 { WordsSize(b[2..]); }
  }

  lemma {:induction false} SumBound(w: seq<Word>)
    ensures Sum(w) <= |w| * ONES
  {
    if w != [] { SumBound(w[1..]); }
  }

  lemma {:induction false} WordsConcat(a: seq<Byte>, b: seq<Byte>)
    requires |a| % 2 == 0
    ensures Words(a + b) == Words(a) + Words(b)
  {
    if a == [] {
      assert a + b == b;
    } else {
      assert (a + b)[2..] == a[2..] + b;
      WordsConcat(a[2..], b);
    }
  }

  /** A packet verifies exactly when its plain sum is a positive multiple of 0xFFFF. */
  lemma VerifiesSum(w: seq<Word>)
    ensures Verifies(w) <==> Sum(w) > 0 && Sum(w) % ONES == 0
  {
    SumOnesFolds(w);
  }

  // ---------------------------------------------------------------- in_cksum

  lemma NextWord(b: seq<Byte>, at: nat)
    requires at + 1 < |b|
    ensures Sum(Words(b[at..])) == WordOf(b[at], b[at + 1]) + Sum(Words(b[at + 2..]))
  {
    assert b[at..][2..] == b[at + 2..];
  }

  /** in_cksum: the complement of the one's-complement sum, for every packet-sized buffer. */
  method InCksum(addr: array<Byte>, len: nat) returns (answer: Word)
    requires len <= addr.Length && len <= 0x1_0000
    ensures answer == ONES - SumOnes(Words(addr[..len]))
  {
    var nleft := len;
    var sum: int := 0;
    var w := 0;
    ghost var all := addr[..len];
    while nleft > 1
      invariant 0 <= nleft && w + nleft == len && sum >= 0
      invariant sum + Sum(Words(all[w..])) == Sum(Words(all))
    {
      NextWord(all, w);
      sum := sum + WordOf(addr[w], addr[w + 1]);
      w := w + 2;
      nleft := nleft - 2;
    }
    if nleft == 1 {
      assert all[w..] == [addr[w]];
      sum := sum + addr[w];
    }
    assert sum == Sum(Words(all));
    WordsBound(all);
    SumOnesFolds(Words(all));
    answer := FoldTwice(sum);
  }

  lemma WordsBound(b: seq<Byte>)
    requires |b| <= 0x1_0000
    ensures Sum(Words(b)) <= 0x8000 * ONES
  {
    var w := Words(b);
    WordsSize(b);
    assert |w| <= 0x8000;
    SumBound(w);
    assert |w| * ONES <= 0x8000 * ONES;
  }

  /** The two folding steps and the truncated complement. The sum stays in 32 bits. */
  method FoldTwice(total: int) returns (answer: Word)
    requires 0 <= total <= 0x8000 * ONES < 0x8000_0000
    ensures answer == ONES - Fold(total)
  {
    var sum := total / 0x1_0000 + total % 0x1_0000;
    sum := sum + sum / 0x1_0000;
    answer := ONES - sum % 0x1_0000;
    FoldUnique(total, sum % 0x1_0000);
  }

  // ---------------------------------------------------------------- p_cksum

  /** The bytes of sumt: the data sum, the header sum, and the sign bits of the shifted
      header sum in the upper half of the 64-bit long. */
  function Combined(sumh: Word, sumd: Word): seq<Byte> {
    var sign := if sumh >= 0x8000 then 0xFF else 0;
    [sumd % 0x100, sumd / 0x100, sumh % 0x100, sumh / 0x100, sign, sign, sign, sign]
  }

  lemma CombinedSum(sumh: Word, sumd: Word)
    ensures Sum(Words(Combined(sumh, sumd))) == sumd + sumh + (if sumh >= 0x8000 then 2 * ONES else 0)
  {
    var b := Combined(sumh, sumd);
    assert b[2..][2..] == b[4..] && b[4..][2..] == b[6..] && b[6..][2..] == [];
    assert Sum(Words(b[6..])) == WordOf(b[6], b[7]);
    assert Sum(Words(b[4..])) == WordOf(b[4], b[5]) + Sum(Words(b[6..]));
    assert Sum(Words(b[2..])) == WordOf(b[2], b[3]) + Sum(Words(b[4..]));
    assert Sum(Words(b)) == WordOf(b[0], b[1]) + Sum(Words(b[2..]));
  }

  /** p_cksum on the bytes of a pseudo-header and a payload: it completes their sum to a
      multiple of 0xFFFF, by 0 only when each of them has every bit set. The sign bits add two
      words of ones and change nothing. */
  method PCksum(pseudo: array<Byte>, data: array<Byte>, len: nat) returns (c: Word)
    requires pseudo.Length <= 0x1_0000 && len <= data.Length && len <= 0x1_0000
    ensures (c + Sum(Words(pseudo[..])) + Sum(Words(data[..len]))) % ONES == 0
    ensures c == 0 <==> Verifies(Words(pseudo[..])) && Verifies(Words(data[..len]))
  {
    var sumh := InCksum(pseudo, pseudo.Length);
    var sumd := InCksum(data, len);
    assert pseudo[..pseudo.Length] == pseudo[..];
    c := CombineSums(sumh, sumd);
    Completes(Words(pseudo[..]), Words(data[..len]), sumh, sumd, c);
  }

  /** The checksum of the two sums, complemented once more. */
  method CombineSums(sumh: Word, sumd: Word) returns (c: Word)
    ensures c == SumOnes(Words(Combined(sumh, sumd)))
  {
    var bytes := new Byte[8];
    StoreLong(bytes, sumh, sumd);
    var answer := InCksum(bytes, 8);
    assert bytes[..8] == Combined(sumh, sumd);
    c := ONES - answer;
  }

  /** sumt as the eight bytes in_cksum reads. */
  method StoreLong(bytes: array<Byte>, sumh: Word, sumd: Word)
    requires bytes.Length == 8
    modifies bytes
    ensures bytes[..] == Combined(sumh, sumd)
  {
    var sign := if sumh >= 0x8000 then 0xFF else 0;
    bytes[0], bytes[1], bytes[2], bytes[3] := sumd % 0x100, sumd / 0x100, sumh % 0x100, sumh / 0x100;
    bytes[4], bytes[5], bytes[6], bytes[7] := sign, sign, sign, sign;
  }

  lemma Completes(p: seq<Word>, d: seq<Word>, sumh: Word, sumd: Word, c: Word)
    requires sumh == ONES - SumOnes(p) && sumd == ONES - SumOnes(d)
    requires c == SumOnes(Words(Combined(sumh, sumd)))
    ensures (c + Sum(p) + Sum(d)) % ONES == 0
    ensures c == 0 <==> sumh == sumd == 0
  {
    CombinedSum(sumh, sumd);
    SumOnesFolds(Words(Combined(sumh, sumd)));
    SumOnesFolds(p);
    SumOnesFolds(d);
    Cancels(Sum(p), Sum(d), sumh, sumd, c);
    assert c == Fold(sumd + sumh + (if sumh >= 0x8000 then 2 * ONES else 0));
  }

  lemma Cancels(p: nat, d: nat, sumh: Word, sumd: Word, c: Word)
    requires sumh == ONES - Fold(p) && sumd == ONES - Fold(d)
    requires c == Fold(sumd + sumh + (if sumh >= 0x8000 then 2 * ONES else 0))
    ensures (c + p + d) % ONES == 0
  {
    var i := FoldedOff(p);
    var j := FoldedOff(d);
    var t := if sumh >= 0x8000 then 2 else 0;
    var m := FoldedOff(sumd + sumh + t * ONES);
    DivModUnique(c + p + d, ONES, i + j - m + 2 + t, 0);
  }

  /** Folding takes off a multiple of 0xFFFF. */
  lemma FoldedOff(s: nat) returns (q: int)
    ensures s == Fold(s) + q * ONES
  {
    q := if s == 0 then 0 else (s - 1) / ONES;
  }

  // ---------------------------------------------------------------- pseudo-headers

  /** The pseudo-header p_cksum fills for IPv4: a zero byte, the protocol, the length, both
      addresses; and the one of RFC 793, section 3.1: the same with the addresses first. */
  function Overlay4(src: seq<Byte>, dst: seq<Byte>, proto: Byte, len: Word): seq<Byte> {
    [0, proto, len / 0x100, len % 0x100] + src + dst
  }

  function Standard4(src: seq<Byte>, dst: seq<Byte>, proto: Byte, len: Word): seq<Byte> {
    src + dst + [0, proto, len / 0x100, len % 0x100]
  }

  /** For IPv6: the addresses, htons(len) in a 32-bit field, three zero bytes, the protocol;
      and the one of RFC 2460, section 8.1, with the length as 32-bit big-endian number. */
  function Overlay6(src: seq<Byte>, dst: seq<Byte>, proto: Byte, len: Word): seq<Byte> {
    src + dst + [len / 0x100, len % 0x100, 0, 0, 0, 0, 0, proto]
  }

  function Standard6(src: seq<Byte>, dst: seq<Byte>, proto: Byte, len: Word): seq<Byte> {
    src + dst + [0, 0, len / 0x100, len % 0x100, 0, 0, 0, proto]
  }

  /** The fields of the standard pseudo-headers; numbers have the high byte first. */
  lemma StandardFields(src: seq<Byte>, dst: seq<Byte>, proto: Byte, len: Word)
    ensures |src| == |dst| == 4 ==>
      var h := Standard4(src, dst, proto, len);
      && |h| == 12 && h[..4] == src && h[4..8] == dst
      && h[8] == 0 && h[9] == proto && 0x100 * (h[10] as nat) + h[11] == len
    ensures |src| == |dst| == 16 ==>
      var h := Standard6(src, dst, proto, len);
      && |h| == 40 && h[..16] == src && h[16..32] == dst
      && h[32] == h[33] == 0 && 0x100 * (h[34] as nat) + h[35] == len
      && h[36] == h[37] == h[38] == 0 && h[39] == proto
  {
  }

  /** The order of the words does not matter: both overlays sum like the standard ones. */
  lemma OverlaySums(src: seq<Byte>, dst: seq<Byte>, proto: Byte, len: Word)
    requires |src| % 2 == 0 && |dst| % 2 == 0
    ensures Sum(Words(Overlay4(src, dst, proto, len))) == Sum(Words(Standard4(src, dst, proto, len)))
    ensures Sum(Words(Overlay6(src, dst, proto, len))) == Sum(Words(Standard6(src, dst, proto, len)))
  {
    OverlaySum4(src, dst, proto, len);
    OverlaySum6(src, dst, proto, len);
  }

  lemma OverlaySum4(src: seq<Byte>, dst: seq<Byte>, proto: Byte, len: Word)
    requires |src| % 2 == 0 && |dst| % 2 == 0
    ensures Sum(Words(Overlay4(src, dst, proto, len))) == Sum(Words(Standard4(src, dst, proto, len)))
  {
    var h: seq<Byte> := [0, proto, len / 0x100, len % 0x100];
    var a := src + dst;
    assert Overlay4(src, dst, proto, len) == h + a;
    WordsConcat(h, a);
    SumConcat(Words(h), Words(a));
    WordsConcat(a, h);
    SumConcat(Words(a), Words(h));
  }

  lemma OverlaySum6(src: seq<Byte>, dst: seq<Byte>, proto: Byte, len: Word)
    requires |src| % 2 == 0 && |dst| % 2 == 0
    ensures Sum(Words(Overlay6(src, dst, proto, len))) == Sum(Words(Standard6(src, dst, proto, len)))
  {
    var a := src + dst;
    var o: seq<Byte> := [len / 0x100, len % 0x100, 0, 0, 0, 0, 0, proto];
    var t: seq<Byte> := [0, 0, len / 0x100, len % 0x100, 0, 0, 0, proto];
    WordsConcat(a, o);
    SumConcat(Words(a), Words(o));
    WordsConcat(a, t);
    SumConcat(Words(a), Words(t));
    assert o[2..][2..] == t[4..] && t[2..][2..] == t[4..];
    assert Sum(Words(o[2..])) == 0 + Sum(Words(t[4..]));
    assert Sum(Words(t[2..])) == WordOf(t[2], t[3]) + Sum(Words(t[4..]));
  }

  // ---------------------------------------------------------------- steering

  /** compute_data: the data word, never 0, that turns a starting checksum into the target. On the
      promoted integers the complements compare the other way round. */
  method ComputeData(start: Word, target: Word) returns (answer: Word)
    ensures (answer + target) % ONES == start % ONES && answer > 0
  {
    var t: int := target;
    if t == 0xFFFF {
      t := 0;
    }
    var ct, cs: int := -t - 1, -(start as int) - 1;
    if ct > cs {
      answer := ct - cs;
    } else {
      answer := (0xFFFF - cs + ct) % 0x1_0000;
    }
  }

  /** A 16-bit store at an even offset. */
  function SetWord(b: seq<Byte>, at: nat, v: Word): (r: seq<Byte>)
    requires at + 1 < |b|
    ensures |r| == |b|
  {
    b[at := v % 0x100][at + 1 := v / 0x100]
  }

  lemma SetWordSum(b: seq<Byte>, at: nat, v: Word)
    requires at % 2 == 0 && at + 1 < |b|
    ensures Sum(Words(SetWord(b, at, v))) + WordOf(b[at], b[at + 1]) == Sum(Words(b)) + v
  {
    WordInside(b, at);
    var c := SetWord(b, at, v);
    assert c[..at] == b[..at] && c[at + 2..] == b[at + 2..];
    WordInside(c, at);
  }

  lemma WordInside(b: seq<Byte>, at: nat)
    requires at % 2 == 0 && at + 1 < |b|
    ensures Sum(Words(b)) == Sum(Words(b[..at])) + WordOf(b[at], b[at + 1]) + Sum(Words(b[at + 2..]))
  {
    assert b == b[..at] + b[at..];
    WordsConcat(b[..at], b[at..]);
    SumConcat(Words(b[..at]), Words(b[at..]));
    assert b[at..][2..] == b[at + 2..];
  }

  /** The packet with checksum and data word in place. */
  function Steered(b: seq<Byte>, sumAt: nat, dataAt: nat, data: Word, checksum: Word): (r: seq<Byte>)
    requires sumAt + 1 < |b| && dataAt + 1 < |b|
    ensures |r| == |b|
  {
    SetWord(SetWord(b, dataAt, data), sumAt, checksum)
  }

  lemma SteeredSum(b: seq<Byte>, sumAt: nat, dataAt: nat, data: Word, checksum: Word)
    requires sumAt % 2 == 0 && dataAt % 2 == 0 && sumAt != dataAt && sumAt + 1 < |b| && dataAt + 1 < |b|
    requires b[sumAt] == b[sumAt + 1] == b[dataAt] == b[dataAt + 1] == 0
    ensures Sum(Words(Steered(b, sumAt, dataAt, data, checksum))) == Sum(Words(b)) + data + checksum
  {
    SetWordSum(b, dataAt, data);
    var c := SetWord(b, dataAt, data);
    SetWordApart(b, dataAt, data, sumAt);
    SetWordSum(c, sumAt, checksum);
  }

  lemma SetWordApart(b: seq<Byte>, at: nat, v: Word, other: nat)
    requires at % 2 == 0 && other % 2 == 0 && other != at && at + 1 < |b| && other + 1 < |b|
    ensures SetWord(b, at, v)[other] == b[other] && SetWord(b, at, v)[other + 1] == b[other + 1]
  {
    assert other + 1 != at && other != at + 1;
  }

  /** A 16-bit store in place. */
  method StoreWord(b: array<Byte>, at: nat, v: Word)
    requires at + 1 < b.Length
    modifies b
    ensures b[..] == SetWord(old(b[..]), at, v)
  {
    b[at] := v % 0x100;
    b[at + 1] := v / 0x100;
  }

  /** The checksum as transmitted: 0 is sent as 0xFFFF. */
  function Sent(want: Word): Word {
    if want == 0 then 0xFFFF else want
  }

  /** A packet whose checksum and data word are cleared. */
  ghost predicate Cleared(b: seq<Byte>, sumAt: nat, dataAt: nat) {
    && sumAt % 2 == 0 && dataAt % 2 == 0 && sumAt != dataAt
    && sumAt + 1 < |b| && dataAt + 1 < |b|
    && b[sumAt] == b[sumAt + 1] == b[dataAt] == b[dataAt + 1] == 0
  }

  /** With a data word that makes up the difference, the wanted checksum verifies. */
  lemma SteeringVerifies(front: seq<Word>, b: seq<Byte>, sumAt: nat, dataAt: nat, start: Word, data: Word, want: Word)
    requires Cleared(b, sumAt, dataAt)
    requires (start + Sum(front) + Sum(Words(b))) % ONES == 0
    requires (data + want) % ONES == start % ONES
    ensures Verifies(front + Words(Steered(b, sumAt, dataAt, data, Sent(want))))
  {
    var c := Steered(b, sumAt, dataAt, data, Sent(want));
    SteeredSum(b, sumAt, dataAt, data, Sent(want));
    SumConcat(front, Words(c));
    VerifiesSum(front + Words(c));
    Balanced(Sum(front) + Sum(Words(b)), start, data, want);
  }

  lemma Balanced(s: nat, start: Word, data: Word, want: Word)
    requires (start + s) % ONES == 0 && (data + want) % ONES == start % ONES
    ensures (s + data + Sent(want)) % ONES == 0 && s + data + Sent(want) > 0
  {
  }

  /** The steering in probeUDP and, at other offsets, for the IPv6 UDP and TCP probes: the
      packet verifies together with its pseudo-header and carries the wanted checksum. */
  method Steer(pseudo: array<Byte>, packet: array<Byte>, sumAt: nat, dataAt: nat, want: Word)
    requires pseudo.Length <= 0x1_0000 && packet.Length <= 0x1_0000 && pseudo != packet
    requires Cleared(packet[..], sumAt, dataAt)
    modifies packet
    ensures exists data: Word :: packet[..] == Steered(old(packet[..]), sumAt, dataAt, data, Sent(want))
    ensures WordOf(packet[sumAt], packet[sumAt + 1]) == if want == 0 then 0xFFFF else want
    ensures Verifies(Words(pseudo[..]) + Words(packet[..]))
  {
    ghost var before := packet[..];
    assert packet[..packet.Length] == before;
    var start := PCksum(pseudo, packet, packet.Length);
    var data := ComputeData(start, want);
    StoreWord(packet, dataAt, data);
    StoreWord(packet, sumAt, Sent(want));
    assert packet[..] == Steered(before, sumAt, dataAt, data, Sent(want));
    SteeringVerifies(Words(pseudo[..]), before, sumAt, dataAt, start, data, want);
    SteeredBytes(before, sumAt, dataAt, data, want);
  }

  /** The steering in probeICMP: checksum at 2, data word at 8, no pseudo-header. */
  method SteerIcmp(icmp: array<Byte>, want: Word)
    requires 10 <= icmp.Length <= 0x1_0000 && Cleared(icmp[..], 2, 8)
    modifies icmp
    ensures exists data: Word :: icmp[..] == Steered(old(icmp[..]), 2, 8, data, Sent(want))
    ensures WordOf(icmp[2], icmp[3]) == if want == 0 then 0xFFFF else want
    ensures Verifies(Words(icmp[..]))
  {
    ghost var before := icmp[..];
    assert icmp[..icmp.Length] == before;
    var start := InCksum(icmp, icmp.Length);
    SumOnesFolds(Words(before));
    var data := ComputeData(start, want);
    IcmpVerifies(before, start, data, want);
    StoreWord(icmp, 8, data);
    StoreWord(icmp, 2, Sent(want));
    assert icmp[..] == Steered(before, 2, 8, data, Sent(want));
    SteeredBytes(before, 2, 8, data, want);
  }

  lemma IcmpVerifies(b: seq<Byte>, start: Word, data: Word, want: Word)
    requires Cleared(b, 2, 8) && (start + Sum(Words(b))) % ONES == 0 && (data + want) % ONES == start % ONES
    ensures Verifies(Words(Steered(b, 2, 8, data, Sent(want))))
  {
    SteeringVerifies([], b, 2, 8, start, data, want);
    assert [] + Words(Steered(b, 2, 8, data, Sent(want))) == Words(Steered(b, 2, 8, data, Sent(want)));
  }

  /** The steered packet carries the wanted checksum and differs from the cleared one only
      in the two words. */
  lemma SteeredBytes(b: seq<Byte>, sumAt: nat, dataAt: nat, data: Word, want: Word)
    requires Cleared(b, sumAt, dataAt)
    ensures
      var c := Steered(b, sumAt, dataAt, data, Sent(want));
      && WordOf(c[sumAt], c[sumAt + 1]) == (if want == 0 then 0xFFFF else want)
      && WordOf(c[dataAt], c[dataAt + 1]) == data
      && (forall i | 0 <= i < |b| && i / 2 != sumAt / 2 && i / 2 != dataAt / 2 :: c[i] == b[i])
  {
    SetWordApart(SetWord(b, dataAt, data), sumAt, Sent(want), dataAt);
  }
}
