/** The Internet-wide IPv6 mode (Yarrp/entire.cpp): SPECK 48/96 on 24-bit words turns a
    counter into a /48 prefix and a TTL. Words are numbers below 2^24; an operation of the
    source that can leave 24 bits is followed by the mask it applies. */
module Speck {
  import opened Numbers

  const ROUNDS: nat := 23
  const KEYLEN: nat := 4
  const WORD: nat := 0x100_0000
  const RANGE: nat := 0xFFFF_FFFF_FFFF

  datatype Block = Block(x: nat, y: nat) {
    predicate Fits() { x < WORD && y < WORD }
  }

  // ---------------------------------------------------------------- one round

  /** The macros ROR and ROL on a 24-bit word: the low and the high part trade places. */
  function Ror8(x: nat): nat { x / 0x100 + x % 0x100 * 0x1_0000 }
  function Rol8(x: nat): nat { x / 0x1_0000 + x % 0x1_0000 * 0x100 }
  function Ror3(x: nat): nat { x / 0x8 + x % 0x8 * 0x20_0000 }
  function Rol3(x: nat): nat { x / 0x20_0000 + x % 0x20_0000 * 0x8 }

  /** (x + y) & MASK24 and (x - y) & MASK24 */
  function Add(x: nat, y: nat): nat { (x + y) % WORD }
  function Sub(x: nat, y: nat): nat { (x + WORD - y % WORD) % WORD }

  /** The macro R: x is rotated, added to y and mixed with the key; y is rotated and mixed with x. */
  function Round(b: Block, k: nat): Block {
    var x := BitXor(Add(Ror8(b.x), b.y), k);
    Block(x, BitXor(Rol3(b.y), x))
  }

  /** The macro RR: the steps of R backwards. */
  function RoundBack(b: Block, k: nat): Block {
    var y := Ror3(BitXor(b.y, b.x));
    Block(Rol8(Sub(BitXor(b.x, k), y)), y)
  }

  /** Rounds in which the first word stands alone, or the second one cancels with the key. */
  lemma RoundOfX(x: nat)
    requires x < WORD
    ensures Round(Block(x, 0), 0) == Block(Ror8(x), Ror8(x))
  {
    RoundOf(x, 0, 0, Ror8(x), 0);
    XorAlone(Ror8(x));
  }

  lemma RoundOfY(y: nat)
    requires y < 0x20_0000
    ensures Round(Block(0, y), y) == Block(0, 8 * y)
  {
    RoundOf(0, y, y, y, 8 * y);
    XorAlone(y);
    XorAlone(8 * y);
  }

  /** The sum is taken modulo 2^24. */
  lemma RoundCarries(x: nat, y: nat)
    requires x < WORD && 0 < y < 0x20_0000 && Ror8(x) + y == WORD
    ensures Round(Block(x, y), 0) == Block(0, 8 * y)
  {
    RoundOf(x, y, 0, 0, 8 * y);
    XorAlone(0);
    XorAlone(8 * y);
  }

  lemma RoundOf(x: nat, y: nat, k: nat, sum: nat, rotated: nat)
    requires sum == Add(Ror8(x), y) && rotated == Rol3(y)
    ensures Round(Block(x, y), k) == Block(BitXor(sum, k), BitXor(rotated, BitXor(sum, k)))
  {
  }

  lemma {:induction false} XorAlone(a: nat)
    ensures BitXor(a, 0) == BitXor(0, a) == a && BitXor(a, a) == 0
  {
    if a > 0 { XorAlone(a / 2); }
  }

  /** The rotations of a word of c + r bits are the shifts the macros write: the left part
      masked, the parts or-ed. */
  lemma RotationsAreShifts(x: nat, r: nat, c: nat)
    requires x < Pow2(c + r)
    ensures BitOr(Low(Shl(x, r), c + r), Shr(x, c)) == Shr(x, c) + Shl(Low(x, c), r)
  {
    var hi, lo := Shr(x, c), Low(x, c);
    ShlPow2(r, c);
    ShrBelow(x, Pow2(r), c);
    ShiftedParts(x, r, c);
    LowBelow(lo, c, r);
    ShiftUnique(Shl(x, r), hi, Shl(lo, r), c + r);
    BitOrDisjoint(lo, hi, r);
  }

  lemma ShiftedParts(x: nat, r: nat, c: nat)
    ensures Shl(x, r) == Shl(Shr(x, c), c + r) + Shl(Low(x, c), r)
  {
    ShiftParts(x, c);
    ShlAdd(Shl(Shr(x, c), c), Low(x, c), r);
    ShlShl(Shr(x, c), c, r);
  }

  /** ROR(x, 8), ROL(x, 3) and their inverses, as the macros write them; l and c are the two
      shift counts. */
  lemma RotationAmounts(x: nat, l: nat, c: nat)
    requires x < WORD && l + c == 24
    ensures var r := BitOr(Low(Shl(x, l), c + l), Shr(x, c));
      && (c == 8 ==> r == Ror8(x)) && (l == 8 ==> r == Rol8(x))
      && (c == 3 ==> r == Ror3(x)) && (l == 3 ==> r == Rol3(x))
  {
    WordSize();
    RotationsAreShifts(x, l, c);
    ShiftIsArithmetic(x, c);
    ShiftIsArithmetic(Low(x, c), l);
    SmallPowers();
  }

  lemma SmallPowers()
    ensures Pow2(3) == 0x8 && Pow2(8) == 0x100 && Pow2(16) == 0x1_0000 && Pow2(21) == 0x20_0000
  {
    assert Pow2(3) == 8;
    assert Pow2(8) == 256;
    Pow2Add(8, 8);
    Pow2Add(16, 5);
  }

  lemma LowBelow(lo: nat, c: nat, r: nat)
    requires lo < Pow2(c)
    ensures Shl(lo, r) < Pow2(c + r)
  {
    ShlStep(lo, Pow2(c), r);
    ShlPow2(c, r);
  }

  lemma RotateBack(x: nat)
    requires x < WORD
    ensures Rol8(x) < WORD && Ror8(Rol8(x)) == x
    ensures Rol3(x) < WORD && Ror3(Rol3(x)) == x
    ensures Ror8(x) < WORD && Rol8(Ror8(x)) == x
    ensures Ror3(x) < WORD && Rol3(Ror3(x)) == x
  {
    DivModUnique(Rol8(x), 0x100, x % 0x1_0000, x / 0x1_0000);
    DivModUnique(Ror8(x), 0x1_0000, x % 0x100, x / 0x100);
    DivModUnique(Rol3(x), 0x8, x % 0x20_0000, x / 0x20_0000);
    DivModUnique(Ror3(x), 0x20_0000, x % 0x8, x / 0x8);
  }

  lemma AddBack(x: nat, y: nat)
    requires x < WORD && y < WORD
    ensures Sub(Add(x, y), y) == x
    ensures Add(Sub(x, y), y) == x
  {
  }

  lemma XorWord(a: nat, b: nat)
    requires a < WORD && b < WORD
    ensures BitXor(a, b) < WORD && BitXor(BitXor(a, b), b) == a
  {
    WordSize();
    XorBelow(a, b, 24);
    XorTwice(a, b);
  }

  lemma WordSize()
    ensures Pow2(24) == WORD
  {
    assert Pow2(6) == 64;
    Pow2Add(6, 6);
    Pow2Add(12, 12);
  }

  /** R and RR stay within 24-bit words and undo each other. */
  lemma RoundUndone(b: Block, k: nat)
    requires b.Fits() && k < WORD
    ensures Round(b, k).Fits() && RoundBack(Round(b, k), k) == b
  {
    RotateBack(b.x);
    RotateBack(b.y);
    var s, y := Add(Ror8(b.x), b.y), Rol3(b.y);
    XorWord(s, k);
    XorWord(y, BitXor(s, k));
    AddBack(Ror8(b.x), b.y);
  }

  lemma RoundRedone(b: Block, k: nat)
    requires b.Fits() && k < WORD
    ensures RoundBack(b, k).Fits() && Round(RoundBack(b, k), k) == b
  {
    var z, u := BitXor(b.x, k), BitXor(b.y, b.x);
    XorWord(b.x, k);
    XorWord(b.y, b.x);
    RotateBack(u);
    var d := Sub(z, Ror3(u));
    AddBack(z, Ror3(u));
    RotateBack(d);
  }

  // ---------------------------------------------------------------- all rounds

  ghost predicate Words(keys: seq<nat>) {
    forall i | 0 <= i < |keys| :: keys[i] < WORD
  }

  function Encrypted(b: Block, keys: seq<nat>, n: nat): Block
    requires n <= |keys|
  {
    if n == 0 then b else Round(Encrypted(b, keys, n - 1), keys[n - 1])
  }

  /** Round keys are used in order. */
  lemma TwoRounds(b: Block, keys: seq<nat>)
    requires |keys| >= 2
    ensures Encrypted(b, keys, 2) == Round(Round(b, keys[0]), keys[1])
  {
    assert Encrypted(b, keys, 1) == Round(Encrypted(b, keys, 0), keys[0]);
  }

  function Decrypted(b: Block, keys: seq<nat>, n: nat): Block
    requires n <= |keys|
    decreases n
  {
    if n == 0 then b else Decrypted(RoundBack(b, keys[n - 1]), keys, n - 1)
  }

  /** Encryption is a bijection on 48-bit blocks, whatever the round keys. */
  lemma {:induction false} DecryptsEncrypted(b: Block, keys: seq<nat>, n: nat)
    requires b.Fits() && Words(keys) && n <= |keys|
    ensures Encrypted(b, keys, n).Fits() && Decrypted(Encrypted(b, keys, n), keys, n) == b
  {
    if n > 0 {
      DecryptsEncrypted(b, keys, n - 1);
      RoundUndone(Encrypted(b, keys, n - 1), keys[n - 1]);
    }
  }

  lemma {:induction false} EncryptsDecrypted(b: Block, keys: seq<nat>, n: nat)
    requires b.Fits() && Words(keys) && n <= |keys|
    ensures Decrypted(b, keys, n).Fits() && Encrypted(Decrypted(b, keys, n), keys, n) == b
    decreases n
  {
    if n > 0 {
      RoundRedone(b, keys[n - 1]);
      EncryptsDecrypted(RoundBack(b, keys[n - 1]), keys, n - 1);
    }
  }

  /** speck_48_96_encrypt on the two words of a block, the low word first. */
  method Encrypt(pt: array<nat>, ct: array<nat>, keys: array<nat>)
    requires pt.Length == ct.Length == 2 && keys.Length == ROUNDS && ct != keys && ct != pt
    modifies ct
    ensures Block(ct[1], ct[0]) == Encrypted(Block(pt[1], pt[0]), keys[..], keys.Length)
  {
    ghost var b, ks := Block(pt[1], pt[0]), keys[..];
    ct[0] := pt[0];
    ct[1] := pt[1];
    var i := 0;
    while i < ROUNDS
      invariant i <= |ks| == ROUNDS && keys[..] == ks
      invariant Block(ct[1], ct[0]) == Encrypted(b, ks, i)
    {
      ct[1], ct[0] := ApplyRound(ct[1], ct[0], keys[i]);
      i := i + 1;
      assert Encrypted(b, ks, i) == Round(Encrypted(b, ks, i - 1), ks[i - 1]);
    }
  }

  /** The macro R on two variables. */
  method ApplyRound(x: nat, y: nat, k: nat) returns (x': nat, y': nat)
    ensures Block(x', y') == Round(Block(x, y), k)
  {
    x' := Ror8(x);
    x' := Add(x', y);
    x' := BitXor(x', k);
    y' := Rol3(y);
    y' := BitXor(y', x');
  }

  // ---------------------------------------------------------------- round keys

  /** The state of the key schedule after i rounds: the other key words and the round key. */
  function Schedule(key: seq<nat>, i: nat): (r: (seq<nat>, nat))
    requires |key| == KEYLEN
    ensures |r.0| == KEYLEN - 1
  {
    if i == 0 then (key[1..], key[0])
    else
      var (a, b) := Schedule(key, i - 1);
      var j := (i - 1) % (KEYLEN - 1);
      var n := Round(Block(a[j], b), i - 1);
      (a[j := n.x], n.y)
  }

  /** Every round key is a word. */
  lemma {:induction false} ScheduleFits(key: seq<nat>, i: nat)
    requires |key| == KEYLEN && Words(key) && i < ROUNDS
    ensures Words(Schedule(key, i).0) && Schedule(key, i).1 < WORD
  {
    if i > 0 {
      ScheduleFits(key, i - 1);
      var (a, b) := Schedule(key, i - 1);
      RoundUndone(Block(a[(i - 1) % (KEYLEN - 1)], b), i - 1);
    }
  }

  /** The first n round keys. */
  function RoundKeys(key: seq<nat>, n: nat): (r: seq<nat>)
    requires |key| == KEYLEN
    ensures |r| == n
  {
    if n == 0 then [] else RoundKeys(key, n - 1) + [Schedule(key, n - 1).1]
  }

  lemma {:induction false} RoundKeysFit(key: seq<nat>, n: nat)
    requires |key| == KEYLEN && Words(key) && n <= ROUNDS
    ensures Words(RoundKeys(key, n))
  {
    if n > 0 {
      RoundKeysFit(key, n - 1);
      ScheduleFits(key, n - 1);
    }
  }

  /** speck_48_96_expand */
  method Expand(key: array<nat>, keys: array<nat>)
    requires key.Length == KEYLEN && keys.Length == ROUNDS && key != keys && Words(key[..])
    modifies keys
    ensures keys[..] == RoundKeys(key[..], keys.Length) && Words(keys[..])
  {
    ghost var k := key[..];
    var b := key[0];
    var a := new nat[KEYLEN - 1];
    var i := 0;
    while i < KEYLEN - 1
      invariant 0 <= i <= KEYLEN - 1
      invariant forall j | 0 <= j < i :: a[j] == k[j + 1]
    {
      a[i] := key[i + 1];
      i := i + 1;
    }
    assert a[..] == k[1..];
    keys[0] := b;
    i := 0;
    while i < ROUNDS - 1
      invariant i < ROUNDS && key[..] == k && Schedule(k, i) == (a[..], b)
      invariant keys[..i + 1] == RoundKeys(k, i + 1)
    {
      ghost var before := a[..];
      a[i % (KEYLEN - 1)], b := ApplyRound(a[i % (KEYLEN - 1)], b, i);
      ScheduleStep(k, i, before, Schedule(k, i).1, a[..], b);
      keys[i + 1] := b;
      i := i + 1;
      assert keys[..i + 1] == keys[..i] + [b];
    }
    assert keys[..] == keys[..keys.Length];
    RoundKeysFit(k, keys.Length);
  }

  lemma ScheduleStep(key: seq<nat>, i: nat, a: seq<nat>, b: nat, a': seq<nat>, b': nat)
    requires |key| == KEYLEN && Schedule(key, i) == (a, b)
    requires
      var j := i % (KEYLEN - 1);
      |a'| == |a| && a' == a[j := a'[j]] && Block(a'[j], b') == Round(Block(a[j], b), i)
    ensures Schedule(key, i + 1) == (a', b')
  {
  }

  // ---------------------------------------------------------------- prefixes and TTLs

  /** The first six address bytes and the TTL of a probe. */
  datatype Probe = Probe(addr: seq<nat>, ttl: nat)

  /** The two words of a counter. */
  function Plain(i: nat): Block {
    Block(i / WORD % WORD, i % WORD)
  }

  lemma PlainDiffers(i: nat, j: nat)
    requires i < j <= RANGE
    ensures Plain(i).Fits() && Plain(j).Fits() && Plain(i) != Plain(j)
  {
    assert RANGE == WORD * WORD - 1;
    assert i / WORD < WORD && j / WORD < WORD;
  }

  /** The bytes the loop fills: 2000::/4, then the 44 low bits, and the four top bits as TTL. */
  function Packed(b: Block): Probe {
    Probe([0x20 + b.y % 16, b.y / 0x10 % 0x100, b.y / 0x1000 % 0x100,
           b.y / 0x10_0000 % 16 * 16 + b.x % 16, b.x / 0x10 % 0x100, b.x / 0x1000 % 0x100],
          b.x / 0x10_0000 % 16 + 1)
  }

  /** The block a probe was packed from. */
  function Unpacked(p: Probe): Block
    requires |p.addr| == 6 && p.ttl > 0
  {
    Block(
      p.addr[3] % 16 + 0x10 * p.addr[4] + 0x1000 * p.addr[5] + 0x10_0000 * (p.ttl - 1),
      p.addr[0] % 16 + 0x10 * p.addr[1] + 0x1000 * p.addr[2] + 0x10_0000 * (p.addr[3] / 16))
  }

  /** Nothing is lost in packing. */
  lemma UnpackPacked(b: Block)
    requires b.Fits()
    ensures Unpacked(Packed(b)) == b
  {
    WordParts(b.x);
    WordParts(b.y);
  }

  lemma WordParts(w: nat)
    requires w < WORD
    ensures w == w % 16 + 0x10 * (w / 0x10 % 0x100) + 0x1000 * (w / 0x1000 % 0x100) + 0x10_0000 * (w / 0x10_0000 % 16)
  {
    var a := w / 0x10;
    var b := w / 0x1000;
    assert b == a / 0x100;
    assert w / 0x10_0000 == b / 0x100 && w / 0x10_0000 < 16;
  }

  /** Packing undoes unpacking for the bytes that the loop can produce. */
  lemma PackUnpacked(p: Probe)
    requires |p.addr| == 6 && 0x20 <= p.addr[0] < 0x30 && 1 <= p.ttl <= 16
    requires forall k | 0 <= k < 6 :: p.addr[k] < 0x100
    ensures Unpacked(p).Fits() && Packed(Unpacked(p)) == p
  {
    var a, b := p.addr, Unpacked(p);
    WordFrom(a[3] % 16, a[4], a[5], p.ttl - 1);
    WordFrom(a[0] % 16, a[1], a[2], a[3] / 16);
    assert b.y / 0x10_0000 % 16 * 16 + b.x % 16 == a[3];
    assert 0x20 + b.y % 16 == a[0];
    assert Packed(b).addr == p.addr;
  }

  lemma WordFrom(a: nat, b: nat, c: nat, d: nat)
    requires a < 16 && b < 0x100 && c < 0x100 && d < 16
    ensures
      var w := a + 0x10 * b + 0x1000 * c + 0x10_0000 * d;
      w < WORD && w % 16 == a && w / 0x10 % 0x100 == b && w / 0x1000 % 0x100 == c && w / 0x10_0000 % 16 == d
  {
    var w := a + 0x10 * b + 0x1000 * c + 0x10_0000 * d;
    assert w / 0x10 == b + 0x100 * c + 0x1_0000 * d;
    assert w / 0x1000 == c + 0x100 * d;
    assert w / 0x10_0000 == d;
  }

  /** Where the digits of two words go: the last digit of y after the leading 2, the last digit
      of x after the first one of y, the first digit of x to the TTL. */
  lemma PackedIs(a: nat, b: nat, c: nat, d: nat, e: nat, f: nat, g: nat, h: nat)
    requires a < 16 && b < 0x100 && c < 0x100 && d < 16 && e < 16 && f < 0x100 && g < 0x100 && h < 16
    ensures Packed(Block(a + 0x10 * b + 0x1000 * c + 0x10_0000 * d, e + 0x10 * f + 0x1000 * g + 0x10_0000 * h))
         == Probe([0x20 + e, f, g, 0x10 * h + a, b, c], d + 1)
  {
    WordFrom(a, b, c, d);
    WordFrom(e, f, g, h);
  }

  /** The counter with the given two words. */
  function Counter(b: Block): nat {
    b.x * WORD + b.y
  }

  lemma PlainCounter(b: Block)
    requires b.Fits()
    ensures Plain(b.x * WORD + b.y) == b && Counter(b) == b.x * WORD + b.y <= RANGE
  {
    DivModUnique(Counter(b), WORD, b.x, b.y);
    DivModUnique(b.x, WORD, 0, b.x);
  }

  /** Every prefix that the loop can produce comes, from a counter that the loop reaches: one
      with TTL 1 or one with TTL 2, since only one counter is left out. */
  lemma EveryPrefix(keys: seq<nat>, a: seq<nat>) returns (i: nat)
    requires Words(keys) && |a| == 6 && 0x20 <= a[0] < 0x30
    requires forall k | 0 <= k < 6 :: a[k] < 0x100
    ensures i < RANGE && ProbeOf(keys, i).addr == a
  {
    i := CounterOf(keys, Probe(a, 1));
    if i == RANGE {
      i := CounterOf(keys, Probe(a, 2));
    }
  }

  lemma CounterOf(keys: seq<nat>, p: Probe) returns (i: nat)
    requires Words(keys) && |p.addr| == 6 && 0x20 <= p.addr[0] < 0x30 && 1 <= p.ttl <= 16
    requires forall k | 0 <= k < 6 :: p.addr[k] < 0x100
    ensures i <= RANGE && ProbeOf(keys, i) == p
  {
    var b := Unpacked(p);
    PackUnpacked(p);
    EncryptsDecrypted(b, keys, |keys|);
    var plain := Decrypted(b, keys, |keys|);
    PlainCounter(plain);
    i := Counter(plain);
  }

  /** The probe of a loop counter. */
  function ProbeOf(keys: seq<nat>, i: nat): Probe {
    Packed(Encrypted(Plain(i), keys, |keys|))
  }

  /** Different counters give different pairs of a /48 prefix and a TTL. */
  lemma ProbesDiffer(keys: seq<nat>, i: nat, j: nat)
    requires Words(keys) && i < j <= RANGE
    ensures ProbeOf(keys, i) != ProbeOf(keys, j)
  {
    PlainDiffers(i, j);
    DecryptsEncrypted(Plain(i), keys, |keys|);
    DecryptsEncrypted(Plain(j), keys, |keys|);
    UnpackPacked(Encrypted(Plain(i), keys, |keys|));
    UnpackPacked(Encrypted(Plain(j), keys, |keys|));
  }

  // ---------------------------------------------------------------- the loop

  /** The prefixes the loop lets through: 2001::/16, 2003::/16, 2400::/12, 2600::/8,
      2800::/12, 2a00::/12 and 2c00::/12. */
  predicate Routed(a0: nat, a1: nat) {
    || (a0 == 0x20 && (a1 == 1 || a1 == 3))
    || (a0 == 0x24 && a1 < 16)
    || a0 == 0x26
    || (a0 in {0x28, 0x2a, 0x2c} && a1 < 16)
  }

  /** The same on the first sixteen bits as a number. */
  lemma RoutedIs(a0: nat, a1: nat)
    requires a1 < 0x100
    ensures var v := 0x100 * a0 + a1;
      Routed(a0, a1) <==> v in {0x2001, 0x2003} || v / 0x10 in {0x240, 0x280, 0x2a0, 0x2c0} || v / 0x100 == 0x26
  {
    assert (0x100 * a0 + a1) / 0x10 == 0x10 * a0 + a1 / 0x10;
  }

  /** The chain of tests on the first two bytes. */
  method IsRouted(a0: nat, a1: nat) returns (r: bool)
    requires 0x20 <= a0 < 0x30 && a1 < 0x100
    ensures r <==> Routed(a0, a1)
  {
    if a0 % 2 == 1 {
      return false;
    }
    if a0 == 0x22 {
      return false;
    }
    if a0 == 0x2e {
      return false;
    }
    HighNibble(a1);
    if a0 >= 0x28 && BitAnd(a1, 0xF0) != 0 {
      return false;
    }
    OneOrThree(a1);
    if a0 == 0x20 && BitAnd(a1, 0xFD) != 1 {
      return false;
    }
    if a0 == 0x24 && BitAnd(a1, 0xF0) != 0 {
      return false;
    }
    return true;
  }

  lemma HighNibble(a: nat)
    requires a < 0x100
    ensures BitAnd(a, 0xF0) == 0 <==> a < 16
  {
    assert Pow2(4) == 16;
    assert Pow2(8) == 256;
    BitAndHigh(a, 4, 8);
    SmallLow(a, 8);
  }

  lemma {:induction false} SmallLow(a: nat, k: nat)
    requires a < Pow2(k)
    ensures Low(a, k) == a
    decreases k
  {
    if k > 0 { SmallLow(a / 2, k - 1); }
  }

  lemma OneOrThree(a: nat)
    requires a < 0x100
    ensures BitAnd(a, 0xFD) == 1 <==> a == 1 || a == 3
  {
    var b := a / 2;
    var c := b / 2;
    assert Pow2(6) == 64;
    BitAndMask(c, 6);
    SmallLow(c, 6);
    assert b > 0 ==> BitAnd(b, 126) == 2 * BitAnd(c, 63);
    assert a > 0 ==> BitAnd(a, 0xFD) == 2 * BitAnd(b, 126) + a % 2;
  }

  /** One turn of the loop: the probe of a counter and whether its prefix is routed. */
  method MakeProbe(i: nat, exp: array<nat>) returns (probe: Probe, keep: bool)
    requires exp.Length == ROUNDS && Words(exp[..]) && i < RANGE
    ensures probe == ProbeOf(exp[..], i)
    ensures keep <==> Routed(probe.addr[0], probe.addr[1])
  {
    var b := EncryptCounter(i, exp);
    probe := Packed(b);
    PackedBytes(b);
    keep := IsRouted(probe.addr[0], probe.addr[1]);
  }

  lemma PackedBytes(b: Block)
    ensures 0x20 <= Packed(b).addr[0] < 0x30 && Packed(b).addr[1] < 0x100
  {
  }

  method EncryptCounter(i: nat, exp: array<nat>) returns (b: Block)
    requires exp.Length == ROUNDS && i < RANGE
    ensures b == Encrypted(Plain(i), exp[..], |exp[..]|)
  {
    var plain, buffer := new nat[2], new nat[2];
    ghost var keys := exp[..];
    plain[0] := i % WORD;
    plain[1] := i / WORD % WORD;
    Encrypt(plain, buffer, exp);
    assert exp[..] == keys && exp.Length == |keys|;
    b := Block(buffer[1], buffer[0]);
  }
}
