/** The Internet-wide IPv6 loop (Yarrp/entire.cpp): every counter becomes a /48 prefix and a
    TTL, and what passes the tests is sent. The loop keeps one address whose last four bytes
    change only when an address passes the prefix table, so that the table is asked about the
    new prefix with the last bytes of an earlier one. */
module Entire {
  import opened Numbers
  import opened Wrappers
  import opened Bits
  import opened Patricia
  import opened BgpTable
  import opened Speck

  /** What goes out: a whole address and a TTL. */
  datatype Packet = Packet(address: seq<bv8>, ttl: nat)

  // ---------------------------------------------------------------- addresses

  /** A number stored in a byte. */
  function ByteOf(n: nat): bv8 {
    (n % 0x100) as bv8
  }

  function Bytes(s: seq<nat>): (r: seq<bv8>)
    ensures |r| == |s| && forall i :: 0 <= i < |s| ==> r[i] == ByteOf(s[i])
  {
    seq(|s|, i requires 0 <= i < |s| => ByteOf(s[i]))
  }

  type LastBytes = s: seq<nat> | |s| == 4 witness [0, 0, 0, 0]

  /** Six bytes that the loop can produce: 2000::/4. */
  predicate Generated(a: seq<nat>) {
    |a| == 6 && 0x20 <= a[0] < 0x30 && forall i :: 0 <= i < 6 ==> a[i] < 0x100
  }

  predicate RoutedPrefix(a: seq<nat>) {
    Generated(a) && Routed(a[0], a[1])
  }

  /** The last four bytes that are computed from the first six: a 32-bit store, low byte first,
      and then a store to the last byte. */
  function Tail(a: seq<nat>): LastBytes
    requires Generated(a)
  {
    var v := (a[0] + a[1]) * 32 + a[4];
    [v % 0x100, v / 0x100, 0, a[2] + a[3] + 100]
  }

  const GAP: seq<nat> := [0, 0, 0, 0, 0, 0]

  function Address(a: seq<nat>, tail: seq<nat>): (r: seq<bv8>)
    requires |a| == 6 && |tail| == 4
    ensures |r| == 16
  {
    Bytes(a + GAP + tail)
  }

  /** The address sent for a prefix. */
  function Target(a: seq<nat>): (r: seq<bv8>)
    requires Generated(a)
    ensures |r| == 16
  {
    Address(a, Tail(a))
  }

  lemma FirstTwelve(a: seq<nat>, s: seq<nat>, t: seq<nat>)
    requires |a| == 6 && |s| == |t| == 4
    ensures BitsOf(Address(a, s))[..96] == BitsOf(Address(a, t))[..96]
  {
    assert Address(a, s)[..12] == Address(a, t)[..12];
    SameBytes(Address(a, s), Address(a, t), 12);
  }

  lemma ByteBack(n: nat)
    requires n < 0x100
    ensures ByteOf(n) as nat == n
  {
    assert n % 0x100 == n;
  }

  lemma ByteValue(n: nat)
    ensures ByteOf(n) as nat == n % 0x100
  {
    ByteBack(n % 0x100);
    assert ByteOf(n) == ByteOf(n % 0x100);
  }

  /** The sixteen bytes sent for a prefix: the prefix, a gap, the low and the high byte of
      32 (a0 + a1) + a4, a zero, and a2 + a3 + 100 in a byte. */
  lemma TargetIs(a: seq<nat>)
    requires Generated(a)
    ensures var t, v := Target(a), 32 * (a[0] + a[1]) + a[4];
      && (forall i | 0 <= i < 6 :: t[i] as nat == a[i]) && (forall i | 6 <= i < 12 :: t[i] == 0)
      && t[12] as nat == v % 0x100 && t[13] as nat == v / 0x100
      && t[14] == 0 && t[15] as nat == (a[2] + a[3] + 100) % 0x100
  {
    PrefixBytes(a);
    TailBytes(a);
    ByteValue(32 * (a[0] + a[1]) + a[4]);
    ByteBack((32 * (a[0] + a[1]) + a[4]) / 0x100);
    ByteValue(a[2] + a[3] + 100);
  }

  lemma PrefixBytes(a: seq<nat>)
    requires Generated(a)
    ensures forall i | 0 <= i < 6 :: Target(a)[i] as nat == a[i]
  {
    forall i | 0 <= i < 6 ensures Target(a)[i] as nat == a[i] { ByteBack(a[i]); }
  }

  lemma TailBytes(a: seq<nat>)
    requires Generated(a)
    ensures var t, v := Target(a), 32 * (a[0] + a[1]) + a[4];
      && (forall i | 6 <= i < 12 :: t[i] == 0) && t[14] == 0
      && t[12] == ByteOf(v) && t[13] == ByteOf(v / 0x100) && t[15] == ByteOf(a[2] + a[3] + 100)
      && v / 0x100 < 0x100
  {
  }

  /** The address tells the prefix. */
  lemma TargetsDiffer(a: seq<nat>, b: seq<nat>)
    requires Generated(a) && Generated(b) && Target(a) == Target(b)
    ensures a == b
  {
    forall i | 0 <= i < 6 ensures a[i] == b[i] {
      ByteBack(a[i]);
      ByteBack(b[i]);
      assert Target(a)[i] == ByteOf(a[i]) && Target(b)[i] == ByteOf(b[i]);
    }
  }

  // ---------------------------------------------------------------- the loop's state

  function PrefixAt(keys: seq<nat>, i: nat): (a: seq<nat>)
    ensures Generated(a)
  {
    PackedBytes(Encrypted(Plain(i), keys, |keys|));
    ProbeOf(keys, i).addr
  }

  /** The prefix is routed and its address with the given last bytes has a value in the table. */
  ghost predicate PassesWith(t: Table, a: seq<nat>, tail: LastBytes) {
    RoutedPrefix(a) && Match(t, BitsOf(Address(a, tail))).Some?
  }

  /** The last four bytes when counter i is tested. */
  ghost function TailBefore(keys: seq<nat>, t: Table, i: nat): LastBytes {
    if i == 0 then [0, 0, 0, 0]
    else
      var a, tail := PrefixAt(keys, i - 1), TailBefore(keys, t, i - 1);
      if PassesWith(t, a, tail) then Tail(a) else tail
  }

  ghost predicate Passes(keys: seq<nat>, t: Table, i: nat) {
    PassesWith(t, PrefixAt(keys, i), TailBefore(keys, t, i))
  }

  ghost function Outgoing(keys: seq<nat>, i: nat): Packet {
    Packet(Target(PrefixAt(keys, i)), ProbeOf(keys, i).ttl)
  }

  /** What a whole run does, counter by counter: the bytes after the prefix that it finds, which
      counters pass, and what goes out for them. */
  datatype Course = Course(rest: nat -> seq<bv8>, passes: nat -> bool, packets: nat -> Packet)

  ghost function CourseOf(keys: seq<nat>, t: Table): Course {
    Course((i: nat) => Bytes(GAP + TailBefore(keys, t, i)),
           (i: nat) => Passes(keys, t, i),
           (i: nat) => Outgoing(keys, i))
  }

  /** The same, said so that the solver does not unfold the cipher for every counter it sees. */
  ghost predicate Follows(c: Course, keys: seq<nat>, t: Table) {
    && (forall i: nat {:trigger TailBefore(keys, t, i)} :: c.rest(i) == Bytes(GAP + TailBefore(keys, t, i)))
    && (forall i: nat {:trigger Passes(keys, t, i)} :: c.passes(i) == Passes(keys, t, i))
    && (forall i: nat {:trigger Outgoing(keys, i)} :: c.packets(i) == Outgoing(keys, i))
  }

  lemma CourseFollows(keys: seq<nat>, t: Table)
    ensures Follows(CourseOf(keys, t), keys, t)
  {
  }

  /** What the loop has sent when it has seen the counters below n. */
  ghost function Sent(keys: seq<nat>, t: Table, chance: nat -> bool, n: nat): seq<Packet> {
    SentBy(CourseOf(keys, t), chance, n)
  }

  /** The packets of the counters that pass and are let through by chance (the TTL histogram,
      the biased draw). */
  ghost function SentBy(c: Course, chance: nat -> bool, n: nat): seq<Packet> {
    Collected((i: nat) => c.passes(i) && chance(i), c.packets, n)
  }

  /** The results for the numbers below n that are kept, in order. */
  ghost function Collected<T>(kept: nat -> bool, result: nat -> T, n: nat): seq<T> {
    if n == 0 then [] else Collected(kept, result, n - 1) + if kept(n - 1) then [result(n - 1)] else []
  }

  /** The counter a result comes from. */
  lemma {:induction false} CounterOfResult<T>(kept: nat -> bool, result: nat -> T, n: nat, i: nat) returns (x: nat)
    requires i < |Collected(kept, result, n)|
    ensures x < n && kept(x) && Collected(kept, result, n)[i] == result(x) && |Collected(kept, result, x)| == i
    decreases n
  {
    if i < |Collected(kept, result, n - 1)| { x := CounterOfResult(kept, result, n - 1, i); } else { x := n - 1; }
  }

  lemma {:induction false} CollectedGrows<T>(kept: nat -> bool, result: nat -> T, m: nat, n: nat)
    requires m <= n
    ensures |Collected(kept, result, m)| <= |Collected(kept, result, n)|
    decreases n
  {
    if m < n { CollectedGrows(kept, result, m, n - 1); }
  }

  /** Results come in the order of their counters. */
  lemma CollectedInOrder<T>(kept: nat -> bool, result: nat -> T, n: nat, i: nat, j: nat)
    requires i < j < |Collected(kept, result, n)|
    ensures exists x: nat, y: nat ::
      x < y < n && kept(x) && kept(y)
      && Collected(kept, result, n)[i] == result(x) && Collected(kept, result, n)[j] == result(y)
  {
    var x := CounterOfResult(kept, result, n, i);
    var y := CounterOfResult(kept, result, n, j);
    if y <= x { CollectedGrows(kept, result, y, x); }
  }

  lemma {:induction false} InCollected<T>(kept: nat -> bool, result: nat -> T, n: nat, p: T)
    ensures p in Collected(kept, result, n) <==> exists i: nat :: i < n && kept(i) && p == result(i)
  {
    if n > 0 {
      InCollected(kept, result, n - 1, p);
      if i: nat :| i < n && kept(i) && p == result(i) {
        assert i == n - 1 || i < n - 1;
      }
    }
  }

  lemma {:induction false} CollectedOnce<T>(kept: nat -> bool, result: nat -> T, n: nat)
    requires forall i: nat, j: nat | i < j < n :: result(i) != result(j)
    ensures NoDuplicates(Collected(kept, result, n))
  {
    if n > 0 {
      CollectedOnce(kept, result, n - 1);
      InCollected(kept, result, n - 1, result(n - 1));
    }
  }

  // ---------------------------------------------------------------- the loop

  /** Patricia::get for a whole IPv6 address: is there a value? */
  method HasValue(t: PrefixTable, addr: seq<bv8>) returns (r: bool)
    requires t.Valid() && t.tree.maxbits == PATRICIA_MAXBITS && |addr| == 16
    ensures r <==> Match(t.Contents(), BitsOf(addr)).Some?
  {
    ghost var bits := BitsOf(addr);
    assert bits[..128] == bits;
    var value := t.Get(Prefix(addr, 128), false);
    r := value.Some?;
  }

  /** The six stores of the prefix. */
  function StorePrefix(addr: seq<bv8>, a: seq<nat>): seq<bv8>
    requires |addr| == 16 && |a| == 6
  {
    addr[0 := ByteOf(a[0])][1 := ByteOf(a[1])][2 := ByteOf(a[2])]
        [3 := ByteOf(a[3])][4 := ByteOf(a[4])][5 := ByteOf(a[5])]
  }

  lemma PrefixStored(addr: seq<bv8>, a: seq<nat>, tail: seq<nat>)
    requires |addr| == 16 && |a| == 6 && |tail| == 4
    requires addr[6..] == Bytes(GAP + tail)
    ensures StorePrefix(addr, a) == Address(a, tail)
  {
    var r := StorePrefix(addr, a);
    assert r[..6] == Bytes(a);
    assert r[6..] == addr[6..];
    assert Address(a, tail) == Bytes(a) + Bytes(GAP + tail);
  }

  /** The 32-bit store, low byte first, and the store to the last byte. */
  function StoreTail(addr: seq<bv8>, a: seq<nat>): seq<bv8>
    requires |addr| == 16 && |a| == 6
  {
    var v := (a[0] + a[1]) * 32 + a[4];
    addr[12 := ByteOf(v)][13 := ByteOf(v / 0x100)][14 := 0][15 := ByteOf(a[2] + a[3] + 100)]
  }

  lemma TailStored(addr: seq<bv8>, a: seq<nat>, tail: seq<nat>)
    requires Generated(a) && |tail| == 4 && addr == Address(a, tail)
    ensures StoreTail(addr, a) == Target(a)
  {
    var v := (a[0] + a[1]) * 32 + a[4];
    assert ByteOf(v) == ByteOf(v % 0x100);
    assert ByteOf(0) == 0;
  }

  lemma AfterGap(a: seq<nat>, tail: seq<nat>)
    requires |a| == 6 && |tail| == 4
    ensures Address(a, tail)[6..] == Bytes(GAP + tail)
  {
  }

  /** Whether counter i passes, and the last bytes it leaves. */
  lemma NextTail(keys: seq<nat>, t: Table, i: nat)
    ensures
      var a, tail := PrefixAt(keys, i), TailBefore(keys, t, i);
      && (Passes(keys, t, i) <==> RoutedPrefix(a) && Match(t, BitsOf(Address(a, tail))).Some?)
      && TailBefore(keys, t, i + 1) == if Passes(keys, t, i) then Tail(a) else tail
  {
  }

  lemma OutgoingDiffers(keys: seq<nat>, i: nat, j: nat)
    requires Words(keys) && i < j <= RANGE
    ensures Outgoing(keys, i) != Outgoing(keys, j)
  {
    if Outgoing(keys, i) == Outgoing(keys, j) {
      TargetsDiffer(PrefixAt(keys, i), PrefixAt(keys, j));
      ProbesDiffer(keys, i, j);
    }
  }

  /** No packet is sent twice. */
  lemma SentOnce(keys: seq<nat>, t: Table, chance: nat -> bool, n: nat)
    requires Words(keys) && n <= RANGE
    ensures NoDuplicates(Sent(keys, t, chance, n))
  {
    var c := CourseOf(keys, t);
    forall i: nat, j: nat | i < j < n ensures c.packets(i) != c.packets(j) { OutgoingDiffers(keys, i, j); }
    CollectedOnce((i: nat) => c.passes(i) && chance(i), c.packets, n);
  }

  /** A routed prefix is put into the address and the table is asked; an address that passes
      gets its own last bytes. */
  method Ask(a: seq<nat>, t: PrefixTable, addr: seq<bv8>, ghost tail: seq<nat>)
    returns (pass: bool, addr': seq<bv8>)
    requires Generated(a) && |tail| == 4 && |addr| == 16 && addr[6..] == Bytes(GAP + tail)
    requires t.Valid() && t.tree.maxbits == PATRICIA_MAXBITS
    ensures pass <==> Match(t.Contents(), BitsOf(Address(a, tail))).Some?
    ensures addr' == if pass then Target(a) else Address(a, tail)
  {
    addr' := StorePrefix(addr, a);
    PrefixStored(addr, a, tail);
    pass := HasValue(t, addr');
    if pass {
      TailStored(addr', a, tail);
      addr' := StoreTail(addr', a);
    }
  }

  lemma TurnIs(c: Course, keys: seq<nat>, t: Table, i: nat)
    requires Follows(c, keys, t)
    ensures
      var a, tail, pass := PrefixAt(keys, i), TailBefore(keys, t, i), c.passes(i);
      && c.rest(i) == Bytes(GAP + tail)
      && (pass <==> RoutedPrefix(a) && Match(t, BitsOf(Address(a, tail))).Some?)
      && (pass ==> c.packets(i) == Outgoing(keys, i) && c.rest(i + 1) == Target(a)[6..])
      && (!pass ==> c.rest(i + 1) == Bytes(GAP + tail) == Address(a, tail)[6..])
  {
    NextTail(keys, t, i);
    AfterGap(PrefixAt(keys, i), TailBefore(keys, t, i));
    AfterGap(PrefixAt(keys, i), Tail(PrefixAt(keys, i)));
    assert c.passes(i) == Passes(keys, t, i);
    assert c.packets(i) == Outgoing(keys, i);
    assert c.rest(i + 1) == Bytes(GAP + TailBefore(keys, t, i + 1));
  }

  /** The turn of counter i. */
  method Turn(i: nat, exp: array<nat>, t: PrefixTable, addr: seq<bv8>,
              ghost keys: seq<nat>, ghost table: Table, ghost c: Course)
    returns (pass: bool, packet: Packet)
    requires exp.Length == ROUNDS && exp[..] == keys && Words(keys) && i < RANGE
    requires t.Valid() && t.tree.maxbits == PATRICIA_MAXBITS && t.Contents() == table
    requires Follows(c, keys, table) && |addr| == 16 && addr[6..] == c.rest(i)
    ensures pass == c.passes(i)
    ensures |packet.address| == 16 && packet.address[6..] == c.rest(i + 1)
    ensures pass ==> packet == c.packets(i)
  {
    ghost var tail := TailBefore(keys, table, i);
    TurnIs(c, keys, table, i);
    var probe, routed := MakeProbe(i, exp);
    pass, packet := false, Packet(addr, probe.ttl);
    if routed {
      var addr';
      pass, addr' := Ask(probe.addr, t, addr, tail);
      packet := Packet(addr', probe.ttl);
    }
  }

  /** internet6: sends count packets, or with count 0 all. */
  method Internet6(key: array<nat>, t: PrefixTable, chance: nat -> bool, count: nat)
    returns (packets: seq<Packet>, ghost keys: seq<nat>, ghost n: nat)
    requires key.Length == KEYLEN && Words(key[..])
    requires t.Valid() && t.tree.maxbits == PATRICIA_MAXBITS
    ensures Words(keys) && keys == RoundKeys(key[..], ROUNDS)
    ensures packets == Sent(keys, t.Contents(), chance, n) && NoDuplicates(packets)
    ensures n <= RANGE && (n == RANGE || count == |packets| > 0)
    ensures count > 0 ==> |packets| <= count
  {
    var exp := new nat[ROUNDS];
    Expand(key, exp);
    keys := exp[..];
    packets, n := Run(exp, t, chance, count, keys, t.Contents());
  }

  /** The loop with its round keys. */
  method Run(exp: array<nat>, t: PrefixTable, chance: nat -> bool, count: nat,
             ghost keys: seq<nat>, ghost table: Table)
    returns (packets: seq<Packet>, ghost n: nat)
    requires exp.Length == ROUNDS && exp[..] == keys && Words(keys)
    requires t.Valid() && t.tree.maxbits == PATRICIA_MAXBITS && t.Contents() == table
    ensures packets == Sent(keys, table, chance, n) && NoDuplicates(packets)
    ensures n <= RANGE && (n == RANGE || count == |packets| > 0)
    ensures count > 0 ==> |packets| <= count
  {
    CourseFollows(keys, table);
    packets, n := Loop(exp, t, chance, count, keys, table, CourseOf(keys, table));
    SentOnce(keys, table, chance, n);
  }

  method Loop(exp: array<nat>, t: PrefixTable, chance: nat -> bool, count: nat,
              ghost keys: seq<nat>, ghost table: Table, ghost c: Course)
    returns (packets: seq<Packet>, ghost n: nat)
    requires exp.Length == ROUNDS && exp[..] == keys && Words(keys)
    requires t.Valid() && t.tree.maxbits == PATRICIA_MAXBITS && t.Contents() == table
    requires Follows(c, keys, table)
    ensures packets == SentBy(c, chance, n)
    ensures n <= RANGE && (n == RANGE || count == |packets| > 0)
    ensures count > 0 ==> |packets| <= count
  {
    var addr := seq(16, _ => ByteOf(0));
    StartsZero(addr, c, keys, table);
    packets := [];
    var i := 0;
    while i < RANGE
      invariant i <= RANGE
      invariant |addr| == 16 && addr[6..] == c.rest(i)
      invariant packets == SentBy(c, chance, i)
      invariant count > 0 ==> |packets| < count
    {
      var pass, packet;
      pass, packet := Turn(i, exp, t, addr, keys, table, c);
      addr, i := packet.address, i + 1;
      if pass && chance(i - 1) {
        packets := packets + [packet];
        if |packets| == count {
          break;
        }
      }
    }
    n := i;
  }

  lemma StartsZero(addr: seq<bv8>, c: Course, keys: seq<nat>, t: Table)
    requires addr == seq(16, _ => ByteOf(0)) && Follows(c, keys, t)
    ensures addr[6..] == c.rest(0)
  {
    assert c.rest(0) == Bytes(GAP + TailBefore(keys, t, 0));
  }

  // ---------------------------------------------------------------- what is sent

  lemma InSent(keys: seq<nat>, t: Table, chance: nat -> bool, n: nat, p: Packet)
    ensures p in Sent(keys, t, chance, n)
       <==> exists i: nat :: i < n && Passes(keys, t, i) && chance(i) && p == Outgoing(keys, i)
  {
    var c := CourseOf(keys, t);
    var kept := (i: nat) => c.passes(i) && chance(i);
    InCollected(kept, c.packets, n, p);
    if i: nat :| i < n && kept(i) && p == c.packets(i) {
      assert Passes(keys, t, i);
    }
    if i: nat :| i < n && Passes(keys, t, i) && chance(i) && p == Outgoing(keys, i) {
      assert kept(i) && p == c.packets(i);
    }
  }

  /** Some address that the loop can send lies in a block. */
  ghost predicate Meets(blocks: seq<Bitstring>) {
    exists a :: RoutedPrefix(a) && Covered(blocks, BitsOf(Target(a)))
  }

  ghost predicate SendsBlocked(blocks: seq<Bitstring>, packets: seq<Packet>) {
    exists p :: p in packets && Covered(blocks, BitsOf(p.address))
  }

  /** Whatever the table: only a block that meets the routed prefixes can be probed. */
  lemma OnlyIfMet(keys: seq<nat>, t: Table, chance: nat -> bool, n: nat, blocks: seq<Bitstring>)
    ensures SendsBlocked(blocks, Sent(keys, t, chance, n)) ==> Meets(blocks)
  {
    if p :| p in Sent(keys, t, chance, n) && Covered(blocks, BitsOf(p.address)) {
      InSent(keys, t, chance, n, p);
      var i: nat :| i < n && Passes(keys, t, i) && chance(i) && p == Outgoing(keys, i);
      assert RoutedPrefix(PrefixAt(keys, i));
    }
  }

  /** A whole run that chance does not thin out probes a blocked address exactly when a block
      meets the routed prefixes. Blocks of more than 96 bits need the default route: the table
      is asked about other last bytes than those sent. */
  lemma BlockedAreProbed(keys: seq<nat>, blocks: seq<Bitstring>, bgp: Option<seq<(Bitstring, int)>>,
                         chance: nat -> bool, n: nat)
    requires Words(keys) && RANGE <= n <= RANGE && forall i :: chance(i)
    requires bgp == None || forall b | b in blocks :: |b| <= 96
    ensures SendsBlocked(blocks, Sent(keys, Loaded(blocks, bgp), chance, n)) <==> Meets(blocks)
  {
    var t := Loaded(blocks, bgp);
    OnlyIfMet(keys, t, chance, n, blocks);
    if a :| RoutedPrefix(a) && Covered(blocks, BitsOf(Target(a))) {
      var i := EveryPrefix(keys, a);
      BlockPasses(blocks, bgp, a, TailBefore(keys, t, i));
      NextTail(keys, t, i);
      InSent(keys, t, chance, n, Outgoing(keys, i));
    }
  }

  /** A blocked prefix has a value in the table, so that it passes. */
  lemma BlockPasses(blocks: seq<Bitstring>, bgp: Option<seq<(Bitstring, int)>>, a: seq<nat>, tail: seq<nat>)
    requires bgp == None || forall b | b in blocks :: |b| <= 96
    requires RoutedPrefix(a) && Covered(blocks, BitsOf(Target(a))) && |tail| == 4
    ensures Match(Loaded(blocks, bgp), BitsOf(Address(a, tail))).Some?
  {
    var t := Loaded(blocks, bgp);
    var asked, sent := BitsOf(Address(a, tail)), BitsOf(Target(a));
    match bgp
    case Some(_) =>
      FirstTwelve(a, tail, Tail(a));
      var b :| b in blocks && b <= sent;
      SamePrefix(b, asked, sent, 96);
      BlockedStaysBlocked(blocks, bgp, asked);
    case None =>
      LongestHas(t, asked, |asked|, []);
  }

  lemma SamePrefix(b: Bitstring, x: Bitstring, y: Bitstring, n: nat)
    requires |b| <= n <= |x| == |y| && x[..n] == y[..n] && b <= y
    ensures b <= x
  {
    assert b == y[..n][..|b|] == x[..n][..|b|];
  }

  /** A block of whole bytes that a routed prefix begins with is enough. */
  lemma BytesMeet(blocks: seq<Bitstring>, a: seq<nat>, m: nat)
    requires RoutedPrefix(a) && m <= 6 && BitsOf(Bytes(a[..m])) in blocks
    ensures Meets(blocks)
  {
    var block, b := Bytes(a[..m]), BitsOf(Bytes(a[..m]));
    assert Target(a)[..m] == block[..m];
    SameBytes(Target(a), block, m);
    assert b[..8 * m] == b;
    assert b <= BitsOf(Target(a));
  }

  /** For instance 2001::/16. */
  lemma BlockedExample(blocks: seq<Bitstring>)
    requires BitsOf(Bytes([0x20, 1])) in blocks
    ensures Meets(blocks)
  {
    var a: seq<nat> := [0x20, 1, 0, 0, 0, 0];
    assert a[..2] == [0x20, 1];
    BytesMeet(blocks, a, 2);
  }
}
