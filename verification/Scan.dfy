/** A whole scan: every machine and every thread runs its subshard, and together they probe
    each wanted target exactly once, except when a subshard is empty. */
module Scan {
  import opened Numbers
  import opened Wrappers
  import CT = ConstraintTree
  import opened Blocklist
  import opened Cyclic
  import opened Shard
  import opened ShardWalk
  import opened Send

  /** The first of the n subshards that a machine runs. */
  ghost predicate OfMachine(shard: nat, numShards: nat, numThreads: nat, n: nat, first: nat) {
    && shard < numShards && n == Subshards(numShards, numThreads)
    && first == shard * numThreads && first + numThreads <= n
  }

  /** A fresh shard at the start of subshard i. */
  method ThreadShard(c: Cycle, b: Blocklist, shard: nat, numShards: nat, t: nat, numThreads: nat,
                     ghost n: nat, ghost first: nat, ghost i: nat)
    returns (sd: Shard)
    requires b.Valid() && b.book.Targets() < c.group.prime
    requires OfMachine(shard, numShards, numThreads, n, first) && Sharding(c, n)
    requires t < numThreads && i == first + t
    ensures fresh(sd) && sd.Valid() && sd.maxIndex == b.book.Targets() && sd.current <= sd.maxIndex
    ensures sd.FromCurrent() == Indices(c, n, sd.maxIndex, i)
    ensures sd.maxHosts == sd.maxPackets == 0
    ensures sd.hostsScanned == sd.packetsSent == sd.packetsTried == sd.packetsFailed == 0 && sd.made == []
  {
    var maxIndex := b.CountAllowedIpPortIndex();
    NoQuota(n, i);
    sd := new Shard(shard, numShards, t, numThreads, 0, 0, c, b, maxIndex);
  }

  lemma NoQuota(n: nat, i: nat)
    requires n > 0
    ensures Quota(0, n, i) == 0
  {
  }

  /** One thread: its shard is set up and sent to the end; scanned counts its hosts, packets are
      those it makes. */
  method RunThread(c: Cycle, b: Blocklist, s: Slots, shard: nat, numShards: nat, t: nat, numThreads: nat,
                   p: Probing, ghost k: Book, ghost n: nat, ghost first: nat, ghost i: nat)
    returns (scanned: nat, ghost hosts: seq<Target>, ghost packets: seq<Packet>)
    requires b.Valid() && b.book == k && FitsSlots(s, b.w) && k.Valid() && k.Targets() < c.group.prime
    requires OfMachine(shard, numShards, numThreads, n, first) && Sharding(c, n)
    requires t < numThreads && i == first + t
    ensures hosts == Run(k, s, Indices(c, n, k.Targets(), i)) && scanned == |hosts|
    ensures packets == RunPackets(p, hosts)
  {
    var sd := ThreadShard(c, b, shard, numShards, t, numThreads, n, first, i);
    ghost var h, unfinished;
    ghost var all := Run(k, s, sd.FromCurrent());
    hosts, h, unfinished := SendRun(sd, b, s, p, _ => false);
    assert hosts == all;
    packets := sd.made;
    scanned := sd.hostsScanned;
  }

  /** r(m) is what the first m subshards probe, said so that the solver does not unfold it. */
  ghost predicate AreRuns(r: nat -> seq<Target>, k: Book, s: Slots, c: Cycle, n: nat)
    requires k.Valid() && Sharding(c, n)
  {
    forall m: nat {:trigger Runs(k, s, c, n, m)} | m <= n :: r(m) == Runs(k, s, c, n, m)
  }

  /** The subshards up to i, and the next one. */
  lemma NextRun(r: nat -> seq<Target>, k: Book, s: Slots, c: Cycle, n: nat, i: nat)
    requires k.Valid() && Sharding(c, n) && i < n && AreRuns(r, k, s, c, n)
    ensures r(i + 1) == r(i) + Run(k, s, Indices(c, n, k.Targets(), i))
  {
    NextOfRuns(k, s, c, n, i);
  }

  /** The next thread of a machine. */
  method NextThread(c: Cycle, b: Blocklist, s: Slots, shard: nat, numShards: nat, t: nat, numThreads: nat, p: Probing,
                    ghost k: Book, ghost r: nat -> seq<Target>, ghost n: nat, ghost first: nat, ghost i: nat)
    returns (scanned: nat, ghost hosts: seq<Target>)
    requires b.Valid() && b.book == k && FitsSlots(s, b.w) && k.Valid() && k.Targets() < c.group.prime
    requires OfMachine(shard, numShards, numThreads, n, first) && Sharding(c, n) && AreRuns(r, k, s, c, n)
    requires t < numThreads && i == first + t
    ensures r(i + 1) == r(i) + hosts && scanned == |hosts|
  {
    ghost var packets;
    scanned, hosts, packets := RunThread(c, b, s, shard, numShards, t, numThreads, p, k, n, first, i);
    NextRun(r, k, s, c, n, i);
  }

  /** The threads of one machine. */
  method ScanMachine(c: Cycle, b: Blocklist, s: Slots, shard: nat, numShards: nat, numThreads: nat, p: Probing,
                     ghost k: Book, ghost r: nat -> seq<Target>, ghost n: nat, ghost first: nat,
                     ghost before: seq<Target>)
    returns (scanned: nat, ghost probed: seq<Target>)
    requires b.Valid() && b.book == k && FitsSlots(s, b.w) && k.Valid() && k.Targets() < c.group.prime
    requires OfMachine(shard, numShards, numThreads, n, first) && Sharding(c, n) && AreRuns(r, k, s, c, n)
    requires before == r(first)
    ensures probed == r(first + numThreads) && scanned + |before| == |probed|
  {
    probed, scanned := before, 0;
    var t := 0;
    while t < numThreads
      invariant 0 <= t <= numThreads
      invariant probed == r(first + t) && scanned + |before| == |probed|
    {
      var hostsScanned;
      ghost var hosts;
      hostsScanned, hosts := NextThread(c, b, s, shard, numShards, t, numThreads, p, k, r, n, first, first + t);
      probed, scanned := probed + hosts, scanned + hostsScanned;
      t := t + 1;
    }
  }

  /** The runs of all subshards. */
  ghost function AllRuns(k: Book, s: Slots, c: Cycle, n: nat): nat -> seq<Target>
    requires k.Valid() && Sharding(c, n)
  {
    (m: nat) => if m <= n then Runs(k, s, c, n, m) else []
  }

  lemma AllRunsAre(k: Book, s: Slots, c: Cycle, n: nat)
    requires k.Valid() && Sharding(c, n)
    ensures AreRuns(AllRuns(k, s, c, n), k, s, c, n)
    ensures AllRuns(k, s, c, n)(0) == [] && AllRuns(k, s, c, n)(n) == Runs(k, s, c, n, n)
  {
  }

  /** All senders of all machines, without limits and undisturbed. Their order does not matter
      to what is probed, because a sender changes nothing but its own shard. */
  method ScanAll(c: Cycle, b: Blocklist, s: Slots, numShards: nat, numThreads: nat, p: Probing)
    returns (scanned: nat, ghost probed: seq<Target>)
    requires b.Valid() && FitsSlots(s, b.w) && b.book.Targets() < c.group.prime
    requires Sharding(c, Subshards(numShards, numThreads))
    ensures var n := Subshards(numShards, numThreads);
      && probed == Runs(b.book, s, c, n, n) && scanned == |probed|
      && (ExactlyOnce(probed, b.book, s) <==> Empty(b.book, c, n, n) == 0 || !StrayIsProbed(b.book, s))
      && (Safe(probed, b.book) <==> Empty(b.book, c, n, n) == 0 || StrayIsSafe(b.book, s))
  {
    ghost var n, k := Subshards(numShards, numThreads), b.book;
    ghost var r := AllRuns(k, s, c, n);
    AllRunsAre(k, s, c, n);
    scanned, probed := ScanMachines(c, b, s, numShards, numThreads, p, k, r, n);
    ScanIsExact(k, s, c, n);
    ScanIsSafe(k, s, c, n);
  }

  /** All machines. */
  method ScanMachines(c: Cycle, b: Blocklist, s: Slots, numShards: nat, numThreads: nat, p: Probing,
                      ghost k: Book, ghost r: nat -> seq<Target>, ghost n: nat)
    returns (scanned: nat, ghost probed: seq<Target>)
    requires b.Valid() && b.book == k && FitsSlots(s, b.w) && k.Valid() && k.Targets() < c.group.prime
    requires n == Subshards(numShards, numThreads) && Sharding(c, n) && AreRuns(r, k, s, c, n) && r(0) == []
    ensures probed == r(n) && scanned == |probed|
  {
    probed, scanned := [], 0;
    ghost var first := 0;
    var shard := 0;
    while shard < numShards
      invariant 0 <= shard <= numShards && first == shard * numThreads <= n
      invariant probed == r(first) && scanned == |probed|
    {
      NextMachine(shard, numShards, numThreads);
      var hostsScanned;
      hostsScanned, probed := ScanMachine(c, b, s, shard, numShards, numThreads, p, k, r, n, first, probed);
      first, scanned := first + numThreads, scanned + hostsScanned;
      shard := shard + 1;
    }
  }

  lemma NextMachine(shard: nat, numShards: nat, numThreads: nat)
    requires shard < numShards
    ensures shard * numThreads + numThreads <= Subshards(numShards, numThreads)
    ensures (shard + 1) * numThreads == shard * numThreads + numThreads
  {
    if numThreads > 0 {
      MulStep(shard, numShards, numThreads);
    }
  }

  // ------------------------------------------------------------- when a scan is not exact

  /** The first group of the table: 3 generates the group modulo 17. */
  const SMALLEST_GROUP := Group(17, 3, [2])

  lemma NextPower(g: nat, f: nat)
    requires f > 0
    ensures PowMod(g, f, 17) == (g * PowMod(g, f - 1, 17)) % 17
  {
    MulModIsProduct(g, PowMod(g, f - 1, 17), 17);
  }

  lemma CubeOfThree()
    ensures PowMod(3, 3, 17) == 10
  {
    NextPower(3, 1);
    NextPower(3, 2);
    NextPower(3, 3);
  }

  lemma PowersOfThree()
    ensures forall i: nat :: 0 < i < 16 ==> PowMod(3, i, 17) != 1
    ensures PowMod(3, 16, 17) == 1
  {
    NextPower(3, 1); NextPower(3, 2); NextPower(3, 3); NextPower(3, 4);
    NextPower(3, 5); NextPower(3, 6); NextPower(3, 7); NextPower(3, 8);
    assert PowMod(3, 8, 17) == 16;
    NextPower(3, 9); NextPower(3, 10); NextPower(3, 11); NextPower(3, 12);
    NextPower(3, 13); NextPower(3, 14); NextPower(3, 15); NextPower(3, 16);
  }

  lemma PowersOfTen()
    ensures PowMod(10, 12, 17) == 13 && PowMod(10, 13, 17) == 11 && PowMod(10, 14, 17) == 8 && PowMod(10, 15, 17) == 12
  {
    NextPower(10, 1); NextPower(10, 2); NextPower(10, 3); NextPower(10, 4);
    NextPower(10, 5); NextPower(10, 6); NextPower(10, 7); NextPower(10, 8);
    assert PowMod(10, 8, 17) == 16;
    NextPower(10, 9); NextPower(10, 10); NextPower(10, 11); NextPower(10, 12);
    NextPower(10, 13); NextPower(10, 14); NextPower(10, 15);
  }

  lemma DivisorsOf(n: nat, d: nat)
    requires n == 17 || n == 16 || n == 3 || n == 2
    requires Divides(d, n)
    ensures n == 17 ==> d == 1 || d == 17
    ensures n == 16 ==> d == 1 || d == 2 || d == 4 || d == 8 || d == 16
    ensures n == 3 ==> d == 1 || d == 3
    ensures n == 2 ==> d == 1 || d == 2
  {
    DivisorBound(d, n);
  }

  /** The first table entry is what the table promises. */
  lemma SmallestGroupIsEntry()
    ensures TableEntry(SMALLEST_GROUP)
  {
    IsEntry(17, 3, SMALLEST_GROUP);
  }

  lemma IsEntry(p: nat, r: nat, group: Group)
    requires 16 < p < 18 && 2 < r < 4 && group == Group(p, r, [2])
    ensures TableEntry(group)
  {
    ThreeGenerates(p, r);
    SmallPrimes(p);
    SmallFactors(p - 1);
  }

  // In the next lemmas a range that holds one number keeps the solver from computing powers.

  lemma ThreeGenerates(p: nat, r: nat)
    requires 16 < p < 18 && 2 < r < 4
    ensures Generator(r, p)
  {
    PowersOfThree();
  }

  lemma SmallPrimes(p: nat)
    requires 16 < p < 18
    ensures Prime(p)
  {
    forall d: nat | Divides(d, p) ensures d == 1 || d == p { DivisorsOf(p, d); }
  }

  lemma SmallFactors(n: nat)
    requires 15 < n < 17
    ensures Prime(2) && Divides(2, n) && forall q: nat :: Prime(q) && Divides(q, n) ==> q == 2
  {
    forall d: nat | Divides(d, 2) ensures d == 1 || d == 2 { DivisorsOf(2, d); }
    forall q: nat | Prime(q) && Divides(q, n) ensures q == 2 {
      DivisorsOf(n, q);
      assert Divides(2, 4) && Divides(2, 8) && Divides(2, 16);
    }
  }

  /** The random number 3 is accepted at once and gives the generator 10. */
  lemma TenIsFound()
    ensures FoundFrom(SMALLEST_GROUP, 3, 10) && Generator(10, 17)
  {
    SmallestGroupIsEntry();
    CubeOfThree();
    forall d: nat | Divides(d, 3) && Divides(d, 16) ensures d == 1 { DivisorsOf(3, d); }
    assert Coprime(3, 16);
    CoprimePowerGenerates(3, 17, 3);
    assert Tried(3, 0, 17) == 3;
    assert FoundAt(SMALLEST_GROUP, 3, 0, 10);
  }

  lemma SmallWalk(c: Cycle)
    requires ValidCycle(c) && c.group == SMALLEST_GROUP && c.generator == 10 && c.offset == 0
    ensures Walk(c, 4, 12, 16) == []
  {
    PowersOfTen();
    assert Element(c, 12) == 13 && Element(c, 13) == 11 && Element(c, 14) == 8 && Element(c, 15) == 12;
    NothingIn(c, 15, 16);
    NothingIn(c, 14, 16);
    NothingIn(c, 13, 16);
    NothingIn(c, 12, 16);
  }

  lemma NothingIn(c: Cycle, from: nat, end: nat)
    requires ValidCycle(c) && from < end && Element(c, from) > 4 && (from + 1 < end ==> Walk(c, 4, from + 1, end) == [])
    ensures Walk(c, 4, from, end) == []
  {
  }

  /** An address space of 8 in which 1 to 4 are allowed. */
  function SmallBook(): Book {
    var no, yes := CT.Leaf(ADDR_DISALLOWED), CT.Leaf(ADDR_ALLOWED);
    Book(Widths(3, 0, 0), {1, 2, 3, 4},
         CT.Branch(CT.Branch(CT.Branch(no, yes), yes), CT.Branch(CT.Branch(yes, no), no)), 0)
  }

  lemma FourElements()
    ensures |{1, 2, 3, 4}| == 4
  {
  }

  lemma SmallBookIsValid()
    ensures SmallBook().Valid() && SmallBook().Targets() == 4
  {
    FourElements();
    SmallTargets(SmallBook());
    SmallBookMeans();
  }

  lemma SmallBookMeans()
    ensures SmallBook().Valid()
  {
    var k := SmallBook();
    assert Pow2(3) == 8 && Pow2(2) == 4;
    forall a: nat | a < 8
      ensures CT.Lookup(k.tree, 3, a) == if a in k.allowed then ADDR_ALLOWED else ADDR_DISALLOWED
    {
      if a < 4 {
        assert CT.Lookup(k.tree, 3, a) == CT.Lookup(k.tree.left, 2, a);
      } else {
        assert CT.Lookup(k.tree, 3, a) == CT.Lookup(k.tree.right, 2, a - 4);
      }
    }
    k.IsValid();
  }

  lemma SmallTargets(k: Book)
    requires k.w.port == k.w.index == 0
    ensures k.Targets() == |k.allowed|
  {
  }

  /** When the radix array has a second entry, the stray target lies in its block, so it is an
      allowed target, which some subshard probes as well. */
  lemma StrayIsAllowed(k: Book)
    requires k.Valid() && |CT.Radix(k.tree, k.w.Total(), ADDR_ALLOWED, k.c)| > 1
    ensures k.Stray() < Pow2(k.w.Total()) && Shr(k.Stray(), k.w.Rest()) in k.allowed
  {
    var L, c := k.w.Total(), k.c;
    var i := Shl(1, c) + (Pow2(c) - 1);
    ShiftUnique(i, 1, Pow2(c) - 1, c);
    CT.RadixAddress(k.tree, L, ADDR_ALLOWED, c, i);
    var q := CT.EntryBlock(k.tree, L, ADDR_ALLOWED, c, Pow2(L - c), 1);
    BitOrDisjoint(q, Pow2(c) - 1, c);
    k.Means();
  }

  /** With fewer targets than two blocks hold, the radix array has no second entry, and the stray
      target is the last address of the first block, whatever the lists say. */
  lemma StrayOfFew(k: Book)
    requires k.Valid() && k.Targets() < Pow2(k.c + 1)
    ensures k.Stray() == Pow2(k.c) - 1
  {
    var L, n := k.w.Total(), |CT.Radix(k.tree, k.w.Total(), ADDR_ALLOWED, k.c)|;
    k.AllowedTargets();
    CT.CachedCount(k.tree, L, ADDR_ALLOWED, k.c);
    ShiftIsArithmetic(n, k.c);
    if n >= 2 { MulStep(1, n, Pow2(k.c)); }
    BitOrZero(Pow2(k.c) - 1);
  }

  /** Fewer targets than subshards and than two blocks hold, in a plain scan: the last address of
      the first block is probed although it is not allowed. */
  lemma FewTargetsProbeOutside(k: Book, c: Cycle, n: nat)
    requires k.Valid() && k.w.port == k.w.index == 0
    requires k.c > 0 && k.Targets() < Pow2(k.c + 1) && Pow2(k.c) - 1 !in k.allowed
    requires Sharding(c, n) && k.Targets() < n
    ensures !Safe(Runs(k, Slots(0, 0), c, n, n), k)
    ensures exists t :: t in Runs(k, Slots(0, 0), c, n, n) && t.ip == Pow2(k.c) - 1
  {
    StrayOfFew(k);
    FewTargets(k, c, n);
    StrayIsThere(k, Slots(0, 0), c, n);
  }

  /** With blocks of single addresses the radix array lists all allowed targets. */
  lemma RadixOfSingles(k: Book)
    requires k.Valid() && k.c == 0
    ensures |CT.Radix(k.tree, k.w.Total(), ADDR_ALLOWED, 0)| == k.Targets()
  {
    k.AllowedTargets();
    NoTreeCount(k.tree, k.w.Total());
    CT.CachedCount(k.tree, k.w.Total(), ADDR_ALLOWED, 0);
  }

  lemma {:induction false} NoTreeCount(t: CT.Tree, h: nat)
    requires CT.Fits(t, h)
    ensures CT.TreeCount(t, h, ADDR_ALLOWED, 0) == 0
  {
    if t.Branch? {
      NoTreeCount(t.left, h - 1);
      NoTreeCount(t.right, h - 1);
    }
  }

  /** Without port list and index bits every stray target that is allowed is probed. */
  lemma StrayWithoutSlots(k: Book)
    requires k.Valid() && k.w.port == k.w.index == 0
    requires |CT.Radix(k.tree, k.w.Total(), ADDR_ALLOWED, k.c)| > 1
    ensures StrayIsProbed(k, Slots(0, 0))
  {
    StrayIsAllowed(k);
  }

  /** With fewer targets than subshards, whatever the cycle, and a second radix entry a plain
      scan probes the stray target more than once. */
  lemma FewTargetsProbeTwice(k: Book, c: Cycle, n: nat)
    requires k.Valid() && k.w.port == k.w.index == 0
    requires |CT.Radix(k.tree, k.w.Total(), ADDR_ALLOWED, k.c)| > 1
    requires Sharding(c, n) && k.Targets() < n
    ensures !ExactlyOnce(Runs(k, Slots(0, 0), c, n, n), k, Slots(0, 0))
  {
    StrayWithoutSlots(k);
    FewTargets(k, c, n);
    ScanIsExact(k, Slots(0, 0), c, n);
  }

  lemma FewSinglesProbeTwice(k: Book, c: Cycle, n: nat)
    requires k.Valid() && k.w.port == k.w.index == 0 && k.c == 0
    requires Sharding(c, n) && 1 < k.Targets() < n
    ensures !ExactlyOnce(Runs(k, Slots(0, 0), c, n, n), k, Slots(0, 0))
  {
    RadixOfSingles(k);
    FewTargetsProbeTwice(k, c, n);
  }

  /** A concrete such scan: 4 targets on 5 machines of one thread, with any random numbers. */
  lemma InexactExample(c: Cycle, machines: nat)
    requires machines == 5 && ValidCycle(c) && c.group == SMALLEST_GROUP
    ensures
      var k, s, n := SmallBook(), Slots(0, 0), Subshards(machines, 1);
      k.Valid() && Sharding(c, n) && !ExactlyOnce(Runs(k, s, c, n, n), k, s)
  {
    SmallBookIsValid();
    FewSinglesProbeTwice(SmallBook(), c, machines);
  }

  lemma {:induction false} SomeEmpty(k: Book, c: Cycle, n: nat, m: nat, i: nat)
    requires k.Valid() && Sharding(c, n) && i < m <= n && Indices(c, n, k.Targets(), i) == []
    ensures Empty(k, c, n, m) > 0
    decreases m
  {
    if i < m - 1 { SomeEmpty(k, c, n, m - 1, i); }
  }

  /** With 4 targets the last of 4 subshards has no valid index. */
  lemma LastIsEmpty(k: Book, c: Cycle, n: nat)
    requires n == 4 && k.Valid() && k.Targets() == n
    requires ValidCycle(c) && c.group == SMALLEST_GROUP && c.generator == 10 && c.offset == 0
    ensures Sharding(c, n) && Empty(k, c, n, n) > 0
  {
    SmallRange(c, n);
    SmallWalk(c);
    SomeEmpty(k, c, n, n, 3);
  }

  lemma SmallRange(c: Cycle, n: nat)
    requires n == 4 && Sharding(c, n) && c.order == 16
    ensures Begin(c, n, 3) == 12 && End(c, n, 3) == 16
  {
    assert Size(c, n) == 4;
    BeginIsProduct(c, n, 3);
  }

  /** A scan with as many targets as subshards that is not exact: 4 machines of one thread, and
      the cycle made from the random numbers 3 and 0. */
  lemma CrowdedExample(machines: nat)
    requires machines == 4
    ensures
      var k, c, s, n := SmallBook(), Cycle(SMALLEST_GROUP, 10, 16, 0), Slots(0, 0), Subshards(machines, 1);
      && k.Valid() && MadeFrom(c, 3, 0) && Sharding(c, n)
      && !ExactlyOnce(Runs(k, s, c, n, n), k, s)
  {
    var k, c := SmallBook(), Cycle(SMALLEST_GROUP, 10, 16, 0);
    SmallBookIsValid();
    SmallestGroupIsEntry();
    TenIsFound();
    CrowdedSingles(k, c, machines);
  }

  lemma CrowdedSingles(k: Book, c: Cycle, n: nat)
    requires k.Valid() && k.w.port == k.w.index == 0 && k.c == 0 && k.Targets() == n == 4
    requires ValidCycle(c) && c.group == SMALLEST_GROUP && c.generator == 10 && c.offset == 0
    ensures Sharding(c, n) && !ExactlyOnce(Runs(k, Slots(0, 0), c, n, n), k, Slots(0, 0))
  {
    RadixOfSingles(k);
    StrayWithoutSlots(k);
    LastIsEmpty(k, c, n);
    ScanIsExact(k, Slots(0, 0), c, n);
  }

  /** The prefixes of 10.0.0.0/30. */
  predicate InTenSlash30(ip: nat) {
    0x0A00_0000 <= ip < 0x0A00_0004
  }

  lemma CoversTenSlash30(ip: nat, ipBits: nat)
    requires 31 < ipBits < 33
    ensures Covers(Cidr(0x0A00_0000, 30), ip, ipBits) <==> InTenSlash30(ip)
  {
    assert Shr(ip, 2) == ip / 4;
    assert Shr(0x0A00_0000, 2) == 0x0280_0000;
  }

  lemma FourAllowed(allowed: set<nat>)
    requires forall ip: nat :: ip in allowed <==> InTenSlash30(ip)
    ensures |allowed| == 4
  {
    assert allowed == {0x0A00_0000, 0x0A00_0001, 0x0A00_0002, 0x0A00_0003};
  }

  // Ranges that hold one number again keep the solver from unfolding whole trees.

  lemma SomePowers(c: nat, L: nat)
    requires 11 < c < 13 && 31 < L < 33
    ensures Pow2(c) == 4096 && Pow2(c + 1) == 8192 && Pow2(L) == 0x1_0000_0000
  {
    assert Pow2(4) == 16;
    assert Pow2(8) == 256;
    Pow2Add(4, 8);
    Pow2Add(8, 8);
    Pow2Add(16, 16);
  }

  /** The scanned width of IPv4 without ports and indices. */
  predicate PlainIpv4(w: Widths) {
    31 < w.ip < 33 && w.port == w.index == 0
  }

  /** An IPv4 scan with the allow list 10.0.0.0/30 on 5 machines of one thread probes
      0.0.15.255. */
  method OutsideExample(c: Cycle, w: Widths, s: Slots, machines: nat, threads: nat, p: Probing)
    returns (ghost allowed: set<nat>, ghost probed: seq<Target>, scanned: nat)
    requires ValidCycle(c) && c.group == SMALLEST_GROUP
    requires PlainIpv4(w) && s == Slots(0, 0) && Subshards(machines, threads) == 5
    ensures forall ip: nat :: ip in allowed <==> InTenSlash30(ip)
    ensures exists t :: t in probed && t.ip == 4095 && t.ip !in allowed
    ensures scanned == |probed|
  {
    var b := AllowTenSlash30(w);
    allowed := b.book.allowed;
    SmallTargets(b.book);
    FourAllowed(allowed);
    scanned, probed := ScanAll(c, b, s, machines, threads, p);
    OutsideIsProbed(b.book, s, c, Subshards(machines, threads));
  }

  lemma OutsideIsProbed(k: Book, s: Slots, c: Cycle, n: nat)
    requires k.Valid() && PlainIpv4(k.w) && 11 < k.c < 13 && s == Slots(0, 0)
    requires forall ip: nat :: ip in k.allowed <==> InTenSlash30(ip)
    requires Sharding(c, n) && n > 4
    ensures exists t :: t in Runs(k, s, c, n, n) && t.ip == 4095 && t.ip !in k.allowed
  {
    SomePowers(k.c, k.w.ip);
    FourAllowed(k.allowed);
    SmallTargets(k);
    FewTargetsProbeOutside(k, c, n);
  }

  method AllowTenSlash30(w: Widths) returns (b: Blocklist)
    requires PlainIpv4(w)
    ensures b.Valid() && b.w == b.book.w == w && 11 < b.book.c < 13
    ensures forall ip: nat :: ip in b.book.allowed <==> InTenSlash30(ip)
  {
    var ok;
    var entries := [Cidr(0x0A00_0000, 30)];
    SomePowers(12, w.ip);
    b, ok := BlocklistInit(None, None, entries, [], w);
    ListMeansTenSlash30(b.book.allowed, w, entries);
  }

  lemma ListMeansTenSlash30(allowed: set<nat>, w: Widths, entries: seq<Cidr>)
    requires PlainIpv4(w) && entries == [Cidr(0x0A00_0000, 30)]
    requires forall ip: nat :: ip < Pow2(w.ip) ==> (ip in allowed <==> IsAllowed(ip, w, None, entries, None, []))
    requires forall ip :: ip in allowed ==> ip < Pow2(w.ip)
    ensures forall ip: nat :: ip in allowed <==> InTenSlash30(ip)
  {
    SomePowers(12, w.ip);
    forall ip: nat ensures ip in allowed <==> InTenSlash30(ip) {
      CoversTenSlash30(ip, w.ip);
      assert entries[0] in entries;
    }
  }
}
