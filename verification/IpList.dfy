/** The target lists of the probing engine in random and Internet-wide mode
    (Yarrp/iplist.cpp): every permuted number is cut into a target and a TTL. */
module IpList {
  import opened Numbers
  import opened Cperm

  const BLOCKS: nat := 0x1_0000_0000
  const UINT32_MAX: nat := 0xFFFF_FFFF

  // ---------------------------------------------------------------- number of TTL bits

  /** intlog: the number of the highest bit. */
  method IntLog(x: nat) returns (l: nat)
    ensures x > 0 ==> Pow2(l) <= x < Pow2(l + 1)
    ensures x == 0 ==> l == 0
  {
    l := 0;
    var y := x / 2;
    while y != 0
      invariant y == Shr(x, l + 1)
      invariant l > 0 ==> Shr(x, l) > 0
      decreases y
    {
      l := l + 1;
      ShrShr(x, l, 1);
      y := y / 2;
    }
    HighestBit(x, l);
  }

  lemma HighestBit(x: nat, l: nat)
    requires Shr(x, l + 1) == 0 && (l > 0 ==> Shr(x, l) > 0)
    ensures x > 0 ==> Pow2(l) <= x < Pow2(l + 1)
  {
    ShrBelow(x, 1, l + 1);
    ShrBelow(x, 1, l);
    ShlPow2(0, l);
    ShlPow2(0, l + 1);
  }

  // ---------------------------------------------------------------- random list mode

  /** next >> ttlbits and next & ttlmask: the target index and the TTL. */
  function Split(v: nat, bits: nat): (nat, nat) {
    (Shr(v, bits), Low(v, bits))
  }

  /** The index and the TTL are the number again. */
  lemma SplitIs(v: nat, bits: nat)
    ensures Split(v, bits).1 < Pow2(bits) && Split(v, bits).0 * Pow2(bits) + Split(v, bits).1 == v
  {
    ShiftParts(v, bits);
    ShlIsMul(Shr(v, bits), bits);
  }

  function Probes(order: seq<nat>, bits: nat): (r: seq<(nat, nat)>)
    ensures |r| == |order|
  {
    if order == [] then [] else [Split(order[0], bits)] + Probes(order[1..], bits)
  }

  lemma {:induction false} ProbesAre(order: seq<nat>, bits: nat)
    ensures forall i | 0 <= i < |order| :: Probes(order, bits)[i] == Split(order[i], bits)
  {
    if order != [] { ProbesAre(order[1..], bits); }
  }

  /** The numbers below m give target indices in bounds exactly when there are no more of them
      than targets times the power of two. */
  lemma InBounds(targets: nat, m: nat, bits: nat)
    ensures (forall v: nat | v < m :: Split(v, bits).0 < targets) <==> m <= targets * Pow2(bits)
  {
    ShiftIsArithmetic(targets, bits);
    forall v: nat | v < m ensures Split(v, bits).0 < targets <==> v < targets * Pow2(bits) {
      ShrBelow(v, targets, bits);
    }
    if m > targets * Pow2(bits) {
      var v := targets * Pow2(bits);
      assert Split(v, bits).0 >= targets;
    }
  }

  lemma MulLess(t: nat, a: nat, b: nat)
    requires t > 0
    ensures t * a < t * b <==> a < b
  {
    if a < b { assert t * (b - a) > 0; } else { assert t * (a - b) >= 0; }
  }

  /** A probe for every target and TTL, once. */
  ghost predicate EachOnce(probes: seq<(nat, nat)>, targets: nat, ttls: nat) {
    && NoDuplicates(probes)
    && (forall i: nat, t: nat :: (i, t) in probes <==> i < targets && t < ttls)
  }

  /** With a power of two every target gets every TTL exactly once. */
  lemma RandomExact(order: seq<nat>, targets: nat, bits: nat)
    requires IsPermutation(order, targets * Pow2(bits))
    ensures EachOnce(Probes(order, bits), targets, Pow2(bits))
  {
    var probes := Probes(order, bits);
    ProbesAre(order, bits);
    ShiftIsArithmetic(targets, bits);
    forall i, j | 0 <= i < j < |probes| ensures probes[i] != probes[j] {
      ShiftParts(order[i], bits);
      ShiftParts(order[j], bits);
    }
    forall i: nat, t: nat ensures (i, t) in probes <==> i < targets && t < Pow2(bits) {
      var v := Shl(i, bits) + t;
      if i < targets && t < Pow2(bits) {
        ShiftUnique(v, i, t, bits);
        ShrBelow(v, targets, bits);
        assert v in order;
        var k :| 0 <= k < |order| && order[k] == v;
        assert probes[k] == (i, t);
      }
      if (i, t) in probes {
        var k :| 0 <= k < |probes| && probes[k] == (i, t);
        assert order[k] in order;
        ShrBelow(order[k], targets, bits);
      }
    }
  }

  /** next % 0xffffffff of the IPv4 list. */
  function Fold32(order: seq<nat>): (r: seq<nat>)
    ensures |r| == |order|
  {
    if order == [] then [] else [order[0] % UINT32_MAX] + Fold32(order[1..])
  }

  lemma {:induction false} FoldIs(order: seq<nat>)
    ensures forall i | 0 <= i < |order| :: Fold32(order)[i] == order[i] % UINT32_MAX
  {
    if order != [] { FoldIs(order[1..]); }
  }

  /** The IPv4 list probes every pair once exactly when the list is small enough for its
      32-bit numbers. */
  lemma FoldedExact(order: seq<nat>, targets: nat, bits: nat)
    requires IsPermutation(order, targets * Pow2(bits))
    ensures EachOnce(Probes(Fold32(order), bits), targets, Pow2(bits)) <==> targets * Pow2(bits) <= UINT32_MAX
  {
    var folded := Fold32(order);
    FoldIs(order);
    if targets * Pow2(bits) <= UINT32_MAX {
      forall i | 0 <= i < |order| ensures folded[i] == order[i] {
        assert order[i] in order;
      }
      assert folded == order;
      RandomExact(order, targets, bits);
    } else {
      FoldedTwice(order, bits);
    }
  }

  lemma FoldedTwice(order: seq<nat>, bits: nat)
    requires 0 in order && UINT32_MAX in order
    ensures !NoDuplicates(Probes(Fold32(order), bits))
  {
    var i :| 0 <= i < |order| && order[i] == 0;
    var j :| 0 <= j < |order| && order[j] == UINT32_MAX;
    var folded := Fold32(order);
    FoldIs(order);
    assert folded[i] == folded[j] == 0;
    var probes := Probes(folded, bits);
    ProbesAre(folded, bits);
    assert probes[i] == probes[j];
  }

  /** 0xffffffff >> (32 - ttlbits) has the ttlbits low bits set. */
  lemma MaskValue(bits: nat)
    requires bits <= 32
    ensures Shr(UINT32_MAX, 32 - bits) == Pow2(bits) - 1
  {
    var k := 32 - bits;
    assert Pow2(32) == BLOCKS by { Pow2Table(); }
    ShlPow2(bits, k);
    ShlAdd(Pow2(bits) - 1, 1, k);
    ShlPow2(0, k);
    ShiftUnique(UINT32_MAX, Pow2(bits) - 1, Pow2(k) - 1, k);
  }

  lemma Pow2Table()
    ensures Pow2(8) == 256 && Pow2(24) == 0x100_0000 && Pow2(32) == 0x1_0000_0000
  {
    assert Pow2(4) == 16;
    assert Pow2(8) == 256;
    Pow2Add(8, 8);
    Pow2Add(16, 8);
    Pow2Add(24, 8);
  }

  // ---------------------------------------------------------------- the list

  /** What a call of next_address_rand does: nothing is left, a target and a TTL, or a read
      beyond the targets. */
  datatype Drawn = End | Probe(target: nat, ttl: nat) | OutOfBounds(index: nat)

  /** IPList4 and IPList6 in random mode; addresses are numbers. */
  class RandomList {
    const ipv6: bool
    const targets: seq<nat>
    const maxttl: nat
    const ttlbits: nat
    const ttlmask: nat
    const cipher: Cipher
    var perm: Permutation?
    ghost var order: seq<nat>         // what perm gives, once there is one
    ghost var plan: seq<(nat, nat)>   // their target indices and TTLs
    ghost var drawn: nat              // how many have been drawn

    ghost predicate Settings() {
      && cipher.Valid() && cipher.size == BLOCKS
      && |targets| > 0 && ttlmask == Pow2(ttlbits) - 1
      && (if maxttl == 0 then ttlbits == 0 else Pow2(ttlbits) <= maxttl < Pow2(ttlbits + 1))
    }

    /** permsize */
    function Size(): nat {
      |targets| * maxttl
    }

    /** The numbers the list tells apart: the cipher's blocks, or the 32-bit numbers of IPv4. */
    function Limit(): nat {
      if ipv6 then BLOCKS else UINT32_MAX
    }

    predicate WalksCycles() {
      if ipv6 then Size() > 5000000 else Size() >= 1000000
    }

    ghost predicate Seeded()
      reads this, perm, if perm == null then {} else perm.Parts()
    {
      && perm != null && perm.Valid()
      && perm.range == Size() && perm.cipher == cipher
      && (perm.cycle != null <==> WalksCycles())
      && perm.Order() == order && |order| == perm.range && perm.Position() == drawn
      && plan == Probes(Values(), ttlbits)
    }

    ghost predicate Valid()
      reads this, perm, if perm == null then {} else perm.Parts()
    {
      Settings() && if perm == null then drawn == 0 else Seeded()
    }

    ghost function Values(): (r: seq<nat>)
      reads this`order
    {
      if ipv6 then order else Fold32(order)
    }

    /** IPList::IPList. For IPv6 a TTL below 2 would shift by the width of the word. */
    constructor (ipv6: bool, targets: seq<nat>, maxttl: nat, cipher: Cipher)
      requires cipher.Valid() && cipher.size == BLOCKS && |targets| > 0
      requires maxttl < 256 && (ipv6 ==> maxttl >= 2)
      ensures Valid() && perm == null
      ensures this.targets == targets && this.maxttl == maxttl && this.ipv6 == ipv6 && this.cipher == cipher
    {
      var l := IntLog(maxttl);
      Pow2Table();
      if l > 8 { Pow2Monotone(8, l); }
      MaskValue(l);
      this.ipv6, this.targets, this.maxttl, this.cipher := ipv6, targets, maxttl, cipher;
      ttlbits := l;
      ttlmask := Shr(UINT32_MAX, 32 - l);
      perm := null;
      order, plan, drawn := [], [], 0;
    }

    /** IPList4::seed and IPList6::seed. */
    method Seed()
      requires Settings() && perm == null
      modifies this`perm, this`order, this`plan, this`drawn
      ensures Seeded() && fresh(perm) && fresh(perm.Parts()) && drawn == 0
      ensures perm.range == |targets| * maxttl
      ensures perm.cycle != null <==> if ipv6 then perm.range > 5000000 else perm.range >= 1000000
    {
      var permsize := |targets| * maxttl;
      var mode := ChooseMode(permsize);
      var p := new Permutation(permsize, mode, cipher);
      perm, order, drawn := p, p.Order(), 0;
      plan := Probes(Values(), ttlbits);
    }

    /** A large range walks cycles, a small one is sorted. */
    method ChooseMode(permsize: nat) returns (mode: Mode)
      requires permsize == Size()
      ensures mode == CycleMode <==> WalksCycles()
    {
      if ipv6 {
        mode := PrefixMode;
        if permsize > 5000000 {
          mode := CycleMode;
        }
      } else {
        mode := CycleMode;
        if permsize < 1000000 {
          mode := PrefixMode;
        }
      }
    }

    /** The target index and TTL of a permutation output. */
    method Cut(next: nat) returns (index: nat, ttl: nat)
      requires Settings()
      ensures (index, ttl) == Split(if ipv6 then next else next % UINT32_MAX, ttlbits)
    {
      var number := if ipv6 then next else next % UINT32_MAX;
      index := Shr(number, ttlbits);
      BitAndMask(number, ttlbits);
      ttl := if !ipv6 && ttlbits == 0 then 0 else BitAnd(number, ttlmask);
    }

    /** What the call for an entry of the plan does. */
    function Call(p: (nat, nat)): Drawn {
      if p.0 < |targets| then Probe(targets[p.0], p.1) else OutOfBounds(p.0)
    }

    /** next_address_rand of a seeded list. */
    method Draw() returns (r: Drawn)
      requires Settings() && Seeded()
      modifies this`drawn, perm.Parts()
      ensures perm == old(perm) && order == old(order) && plan == old(plan)
      ensures Seeded()
      ensures old(drawn) >= |order| ==> r == End
      ensures old(drawn) < |order| ==> drawn == old(drawn) + 1 && r == Call(plan[old(drawn)])
    {
      FoldIs(order);
      ProbesAre(Values(), ttlbits);
      var code, next := perm.Next();
      if code == PERM_END {
        return End;
      }
      drawn := drawn + 1;
      var i, ttl := Cut(next);
      return Call((i, ttl));
    }

    /** next_address_rand: seed on the first call, then draw. */
    method NextAddressRand() returns (r: Drawn)
      requires Valid()
      modifies this`perm, this`order, this`plan, this`drawn, if perm == null then {} else perm.Parts()
      ensures Seeded()
      ensures old(perm) == null ==> fresh(perm) && fresh(perm.Parts())
      ensures old(perm) != null ==> perm == old(perm) && order == old(order)
      ensures |order| == Size()
      ensures old(drawn) >= |order| ==> r == End
      ensures old(drawn) < |order| ==> drawn == old(drawn) + 1 && r == Call(plan[old(drawn)])
    {
      if perm == null {
        Seed();
      }
      r := Draw();
    }

    /** The numbers that occur are those below the size and the limit. */
    lemma ValuesAre()
      requires Settings() && Seeded()
      ensures forall v: nat :: v in Values() <==> v < Size() && v < Limit()
    {
      perm.Outputs();
      if !ipv6 { FoldedAre(order, Size()); }
    }

    /** No call reads beyond the targets exactly when there are no more numbers than targets
        times the power of two. */
    lemma PlanInBounds()
      requires Settings() && Seeded()
      ensures (forall p | p in plan :: p.0 < |targets|)
         <==> (if Size() < Limit() then Size() else Limit()) <= |targets| * Pow2(ttlbits)
      ensures Size() <= Limit() ==>
        ((forall p | p in plan :: p.0 < |targets|) <==> maxttl <= Pow2(ttlbits))
    {
      var m := if Size() < Limit() then Size() else Limit();
      ValuesAre();
      ProbesAre(Values(), ttlbits);
      InBounds(|targets|, m, ttlbits);
      if forall p | p in plan :: p.0 < |targets| {
        forall v: nat | v < m ensures Split(v, ttlbits).0 < |targets| {
          assert v in Values();
          var i :| 0 <= i < |Values()| && Values()[i] == v;
          assert plan[i] in plan;
        }
      }
      if forall v: nat | v < m :: Split(v, ttlbits).0 < |targets| {
        forall p | p in plan ensures p.0 < |targets| {
          var i :| 0 <= i < |plan| && plan[i] == p;
          assert Values()[i] in Values();
        }
      }
      MulLess(|targets|, Pow2(ttlbits), maxttl);
    }

    /** The probes are each pair of a target and a TTL, once, exactly when the largest TTL is a
        power of two (or 0) and the list is within the limit. */
    lemma PlanIsExact()
      requires Settings() && Seeded()
      ensures EachOnce(plan, |targets|, maxttl) <==> maxttl <= Pow2(ttlbits) && Size() <= Limit()
    {
      if maxttl > Pow2(ttlbits) {
        TtlMissing(Values(), ttlbits);
        assert (0, Pow2(ttlbits)) !in plan;
      } else if Size() > BLOCKS {
        ComesRound();
      } else {
        WithinBlocks();
      }
    }

    lemma ComesRound()
      requires Settings() && Seeded() && Size() > BLOCKS
      ensures !NoDuplicates(plan)
    {
      perm.Outputs();
      FoldIs(order);
      ProbesAre(Values(), ttlbits);
      assert Values()[0] == Values()[BLOCKS];
      assert plan[0] == plan[BLOCKS];
    }

    lemma WithinBlocks()
      requires Settings() && Seeded() && maxttl <= Pow2(ttlbits) && Size() <= BLOCKS
      ensures EachOnce(plan, |targets|, maxttl) <==> Size() <= Limit()
    {
      perm.Permutes();
      if ipv6 {
        ExactWithin(perm.Order(), |targets|, maxttl, ttlbits);
      } else {
        FoldedWithin(perm.Order(), |targets|, maxttl, ttlbits);
      }
    }

    /** What was sent are the targets and TTLs of the first probes. */
    ghost predicate Sends(sent: seq<(nat, nat)>, probes: seq<(nat, nat)>) {
      && |sent| <= |probes|
      && (forall i | 0 <= i < |sent| ::
            probes[i].0 < |targets| && sent[i] == (targets[probes[i].0], probes[i].1))
    }

    /** Draw until nothing comes, or until a read beyond the targets. */
    method Drain() returns (sent: seq<(nat, nat)>, fault: bool)
      requires Settings() && Seeded() && drawn == 0
      modifies this`drawn, perm.Parts()
      ensures perm == old(perm) && order == old(order) && plan == old(plan)
      ensures Seeded() && Sends(sent, plan)
      ensures if fault then |sent| < |plan| && plan[|sent|].0 >= |targets| else |sent| == |plan|
    {
      sent := [];
      var r := End;
      while true
        invariant Seeded() && Sends(sent, plan) && drawn == |sent|
        decreases |plan| - |sent|
      {
        sent, r := DrawNext(sent);
        if !r.Probe? {
          break;
        }
      }
      fault := r.OutOfBounds?;
    }

    /** One turn of a run. */
    method DrawNext(sent: seq<(nat, nat)>) returns (sent': seq<(nat, nat)>, r: Drawn)
      requires Settings() && Seeded() && Sends(sent, plan) && drawn == |sent|
      modifies this`drawn, perm.Parts()
      ensures perm == old(perm) && order == old(order) && plan == old(plan)
      ensures Seeded() && Sends(sent', plan)
      ensures r.Probe? ==> |sent'| == |sent| + 1 && drawn == |sent'|
      ensures !r.Probe? ==> sent' == sent && (r.End? <==> |sent| == |plan|)
      ensures r.OutOfBounds? ==> plan[|sent|].0 >= |targets|
    {
      r := Draw();
      if !r.Probe? {
        return sent, r;
      }
      SendsMore(sent, plan, r);
      return sent + [(r.target, r.ttl)], r;
    }

    lemma SendsMore(sent: seq<(nat, nat)>, plan: seq<(nat, nat)>, r: Drawn)
      requires Sends(sent, plan) && |sent| < |plan| && r == Call(plan[|sent|]) && r.Probe?
      ensures Sends(sent + [(r.target, r.ttl)], plan)
    {
    }

    /** A whole run, from the unseeded list to the end. */
    method Run() returns (sent: seq<(nat, nat)>, fault: bool, ghost probes: seq<(nat, nat)>)
      requires Settings() && perm == null
      modifies this`perm, this`order, this`plan, this`drawn
      ensures Sends(sent, probes) && |probes| == Size()
      ensures fault <==> |sent| < |probes|
      ensures fault <==> (if Size() < Limit() then Size() else Limit()) > |targets| * Pow2(ttlbits)
      ensures EachOnce(probes, |targets|, maxttl) <==> maxttl <= Pow2(ttlbits) && Size() <= Limit()
    {
      Seed();
      sent, fault := Drain();
      probes := plan;
      PlanInBounds();
      PlanIsExact();
      if fault {
        assert probes[|sent|] in probes;
      }
    }
  }

  /** One target with TTLs below 3: the list has numbers for only two of them, and reads beyond
      its target. */
  method ThreeTtls(ipv6: bool, target: nat, cipher: Cipher) returns (sent: seq<(nat, nat)>, fault: bool)
    requires cipher.Valid() && cipher.size == BLOCKS
    ensures fault
  {
    var list := new RandomList(ipv6, [target], 3, cipher);
    ghost var probes;
    assert Pow2(list.ttlbits) == 2;
    sent, fault, probes := list.Run();
  }

  lemma ExactWithin(order: seq<nat>, targets: nat, maxttl: nat, bits: nat)
    requires IsPermutation(order, targets * maxttl) && (maxttl == Pow2(bits) || maxttl == 0)
    ensures EachOnce(Probes(order, bits), targets, maxttl)
  {
    if maxttl == 0 {
      assert targets * maxttl == 0;
      assert Probes(order, bits) == [];
    } else {
      RandomExact(order, targets, bits);
    }
  }

  lemma FoldedWithin(order: seq<nat>, targets: nat, maxttl: nat, bits: nat)
    requires IsPermutation(order, targets * maxttl) && (maxttl == Pow2(bits) || maxttl == 0)
    ensures EachOnce(Probes(Fold32(order), bits), targets, maxttl) <==> targets * maxttl <= UINT32_MAX
  {
    if maxttl == 0 {
      assert targets * maxttl == 0;
      assert Probes(Fold32(order), bits) == [];
    } else {
      FoldedExact(order, targets, bits);
    }
  }

  /** Reducing keeps the numbers below 0xffffffff, and brings back only 0 for the largest block. */
  lemma FoldedAre(order: seq<nat>, range: nat)
    requires forall y: nat :: y in order <==> y < range && (range > BLOCKS ==> y < BLOCKS)
    ensures forall v: nat :: v in Fold32(order) <==> v < range && v < UINT32_MAX
  {
    var folded := Fold32(order);
    FoldIs(order);
    forall v: nat | v < range && v < UINT32_MAX ensures v in folded {
      assert v in order;
      var i :| 0 <= i < |order| && order[i] == v;
      assert folded[i] == v;
    }
    forall v: nat | v in folded ensures v < range && v < UINT32_MAX {
      var i :| 0 <= i < |folded| && folded[i] == v;
      assert order[i] in order;
    }
  }

  lemma TtlMissing(order: seq<nat>, bits: nat)
    ensures forall i: nat :: (i, Pow2(bits)) !in Probes(order, bits)
  {
    var probes := Probes(order, bits);
    ProbesAre(order, bits);
    forall p | p in probes ensures p.1 < Pow2(bits) {
      var i :| 0 <= i < |probes| && probes[i] == p;
      ShiftParts(order[i], bits);
    }
  }

  // ---------------------------------------------------------------- Internet-wide mode

  const NETWORKS: nat := 0x100_0000

  /** next & 0xffffff */
  function Network(v: nat): nat {
    v % NETWORKS
  }

  /** next >> 24 */
  function Ttl(v: nat): nat {
    v / NETWORKS
  }

  /** A number kept by the Internet-wide mode: its highest byte, the TTL, has no bit above the mask. */
  predicate Kept(v: nat, bits: nat) {
    Ttl(v) < Pow2(bits)
  }

  /** The 24-bit networks and TTLs of the kept numbers. */
  function Networks(order: seq<nat>, bits: nat): seq<(nat, nat)> {
    if order == [] then []
    else (if Kept(order[0], bits) then [(Network(order[0]), Ttl(order[0]))] else []) + Networks(order[1..], bits)
  }

  lemma {:induction false} NetworksFrom(order: seq<nat>, bits: nat, n: nat, t: nat)
    requires n < NETWORKS
    ensures (n, t) in Networks(order, bits) <==> t < Pow2(bits) && t * NETWORKS + n in order
  {
    if order != [] {
      var v, rest := order[0], order[1..];
      NetworksFrom(rest, bits, n, t);
      NetworkOf(v, n, t);
      assert order == [v] + rest;
    }
  }

  /** A number is its network and TTL. */
  lemma NetworkOf(v: nat, n: nat, t: nat)
    requires n < NETWORKS
    ensures (n, t) == (Network(v), Ttl(v)) <==> v == t * NETWORKS + n
  {
  }

  lemma {:induction false} NetworksDiffer(order: seq<nat>, bits: nat)
    requires NoDuplicates(order)
    ensures NoDuplicates(Networks(order, bits))
  {
    if order != [] {
      var v, rest := order[0], order[1..];
      NetworksDiffer(rest, bits);
      NetworksFrom(rest, bits, Network(v), Ttl(v));
      assert v !in rest;
    }
  }

  /** The Internet-wide mode probes every network with every TTL below the power of two, once. */
  lemma NetworksExact(order: seq<nat>, bits: nat)
    requires IsPermutation(order, UINT32_MAX) && bits < 8
    ensures EachOnce(Networks(order, bits), NETWORKS, Pow2(bits))
  {
    Pow2Table();
    Pow2Monotone(bits, 7);
    assert Pow2(8) == 2 * Pow2(7);
    NetworksDiffer(order, bits);
    var probes := Networks(order, bits);
    forall n: nat, t: nat ensures (n, t) in probes <==> n < NETWORKS && t < Pow2(bits) {
      if (n, t) in probes {
        NetworkBound(order, bits, (n, t));
      }
      if n < NETWORKS {
        NetworksFrom(order, bits, n, t);
        assert t < Pow2(bits) ==> t * NETWORKS + n < UINT32_MAX;
      }
    }
  }

  lemma {:induction false} NetworkBound(order: seq<nat>, bits: nat, p: (nat, nat))
    requires p in Networks(order, bits)
    ensures p.0 < NETWORKS
  {
    if !(Kept(order[0], bits) && p == (Network(order[0]), Ttl(order[0]))) {
      NetworkBound(order[1..], bits, p);
    }
  }

  lemma WholeIsExact(order: seq<nat>, bits: nat)
    requires IsPermutation(order, UINT32_MAX) && bits < 8
    ensures EachOnce(RestAt(order, 0, bits), NETWORKS, Pow2(bits))
  {
    assert order[0..] == order;
    NetworksExact(order, bits);
  }

  /** IPList4 in Internet-wide mode. */
  class NetworkList {
    const ttlbits: nat
    const ttlprefix: nat
    const perm: Permutation
    ghost const order: seq<nat>   // what perm gives
    ghost var drawn: nat          // how many numbers it has given

    ghost predicate Valid()
      reads this`drawn, perm, perm.Parts()
    {
      && perm.Valid() && perm.range == UINT32_MAX
      && perm.Order() == order && |order| == perm.range && perm.Position() == drawn
      && ttlbits < 8 && Prefixed()
    }

    /** The prefix mask has the bits of a byte above the TTL bits. */
    ghost predicate Prefixed() {
      ttlprefix == HighBits(ttlbits)
    }

    /** The networks and TTLs still to come. */
    ghost function Rest(): seq<(nat, nat)>
      reads this`drawn
    {
      RestAt(order, drawn, ttlbits)
    }

    /** The constructor and seed of an Internet-wide list: the range is UINT32_MAX, walked in
        cycles. The prefix mask is the complement of the TTL mask in a byte. */
    constructor (maxttl: nat, cipher: Cipher)
      requires cipher.Valid() && cipher.size == BLOCKS && 2 <= maxttl < 256
      ensures Valid() && fresh(perm) && fresh(perm.Parts()) && EachOnce(Rest(), NETWORKS, Pow2(ttlbits))
      ensures Pow2(ttlbits) <= maxttl < Pow2(ttlbits + 1) && perm.cipher == cipher
    {
      var l := IntLog(maxttl);
      Pow2Table();
      if l >= 8 { Pow2Monotone(8, l); }
      Pow2Monotone(l, 8);
      ttlbits := l;
      ttlprefix := 256 - Pow2(l);
      var p := new Permutation(UINT32_MAX, CycleMode, cipher);
      p.Permutes();
      perm, order, drawn := p, p.Order(), 0;
      WholeIsExact(p.Order(), l);
    }

    /** next_address_entire: the next network and TTL with a host byte summed from the
        network's bytes, or nothing at the end. */
    method NextAddressEntire() returns (ok: bool, network: nat, host: nat, ttl: nat)
      requires Valid()
      modifies this`drawn, perm.Parts()
      ensures Valid()
      ensures ok <==> old(Rest()) != []
      ensures ok ==> (network, ttl) == old(Rest())[0] && Rest() == old(Rest())[1..]
      ensures ok ==> host == Host(network)
    {
      ghost var rest := Rest();
      while true
        invariant Valid() && Rest() == rest
        decreases UINT32_MAX - drawn
      {
        var end, keep;
        end, keep, network, host, ttl := Step();
        if end || keep {
          return !end, network, host, ttl;
        }
      }
      assert false;
    }

    /** One number: the end, a number to skip, or a probe. */
    method Step() returns (end: bool, keep: bool, network: nat, host: nat, ttl: nat)
      requires Valid()
      modifies this`drawn, perm.Parts()
      ensures Valid()
      ensures end ==> old(Rest()) == []
      ensures !end ==> old(drawn) < UINT32_MAX && drawn == old(drawn) + 1
      ensures !end && keep ==>
        && old(Rest()) != [] && (network, ttl) == old(Rest())[0] && Rest() == old(Rest())[1..]
        && host == Host(network)
      ensures !end && !keep ==> Rest() == old(Rest())
    {
      var code, next := perm.Next();
      end := code == PERM_END;
      if end {
        return end, false, 0, 0, 0;
      }
      RestStep(order, drawn, ttlbits);
      drawn := drawn + 1;
      keep, network, host, ttl := Cut(next);
    }

    /** The cut of a number: whether its TTL is kept, and the parts of the address. */
    method Cut(next: nat) returns (keep: bool, network: nat, host: nat, ttl: nat)
      requires ttlbits < 8 && Prefixed() && next < UINT32_MAX
      ensures keep <==> Kept(next, ttlbits)
      ensures network == Network(next) && ttl == Ttl(next)
      ensures host == Host(network)
    {
      var next32 := next % UINT32_MAX;
      assert next32 == next;
      ttl := Ttl(next32);
      TtlTest(next, ttlbits);
      network := Network(next32);
      host := Host(network);
      keep := BitAnd(ttl, ttlprefix) == 0;
    }
  }

  /** The host byte: the sum of the network's three bytes, in a byte. */
  function Host(network: nat): nat {
    (network % 256 + network / 256 % 256 + network / 0x1_0000 % 256) % 256
  }

  /** It is the sum of the network's three bytes, in a byte. */
  lemma HostIs(a: nat, b: nat, c: nat)
    requires a < 0x100 && b < 0x100 && c < 0x100
    ensures var host := Host(a + 0x100 * b + 0x1_0000 * c);
      host < 0x100 && (a + b + c - host) % 0x100 == 0
  {
    var network := a + 0x100 * b + 0x1_0000 * c;
    DivModUnique(network, 0x100, b + 0x100 * c, a);
    DivModUnique(b + 0x100 * c, 0x100, c, b);
    DivModUnique(network, 0x1_0000, c, a + 0x100 * b);
    DivModUnique(c, 0x100, 0, c);
    SumByte(a + b + c);
  }

  lemma SumByte(sum: nat)
    ensures (sum - sum % 0x100) % 0x100 == 0
  {
  }

  /** What is still to come after the first numbers of an order. */
  ghost function RestAt(order: seq<nat>, at: nat, bits: nat): seq<(nat, nat)> {
    if at < |order| then Networks(order[at..], bits) else []
  }

  lemma RestStep(order: seq<nat>, at: nat, bits: nat)
    requires at < |order|
    ensures
      var rest, next := RestAt(order, at, bits), RestAt(order, at + 1, bits);
      if Kept(order[at], bits)
      then rest != [] && rest[0] == (Network(order[at]), Ttl(order[at])) && rest[1..] == next
      else rest == next
  {
    assert order[at..][1..] == order[at + 1..];
  }

  function HighBits(bits: nat): nat {
    if Pow2(bits) <= Pow2(8) then Pow2(8) - Pow2(bits) else 0
  }

  /** The byte test keeps exactly the TTLs below the power of two. */
  lemma TtlTest(v: nat, bits: nat)
    requires v < UINT32_MAX && bits < 8
    ensures BitAnd(Ttl(v), HighBits(bits)) == 0 <==> Kept(v, bits)
  {
    ByteTest(Ttl(v), bits);
  }

  lemma ByteTest(byte: nat, bits: nat)
    requires byte < 256 && bits < 8
    ensures BitAnd(byte, HighBits(bits)) == 0 <==> byte < Pow2(bits)
  {
    Pow2Table();
    ZeroParts(8);
    ShiftUnique(byte, 0, byte, 8);
    BitAndHigh(byte, bits, 8);
  }
}
