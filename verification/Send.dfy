/** The send loop of one thread (HMapc/src/send.c): the addresses of a host, the attempts of a
    packet, and the targets of a shard. */
module Send {
  import opened Numbers
  import opened Blocklist
  import opened ShardWalk
  import opened Shard
  import opened SendMachine

  /** How a host is probed: iidNum interface identifiers of suffix bits, streams packets each,
      retries attempts a packet, none in a dry run. iid(h, u) is the identifier drawn for host
      number h in round u; reaches(k) says whether the k-th attempt of the thread succeeds. */
  datatype Probing = Probing(iidNum: nat, streams: nat, retries: nat, dryRun: bool, suffix: nat,
                             iid: (nat, nat) -> nat, reaches: nat -> bool)

  // ---------------------------------------------------------------- addresses

  /** The destination after n identifiers have been or-ed into it. */
  function Destination(p: Probing, h: nat, base: nat, n: nat): nat {
    if n == 0 then base else BitOr(Destination(p, h, base, n - 1), p.iid(h, n - 1))
  }

  /** The packets of a host in the first n rounds. */
  function HostPackets(p: Probing, h: nat, t: Target, n: nat): (r: seq<Packet>)
    ensures |r| == Repeat(n, p.streams)
  {
    if n == 0 then [] else HostPackets(p, h, t, n - 1) + Copies(RoundPacket(p, h, t, n), p.streams)
  }

  /** The packet of the n-th round. */
  function RoundPacket(p: Probing, h: nat, t: Target, n: nat): Packet {
    Packet(Destination(p, h, Shl(t.ip, p.suffix), n), t.port, t.index)
  }

  function Copies<T>(a: T, n: nat): (r: seq<T>)
    ensures |r| == n && forall i | 0 <= i < n :: r[i] == a
  {
    seq(n, i requires 0 <= i < n => a)
  }

  lemma {:induction false} EarlierRounds(p: Probing, h: nat, t: Target, m: nat, n: nat)
    requires m <= n
    ensures HostPackets(p, h, t, m) <= HostPackets(p, h, t, n)
    decreases n
  {
    if m < n { EarlierRounds(p, h, t, m, n - 1); }
  }

  /** Whole rounds and a part of the next one are the first packets of the host. */
  lemma RoundPrefix(p: Probing, h: nat, t: Target, u: nat, n: nat)
    requires u < p.iidNum && n <= p.streams
    ensures HostPackets(p, h, t, u) + Copies(RoundPacket(p, h, t, u + 1), n) <= HostPackets(p, h, t, p.iidNum)
  {
    EarlierRounds(p, h, t, u + 1, p.iidNum);
    var a := RoundPacket(p, h, t, u + 1);
    assert Copies(a, n) <= Copies(a, p.streams);
    PrefixOf(HostPackets(p, h, t, u), Copies(a, n), Copies(a, p.streams));
  }

  lemma PacketAt(p: Probing, h: nat, t: Target, u: nat, i: nat)
    requires u < p.iidNum && i < p.streams
    ensures Repeat(u, p.streams) + i < |HostPackets(p, h, t, p.iidNum)|
    ensures HostPackets(p, h, t, p.iidNum)[Repeat(u, p.streams) + i] == RoundPacket(p, h, t, u + 1)
  {
    RoundPrefix(p, h, t, u, p.streams);
    var a := RoundPacket(p, h, t, u + 1);
    assert (HostPackets(p, h, t, u) + Copies(a, p.streams))[Repeat(u, p.streams) + i] == a;
  }

  /** The packets of a sequence of hosts. */
  function RunPackets(p: Probing, hosts: seq<Target>): seq<Packet> {
    if hosts == [] then []
    else RunPackets(p, hosts[..|hosts| - 1]) + HostPackets(p, |hosts| - 1, hosts[|hosts| - 1], p.iidNum)
  }

  lemma {:induction false} RunPrefix(p: Probing, hosts: seq<Target>, n: nat)
    requires n <= |hosts|
    ensures RunPackets(p, hosts[..n]) <= RunPackets(p, hosts)
  {
    if n < |hosts| {
      var init := hosts[..|hosts| - 1];
      RunPrefix(p, init, n);
      assert init[..n] == hosts[..n];
    } else {
      assert hosts[..n] == hosts;
    }
  }

  lemma {:induction false} RunLength(p: Probing, hosts: seq<Target>)
    ensures |RunPackets(p, hosts)| == Repeat(|hosts|, Repeat(p.iidNum, p.streams))
  {
    if hosts != [] { RunLength(p, hosts[..|hosts| - 1]); }
  }

  /** Host by host and round by round: packet i of round u of host n goes to that host's prefix
      with the identifiers up to u, and to its port and index. */
  lemma {:induction false} RunPacketAt(p: Probing, hosts: seq<Target>, n: nat, u: nat, i: nat)
    requires n < |hosts| && u < p.iidNum && i < p.streams
    ensures var at := Repeat(n, Repeat(p.iidNum, p.streams)) + Repeat(u, p.streams) + i;
      && at < |RunPackets(p, hosts)|
      && RunPackets(p, hosts)[at]
         == Packet(Destination(p, n, Shl(hosts[n].ip, p.suffix), u + 1), hosts[n].port, hosts[n].index)
    decreases |hosts|
  {
    var init := hosts[..|hosts| - 1];
    if n < |init| {
      RunPacketAt(p, init, n, u, i);
    } else {
      RunLength(p, init);
      PacketAt(p, n, hosts[n], u, i);
    }
  }

  lemma PrefixOf<T>(a: seq<T>, b: seq<T>, c: seq<T>)
    requires b <= c
    ensures a + b <= a + c
  {
  }

  /** Identifiers of suffix bits leave the prefix alone. */
  lemma {:induction false} PrefixKept(p: Probing, h: nat, ip: nat, n: nat)
    requires forall u: nat | u < n :: p.iid(h, u) < Pow2(p.suffix)
    ensures Shr(Destination(p, h, Shl(ip, p.suffix), n), p.suffix) == ip
  {
    if n == 0 {
      ShiftUnique(Shl(ip, p.suffix), ip, 0, p.suffix);
    } else {
      PrefixKept(p, h, ip, n - 1);
      ShrOr(Destination(p, h, Shl(ip, p.suffix), n - 1), p.iid(h, n - 1), p.suffix);
      ShrBelow(p.iid(h, n - 1), 1, p.suffix);
      ShlPow2(0, p.suffix);
      BitOrZero(ip);
    }
  }

  lemma {:induction false} ShrOr(a: nat, b: nat, k: nat)
    ensures Shr(BitOr(a, b), k) == BitOr(Shr(a, k), Shr(b, k))
    decreases k
  {
    if k > 0 { ShrOr(a / 2, b / 2, k - 1); }
  }

  /** Every bit of a is set in m. */
  predicate Within(a: nat, m: nat) {
    a == 0 || ((a % 2 == 1 ==> m % 2 == 1) && Within(a / 2, m / 2))
  }

  lemma {:induction false} OrWithin(a: nat, b: nat, m: nat)
    ensures Within(BitOr(a, b), m) <==> Within(a, m) && Within(b, m)
    decreases a + b
  {
    if a + b > 0 {
      OrWithin(a / 2, b / 2, m / 2);
      OrHalves(a, b);
    }
  }

  lemma {:induction false} WithinSelf(a: nat)
    ensures Within(a, a)
  {
    if a > 0 { WithinSelf(a / 2); }
  }

  lemma {:induction false} WithinBoth(a: nat, b: nat)
    requires Within(a, b) && Within(b, a)
    ensures a == b
    decreases a + b
  {
    if a + b > 0 { WithinBoth(a / 2, b / 2); }
  }

  lemma {:induction false} DestinationWithin(p: Probing, h: nat, base: nat, n: nat, m: nat)
    ensures Within(Destination(p, h, base, n), m) <==>
              Within(base, m) && forall u: nat | u < n :: Within(p.iid(h, u), m)
  {
    if n > 0 {
      DestinationWithin(p, h, base, n - 1, m);
      OrWithin(Destination(p, h, base, n - 1), p.iid(h, n - 1), m);
    }
  }

  /** The identifiers pile up: round u probes the prefix with its own identifier exactly when
      the bits of every earlier identifier are set in that address. */
  lemma RoundIsOwn(p: Probing, h: nat, base: nat, u: nat)
    ensures Destination(p, h, base, u + 1) == BitOr(base, p.iid(h, u)) <==>
              forall v: nat | v < u :: Within(p.iid(h, v), BitOr(base, p.iid(h, u)))
  {
    var own, d := BitOr(base, p.iid(h, u)), Destination(p, h, base, u + 1);
    OwnWithin(p, h, base, u);
    WithinOwn(p, h, base, u);
    WithinSelf(own);
    if Within(d, own) { WithinBoth(d, own); }
  }

  /** The address of a round has the bits of its own identifier. */
  lemma OwnWithin(p: Probing, h: nat, base: nat, u: nat)
    ensures Within(BitOr(base, p.iid(h, u)), Destination(p, h, base, u + 1))
  {
    var d := Destination(p, h, base, u + 1);
    WithinSelf(d);
    DestinationWithin(p, h, base, u + 1, d);
    OrWithin(base, p.iid(h, u), d);
  }

  lemma WithinOwn(p: Probing, h: nat, base: nat, u: nat)
    ensures Within(Destination(p, h, base, u + 1), BitOr(base, p.iid(h, u))) <==>
              forall v: nat | v < u :: Within(p.iid(h, v), BitOr(base, p.iid(h, u)))
  {
    var own := BitOr(base, p.iid(h, u));
    WithinSelf(own);
    OrWithin(base, p.iid(h, u), own);
    OrWithin(Destination(p, h, base, u), p.iid(h, u), own);
    DestinationWithin(p, h, base, u, own);
  }

  /** A host whose two identifiers are 1 and 2: the second round does not probe identifier 2. */
  lemma PileUpExample(p: Probing, h: nat, ip: nat)
    requires p.suffix >= 2 && p.iid(h, 0) == 1 && p.iid(h, 1) == 2
    ensures
      var base := Shl(ip, p.suffix);
      Destination(p, h, base, 2) != BitOr(base, 2)
  {
    var base := Shl(ip, p.suffix);
    RoundIsOwn(p, h, base, 1);
    assert base % 2 == 0;
    OrHalves(base, 2);
    assert !Within(p.iid(h, 0), BitOr(base, p.iid(h, 1)));
  }

  // ---------------------------------------------------------------- attempts

  /** The attempts for one packet, from attempt number k on: how many have been made in all, and
      whether one succeeded. */
  function Attempts(p: Probing, k: nat, left: nat): (nat, bool)
    decreases left
  {
    if left == 0 then (k, false)
    else if p.reaches(k) then (k + 1, true)
    else Attempts(p, k + 1, left - 1)
  }

  /** None of the attempts [a, b) succeeds. */
  ghost predicate AllFail(p: Probing, a: nat, b: nat) {
    forall j: nat | a <= j < b :: !p.reaches(j)
  }

  /** A packet fails exactly when none of its attempts would succeed, and then uses them all;
      otherwise the first that succeeds is the last made. */
  lemma {:induction false} AttemptsAre(p: Probing, k: nat, left: nat)
    ensures var (k', ok) := Attempts(p, k, left);
      if AllFail(p, k, k + left) then !ok && k' == k + left
      else ok && k < k' <= k + left && p.reaches(k' - 1) && AllFail(p, k, k' - 1)
    decreases left
  {
    if left > 0 && !p.reaches(k) {
      AttemptsAre(p, k + 1, left - 1);
      assert AllFail(p, k, k + left) <==> AllFail(p, k + 1, k + 1 + (left - 1));
    }
  }

  /** Attempts made and packets failed after n packets. */
  function Tally(p: Probing, n: nat): (nat, nat) {
    if n == 0 || p.dryRun then (0, 0)
    else
      var (tried, failed) := Tally(p, n - 1);
      var (tried', ok) := Attempts(p, tried, p.retries);
      (tried', if ok then failed else failed + 1)
  }

  /** How many of the attempts [a, b) succeed. */
  function Reached(p: Probing, a: nat, b: nat): nat
    decreases b - a
  {
    if a >= b then 0 else (if p.reaches(a) then 1 else 0) + Reached(p, a + 1, b)
  }

  lemma {:induction false} ReachedJoins(p: Probing, a: nat, b: nat, c: nat)
    requires a <= b <= c
    ensures Reached(p, a, c) == Reached(p, a, b) + Reached(p, b, c)
    decreases b - a
  {
    if a < b { ReachedJoins(p, a + 1, b, c); }
  }

  lemma {:induction false} OnePacket(p: Probing, k: nat, left: nat)
    ensures var (k', ok) := Attempts(p, k, left);
      k <= k' <= k + left && Reached(p, k, k') == (if ok then 1 else 0)
    decreases left
  {
    if left > 0 && !p.reaches(k) { OnePacket(p, k + 1, left - 1); }
  }

  /** Every successful attempt is a packet that did not fail; packets_sent counts both kinds, and
      in a dry run packets without any attempt. */
  lemma {:induction false} TallyBalances(p: Probing, n: nat)
    ensures var (tried, failed) := Tally(p, n);
      failed <= n && tried <= Repeat(n, p.retries) && (p.dryRun ==> tried == failed == 0)
      && Reached(p, 0, tried) == if p.dryRun then 0 else n - failed
  {
    if n > 0 && !p.dryRun {
      TallyBalances(p, n - 1);
      var tried := Tally(p, n - 1).0;
      OnePacket(p, tried, p.retries);
      ReachedJoins(p, 0, tried, Attempts(p, tried, p.retries).0);
    }
  }

  /** The attempts and failures of a shard are those of its packets. */
  ghost predicate Tallied(sd: Shard, p: Probing)
    reads sd`packetsSent, sd`packetsTried, sd`packetsFailed
  {
    Tally(p, sd.packetsSent) == (sd.packetsTried, sd.packetsFailed)
  }

  /** The attempts for one packet. */
  method Attempt(sd: Shard, p: Probing)
    modifies sd`packetsTried, sd`packetsFailed
    ensures
      var (tried, ok) := Attempts(p, old(sd.packetsTried), p.retries);
      sd.packetsTried == tried && sd.packetsFailed == old(sd.packetsFailed) + if ok then 0 else 1
    ensures
      if AllFail(p, old(sd.packetsTried), old(sd.packetsTried) + p.retries) then
        sd.packetsFailed == old(sd.packetsFailed) + 1 && sd.packetsTried == old(sd.packetsTried) + p.retries
      else sd.packetsFailed == old(sd.packetsFailed)
  {
    AttemptsAre(p, sd.packetsTried, p.retries);
    var ok, j := false, 0;
    while j < p.retries && !ok
      invariant 0 <= j <= p.retries && sd.packetsFailed == old(sd.packetsFailed)
      invariant Attempts(p, old(sd.packetsTried), p.retries)
             == if ok then (sd.packetsTried, true) else Attempts(p, sd.packetsTried, p.retries - j)
    {
      ok := p.reaches(sd.packetsTried);
      sd.packetsTried := sd.packetsTried + 1;
      j := j + 1;
    }
    if !ok {
      sd.packetsFailed := sd.packetsFailed + 1;
    }
  }

  /** One packet; in a dry run it is only printed. */
  method SendPacket(sd: Shard, p: Probing, packet: Packet)
    requires Tallied(sd, p)
    modifies sd`packetsSent, sd`packetsTried, sd`packetsFailed, sd`made
    ensures Tallied(sd, p) && sd.packetsSent == old(sd.packetsSent) + 1
    ensures sd.made == old(sd.made) + [packet]
    ensures if p.dryRun then sd.packetsFailed == old(sd.packetsFailed) && sd.packetsTried == old(sd.packetsTried)
            else sd.packetsFailed > old(sd.packetsFailed) <==>
                   AllFail(p, old(sd.packetsTried), old(sd.packetsTried) + p.retries)
  {
    sd.made := sd.made + [packet];
    if !p.dryRun {
      Attempt(sd, p);
    }
    sd.packetsSent := sd.packetsSent + 1;
  }

  // ---------------------------------------------------------------- the loop

  /** What stops a sender before its packet number k: an outside reason, or its quota. */
  predicate Halts(stop: nat -> bool, maxPackets: nat, k: nat) {
    stop(k) || (maxPackets != 0 && k >= maxPackets)
  }

  /** Nothing stops it from packet a to packet b. */
  ghost predicate Free(stop: nat -> bool, maxPackets: nat, a: nat, b: nat)
    decreases b
  {
    a >= b || (Free(stop, maxPackets, a, b - 1) && !Halts(stop, maxPackets, b - 1))
  }

  lemma {:induction false} FreeJoins(stop: nat -> bool, maxPackets: nat, a: nat, b: nat, c: nat)
    requires a <= b <= c && Free(stop, maxPackets, a, b) && Free(stop, maxPackets, b, c)
    ensures Free(stop, maxPackets, a, c)
    decreases c
  {
    if b < c { FreeJoins(stop, maxPackets, a, b, c - 1); }
  }

  lemma {:induction false} FreeIs(stop: nat -> bool, maxPackets: nat, n: nat)
    requires Free(stop, maxPackets, 0, n)
    ensures forall k: nat | k < n :: !stop(k)
    ensures maxPackets != 0 ==> n <= maxPackets
  {
    if n > 0 { FreeIs(stop, maxPackets, n - 1); }
  }

  /** The packets of one address: all streams, unless the sender has to stop; stop(k) says whether
      an outside reason is found before the thread's packet number k. */
  method SendStreams(sd: Shard, p: Probing, packet: Packet, stop: nat -> bool) returns (interrupted: bool, ghost n: nat)
    requires Tallied(sd, p)
    modifies sd`packetsSent, sd`packetsTried, sd`packetsFailed, sd`made
    ensures Tallied(sd, p) && sd.packetsSent == old(sd.packetsSent) + n
    ensures sd.made == old(sd.made) + Copies(packet, n)
    ensures Free(stop, sd.maxPackets, old(sd.packetsSent), sd.packetsSent)
    ensures if interrupted then n < p.streams && Halts(stop, sd.maxPackets, sd.packetsSent) else n == p.streams
  {
    n := 0;
    var i := 0;
    while i < p.streams
      invariant 0 <= i == n <= p.streams && Tallied(sd, p)
      invariant sd.packetsSent == old(sd.packetsSent) + n && sd.made == old(sd.made) + Copies(packet, n)
      invariant Free(stop, sd.maxPackets, old(sd.packetsSent), sd.packetsSent)
    {
      if stop(sd.packetsSent) {
        return true, n;
      }
      if sd.maxPackets != 0 && sd.packetsSent >= sd.maxPackets {
        return true, n;
      }
      SendPacket(sd, p, packet);
      i, n := i + 1, n + 1;
    }
    interrupted := false;
  }

  /** The packets of one host: all interface identifiers, or-ed into the destination one after
      the other, and all streams. Reports whether the sender has to stop. */
  method SendHost(sd: Shard, p: Probing, t: Target, stop: nat -> bool) returns (interrupted: bool, ghost n: nat)
    requires Tallied(sd, p)
    modifies sd`packetsSent, sd`packetsTried, sd`packetsFailed, sd`made
    ensures Tallied(sd, p) && sd.packetsSent == old(sd.packetsSent) + n
    ensures n <= Repeat(p.iidNum, p.streams)
    ensures sd.made == old(sd.made) + HostPackets(p, sd.hostsScanned, t, p.iidNum)[..n]
    ensures Free(stop, sd.maxPackets, old(sd.packetsSent), sd.packetsSent)
    ensures if interrupted then n < Repeat(p.iidNum, p.streams) && Halts(stop, sd.maxPackets, sd.packetsSent)
            else n == Repeat(p.iidNum, p.streams)
  {
    var dst, h := Shl(t.ip, p.suffix), sd.hostsScanned;
    ghost var base := dst;
    var u := 0;
    while u < p.iidNum
      invariant 0 <= u <= p.iidNum && dst == Destination(p, h, base, u)
      invariant sd.packetsSent == old(sd.packetsSent) + Repeat(u, p.streams) && Tallied(sd, p)
      invariant sd.made == old(sd.made) + HostPackets(p, h, t, u)
      invariant Free(stop, sd.maxPackets, old(sd.packetsSent), sd.packetsSent)
    {
      dst := BitOr(dst, p.iid(h, u));
      ghost var m := sd.packetsSent;
      interrupted, n := SendStreams(sd, p, Packet(dst, t.port, t.index), stop);
      FreeJoins(stop, sd.maxPackets, old(sd.packetsSent), m, sd.packetsSent);
      if interrupted {
        StoppedInRound(p, h, t, u, n, old(sd.made));
        return true, Repeat(u, p.streams) + n;
      }
      RoundDone(p, h, t, u, old(sd.made));
      u := u + 1;
    }
    ghost var all := HostPackets(p, h, t, u);
    assert all[..|all|] == all;
    return false, |all|;
  }

  lemma RoundDone(p: Probing, h: nat, t: Target, u: nat, made: seq<Packet>)
    ensures made + HostPackets(p, h, t, u) + Copies(RoundPacket(p, h, t, u + 1), p.streams)
         == made + HostPackets(p, h, t, u + 1)
  {
  }

  lemma StoppedInRound(p: Probing, h: nat, t: Target, u: nat, n: nat, made: seq<Packet>)
    requires u < p.iidNum && n < p.streams
    ensures var m := Repeat(u, p.streams) + n;
      && m < Repeat(p.iidNum, p.streams)
      && made + HostPackets(p, h, t, u) + Copies(RoundPacket(p, h, t, u + 1), n)
         == made + HostPackets(p, h, t, p.iidNum)[..m]
  {
    RoundPrefix(p, h, t, u, n);
    PacketAt(p, h, t, u, n);
  }

  /** The packets are all made, and nothing has stopped the sender. */
  ghost predicate MadeAll(sd: Shard, stop: nat -> bool, packets: seq<Packet>)
    reads sd`made, sd`packetsSent
  {
    && sd.made == packets && |packets| == sd.packetsSent
    && Free(stop, sd.maxPackets, 0, sd.packetsSent)
  }

  /** The sender was stopped at a host: it has made the packets before, but not all with it. */
  ghost predicate MadePart(sd: Shard, stop: nat -> bool, before: seq<Packet>, packets: seq<Packet>)
    reads sd`made, sd`packetsSent
  {
    && before <= sd.made < packets && |sd.made| == sd.packetsSent
    && Free(stop, sd.maxPackets, 0, sd.packetsSent)
    && Halts(stop, sd.maxPackets, sd.packetsSent)
  }

  /** r(n) are the packets of the first n hosts, said so that the solver does not unfold them. */
  ghost predicate ArePackets(r: nat -> seq<Packet>, p: Probing, all: seq<Target>) {
    forall n: nat {:trigger all[..n]} | n <= |all| :: r(n) == RunPackets(p, all[..n])
  }

  /** One host more. */
  lemma NextHost(p: Probing, hosts: seq<Target>, t: Target, n: nat)
    requires n <= Repeat(p.iidNum, p.streams)
    ensures RunPackets(p, hosts) + HostPackets(p, |hosts|, t, p.iidNum)[..n]
         == RunPackets(p, hosts + [t])[..|RunPackets(p, hosts)| + n]
    ensures |RunPackets(p, hosts + [t])| == |RunPackets(p, hosts)| + Repeat(p.iidNum, p.streams)
  {
    assert (hosts + [t])[..|hosts|] == hosts;
  }

  /** The packets of one host, counted when it is done. */
  method FinishHost(sd: Shard, p: Probing, t: Target, stop: nat -> bool, ghost hosts: seq<Target>)
    returns (interrupted: bool)
    requires Tallied(sd, p) && MadeAll(sd, stop, RunPackets(p, hosts)) && sd.hostsScanned == |hosts|
    modifies sd`packetsSent, sd`packetsTried, sd`packetsFailed, sd`hostsScanned, sd`made
    ensures Tallied(sd, p)
    ensures sd.hostsScanned == old(sd.hostsScanned) + if interrupted then 0 else 1
    ensures if interrupted then MadePart(sd, stop, RunPackets(p, hosts), RunPackets(p, hosts + [t]))
            else MadeAll(sd, stop, RunPackets(p, hosts + [t]))
  {
    ghost var m, n := sd.packetsSent, 0;
    interrupted, n := SendHost(sd, p, t, stop);
    NextHost(p, hosts, t, n);
    FreeJoins(stop, sd.maxPackets, 0, m, sd.packetsSent);
    if !interrupted {
      sd.hostsScanned := sd.hostsScanned + 1;
    }
  }

  /** The first n of all targets are finished, and what is in hand comes next. */
  ghost predicate Progress(all: seq<Target>, n: nat, dst: Target, left: seq<Target>) {
    n <= |all| && Delivers(dst, all[n..], left)
  }

  lemma HostDone(all: seq<Target>, n: nat, dst: Target, left: seq<Target>, dst': Target, left': seq<Target>)
    requires Progress(all, n, dst, left) && dst.ip != 0 && Delivers(dst', left, left')
    ensures Progress(all, n + 1, dst', left') && n < |all| && dst == all[n]
  {
    assert all[n..] == [dst] + left;
    assert all[n + 1..] == left;
  }

  /** One round of the loop of send_run: the packets of a host, then the next target. */
  method SendTarget(sd: Shard, b: Blocklist, s: Slots, dst: Target, p: Probing,
                    stop: nat -> bool, ghost all: seq<Target>, ghost r: nat -> seq<Packet>)
    returns (interrupted: bool, next: Target)
    requires sd.Valid() && b.Valid() && b.book.Targets() == sd.maxIndex && FitsSlots(s, b.w)
    requires Under(sd.hostsScanned, sd.maxHosts)
    requires Progress(all, sd.hostsScanned, dst, sd.Todo(b.book, s)) && dst.ip != PMAP_SHARD_DONE
    requires Tallied(sd, p) && ArePackets(r, p, all) && MadeAll(sd, stop, r(sd.hostsScanned))
    modifies sd
    ensures sd.Valid() && b.Valid() && Tallied(sd, p)
    ensures sd.hostsScanned == old(sd.hostsScanned) + if interrupted then 0 else 1
    ensures old(sd.hostsScanned) < |all| && dst == all[old(sd.hostsScanned)]
    ensures interrupted ==> MadePart(sd, stop, r(sd.hostsScanned), r(sd.hostsScanned + 1))
    ensures !interrupted ==>
      && MadeAll(sd, stop, r(sd.hostsScanned))
      && Progress(all, sd.hostsScanned, next, sd.Todo(b.book, s))
  {
    ghost var n := sd.hostsScanned;
    InHand(all, n, dst, sd.Todo(b.book, s));
    interrupted := FinishHost(sd, p, dst, stop, all[..n]);
    next := dst;
    if !interrupted {
      next := NextTarget(sd, b, s, dst, all, n);
    }
  }

  lemma InHand(all: seq<Target>, n: nat, dst: Target, left: seq<Target>)
    requires Progress(all, n, dst, left) && dst.ip != 0
    ensures n < |all| && dst == all[n] && all[..n] + [dst] == all[..n + 1]
  {
    assert all[n..] == [dst] + left;
  }

  /** The target after dst. */
  method NextTarget(sd: Shard, b: Blocklist, s: Slots, dst: Target, ghost all: seq<Target>, ghost n: nat)
    returns (next: Target)
    requires sd.Valid() && b.Valid() && b.book.Targets() == sd.maxIndex && FitsSlots(s, b.w)
    requires Progress(all, n, dst, sd.Todo(b.book, s)) && dst.ip != PMAP_SHARD_DONE
    modifies sd`current, sd`pos, sd`iterations, sd`hostsAllowlisted, sd`hostsBlocklisted
    ensures sd.Valid() && n < |all| && dst == all[n] && Progress(all, n + 1, next, sd.Todo(b.book, s))
  {
    ghost var left := sd.Todo(b.book, s);
    next := sd.GetNextIpPrefixPortIndex(b, s);
    HostDone(all, n, dst, left, next, sd.Todo(b.book, s));
  }

  /** How many hosts a limit leaves of all; 0 means no limit. */
  function Least(limit: nat, all: nat): nat {
    if limit != 0 && limit < all then limit else all
  }

  /** A sender is at its end when it has finished all targets, or as many as it may. */
  lemma EndOfRun(all: seq<Target>, n: nat, dst: Target, left: seq<Target>, limit: nat)
    requires Progress(all, n, dst, left) && (limit != 0 ==> n <= limit)
    requires (limit != 0 && n >= limit) || dst.ip == 0
    ensures n == Least(limit, |all|)
  {
  }

  /** One turn of the loop of send_run: the end of the shard or of its limit, or a host. */
  method SendTurn(sd: Shard, b: Blocklist, s: Slots, dst: Target, p: Probing,
                  stop: nat -> bool, ghost all: seq<Target>, ghost r: nat -> seq<Packet>)
    returns (done: bool, interrupted: bool, next: Target)
    requires sd.Valid() && b.Valid() && b.book.Targets() == sd.maxIndex && FitsSlots(s, b.w)
    requires sd.hostsScanned <= Least(sd.maxHosts, |all|)
    requires Progress(all, sd.hostsScanned, dst, sd.Todo(b.book, s))
    requires Tallied(sd, p) && ArePackets(r, p, all) && MadeAll(sd, stop, r(sd.hostsScanned))
    modifies sd
    ensures sd.Valid() && b.Valid() && Tallied(sd, p)
    ensures sd.hostsScanned == old(sd.hostsScanned) + if done then 0 else 1
    ensures sd.hostsScanned <= Least(sd.maxHosts, |all|) && (interrupted ==> done)
    ensures if interrupted then sd.hostsScanned < Least(sd.maxHosts, |all|)
                                && MadePart(sd, stop, r(sd.hostsScanned), r(sd.hostsScanned + 1))
            else MadeAll(sd, stop, r(sd.hostsScanned))
    ensures done && !interrupted ==> sd.hostsScanned == Least(sd.maxHosts, |all|)
    ensures !done ==> Progress(all, sd.hostsScanned, next, sd.Todo(b.book, s))
  {
    if (sd.maxHosts != 0 && sd.hostsScanned >= sd.maxHosts) || dst.ip == PMAP_SHARD_DONE {
      EndOfRun(all, sd.hostsScanned, dst, sd.Todo(b.book, s), sd.maxHosts);
      return true, false, dst;
    }
    interrupted, next := SendTarget(sd, b, s, dst, p, stop, all, r);
    done := interrupted;
  }

  /** The loop of send_run, with dst the target in hand. */
  method SendLoop(sd: Shard, b: Blocklist, s: Slots, dst0: Target, p: Probing,
                  stop: nat -> bool, ghost all: seq<Target>, ghost r: nat -> seq<Packet>)
    returns (interrupted: bool)
    requires sd.Valid() && b.Valid() && b.book.Targets() == sd.maxIndex && FitsSlots(s, b.w)
    requires sd.hostsScanned == 0 && sd.packetsSent == 0 && sd.made == [] && Tallied(sd, p) && ArePackets(r, p, all)
    requires Progress(all, 0, dst0, sd.Todo(b.book, s))
    modifies sd
    ensures sd.Valid() && sd.hostsScanned <= Least(sd.maxHosts, |all|) <= |all| && Tallied(sd, p)
    ensures
      if interrupted then
        sd.hostsScanned < Least(sd.maxHosts, |all|) && MadePart(sd, stop, r(sd.hostsScanned), r(sd.hostsScanned + 1))
      else sd.hostsScanned == Least(sd.maxHosts, |all|) && MadeAll(sd, stop, r(sd.hostsScanned))
  {
    assert all[..0] == [];
    var dst, done := dst0, false;
    while true
      invariant sd.Valid() && b.Valid() && Tallied(sd, p)
      invariant sd.hostsScanned <= Least(sd.maxHosts, |all|)
      invariant Progress(all, sd.hostsScanned, dst, sd.Todo(b.book, s))
      invariant MadeAll(sd, stop, r(sd.hostsScanned))
      decreases |all| - sd.hostsScanned
    {
      done, interrupted, dst := SendTurn(sd, b, s, dst, p, stop, all, r);
      if done {
        return interrupted;
      }
    }
    assert false;
  }

  /** send_run: the packets made are the first of those of the targets that the limit leaves of
      the shard's run, up to the first one before which the sender has to stop. It returns the
      targets it finished, its history as a thread of the machine, and the packets of an
      unfinished host. */
  method SendRun(sd: Shard, b: Blocklist, s: Slots, p: Probing, stop: nat -> bool)
    returns (ghost hosts: seq<Target>, ghost h: seq<Thread>, ghost unfinished: nat)
    requires sd.Valid() && b.Valid() && b.book.Targets() == sd.maxIndex && FitsSlots(s, b.w)
    requires sd.current <= sd.maxIndex && sd.hostsScanned == 0 && sd.made == []
    requires sd.packetsSent == 0 && sd.packetsTried == 0 && sd.packetsFailed == 0
    modifies sd
    ensures sd.Valid() && sd.hostsScanned == |hosts| && Tallied(sd, p)
    ensures var all := old(Run(b.book, s, sd.FromCurrent()));
      && |hosts| <= Least(sd.maxHosts, |all|) <= |all| && hosts == all[..|hosts|]
      && ((forall k :: !stop(k)) && sd.maxPackets == 0 ==> |hosts| == Least(sd.maxHosts, |all|))
      && SentUntil(sd, p, stop, all[..Least(sd.maxHosts, |all|)])
      && (|hosts| == |all| || |hosts| == sd.maxHosts
          || stop(sd.packetsSent) || sd.packetsSent == sd.maxPackets != 0)
    ensures sd.maxHosts != 0 ==> |hosts| <= sd.maxHosts
    ensures forall k: nat | k < sd.packetsSent :: !stop(k)
    ensures sd.maxPackets != 0 ==> sd.packetsSent <= sd.maxPackets
    ensures var c := Limits(Repeat(p.iidNum, p.streams), sd.maxHosts, sd.maxPackets);
      && IsHistory(c, h) && h[|h| - 1].finished
      && h[|h| - 1].hosts == sd.hostsScanned && h[|h| - 1].packets == sd.packetsSent
    ensures sd.packetsSent == sd.hostsScanned * (p.iidNum * p.streams) + unfinished
    ensures unfinished == 0 || unfinished < p.iidNum * p.streams
    ensures (forall k :: !stop(k)) && sd.maxPackets == 0 ==> unfinished == 0
  {
    ghost var all := Run(b.book, s, sd.FromCurrent());
    var dst := sd.GetCurrentIpPrefixPortIndex(b, s);
    assert all[0..] == all;
    SendFrom(sd, b, s, dst, p, stop, all);
    hosts := all[..sd.hostsScanned];
    h, unfinished := RunOver(sd, p, stop, all[..Least(sd.maxHosts, |all|)]);
  }

  /** The whole loop, from the first target. */
  method SendFrom(sd: Shard, b: Blocklist, s: Slots, dst: Target, p: Probing, stop: nat -> bool, ghost all: seq<Target>)
    requires sd.Valid() && b.Valid() && b.book.Targets() == sd.maxIndex && FitsSlots(s, b.w)
    requires sd.hostsScanned == 0 && sd.packetsSent == 0 && sd.made == [] && Tallied(sd, p)
    requires Progress(all, 0, dst, sd.Todo(b.book, s))
    modifies sd
    ensures sd.Valid() && Tallied(sd, p)
    ensures Least(sd.maxHosts, |all|) <= |all| && SentUntil(sd, p, stop, all[..Least(sd.maxHosts, |all|)])
  {
    ghost var r := (n: nat) => if n <= |all| then RunPackets(p, all[..n]) else [];
    var interrupted := SendLoop(sd, b, s, dst, p, stop, all, r);
    UpToLimit(sd, p, stop, all, r, interrupted);
  }

  /** What a sender makes of the hosts: all their packets, or those before the first at which it
      halts; it counts the hosts it has finished. */
  ghost predicate SentUntil(sd: Shard, p: Probing, stop: nat -> bool, hosts: seq<Target>)
    reads sd`made, sd`packetsSent, sd`hostsScanned
  {
    && |sd.made| == sd.packetsSent && Free(stop, sd.maxPackets, 0, sd.packetsSent)
    && sd.made <= RunPackets(p, hosts) && sd.hostsScanned <= |hosts|
    && |RunPackets(p, hosts[..sd.hostsScanned])| <= sd.packetsSent
    && if sd.hostsScanned == |hosts| then sd.made == RunPackets(p, hosts)
       else sd.packetsSent < |RunPackets(p, hosts[..sd.hostsScanned + 1])| && Halts(stop, sd.maxPackets, sd.packetsSent)
  }

  lemma UpToLimit(sd: Shard, p: Probing, stop: nat -> bool, all: seq<Target>, r: nat -> seq<Packet>, interrupted: bool)
    requires ArePackets(r, p, all)
    requires var m := Least(sd.maxHosts, |all|);
      if interrupted then
        sd.hostsScanned < m <= |all| && MadePart(sd, stop, r(sd.hostsScanned), r(sd.hostsScanned + 1))
      else sd.hostsScanned == m <= |all| && MadeAll(sd, stop, r(sd.hostsScanned))
    ensures SentUntil(sd, p, stop, all[..Least(sd.maxHosts, |all|)])
  {
    var todo, n := all[..Least(sd.maxHosts, |all|)], sd.hostsScanned;
    assert todo[..n] == all[..n];
    if interrupted {
      assert todo[..n + 1] == all[..n + 1];
      RunPrefix(p, todo, n + 1);
    }
  }

  /** The packets of a sender are those of its hosts and those of the host in hand. */
  lemma PacketsSent(sd: Shard, p: Probing, stop: nat -> bool, hosts: seq<Target>) returns (unfinished: nat)
    requires SentUntil(sd, p, stop, hosts)
    ensures sd.packetsSent == Repeat(sd.hostsScanned, Repeat(p.iidNum, p.streams)) + unfinished
    ensures sd.packetsSent == sd.hostsScanned * (p.iidNum * p.streams) + unfinished
    ensures unfinished == 0 || (unfinished < p.iidNum * p.streams && sd.hostsScanned < |hosts|)
  {
    var n, perHost := sd.hostsScanned, Repeat(p.iidNum, p.streams);
    RepeatIsProduct(p.iidNum, p.streams);
    RepeatIsProduct(n, perHost);
    RunLength(p, hosts[..n]);
    if n < |hosts| {
      RunLength(p, hosts[..n + 1]);
    } else {
      assert hosts[..n] == hosts;
    }
    unfinished := sd.packetsSent - Repeat(n, perHost);
  }

  lemma RunOver(sd: Shard, p: Probing, stop: nat -> bool, hosts: seq<Target>)
    returns (h: seq<Thread>, unfinished: nat)
    requires SentUntil(sd, p, stop, hosts) && (sd.maxHosts != 0 ==> |hosts| <= sd.maxHosts)
    ensures IsHistory(Limits(Repeat(p.iidNum, p.streams), sd.maxHosts, sd.maxPackets), h)
    ensures h[|h| - 1] == Thread(sd.hostsScanned, sd.packetsSent, unfinished, true)
    ensures sd.packetsSent == sd.hostsScanned * (p.iidNum * p.streams) + unfinished
    ensures unfinished == 0 || unfinished < p.iidNum * p.streams
    ensures (forall k :: !stop(k)) && sd.maxPackets == 0 ==> sd.hostsScanned == |hosts| && unfinished == 0
    ensures forall k: nat | k < sd.packetsSent :: !stop(k)
    ensures sd.maxPackets != 0 ==> sd.packetsSent <= sd.maxPackets
    ensures sd.hostsScanned == |hosts| || stop(sd.packetsSent) || sd.packetsSent == sd.maxPackets != 0
  {
    FreeIs(stop, sd.maxPackets, sd.packetsSent);
    unfinished := PacketsSent(sd, p, stop, hosts);
    h := CountersAreHistory(sd, p, stop, hosts, unfinished);
  }

  /** The counters of a sender are the last of a history of the thread machine. */
  lemma CountersAreHistory(sd: Shard, p: Probing, stop: nat -> bool, hosts: seq<Target>, unfinished: nat)
    returns (h: seq<Thread>)
    requires SentUntil(sd, p, stop, hosts) && (sd.maxHosts != 0 ==> |hosts| <= sd.maxHosts)
    requires sd.packetsSent == Repeat(sd.hostsScanned, Repeat(p.iidNum, p.streams)) + unfinished
    requires unfinished == 0 || (unfinished < p.iidNum * p.streams && sd.hostsScanned < |hosts|)
    ensures IsHistory(Limits(Repeat(p.iidNum, p.streams), sd.maxHosts, sd.maxPackets), h)
    ensures h[|h| - 1] == Thread(sd.hostsScanned, sd.packetsSent, unfinished, true)
  {
    var c := Limits(Repeat(p.iidNum, p.streams), sd.maxHosts, sd.maxPackets);
    RepeatIsProduct(p.iidNum, p.streams);
    h := HistoryOf(c, sd.hostsScanned, unfinished);
    h := Extend(c, h, h[|h| - 1].(finished := true));
  }
}
