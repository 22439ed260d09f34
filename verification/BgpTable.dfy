/** The routing table of the probing engine: block prefixes with value 0, then announced
    prefixes with their AS numbers, in one trie (Yarrp/patricia.cpp, Yarrp/patricia.h), and
    what the probe loop (Yarrp/yarrp.cpp) may then probe. */
module BgpTable {
  import opened Wrappers
  import opened Patricia

  type Bitstring = seq<bool>
  type Table = map<Bitstring, int>

  // ---------------------------------------------------------------- tables as values

  /** Set only when absent. */
  function Put(t: Table, k: Bitstring, v: int): Table {
    if k in t then t else t[k := v]
  }

  /** The value of the longest of the first n prefixes of q that is in the table. */
  function Longest(t: Table, q: Bitstring, n: nat): Option<int>
    requires n <= |q|
  {
    if q[..n] in t then Some(t[q[..n]]) else if n == 0 then None else Longest(t, q, n - 1)
  }

  /** Longest-prefix match. */
  function Match(t: Table, q: Bitstring): Option<int> {
    Longest(t, q, |q|)
  }

  /** The match is the value of a stored prefix of the query no other one exceeds. */
  lemma {:induction false} LongestIs(t: Table, q: Bitstring, n: nat, k: Bitstring)
    requires n <= |q| && k in t && k <= q && |k| <= n
    requires forall j | j in t && j <= q && |j| <= n :: |j| <= |k|
    ensures Longest(t, q, n) == Some(t[k])
  {
    if n == |k| {
      assert q[..n] == k;
    } else {
      assert |q[..n]| == n && q[..n] <= q;
      LongestIs(t, q, n - 1, k);
    }
  }

  lemma {:induction false} LongestNone(t: Table, q: Bitstring, n: nat)
    requires n <= |q|
    requires forall j | j in t :: !(j <= q)
    ensures Longest(t, q, n) == None
  {
    assert q[..n] <= q;
    if n > 0 { LongestNone(t, q, n - 1); }
  }

  lemma {:induction false} LongestFinds(t: Table, q: Bitstring, n: nat) returns (k: Bitstring)
    requires n <= |q| && Longest(t, q, n).Some?
    ensures k in t && k <= q && |k| <= n && Longest(t, q, n) == Some(t[k])
    ensures forall j | j in t && j <= q && |j| <= n :: |j| <= |k|
  {
    if q[..n] in t {
      k := q[..n];
    } else {
      k := LongestFinds(t, q, n - 1);
      forall j | j in t && j <= q && |j| <= n ensures |j| <= |k| {
        assert q[..|j|] == j;
      }
    }
  }

  /** Only the stored prefixes of the query matter. */
  lemma {:induction false} MatchAgrees(t: Table, u: Table, q: Bitstring, n: nat)
    requires n <= |q|
    requires forall k | k <= q :: (k in t <==> k in u) && (k in t ==> t[k] == u[k])
    ensures Longest(t, q, n) == Longest(u, q, n)
  {
    assert q[..n] <= q;
    if n > 0 { MatchAgrees(t, u, q, n - 1); }
  }

  // ---------------------------------------------------------------- loading

  /** populateBlock: one line after the other. */
  function LoadBlocks(t: Table, blocks: seq<Bitstring>): Table {
    if blocks == [] then t
    else Put(LoadBlocks(t, blocks[..|blocks| - 1]), blocks[|blocks| - 1], 0)
  }

  /** populate: a line is skipped when its prefix matches value 0. */
  function LoadBgp(t: Table, lines: seq<(Bitstring, int)>): Table {
    if lines == [] then t
    else
      var u := LoadBgp(t, lines[..|lines| - 1]);
      Guarded(u, lines[|lines| - 1].0, lines[|lines| - 1].1)
  }

  function Guarded(t: Table, k: Bitstring, v: int): Table {
    if Match(t, k) == Some(0) then t else Put(t, k, v)
  }

  /** The whole table: the block list, then the announced prefixes or the default route. */
  function Loaded(blocks: seq<Bitstring>, bgp: Option<seq<(Bitstring, int)>>): Table {
    match bgp
    case Some(lines) => LoadBgp(LoadBlocks(map[], blocks), lines)
    case None => Put(LoadBlocks(map[], blocks), [], 1)
  }

  ghost predicate Covered(blocks: seq<Bitstring>, a: Bitstring) {
    exists b :: b in blocks && b <= a
  }

  /** Every block is in the table, and whatever lies in a block has value 0. */
  ghost predicate Blocks(t: Table, blocks: seq<Bitstring>) {
    && (forall b | b in blocks :: b in t)
    && (forall k | k in t && Covered(blocks, k) :: t[k] == 0)
  }

  lemma {:induction false} BlocksLoaded(blocks: seq<Bitstring>)
    ensures Blocks(LoadBlocks(map[], blocks), blocks)
    ensures forall k :: k in LoadBlocks(map[], blocks) <==> k in blocks
    ensures forall k | k in LoadBlocks(map[], blocks) :: LoadBlocks(map[], blocks)[k] == 0
  {
    if blocks != [] {
      var rest := blocks[..|blocks| - 1];
      BlocksLoaded(rest);
      assert blocks == rest + [blocks[|blocks| - 1]];
    }
  }

  lemma BlocksMatch(t: Table, blocks: seq<Bitstring>, a: Bitstring)
    requires Blocks(t, blocks) && Covered(blocks, a)
    ensures Match(t, a) == Some(0)
  {
    var b :| b in blocks && b <= a;
    if Match(t, a) == None {
      LongestHas(t, a, |a|, b);
    }
    var k := LongestFinds(t, a, |a|);
    assert |b| <= |k|;
    assert b <= k;
  }

  lemma {:induction false} LongestHas(t: Table, q: Bitstring, n: nat, k: Bitstring)
    requires n <= |q| && k in t && k <= q && |k| <= n
    ensures Longest(t, q, n).Some?
  {
    if n == |k| {
      assert q[..n] == k;
    } else {
      LongestHas(t, q, n - 1, k);
    }
  }

  lemma {:induction false} BgpKeepsBlocks(t: Table, blocks: seq<Bitstring>, lines: seq<(Bitstring, int)>)
    requires Blocks(t, blocks)
    ensures Blocks(LoadBgp(t, lines), blocks)
  {
    if lines != [] {
      var rest, line := lines[..|lines| - 1], lines[|lines| - 1];
      BgpKeepsBlocks(t, blocks, rest);
      var u := LoadBgp(t, rest);
      if Covered(blocks, line.0) {
        BlocksMatch(u, blocks, line.0);
      }
    }
  }

  /** Safety of the whole run: an address in a block matches value 0, whatever is loaded
      after the block list. */
  lemma BlockedStaysBlocked(blocks: seq<Bitstring>, bgp: Option<seq<(Bitstring, int)>>, a: Bitstring)
    requires Covered(blocks, a)
    ensures Match(Loaded(blocks, bgp), a) == Some(0)
  {
    BlocksLoaded(blocks);
    match bgp
    case Some(lines) =>
      BgpKeepsBlocks(LoadBlocks(map[], blocks), blocks, lines);
      BlocksMatch(Loaded(blocks, bgp), blocks, a);
    case None =>
      var t := Loaded(blocks, bgp);
      forall k | k in t && Covered(blocks, k) ensures t[k] == 0 {
        if k == [] {
          var b :| b in blocks && b <= k;
          assert b == [];
        }
      }
      BlocksMatch(t, blocks, a);
  }

  /** What two tables say about the prefixes of an address. */
  ghost predicate Agree(t: Table, u: Table, a: Bitstring) {
    forall k | k <= a :: (k in t <==> k in u) && (k in t ==> t[k] == u[k])
  }

  lemma {:induction false} BgpAgrees(t: Table, u: Table, lines: seq<(Bitstring, int)>, a: Bitstring)
    requires Agree(t, u, a)
    ensures Agree(LoadBgp(t, lines), LoadBgp(u, lines), a)
  {
    if lines != [] {
      var rest, line := lines[..|lines| - 1], lines[|lines| - 1];
      BgpAgrees(t, u, rest, a);
      if line.0 <= a {
        MatchAgrees(LoadBgp(t, rest), LoadBgp(u, rest), line.0, |line.0|);
      }
    }
  }

  /** An address in no block matches what it would match without the block list. */
  lemma UnblockedUnaffected(blocks: seq<Bitstring>, bgp: Option<seq<(Bitstring, int)>>, a: Bitstring)
    requires !Covered(blocks, a)
    ensures Match(Loaded(blocks, bgp), a) == Match(Loaded([], bgp), a)
  {
    BlocksLoaded(blocks);
    assert Agree(LoadBlocks(map[], blocks), map[], a);
    match bgp
    case Some(lines) =>
      BgpAgrees(LoadBlocks(map[], blocks), map[], lines, a);
      MatchAgrees(Loaded(blocks, bgp), Loaded([], bgp), a, |a|);
    case None =>
      MatchAgrees(Loaded(blocks, bgp), Loaded([], bgp), a, |a|);
  }

  /** The probe loop probes an address whose match is there and is not 0. */
  ghost predicate Probed(t: Table, a: Bitstring) {
    Match(t, a).Some? && Match(t, a) != Some(0)
  }

  ghost predicate Announced(bgp: Option<seq<(Bitstring, int)>>, a: Bitstring) {
    bgp.Some? ==> exists line :: line in bgp.value && line.0 <= a
  }

  /** A line of AS number 0 whose prefix of the address is longer than those of all lines
      before it: from then on the address counts as blocked. */
  ghost predicate ZeroAt(lines: seq<(Bitstring, int)>, a: Bitstring, i: nat)
    requires i < |lines|
  {
    && lines[i].0 <= a && lines[i].1 == 0
    && forall j | 0 <= j < i && lines[j].0 <= a :: |lines[j].0| < |lines[i].0|
  }

  ghost predicate Zeroed(bgp: Option<seq<(Bitstring, int)>>, a: Bitstring) {
    bgp.Some? && exists i :: 0 <= i < |bgp.value| && ZeroAt(bgp.value, a, i)
  }

  lemma {:induction false} StoredAreLines(lines: seq<(Bitstring, int)>, k: Bitstring) returns (i: nat)
    requires k in LoadBgp(map[], lines)
    ensures i < |lines| && lines[i].0 == k
  {
    var rest := lines[..|lines| - 1];
    if k in LoadBgp(map[], rest) { i := StoredAreLines(rest, k); } else { i := |lines| - 1; }
  }

  /** The longest stored prefix of the address is as long as any line's. */
  ghost predicate Reaches(t: Table, lines: seq<(Bitstring, int)>, a: Bitstring) {
    forall i | 0 <= i < |lines| && lines[i].0 <= a ::
      exists k :: k in t && k <= a && |lines[i].0| <= |k|
  }

  /** What an address matches after the lines, when some line covers it. */
  ghost predicate Settled(t: Table, lines: seq<(Bitstring, int)>, a: Bitstring) {
    if Zeroed(Some(lines), a) then Match(t, a) == Some(0)
    else Reaches(t, lines, a) && (Announced(Some(lines), a) ==> Probed(t, a))
  }

  lemma {:induction false} AfterLines(lines: seq<(Bitstring, int)>, a: Bitstring)
    ensures Settled(LoadBgp(map[], lines), lines, a)
  {
    if lines != [] {
      var rest, line := lines[..|lines| - 1], lines[|lines| - 1];
      AfterLines(rest, a);
      assert lines == rest + [line];
      if !(line.0 <= a) {
        OtherLine(LoadBgp(map[], rest), rest, line, a);
      } else if Zeroed(Some(rest), a) {
        StaysZeroed(LoadBgp(map[], rest), rest, line, a);
      } else {
        forall k | k in LoadBgp(map[], rest) ensures exists i :: 0 <= i < |rest| && rest[i].0 == k {
          var i := StoredAreLines(rest, k);
        }
        CoveringLine(LoadBgp(map[], rest), rest, line, a);
      }
    }
  }

  /** The lines before decide whether one of them sets the address to 0. */
  lemma ZeroedGrows(rest: seq<(Bitstring, int)>, line: (Bitstring, int), a: Bitstring)
    ensures Zeroed(Some(rest + [line]), a) <==> Zeroed(Some(rest), a) || ZeroAt(rest + [line], a, |rest|)
  {
    var lines := rest + [line];
    forall i | 0 <= i < |rest| ensures ZeroAt(lines, a, i) <==> ZeroAt(rest, a, i) {
      if ZeroAt(lines, a, i) {
        forall j | 0 <= j < i && rest[j].0 <= a ensures |rest[j].0| < |rest[i].0| { assert lines[j] == rest[j]; }
      }
    }
  }

  lemma OtherLine(t: Table, rest: seq<(Bitstring, int)>, line: (Bitstring, int), a: Bitstring)
    requires Settled(t, rest, a) && !(line.0 <= a)
    ensures Settled(Guarded(t, line.0, line.1), rest + [line], a)
  {
    var lines, u := rest + [line], Guarded(t, line.0, line.1);
    ZeroedGrows(rest, line, a);
    MatchAgrees(t, u, a, |a|);
    if Announced(Some(lines), a) {
      var l :| l in lines && l.0 <= a;
      assert l in rest;
    }
    if Reaches(t, rest, a) {
      forall i | 0 <= i < |lines| && lines[i].0 <= a
        ensures exists k :: k in u && k <= a && |lines[i].0| <= |k|
      {
        assert lines[i] == rest[i];
        var k :| k in t && k <= a && |rest[i].0| <= |k|;
        assert k in u;
      }
    }
  }

  lemma StaysZeroed(t: Table, rest: seq<(Bitstring, int)>, line: (Bitstring, int), a: Bitstring)
    requires Settled(t, rest, a) && line.0 <= a && Zeroed(Some(rest), a)
    ensures Settled(Guarded(t, line.0, line.1), rest + [line], a)
  {
    ZeroedGrows(rest, line, a);
    ZeroStays(t, line.0, line.1, a);
  }

  /** What matches 0 does so after any line. */
  lemma ZeroStays(t: Table, k: Bitstring, v: int, a: Bitstring)
    requires Match(t, a) == Some(0)
    ensures Match(Guarded(t, k, v), a) == Some(0)
  {
    if k <= a {
      var z := LongestFinds(t, a, |a|);
      if |k| > |z| {
        LongestIs(t, k, |k|, z);
      } else {
        LongestIs(Guarded(t, k, v), a, |a|, z);
      }
    } else {
      MatchAgrees(t, Guarded(t, k, v), a, |a|);
    }
  }

  // ---------------------------------------------------------------- values

  /** Line i is the first with prefix k. */
  ghost predicate IsFirst(lines: seq<(Bitstring, int)>, k: Bitstring, i: nat) {
    i < |lines| && lines[i].0 == k && forall j | 0 <= j < i :: lines[j].0 != k
  }

  /** Entries are kept, and others come from lines. */
  lemma {:induction false} LoadKeeps(t: Table, lines: seq<(Bitstring, int)>, k: Bitstring)
    ensures k in t ==> k in LoadBgp(t, lines) && LoadBgp(t, lines)[k] == t[k]
    ensures k !in t && (forall j | 0 <= j < |lines| :: lines[j].0 != k) ==> k !in LoadBgp(t, lines)
  {
    if lines != [] { LoadKeeps(t, lines[..|lines| - 1], k); }
  }

  /** A prefix gets the AS number of its first line, unless it matched 0 by then; in that case
      it is never stored. */
  lemma {:induction false} FirstLineCounts(t: Table, lines: seq<(Bitstring, int)>, k: Bitstring, i: nat)
    requires k !in t && IsFirst(lines, k, i)
    ensures var u := LoadBgp(t, lines);
      if Match(LoadBgp(t, lines[..i]), k) == Some(0) then k !in u && Match(u, k) == Some(0)
      else k in u && u[k] == lines[i].1
  {
    var rest, line := lines[..|lines| - 1], lines[|lines| - 1];
    if i == |lines| - 1 {
      LoadKeeps(t, rest, k);
    } else {
      assert rest[..i] == lines[..i];
      FirstLineCounts(t, rest, k, i);
      if Match(LoadBgp(t, rest), k) == Some(0) { ZeroStays(LoadBgp(t, rest), line.0, line.1, k); }
    }
  }

  /** Without announcements the default route has the value 1, unless everything is blocked. */
  lemma DefaultRoute(blocks: seq<Bitstring>)
    ensures var t := Loaded(blocks, None); [] in t && t[[]] == if [] in blocks then 0 else 1
  {
    BlocksLoaded(blocks);
  }

  lemma CoveringLine(t: Table, rest: seq<(Bitstring, int)>, line: (Bitstring, int), a: Bitstring)
    requires Settled(t, rest, a) && line.0 <= a && !Zeroed(Some(rest), a)
    requires forall k | k in t :: exists i :: 0 <= i < |rest| && rest[i].0 == k
    ensures Settled(Guarded(t, line.0, line.1), rest + [line], a)
  {
    if k :| k in t && k <= a && |line.0| <= |k| {
      ShorterLine(t, rest, line, a, k);
    } else {
      LongerLine(t, rest, line, a);
    }
  }

  lemma ShorterLine(t: Table, rest: seq<(Bitstring, int)>, line: (Bitstring, int), a: Bitstring, k: Bitstring)
    requires Settled(t, rest, a) && line.0 <= a && !Zeroed(Some(rest), a)
    requires k in t && k <= a && |line.0| <= |k|
    requires exists i :: 0 <= i < |rest| && rest[i].0 == k
    ensures Settled(Guarded(t, line.0, line.1), rest + [line], a)
  {
    var lines, u := rest + [line], Guarded(t, line.0, line.1);
    ZeroedGrows(rest, line, a);
    var i :| 0 <= i < |rest| && rest[i].0 == k;
    assert lines[i].0 == k;
    assert rest[i] in rest;
    var m := LongestFinds(t, a, |a|);
    LongestIs(u, a, |a|, m);
    forall i | 0 <= i < |lines| && lines[i].0 <= a
      ensures exists k :: k in u && k <= a && |lines[i].0| <= |k|
    {
      if i < |rest| {
        var k :| k in t && k <= a && |rest[i].0| <= |k|;
        assert k in u;
      } else {
        assert k in u;
      }
    }
  }

  lemma LongerLine(t: Table, rest: seq<(Bitstring, int)>, line: (Bitstring, int), a: Bitstring)
    requires Settled(t, rest, a) && line.0 <= a && !Zeroed(Some(rest), a)
    requires forall k | k in t :: exists i :: 0 <= i < |rest| && rest[i].0 == k
    requires forall k | k in t && k <= a :: |k| < |line.0|
    ensures Settled(Guarded(t, line.0, line.1), rest + [line], a)
  {
    var lines, u := rest + [line], Guarded(t, line.0, line.1);
    ZeroedGrows(rest, line, a);
    forall j | 0 <= j < |rest| && lines[j].0 <= a ensures |lines[j].0| < |line.0| {
      assert lines[j] == rest[j];
      var k :| k in t && k <= a && |rest[j].0| <= |k|;
    }
    NotZeroBefore(t, rest, line.0, a);
    LongestIs(u, a, |a|, line.0);
    assert line.0 in u;
  }

  lemma NotZeroBefore(t: Table, rest: seq<(Bitstring, int)>, q: Bitstring, a: Bitstring)
    requires Settled(t, rest, a) && q <= a && !Zeroed(Some(rest), a)
    requires forall k | k in t :: exists i :: 0 <= i < |rest| && rest[i].0 == k
    requires forall k | k in t && k <= a :: |k| < |q|
    ensures Match(t, q) != Some(0)
  {
    if k :| k in t && k <= a {
      var i :| 0 <= i < |rest| && rest[i].0 == k;
      assert rest[i] in rest;
      var m := LongestFinds(t, a, |a|);
      LongestIs(t, q, |q|, m);
    } else {
      LongestNone(t, q, |q|);
    }
  }

  /** Exactly those addresses are probed that lie in no block, are announced (any address when
      no announcements are given), and are not set to 0 by a line with AS number 0. */
  lemma ProbedExactly(blocks: seq<Bitstring>, bgp: Option<seq<(Bitstring, int)>>, a: Bitstring)
    ensures Probed(Loaded(blocks, bgp), a) <==> !Covered(blocks, a) && Announced(bgp, a) && !Zeroed(bgp, a)
  {
    if Covered(blocks, a) {
      BlockedStaysBlocked(blocks, bgp, a);
    } else {
      UnblockedUnaffected(blocks, bgp, a);
      var t := Loaded([], bgp);
      match bgp
      case Some(lines) =>
        AfterLines(lines, a);
        if !Announced(bgp, a) {
          forall k | k in t ensures !(k <= a) {
            var i := StoredAreLines(lines, k);
            assert lines[i] in lines;
          }
          LongestNone(t, a, |a|);
        }
      case None =>
        LongestIs(t, a, |a|, []);
    }
  }

  /** Once announced first with AS number 0, a prefix is not probed, whatever else is announced. */
  lemma ZeroLineBlocks(blocks: seq<Bitstring>, k: Bitstring, others: seq<(Bitstring, int)>, a: Bitstring)
    requires k <= a
    ensures var bgp := Some([(k, 0)] + others); Announced(bgp, a) && !Probed(Loaded(blocks, bgp), a)
  {
    var lines := [(k, 0)] + others;
    assert lines[0] in lines;
    assert ZeroAt(lines, a, 0);
    ProbedExactly(blocks, Some(lines), a);
  }

  // ---------------------------------------------------------------- the trie as a table

  /** class Patricia: the trie with a value in user1. */
  class PrefixTable {
    const tree: Tree

    /** Every stored prefix has a value. */
    ghost predicate Valid()
      reads this, tree, tree.nodes
    {
      && tree.Valid() && tree.maxbits <= PATRICIA_MAXBITS
      && (forall n {:trigger n.user1} | n in tree.nodes && n.prefix.Some? :: n.user1.Some?)
    }

    /** No node without a prefix keeps a value: true until a node is removed. */
    ghost predicate Unstale()
      reads this, tree, tree.nodes
    {
      forall n {:trigger n.user1} | n in tree.nodes && n.prefix.None? :: n.user1.None?
    }

    /** The value the node of a key carries, if there is such a node. */
    ghost function Remembered(k: Bitstring): (r: Option<int>)
      requires tree.Keys()
      reads this, tree, tree.nodes
      ensures forall n {:trigger Same(n.key, k)} | n in tree.nodes && Same(n.key, k) :: r == n.user1
      ensures (forall n | n in tree.nodes :: n.key != k) ==> r == None
    {
      if exists n :: n in tree.nodes && n.key == k then
        var n :| n in tree.nodes && n.key == k;
        assert forall m | m in tree.nodes && Same(m.key, k) :: Same(m.key, n.key);
        n.user1
      else None
    }

    /** The stored prefixes with their values. */
    ghost function Contents(): Table
      requires tree.Keys()
      reads this, tree, tree.nodes
    {
      map k | k in tree.Stored() && Remembered(k).Some? :: Remembered(k).value
    }

    lemma At(n: Node)
      requires tree.Keys() && n in tree.nodes
      ensures Remembered(n.key) == n.user1
      ensures n.prefix.Some? && n.user1.Some? ==> n.key in Contents() && Contents()[n.key] == n.user1.value
    {
      assert Same(n.key, n.key);
      assert n.prefix.Some? ==> n.key in tree.Stored();
    }

    lemma HasNode(k: Bitstring) returns (n: Node)
      requires tree.Keys() && k in Contents()
      ensures n in tree.nodes && n.key == k && n.prefix.Some? && n.user1 == Some(Contents()[k])
    {
      n :| n in tree.nodes && n.prefix.Some? && n.key == k;
      At(n);
    }

    constructor (maxbits: nat)
      requires maxbits <= PATRICIA_MAXBITS
      ensures Valid() && Unstale() && fresh(tree) && tree.maxbits == maxbits && tree.nodes == {}
      ensures Contents() == map[]
    {
      tree := new Tree(maxbits);
    }

    /** Patricia::add: the value is set only when the node has none. A node that lost its
        prefix to patricia_remove still has its old value, and that one comes back. */
    method Add(prefix: Prefix, val: int)
      requires Valid() && prefix.Fits(tree.maxbits)
      modifies tree, tree.nodes
      ensures Valid() && fresh(tree.nodes - old(tree.nodes))
      ensures Contents() == old(Contents())[prefix.Key() := old(Remembered(prefix.Key())).GetOr(val)]
      ensures old(Unstale()) ==> Unstale() && Contents() == Put(old(Contents()), prefix.Key(), val)
    {
      if Unstale() {
        PutIs(prefix.Key(), val);
      }
      var node := SetIfAbsent(prefix, val);
      Added(prefix, node, val);
    }

    lemma PutIs(k: Bitstring, val: int)
      requires Valid() && Unstale()
      ensures Contents()[k := Remembered(k).GetOr(val)] == Put(Contents(), k, val)
    {
      if k in Contents() {
        var n := HasNode(k);
      } else if n :| n in tree.nodes && n.key == k {
        At(n);
      }
    }

    method SetIfAbsent(prefix: Prefix, val: int) returns (node: Node)
      requires Valid() && prefix.Fits(tree.maxbits)
      modifies tree, tree.nodes
      ensures Valid() && fresh(tree.nodes - old(tree.nodes)) && old(tree.nodes) <= tree.nodes
      ensures old(Unstale()) ==> Unstale()
      ensures tree.Stored() == old(tree.Stored()) + {prefix.Key()}
      ensures node in tree.nodes && node.key == prefix.Key()
      ensures forall n {:trigger n.user1} | n in old(tree.nodes) && n != node :: n.user1 == old(n.user1)
      ensures forall n {:trigger n.user1} | n in tree.nodes - old(tree.nodes) && n != node :: n.user1 == None
      ensures node in old(tree.nodes) ==> node.user1 == Some(old(node.user1).GetOr(val))
      ensures node !in old(tree.nodes) ==> node.user1 == Some(val)
    {
      node := tree.Lookup(prefix);
      if node.user1.None? {
        node.user1 := Some(val);
      }
    }

    twostate lemma Added(new prefix: Prefix, new node: Node, val: int)
      requires old(tree.Keys()) && tree.Keys() && prefix.Fits(tree.maxbits)
      requires forall n {:trigger n.user1} | n in old(tree.nodes) && old(n.prefix).Some? :: old(n.user1).Some?
      requires node in tree.nodes && node.key == prefix.Key()
      requires tree.Stored() == old(tree.Stored()) + {prefix.Key()}
      requires old(tree.nodes) <= tree.nodes
      requires forall n {:trigger n.user1} | n in old(tree.nodes) && n != node :: n.user1 == old(n.user1)
      requires forall n {:trigger n.user1} | n in tree.nodes - old(tree.nodes) && n != node :: n.user1 == None
      requires node in old(tree.nodes) ==> node.user1 == Some(old(node.user1).GetOr(val))
      requires node !in old(tree.nodes) ==> node.user1 == Some(val)
      ensures Contents() == old(Contents())[prefix.Key() := old(Remembered(prefix.Key())).GetOr(val)]
    {
      var key := prefix.Key();
      AddedHere(node, key);
      assert Remembered(key) == Some(old(Remembered(key)).GetOr(val));
      forall k | k in old(tree.Stored()) && k != key
        ensures Remembered(k) == old(Remembered(k))
      {
        var n :| n in old(tree.nodes) && old(n.prefix).Some? && n.key == k;
        assert Same(n.key, k);
      }
    }

    /** A node that is new has a key no node had. */
    twostate lemma AddedHere(new node: Node, k: Bitstring)
      requires old(tree.Keys()) && tree.Keys() && old(tree.nodes) <= tree.nodes && node in tree.nodes && k == node.key
      ensures Remembered(k) == node.user1
      ensures old(Remembered(k)) == if node in old(tree.nodes) then old(node.user1) else None
    {
      assert Same(node.key, k);
      forall n | n in old(tree.nodes) && n.key == k ensures n == node {
        assert Same(n.key, node.key);
      }
    }

    /** patricia_remove on a node with two children leaves its value behind, so that adding
        the prefix again brings it back (see Add). */
    method RemoveEntry(node: Node)
      requires Valid() && node in tree.nodes
      modifies tree, tree.nodes
      ensures Valid()
      ensures Contents() == old(Contents()) - {node.key}
      ensures old(node.l != null && node.r != null) ==> Remembered(node.key) == old(node.user1)
    {
      tree.Remove(node);
      OthersKeep(node);
      if node in tree.nodes {
        At(node);
      }
    }

    twostate lemma OthersKeep(new node: Node)
      requires old(tree.Keys()) && tree.Keys() && tree.Removed(node)
      requires tree.Stored() == old(tree.Stored()) - {node.key}
      ensures Contents() == old(Contents()) - {node.key}
    {
      forall k | k in tree.Stored() ensures Remembered(k) == old(Remembered(k)) {
        var n :| n in tree.nodes && n.prefix.Some? && n.key == k;
        assert Same(n.key, k);
      }
    }

    /** Patricia::get: the value of the longest prefix, or of exactly this one, or nothing. */
    method Get(prefix: Prefix, exact: bool) returns (r: Option<int>)
      requires Valid() && prefix.Fits(tree.maxbits)
      ensures !exact ==> r == Match(Contents(), prefix.Key())
      ensures exact ==> r == if prefix.Key() in Contents() then Some(Contents()[prefix.Key()]) else None
    {
      if exact {
        r := GetExact(prefix);
      } else {
        r := GetBest(prefix);
      }
    }

    method GetExact(prefix: Prefix) returns (r: Option<int>)
      requires Valid() && prefix.Fits(tree.maxbits)
      ensures r == if prefix.Key() in Contents() then Some(Contents()[prefix.Key()]) else None
    {
      var node := tree.SearchExact(prefix);
      if node == null {
        return None;
      }
      At(node);
      return node.user1;
    }

    method GetBest(prefix: Prefix) returns (r: Option<int>)
      requires Valid() && prefix.Fits(tree.maxbits)
      ensures r == Match(Contents(), prefix.Key())
    {
      var node := tree.SearchBest2(prefix, true);
      if node == null {
        LongestNoneStored(prefix.Key());
        return None;
      }
      BestIsMatch(prefix.Key(), node);
      return node.user1;
    }

    /** Patricia::matchingPrefix: the same with -1 for nothing. */
    method MatchingPrefix(prefix: Prefix) returns (v: int)
      requires Valid() && prefix.Fits(tree.maxbits)
      ensures v == Match(Contents(), prefix.Key()).GetOr(-1)
    {
      var node := tree.SearchBest2(prefix, true);
      if node == null {
        LongestNoneStored(prefix.Key());
        return -1;
      }
      BestIsMatch(prefix.Key(), node);
      return node.user1.value;
    }

    lemma BestIsMatch(q: Bitstring, node: Node)
      requires Valid() && tree.Candidate(q, true, node)
      requires forall m | tree.Candidate(q, true, m) :: |m.key| <= |node.key|
      ensures node.user1.Some? && Match(Contents(), q) == node.user1
    {
      At(node);
      forall j | j in Contents() && j <= q ensures |j| <= |node.key| {
        var m := HasNode(j);
        assert tree.Candidate(q, true, m);
      }
      LongestIs(Contents(), q, |q|, node.key);
    }

    lemma LongestNoneStored(q: Bitstring)
      requires Valid() && forall m :: !tree.Candidate(q, true, m)
      ensures Match(Contents(), q) == None
    {
      forall j | j in Contents() ensures !(j <= q) {
        var m := HasNode(j);
        assert !tree.Candidate(q, true, m);
      }
      LongestNone(Contents(), q, |q|);
    }

    /** Patricia::populateBlock */
    method PopulateBlock(lines: seq<Prefix>)
      requires Valid() && Unstale() && Fit(lines, tree.maxbits)
      modifies tree, tree.nodes
      ensures Valid() && Unstale() && fresh(tree.nodes - old(tree.nodes))
      ensures Contents() == LoadBlocks(old(Contents()), Keys(lines, tree.maxbits))
    {
      ghost var before := Contents();
      for i := 0 to |lines|
        invariant Valid() && Unstale() && fresh(tree.nodes - old(tree.nodes))
        invariant Fit(lines[..i], tree.maxbits)
        invariant Contents() == LoadBlocks(before, Keys(lines[..i], tree.maxbits))
      {
        Add(lines[i], 0);
        NextBlock(before, lines, tree.maxbits, i);
      }
      assert lines[..|lines|] == lines;
    }

    /** The guard in Patricia::populate. */
    method AddUnlessBlocked(prefix: Prefix, asn: int)
      requires Valid() && Unstale() && prefix.Fits(tree.maxbits)
      modifies tree, tree.nodes
      ensures Valid() && Unstale() && fresh(tree.nodes - old(tree.nodes))
      ensures Contents() == Guarded(old(Contents()), prefix.Key(), asn)
    {
      var v := MatchingPrefix(prefix);
      if v != 0 {
        Add(prefix, asn);
      }
    }

    /** Patricia::populate without the block flag: lines in a blocked prefix are skipped. */
    method Populate(lines: seq<(Prefix, int)>)
      requires Valid() && Unstale() && FitLines(lines, tree.maxbits)
      modifies tree, tree.nodes
      ensures Valid() && Unstale() && fresh(tree.nodes - old(tree.nodes))
      ensures Contents() == LoadBgp(old(Contents()), KeyLines(lines, tree.maxbits))
    {
      ghost var before := Contents();
      for i := 0 to |lines|
        invariant Valid() && Unstale() && fresh(tree.nodes - old(tree.nodes))
        invariant FitLines(lines[..i], tree.maxbits)
        invariant Contents() == LoadBgp(before, KeyLines(lines[..i], tree.maxbits))
      {
        AddUnlessBlocked(lines[i].0, lines[i].1);
        NextLine(before, lines, tree.maxbits, i);
      }
      assert lines[..|lines|] == lines;
    }
  }

  ghost predicate Fit(lines: seq<Prefix>, maxbits: nat) {
    forall i | 0 <= i < |lines| :: lines[i].Fits(maxbits)
  }

  ghost predicate FitLines(lines: seq<(Prefix, int)>, maxbits: nat) {
    forall i | 0 <= i < |lines| :: lines[i].0.Fits(maxbits)
  }

  /** The keys of the lines of a block list. */
  ghost function Keys(lines: seq<Prefix>, maxbits: nat): (r: seq<Bitstring>)
    requires Fit(lines, maxbits)
    ensures |r| == |lines|
  {
    seq(|lines|, i requires 0 <= i < |lines| => lines[i].Key())
  }

  /** The keys and AS numbers of the lines of an announcement list. */
  ghost function KeyLines(lines: seq<(Prefix, int)>, maxbits: nat): (r: seq<(Bitstring, int)>)
    requires FitLines(lines, maxbits)
    ensures |r| == |lines|
  {
    seq(|lines|, i requires 0 <= i < |lines| => (lines[i].0.Key(), lines[i].1))
  }

  lemma NextBlock(t: Table, lines: seq<Prefix>, maxbits: nat, i: nat)
    requires Fit(lines, maxbits) && i < |lines|
    ensures Fit(lines[..i], maxbits) && Fit(lines[..i + 1], maxbits)
    ensures LoadBlocks(t, Keys(lines[..i + 1], maxbits))
         == Put(LoadBlocks(t, Keys(lines[..i], maxbits)), lines[i].Key(), 0)
  {
    assert Keys(lines[..i + 1], maxbits)[..i] == Keys(lines[..i], maxbits);
  }

  lemma NextLine(t: Table, lines: seq<(Prefix, int)>, maxbits: nat, i: nat)
    requires FitLines(lines, maxbits) && i < |lines|
    ensures FitLines(lines[..i], maxbits) && FitLines(lines[..i + 1], maxbits)
    ensures
      var u := LoadBgp(t, KeyLines(lines[..i], maxbits));
      LoadBgp(t, KeyLines(lines[..i + 1], maxbits))
      == Guarded(u, lines[i].0.Key(), lines[i].1)
  {
    assert KeyLines(lines[..i + 1], maxbits)[..i] == KeyLines(lines[..i], maxbits);
  }

  /** The set-up in yarrp.cpp: the block list first, then the announced prefixes or, without
      them, the default route. */
  method SetUp(maxbits: nat, blocks: seq<Prefix>, bgp: Option<seq<(Prefix, int)>>, root: seq<bv8>)
    returns (t: PrefixTable)
    requires maxbits <= PATRICIA_MAXBITS && maxbits <= 8 * |root|
    requires Fit(blocks, maxbits) && (bgp.Some? ==> FitLines(bgp.value, maxbits))
    ensures t.Valid() && t.tree.maxbits == maxbits
    ensures
      var lines := if bgp.Some? then Some(KeyLines(bgp.value, maxbits)) else None;
      t.Contents() == Loaded(Keys(blocks, maxbits), lines)
  {
    t := new PrefixTable(maxbits);
    t.PopulateBlock(blocks);
    match bgp
    case Some(lines) =>
      t.Populate(lines);
    case None =>
      t.Add(Prefix(root, 0), 1);
  }

  /** The test of the probe loop: no probe without a value, none with value 0. */
  method ShouldProbe(t: PrefixTable, address: Prefix) returns (probe: bool)
    requires t.Valid() && address.Fits(t.tree.maxbits)
    ensures probe <==> Probed(t.Contents(), address.Key())
  {
    var asn := t.Get(address, false);
    if asn.None? {
      return false;
    }
    return asn.value != 0;
  }
}
