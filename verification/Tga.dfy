/** Target generation (HMapc/lib/tga.c): seeds that differ in few hexadecimal digits are
    merged into patterns with wildcards, and every pattern is expanded in place. */
module Tga {
  import opened Numbers

  const IPV6_LENGTH: nat := 32
  const HAMMING_THRESHOLD: nat := 3

  // ---------------------------------------------------------------- patterns

  /** The number of wildcards. */
  function Wild(p: string): (r: nat)
    ensures r <= |p|
  {
    if p == [] then 0 else Wild(p[1..]) + (if p[0] == '*' then 1 else 0)
  }

  /** A pattern stands for the strings that agree with it outside its wildcards. */
  ghost predicate Matches(p: string, s: string) {
    |p| == |s| && forall c | 0 <= c < |p| :: p[c] == '*' || p[c] == s[c]
  }

  ghost predicate Concrete(s: string) {
    |s| == IPV6_LENGTH && forall c | 0 <= c < |s| :: s[c] != '*'
  }

  lemma {:induction false} WildConcrete(s: string)
    ensures Wild(s) == 0 <==> forall c | 0 <= c < |s| :: s[c] != '*'
  {
    if s != [] { WildConcrete(s[1..]); }
  }

  lemma {:induction false} WildConcat(p: string, q: string)
    ensures Wild(p + q) == Wild(p) + Wild(q)
  {
    if p == [] {
      assert p + q == q;
    } else {
      assert (p + q)[1..] == p[1..] + q;
      WildConcat(p[1..], q);
    }
  }

  // ---------------------------------------------------------------- merging two strings

  /** Where two strings differ, the merged one has a wildcard. */
  function Merge(p: string, s: string): (r: string)
    requires |p| == |s|
    ensures |r| == |p|
    ensures forall c | 0 <= c < |p| :: r[c] == if p[c] == s[c] then p[c] else '*'
  {
    if p == [] then [] else [if p[0] == s[0] then p[0] else '*'] + Merge(p[1..], s[1..])
  }

  /** hamming_distance: a wildcard differs from every digit, so the distance from a pattern
      to a seed is the number of wildcards after merging them. */
  method HammingDistance(str1: string, str2: string) returns (distance: nat)
    requires |str1| == |str2| == IPV6_LENGTH && Concrete(str2)
    ensures distance == Wild(Merge(str1, str2))
  {
    distance := 0;
    var i := 0;
    ghost var m := Merge(str1, str2);
    while i < IPV6_LENGTH
      invariant 0 <= i <= IPV6_LENGTH
      invariant distance == Wild(m[..i])
    {
      assert m[..i + 1] == m[..i] + [m[i]];
      WildConcat(m[..i], [m[i]]);
      if str1[i] != str2[i] {
        distance := distance + 1;
      }
      i := i + 1;
    }
    assert m[..i] == m;
  }

  /** merge_strings */
  method MergeStrings(str1: string, str2: string) returns (result: string)
    requires |str1| == |str2| == IPV6_LENGTH
    ensures result == Merge(str1, str2)
  {
    var r := new char[IPV6_LENGTH];
    var i := 0;
    while i < IPV6_LENGTH
      invariant 0 <= i <= IPV6_LENGTH
      invariant forall c | 0 <= c < i :: r[c] == if str1[c] == str2[c] then str1[c] else '*'
    {
      r[i] := if str1[i] == str2[i] then str1[i] else '*';
      i := i + 1;
    }
    result := r[..];
  }

  // ---------------------------------------------------------------- clusters

  ghost predicate Seeds(seeds: seq<string>) {
    forall i | 0 <= i < |seeds| :: Concrete(seeds[i])
  }

  /** Seeds i to e - 1 merged one after the other. */
  function Merged(seeds: seq<string>, i: nat, e: nat): (r: string)
    requires i < e <= |seeds| && forall k | 0 <= k < |seeds| :: |seeds[k]| == IPV6_LENGTH
    ensures |r| == IPV6_LENGTH
    decreases e
  {
    if e == i + 1 then seeds[i] else Merge(Merged(seeds, i, e - 1), seeds[e - 1])
  }

  /** Merging keeps exactly the columns in which all the seeds agree. */
  lemma {:induction false} MergedColumns(seeds: seq<string>, i: nat, e: nat)
    requires i < e <= |seeds| && Seeds(seeds)
    ensures forall c | 0 <= c < IPV6_LENGTH ::
      Merged(seeds, i, e)[c] ==
      if forall k | i <= k < e :: seeds[k][c] == seeds[i][c] then seeds[i][c] else '*'
    decreases e
  {
    if e > i + 1 { MergedColumns(seeds, i, e - 1); }
  }

  /** A merged pattern matches every seed merged into it. */
  lemma MergedMatches(seeds: seq<string>, i: nat, e: nat, k: nat)
    requires i <= k < e <= |seeds| && Seeds(seeds)
    ensures Matches(Merged(seeds, i, e), seeds[k])
  {
    MergedColumns(seeds, i, e);
  }

  /** The end of the cluster that starts at i and has reached j: merging goes on while the
      pattern keeps to the threshold. */
  function End(seeds: seq<string>, i: nat, j: nat): (e: nat)
    requires i < j <= |seeds| && forall k | 0 <= k < |seeds| :: |seeds[k]| == IPV6_LENGTH
    ensures j <= e <= |seeds|
    decreases |seeds| - j
  {
    if j < |seeds| && Wild(Merged(seeds, i, j + 1)) <= HAMMING_THRESHOLD then End(seeds, i, j + 1) else j
  }

  lemma {:induction false} EndWild(seeds: seq<string>, i: nat, j: nat)
    requires i < j <= |seeds| && Seeds(seeds) && Wild(Merged(seeds, i, j)) <= HAMMING_THRESHOLD
    ensures Wild(Merged(seeds, i, End(seeds, i, j))) <= HAMMING_THRESHOLD
    ensures End(seeds, i, j) < |seeds| ==> Wild(Merged(seeds, i, End(seeds, i, j) + 1)) > HAMMING_THRESHOLD
    decreases |seeds| - j
  {
    if j < |seeds| && Wild(Merged(seeds, i, j + 1)) <= HAMMING_THRESHOLD { EndWild(seeds, i, j + 1); }
  }

  lemma ClusterStep(seeds: seq<string>, i: nat, j: nat)
    requires i < j < |seeds| && Seeds(seeds)
    ensures Merged(seeds, i, j + 1) == Merge(Merged(seeds, i, j), seeds[j])
    ensures End(seeds, i, j) == if Wild(Merged(seeds, i, j + 1)) <= HAMMING_THRESHOLD then End(seeds, i, j + 1) else j
  {
  }

  /** Where the outer loop goes on after the cluster at i: behind it, or one further when the
      cluster reaches the end of the list. */
  function NextHead(seeds: seq<string>, i: nat): (n: nat)
    requires i < |seeds| && forall k | 0 <= k < |seeds| :: |seeds[k]| == IPV6_LENGTH
    ensures i < n <= |seeds|
  {
    var e := End(seeds, i, i + 1);
    if e < |seeds| then e else i + 1
  }

  /** Whether the outer loop, being at i, comes to k. */
  predicate Visits(seeds: seq<string>, i: nat, k: nat)
    requires i <= |seeds| && forall m | 0 <= m < |seeds| :: |seeds[m]| == IPV6_LENGTH
    decreases |seeds| - i
  {
    i < |seeds| && (i == k || Visits(seeds, NextHead(seeds, i), k))
  }

  lemma {:induction false} VisitsForward(seeds: seq<string>, i: nat, k: nat)
    requires k < i <= |seeds| && Seeds(seeds)
    ensures !Visits(seeds, i, k)
    decreases |seeds| - i
  {
    if i < |seeds| { VisitsForward(seeds, NextHead(seeds, i), k); }
  }

  /** After the turn at a head the loop comes to the same later heads. */
  lemma VisitsTurn(seeds: seq<string>, at: nat, next: nat)
    requires at < |seeds| && Seeds(seeds) && next == NextHead(seeds, at)
    requires forall k | at <= k < |seeds| :: Visits(seeds, at, k) <==> Visits(seeds, 0, k)
    ensures Visits(seeds, 0, at)
    ensures forall k | at < k < next :: !Visits(seeds, 0, k)
    ensures forall k | next <= k < |seeds| :: Visits(seeds, next, k) <==> Visits(seeds, 0, k)
  {
    forall k | at < k < next ensures !Visits(seeds, 0, k) {
      VisitsForward(seeds, next, k);
    }
  }

  /** Entry k belongs to the cluster of head i, which ends before the list does. */
  predicate Swallows(seeds: seq<string>, i: nat, k: nat)
    requires i < |seeds| && forall m | 0 <= m < |seeds| :: |seeds[m]| == IPV6_LENGTH
  {
    i < k < End(seeds, i, i + 1) < |seeds|
  }

  /** The loop passes over an entry exactly when an earlier head swallows it; after the last
      cluster it visits every entry. */
  lemma VisitedUnlessMerged(seeds: seq<string>, k: nat)
    requires k < |seeds| && Seeds(seeds)
    ensures Visits(seeds, 0, k) <==> forall i | 0 <= i < k && Visits(seeds, 0, i) :: !Swallows(seeds, i, k)
  {
    VisitedFrom(seeds, 0, k);
  }

  lemma {:induction false} VisitedFrom(seeds: seq<string>, at: nat, k: nat)
    requires at <= k < |seeds| && Seeds(seeds)
    ensures Visits(seeds, at, k) <==> forall i | at <= i < k && Visits(seeds, at, i) :: !Swallows(seeds, i, k)
    decreases |seeds| - at
  {
    var next := NextHead(seeds, at);
    if at < k < next {
      VisitsForward(seeds, next, k);
      assert Visits(seeds, at, at) && Swallows(seeds, at, k);
    } else if at < k {
      VisitedFrom(seeds, next, k);
      assert !Swallows(seeds, at, k);
      forall i | at < i < next ensures !Visits(seeds, at, i) {
        VisitsForward(seeds, next, i);
      }
    }
  }

  /** The entry at k after clustering. */
  function Clustered(seeds: seq<string>, k: nat): string
    requires k < |seeds| && forall m | 0 <= m < |seeds| :: |seeds[m]| == IPV6_LENGTH
  {
    if Visits(seeds, 0, k) then Merged(seeds, k, End(seeds, k, k + 1)) else seeds[k]
  }

  /** Every pattern matches its own seed and every seed merged into it, and keeps to the
      threshold; clusters are maximal. */
  lemma ClusteredIsSound(seeds: seq<string>, k: nat)
    requires k < |seeds| && Seeds(seeds)
    ensures Matches(Clustered(seeds, k), seeds[k])
    ensures Visits(seeds, 0, k) ==>
      forall m | k <= m < End(seeds, k, k + 1) :: Matches(Clustered(seeds, k), seeds[m])
    ensures Wild(Clustered(seeds, k)) <= HAMMING_THRESHOLD
    ensures Visits(seeds, 0, k) && End(seeds, k, k + 1) < |seeds| ==>
      Wild(Merged(seeds, k, End(seeds, k, k + 1) + 1)) > HAMMING_THRESHOLD
  {
    WildConcrete(seeds[k]);
    EndWild(seeds, k, k + 1);
    forall m | k <= m < End(seeds, k, k + 1)
      ensures Matches(Merged(seeds, k, End(seeds, k, k + 1)), seeds[m])
    {
      MergedMatches(seeds, k, End(seeds, k, k + 1), m);
    }
  }

  // ---------------------------------------------------------------- expansion

  /** The digits a wildcard runs through: '0' to '9' and 'a' to 'f'. */
  function Digit(i: nat): (r: char)
    requires i < 16
    ensures r != '*'
  {
    if i < 10 then '0' + i as char else 'a' + (i - 10) as char
  }

  lemma DigitIs(i: nat)
    requires i < 16
    ensures Digit(i) == "0123456789abcdef"[i]
  {
  }

  lemma DigitsIncrease(i: nat, j: nat)
    requires i < j < 16
    ensures Digit(i) < Digit(j)
  {
  }

  /** The concrete strings of a pattern whose first wildcards have been filled, in the order
      of the recursion. */
  function Expand(p: string, start: nat): (r: seq<string>)
    requires start <= |p|
    ensures forall i | 0 <= i < |r| :: |r[i]| == |p|
    decreases |p| - start, 17
  {
    if start == |p| then [p]
    else if p[start] == '*' then Branches(p, start, 16)
    else Expand(p, start + 1)
  }

  /** The expansions with the first n digits at a position. */
  function Branches(p: string, at: nat, n: nat): (r: seq<string>)
    requires at < |p| && n <= 16
    ensures forall i | 0 <= i < |r| :: |r[i]| == |p|
    decreases |p| - at, n
  {
    if n == 0 then [] else Branches(p, at, n - 1) + Expand(p[at := Digit(n - 1)], at + 1)
  }

  ghost predicate IsDigit(c: char) {
    exists i: nat :: i < 16 && c == Digit(i)
  }

  lemma HexDigits(c: char)
    ensures IsDigit(c) <==> '0' <= c <= '9' || 'a' <= c <= 'f'
  {
    if '0' <= c <= '9' { assert c == Digit((c - '0') as nat); }
    if 'a' <= c <= 'f' { assert c == Digit((c - 'a') as nat + 10); }
  }

  /** A string of a pattern: digits in the place of its wildcards. */
  ghost predicate Instance(p: string, s: string) {
    Matches(p, s) && forall c | 0 <= c < |p| && p[c] == '*' :: IsDigit(s[c])
  }

  /** The expansions that agree with the pattern before a position are its instances. */
  lemma {:induction false} ExpandIs(p: string, start: nat, s: string)
    requires start <= |p| && forall c | 0 <= c < start :: p[c] != '*'
    ensures s in Expand(p, start) <==> Instance(p, s)
    decreases |p| - start, 17
  {
    if start == |p| {
      assert Instance(p, s) ==> s == p;
    } else if p[start] == '*' {
      BranchesAre(p, start, 16, s);
      if Instance(p, s) {
        var i: nat :| i < 16 && s[start] == Digit(i);
      }
    } else {
      ExpandIs(p, start + 1, s);
    }
  }

  lemma {:induction false} BranchesAre(p: string, at: nat, n: nat, s: string)
    requires at < |p| && n <= 16 && p[at] == '*' && forall c | 0 <= c < at :: p[c] != '*'
    ensures s in Branches(p, at, n) <==> Instance(p, s) && exists i: nat :: i < n && s[at] == Digit(i)
    decreases |p| - at, n
  {
    if n > 0 {
      BranchesAre(p, at, n - 1, s);
      var d := Digit(n - 1);
      var q := p[at := d];
      ExpandIs(q, at + 1, s);
      Filled(p, at, d, s);
      if Instance(p, s) && s[at] == d {
        assert n - 1 < n;
      }
    }
  }

  /** Filling a wildcard narrows the instances to those with that digit. */
  lemma Filled(p: string, at: nat, d: char, s: string)
    requires at < |p| && p[at] == '*' && d != '*' && IsDigit(d)
    ensures Instance(p[at := d], s) <==> Instance(p, s) && s[at] == d
  {
    var q := p[at := d];
    if Instance(q, s) {
      forall c | 0 <= c < |p| && p[c] == '*' ensures IsDigit(s[c]) {
        assert c != at ==> q[c] == '*';
      }
    }
  }

  function Power16(k: nat): nat {
    if k == 0 then 1 else 16 * Power16(k - 1)
  }

  /** A pattern has 16 expansions to the number of its wildcards. */
  lemma {:induction false} ExpandCount(p: string, start: nat)
    requires start <= |p|
    ensures |Expand(p, start)| == Power16(Wild(p[start..]))
    decreases |p| - start, 17
  {
    if start < |p| {
      assert p[start..][1..] == p[start + 1..];
      if p[start] == '*' {
        BranchesCount(p, start, 16);
      } else {
        ExpandCount(p, start + 1);
      }
    }
  }

  lemma {:induction false} BranchesCount(p: string, at: nat, n: nat)
    requires at < |p| && n <= 16
    ensures |Branches(p, at, n)| == n * Power16(Wild(p[at + 1..]))
    decreases |p| - at, n
  {
    if n > 0 {
      BranchesCount(p, at, n - 1);
      var q := p[at := Digit(n - 1)];
      ExpandCount(q, at + 1);
      assert q[at + 1..] == p[at + 1..];
      OneMore(n, Power16(Wild(p[at + 1..])));
    }
  }

  lemma OneMore(n: nat, x: nat)
    requires n > 0
    ensures (n - 1) * x + x == n * x
  {
  }

  /** Lexicographic order, at the first place two strings differ. */
  ghost predicate Less(s: string, t: string) {
    |s| == |t| && exists k :: 0 <= k < |s| && s[..k] == t[..k] && s[k] < t[k]
  }

  ghost predicate Increasing(v: seq<string>) {
    forall i, j | 0 <= i < j < |v| :: Less(v[i], v[j])
  }

  /** The expansions come in strictly increasing order, so none comes twice. */
  lemma {:induction false} ExpandIncreases(p: string, start: nat)
    requires start <= |p| && forall c | 0 <= c < start :: p[c] != '*'
    ensures Increasing(Expand(p, start))
    decreases |p| - start, 17
  {
    if start < |p| {
      if p[start] == '*' {
        BranchesIncrease(p, start, 16);
      } else {
        ExpandIncreases(p, start + 1);
      }
    }
  }

  lemma {:induction false} BranchesIncrease(p: string, at: nat, n: nat)
    requires at < |p| && n <= 16 && p[at] == '*' && forall c | 0 <= c < at :: p[c] != '*'
    ensures Increasing(Branches(p, at, n))
    decreases |p| - at, n
  {
    if n > 0 {
      var b, e := Branches(p, at, n - 1), Expand(p[at := Digit(n - 1)], at + 1);
      BranchesIncrease(p, at, n - 1);
      ExpandIncreases(p[at := Digit(n - 1)], at + 1);
      forall s, t | s in b && t in e ensures Less(s, t) {
        BranchesAre(p, at, n - 1, s);
        ExpandIs(p[at := Digit(n - 1)], at + 1, t);
        var i: nat :| i < n - 1 && s[at] == Digit(i);
        DigitsIncrease(i, n - 1);
        assert s[..at] == t[..at];
        assert s[at] < t[at];
      }
    }
  }

  /** The first n groups of four digits, each with a colon. */
  function Groups(s: string, n: nat): (r: string)
    requires 4 * n <= |s|
    ensures |r| == 5 * n
  {
    if n == 0 then "" else Groups(s, n - 1) + s[4 * (n - 1)..4 * n] + ":"
  }

  /** Eight groups of four digits with colons between them. */
  function Colon(s: string): (r: string)
    requires |s| == IPV6_LENGTH
    ensures |r| == 39
  {
    Groups(s, 7) + s[28..]
  }

  function Colons(v: seq<string>): (r: seq<string>)
    requires forall i | 0 <= i < |v| :: |v[i]| == IPV6_LENGTH
    ensures |r| == |v|
    ensures forall i | 0 <= i < |v| :: r[i] == Colon(v[i])
  {
    seq(|v|, i requires 0 <= i < |v| => Colon(v[i]))
  }

  /** Digit j of group g, and the colon after it. */
  lemma ColonAt(s: string, g: nat, j: nat)
    requires |s| == IPV6_LENGTH && g < 8 && j < 4
    ensures Colon(s)[5 * g + j] == s[4 * g + j]
    ensures g < 7 ==> Colon(s)[5 * g + 4] == ':'
  {
    if g < 7 { GroupAt(s, 7, g, j); }
  }

  lemma {:induction false} GroupAt(s: string, n: nat, g: nat, j: nat)
    requires 4 * n <= |s| && g < n && j < 4
    ensures Groups(s, n)[5 * g + j] == s[4 * g + j] && Groups(s, n)[5 * g + 4] == ':'
  {
    if g < n - 1 {
      GroupAt(s, n - 1, g, j);
    } else {
      assert s[4 * (n - 1)..4 * n][j] == s[4 * g + j];
    }
  }

  /** Different strings stay different in colon form. */
  lemma ColonInjective(s: string, t: string)
    requires |s| == |t| == IPV6_LENGTH && Colon(s) == Colon(t)
    ensures s == t
  {
    assert Groups(s, 7) == Colon(s)[..35] && Groups(t, 7) == Colon(t)[..35];
    assert s[28..] == Colon(s)[35..] && t[28..] == Colon(t)[35..];
    GroupsInjective(s, t, 7);
    assert s == s[..28] + s[28..] && t == t[..28] + t[28..];
  }

  lemma {:induction false} GroupsInjective(s: string, t: string, n: nat)
    requires 4 * n <= |s| && 4 * n <= |t| && Groups(s, n) == Groups(t, n)
    ensures s[..4 * n] == t[..4 * n]
  {
    if n > 0 {
      var m := n - 1;
      var g, h := Groups(s, n), Groups(t, n);
      assert Groups(s, m) == g[..5 * m] && Groups(t, m) == h[..5 * m];
      GroupsInjective(s, t, m);
      assert s[4 * m..4 * n] == g[5 * m..5 * m + 4] && t[4 * m..4 * n] == h[5 * m..5 * m + 4];
      assert s[..4 * n] == s[..4 * m] + s[4 * m..4 * n] && t[..4 * n] == t[..4 * m] + t[4 * m..4 * n];
    }
  }

  method CopyDigits(res: array<char>, at: nat, line: string, lo: nat, hi: nat)
    requires lo <= hi <= |line| && at + hi - lo <= res.Length
    modifies res
    ensures res[..at + hi - lo] == old(res[..at]) + line[lo..hi]
  {
    for j := lo to hi
      invariant res[..at + j - lo] == old(res[..at]) + line[lo..j]
    {
      res[at + j - lo] := line[j];
      assert res[..at + j + 1 - lo] == res[..at + j - lo] + [line[j]];
    }
  }

  /** vec2colon */
  method Vec2Colon(line: string) returns (r: string)
    requires |line| == IPV6_LENGTH
    ensures r == Colon(line)
  {
    var res := new char[39];
    var at := 0;
    for i := 0 to 7
      invariant at == 5 * i && res[..at] == Groups(line, i)
    {
      CopyDigits(res, at, line, 4 * i, 4 * i + 4);
      res[at + 4] := ':';
      at := at + 5;
      assert res[..at] == res[..at - 1] + ":";
    }
    CopyDigits(res, at, line, 28, 32);
    assert res[..] == res[..39] && line[28..32] == line[28..];
    r := res[..];
  }

  /** Each instance of a pattern is generated, and only those, each once. */
  lemma ExpandedOnce(p: string)
    requires |p| == IPV6_LENGTH
    ensures NoDuplicates(Colons(Expand(p, 0)))
    ensures |Expand(p, 0)| == Power16(Wild(p))
    ensures forall s :: s in Expand(p, 0) <==> Instance(p, s)
  {
    var v := Expand(p, 0);
    ExpandIncreases(p, 0);
    forall i, j | 0 <= i < j < |v| ensures Colons(v)[i] != Colons(v)[j] {
      assert Less(v[i], v[j]);
      if Colon(v[i]) == Colon(v[j]) { ColonInjective(v[i], v[j]); }
    }
    ExpandCount(p, 0);
    assert p[0..] == p;
    forall s ensures s in v <==> Instance(p, s) {
      ExpandIs(p, 0, s);
    }
  }

  lemma {:induction false} Power16Grows(a: nat, b: nat)
    requires a <= b
    ensures Power16(a) <= Power16(b)
    decreases b
  {
    if a < b { Power16Grows(a, b - 1); }
  }

  // ---------------------------------------------------------------- from seeds to targets

  /** The patterns that are expanded: those with a wildcard, each once. */
  function Subspaces(ips: seq<string>): set<string> {
    set p | p in ips && Wild(p) > 0
  }

  /** All entries after clustering. */
  function AllClustered(seeds: seq<string>): (r: seq<string>)
    requires Seeds(seeds)
    ensures |r| == |seeds| && forall k | 0 <= k < |seeds| :: r[k] == Clustered(seeds, k)
  {
    seq(|seeds|, k requires 0 <= k < |seeds| => Clustered(seeds, k))
  }

  /** A hexadecimal string is a target exactly when it matches an entry that has a wildcard. */
  lemma TargetsAre(seeds: seq<string>, s: string)
    requires Seeds(seeds) && |s| == IPV6_LENGTH && forall c | 0 <= c < IPV6_LENGTH :: IsDigit(s[c])
    ensures (exists p :: p in Subspaces(AllClustered(seeds)) && s in Expand(p, 0))
       <==> exists k :: 0 <= k < |seeds| && Wild(Clustered(seeds, k)) > 0 && Matches(Clustered(seeds, k), s)
  {
    forall k | 0 <= k < |seeds|
      ensures |Clustered(seeds, k)| == IPV6_LENGTH
           && (s in Expand(Clustered(seeds, k), 0) <==> Matches(Clustered(seeds, k), s))
    {
      ClusteredIsSound(seeds, k);
      ExpandIs(Clustered(seeds, k), 0, s);
    }
    if p :| p in Subspaces(AllClustered(seeds)) && s in Expand(p, 0) {
      var k :| 0 <= k < |seeds| && AllClustered(seeds)[k] == p;
      assert Wild(Clustered(seeds, k)) > 0 && Matches(Clustered(seeds, k), s);
    }
    if k :| 0 <= k < |seeds| && Wild(Clustered(seeds, k)) > 0 && Matches(Clustered(seeds, k), s) {
      assert AllClustered(seeds)[k] in AllClustered(seeds);
    }
  }

  /** A seed alone in its cluster has no wildcard, so that its entry is not expanded; a single
      seed gives no target at all. */
  lemma LoneSeed(seeds: seq<string>, k: nat)
    requires k < |seeds| && Seeds(seeds) && End(seeds, k, k + 1) == k + 1
    ensures Clustered(seeds, k) !in Subspaces(AllClustered(seeds))
    ensures |seeds| == 1 ==> Subspaces(AllClustered(seeds)) == {}
  {
    WildConcrete(seeds[k]);
    assert Clustered(seeds, k) == seeds[k];
  }

  /** A cluster's pattern with a wildcard expands to at most 16^3 targets, and the hexadecimal
      seeds merged into it are among them. */
  lemma SeedsAreTargets(seeds: seq<string>, k: nat, m: nat)
    requires k < |seeds| && Seeds(seeds) && Visits(seeds, 0, k) && k <= m < End(seeds, k, k + 1)
    requires Wild(Clustered(seeds, k)) > 0
    requires forall c | 0 <= c < IPV6_LENGTH :: IsDigit(seeds[m][c])
    ensures Clustered(seeds, k) in Subspaces(AllClustered(seeds))
    ensures |Expand(Clustered(seeds, k), 0)| <= 4096
    ensures seeds[m] in Expand(Clustered(seeds, k), 0)
  {
    assert AllClustered(seeds)[k] in AllClustered(seeds);
    var p := Clustered(seeds, k);
    ClusteredIsSound(seeds, k);
    ExpandCount(p, 0);
    assert p[0..] == p;
    Power16Grows(Wild(p), 3);
    assert Power16(3) == 16 * Power16(2) && Power16(2) == 256;
    ExpandIs(p, 0, seeds[m]);
  }

  // ---------------------------------------------------------------- the address vector

  /** struct IPVector */
  class IpVector {
    var ips: array<string>
    var size: nat
    var capacity: nat

    ghost predicate Valid()
      reads this
    {
      size <= capacity == ips.Length
    }

    ghost function Contents(): (r: seq<string>)
      requires Valid()
      reads this, ips
      ensures |r| == size
    {
      ips[..size]
    }

    /** initIPVector */
    constructor ()
      ensures Valid() && Contents() == [] && fresh(ips)
    {
      ips := new string[0];
      size, capacity := 0, 0;
    }

    /** addIP: the capacity goes from 0 to 1 and then doubles. */
    method AddIp(ip: string)
      requires Valid()
      modifies this, ips
      ensures Valid() && (ips == old(ips) || fresh(ips))
      ensures Contents() == old(Contents()) + [ip]
      ensures capacity == old(if size < capacity then capacity else if capacity == 0 then 1 else capacity * 2)
    {
      if size >= capacity {
        capacity := if capacity == 0 then 1 else capacity * 2;
        var more := new string[capacity](_ => "");
        forall i | 0 <= i < size {
          more[i] := ips[i];
        }
        ips := more;
      }
      ips[size] := ip;
      size := size + 1;
    }

    /** hierarchical_cluster; the source subtracts 1 from the size, so that it must not be 0. */
    method HierarchicalCluster()
      requires Valid() && size > 0 && Seeds(Contents())
      modifies ips
      ensures forall k | 0 <= k < size :: ips[k] == Clustered(old(Contents()), k)
    {
      ghost var seeds := Contents();
      var i := 0;
      while i < size - 1
        invariant 0 <= i <= size && |seeds| == size
        invariant forall k | i <= k < size :: ips[k] == seeds[k] && (Visits(seeds, i, k) <==> Visits(seeds, 0, k))
        invariant forall k | 0 <= k < i :: ips[k] == Clustered(seeds, k)
        decreases size - i
      {
        ghost var at := i;
        i := ClusterFrom(i, seeds);
        VisitsTurn(seeds, at, i);
      }
    }

    /** One turn of the outer loop: the cluster that starts at i. */
    method ClusterFrom(i: nat, ghost seeds: seq<string>) returns (next: nat)
      requires Valid() && i < size - 1 && |seeds| == size && Seeds(seeds)
      requires forall k | i <= k < size :: ips[k] == seeds[k]
      modifies ips
      ensures next == NextHead(seeds, i)
      ensures ips[i] == Merged(seeds, i, End(seeds, i, i + 1))
      ensures forall k | 0 <= k < size && k != i :: ips[k] == old(ips[k])
    {
      var j := i + 1;
      next := i + 1;
      while j < size
        invariant i < j <= size && next == i + 1
        invariant ips[i] == Merged(seeds, i, j)
        invariant End(seeds, i, j) == End(seeds, i, i + 1)
        invariant forall k | 0 <= k < size && k != i :: ips[k] == old(ips[k])
      {
        ClusterStep(seeds, i, j);
        var merged := MergeNext(i, j, seeds);
        if merged {
          j := j + 1;
        } else {
          next := j;
          break;
        }
      }
    }

    /** One turn of the inner loop: seed j is merged into the cluster if it is near enough. */
    method MergeNext(i: nat, j: nat, ghost seeds: seq<string>) returns (merged: bool)
      requires Valid() && i < j < size == |seeds| && Seeds(seeds)
      requires ips[i] == Merged(seeds, i, j) && ips[j] == seeds[j]
      modifies ips
      ensures merged <==> Wild(Merged(seeds, i, j + 1)) <= HAMMING_THRESHOLD
      ensures ips[i] == if merged then Merged(seeds, i, j + 1) else old(ips[i])
      ensures forall k | 0 <= k < size && k != i :: ips[k] == old(ips[k])
    {
      ClusterStep(seeds, i, j);
      var distance := HammingDistance(ips[i], ips[j]);
      merged := distance <= HAMMING_THRESHOLD;
      if merged {
        var line := MergeStrings(ips[i], ips[j]);
        ips[i] := line;
      }
    }
  }

  /** The search for the next wildcard. */
  method FindWildcard(subspace: array<char>, start: nat) returns (idx: nat)
    requires subspace.Length == IPV6_LENGTH && start <= IPV6_LENGTH
    ensures start <= idx <= IPV6_LENGTH && (idx < IPV6_LENGTH ==> subspace[idx] == '*')
    ensures Expand(subspace[..], start) == Expand(subspace[..], idx)
  {
    idx := start;
    while idx < subspace.Length
      invariant start <= idx <= IPV6_LENGTH
      invariant Expand(subspace[..], start) == Expand(subspace[..], idx)
    {
      if subspace[idx] == '*' {
        break;
      }
      idx := idx + 1;
    }
  }

  /** target_generation: append every expansion of the pattern in colon form, one position
      after the other, and restore the pattern. */
  method TargetGeneration(targets: IpVector, subspace: array<char>, startIdx: nat)
    requires targets.Valid() && subspace.Length == IPV6_LENGTH && startIdx <= IPV6_LENGTH
    modifies targets, targets.ips, subspace
    ensures targets.Valid() && (targets.ips == old(targets.ips) || fresh(targets.ips))
    ensures subspace[..] == old(subspace[..])
    ensures targets.Contents() == old(targets.Contents()) + Colons(Expand(old(subspace[..]), startIdx))
    decreases IPV6_LENGTH - startIdx
  {
    ghost var p, before := subspace[..], targets.Contents();
    var idx := FindWildcard(subspace, startIdx);
    if idx == IPV6_LENGTH {
      var line := Vec2Colon(subspace[..]);
      targets.AddIp(line);
      assert Colons(Expand(p, idx)) == [line];
      return;
    }
    for i := 0 to 16
      invariant targets.Valid() && (targets.ips == old(targets.ips) || fresh(targets.ips))
      invariant subspace[..] == p[idx := subspace[idx]]
      invariant targets.Contents() == before + Colons(Branches(p, idx, i))
    {
      if i < 10 {
        subspace[idx] := '0' + i as char;
      } else {
        subspace[idx] := 'a' + (i - 10) as char;
      }
      assert subspace[..] == p[idx := Digit(i)];
      TargetGeneration(targets, subspace, idx + 1);
      NextBranch(before, p, idx, i);
    }
    subspace[idx] := '*';
    assert subspace[..] == p;
  }

  lemma NextBranch(before: seq<string>, p: string, at: nat, i: nat)
    requires at < |p| == IPV6_LENGTH && i < 16
    ensures before + Colons(Branches(p, at, i)) + Colons(Expand(p[at := Digit(i)], at + 1))
         == before + Colons(Branches(p, at, i + 1))
  {
  }

  /** The loop over the clustered entries: the patterns with a wildcard go into a hash set. */
  method CollectSubspaces(vec: IpVector) returns (subspaces: set<string>)
    requires vec.Valid()
    ensures subspaces == Subspaces(vec.Contents())
  {
    subspaces := {};
    var i := 0;
    while i < vec.size
      invariant 0 <= i <= vec.size && subspaces == Subspaces(vec.Contents()[..i])
    {
      var p := vec.ips[i];
      HasWildcard(p);
      assert vec.Contents()[..i + 1] == vec.Contents()[..i] + [p];
      if '*' in p {
        subspaces := subspaces + {p};
      }
      i := i + 1;
    }
    assert vec.Contents()[..i] == vec.Contents();
  }

  lemma {:induction false} HasWildcard(p: string)
    ensures Wild(p) > 0 <==> '*' in p
  {
    if p != [] {
      HasWildcard(p[1..]);
      assert p == [p[0]] + p[1..];
    }
  }

  const TARGET_MAX_CAPACITY: nat := 1_000_000_000

  /** The targets of patterns, one pattern after the other. */
  function AllTargets(patterns: seq<string>): seq<string>
    requires forall i | 0 <= i < |patterns| :: |patterns[i]| == IPV6_LENGTH
  {
    if patterns == [] then []
    else AllTargets(patterns[..|patterns| - 1]) + Colons(Expand(patterns[|patterns| - 1], 0))
  }

  /** target_generation on a key of the hash set. */
  method ExpandKey(targets: IpVector, key: string)
    requires targets.Valid() && |key| == IPV6_LENGTH
    modifies targets, targets.ips
    ensures targets.Valid() && (targets.ips == old(targets.ips) || fresh(targets.ips))
    ensures targets.Contents() == old(targets.Contents()) + Colons(Expand(key, 0))
  {
    var subspace := new char[IPV6_LENGTH](i requires 0 <= i < IPV6_LENGTH => key[i]);
    assert subspace[..] == key;
    TargetGeneration(targets, subspace, 0);
  }

  /** The loop over the hash set, in whatever order its buckets have: patterns are expanded until
      the targets exceed the capacity. */
  method GenerateTargets(targets: IpVector, order: seq<string>) returns (n: nat)
    requires targets.Valid() && forall i | 0 <= i < |order| :: |order[i]| == IPV6_LENGTH
    modifies targets, targets.ips
    ensures targets.Valid() && n <= |order|
    ensures targets.Contents() == old(targets.Contents()) + AllTargets(order[..n])
    ensures n < |order| ==> targets.size > TARGET_MAX_CAPACITY
    ensures n > 0 ==> |old(targets.Contents()) + AllTargets(order[..n - 1])| <= TARGET_MAX_CAPACITY
  {
    n := 0;
    ghost var before := targets.Contents();
    while n < |order|
      invariant targets.Valid() && n <= |order| && (targets.ips == old(targets.ips) || fresh(targets.ips))
      invariant targets.Contents() == before + AllTargets(order[..n])
      invariant n > 0 ==> |before + AllTargets(order[..n - 1])| <= TARGET_MAX_CAPACITY
    {
      if targets.size > TARGET_MAX_CAPACITY {
        break;
      }
      ExpandKey(targets, order[n]);
      NextKey(before, order, n);
      n := n + 1;
    }
  }

  lemma NextKey(before: seq<string>, order: seq<string>, n: nat)
    requires n < |order| && forall i | 0 <= i < |order| :: |order[i]| == IPV6_LENGTH
    ensures before + AllTargets(order[..n]) + Colons(Expand(order[n], 0)) == before + AllTargets(order[..n + 1])
  {
    assert order[..n + 1][..n] == order[..n];
  }
}
