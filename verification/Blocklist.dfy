/** The allow list and block list of the scanner (HMapc/lib/blocklist.c). A target is an
    address prefix followed by port and index bits; list entries constrain the prefix only. */
module Blocklist {
  import opened Numbers
  import opened Wrappers
  import opened ConstraintTree
  import opened Constraint

  const ADDR_DISALLOWED: int := 0
  const ADDR_ALLOWED: int := 1

  /** A parsed list entry; addr holds the leading address bits that are scanned. */
  datatype Cidr = Cidr(addr: nat, len: nat)

  datatype Widths = Widths(ip: nat, port: nat, index: nat) {
    function Rest(): nat { port + index }
    function Total(): nat { ip + port + index }
    ghost predicate Valid() { ip > 0 }
  }

  /** The entry applies to the address prefix. Entries longer than the scanned width apply to
      nothing (init_from_string skips them). */
  predicate Covers(c: Cidr, ip: nat, ipBits: nat) {
    c.len <= ipBits && Shr(ip, ipBits - c.len) == Shr(c.addr, ipBits - c.len)
  }

  /** An entry covers the prefixes that have its first len bits, and none if it is longer. */
  lemma CoversIs(c: Cidr, ip: nat, ipBits: nat)
    requires ip < Pow2(ipBits) && c.addr < Pow2(ipBits)
    ensures Covers(c, ip, ipBits) <==>
      c.len <= ipBits && forall j | ipBits - c.len <= j < ipBits :: BitAt(ip, j) == BitAt(c.addr, j)
  {
    if c.len <= ipBits { SameHighBits(ip, c.addr, ipBits - c.len, ipBits); }
  }

  ghost predicate AnyCovers(cs: seq<Cidr>, ip: nat, ipBits: nat) {
    exists c :: c in cs && Covers(c, ip, ipBits)
  }

  ghost predicate WellFormed(cs: seq<Cidr>, w: Widths) {
    forall c :: c in cs ==> c.addr < Pow2(w.ip)
  }

  /** What the two lists mean: the zero prefix is never allowed; with an allow list only its
      prefixes are; the block list always wins. */
  ghost predicate IsAllowed(ip: nat, w: Widths, allowFile: Option<seq<Cidr>>, allowEntries: seq<Cidr>,
                            blockFile: Option<seq<Cidr>>, blockEntries: seq<Cidr>)
  {
    && ip != 0
    && (allowFile.Some? || |allowEntries| > 0 ==> InLists(ip, w, allowFile, allowEntries))
    && !InLists(ip, w, blockFile, blockEntries)
  }

  /** Some entry of the file, if there is one, or of the given entries covers the prefix. */
  ghost predicate InLists(ip: nat, w: Widths, file: Option<seq<Cidr>>, entries: seq<Cidr>) {
    (file.Some? && AnyCovers(file.value, ip, w.ip)) || AnyCovers(entries, ip, w.ip)
  }

  /** Appending port and index bits does not change which prefixes an entry matches. */
  lemma CoversIsMatch(c: Cidr, a: nat, w: Widths)
    requires c.len <= w.ip && c.addr < Pow2(w.ip) && a < Pow2(w.Total())
    ensures Matches(a, Shl(c.addr, w.Rest()), c.len, w.Total()) <==> Covers(c, Shr(a, w.Rest()), w.ip)
  {
    var rest, L := w.Rest(), w.Total();
    ShlStep(c.addr, Pow2(w.ip), rest);
    ShlPow2(w.ip, rest);
    LowOfSmall(Shl(c.addr, rest), L);
    ShrShr(a, rest, w.ip - c.len);
    ShiftUnique(Shl(c.addr, rest), c.addr, 0, rest);
    ShrShr(Shl(c.addr, rest), rest, w.ip - c.len);
  }

  /** One list: init_from_file and init_from_array, with _add_constraint for each entry. */
  method AddAll(con: Constraint, w: Widths, cidrs: seq<Cidr>, value: int)
    requires con.Valid() && con.L == w.Total() && WellFormed(cidrs, w)
    modifies con, con.root.repr
    ensures con.Valid() && con.root == old(con.root) && con.radix == old(con.radix)
    ensures fresh(con.root.repr - old(con.root.repr)) && con.radixLen == old(con.radixLen)
    ensures forall a: nat :: a < Pow2(con.L) ==>
              (con.ValueAt(a) ==
               if AnyCovers(cidrs, Shr(a, w.Rest()), w.ip) then value else old(con.ValueAt(a)))
  {
    var i := 0;
    while i < |cidrs|
      invariant 0 <= i <= |cidrs|
      invariant con.Valid() && con.root == old(con.root) && con.radix == old(con.radix)
      invariant fresh(con.root.repr - old(con.root.repr)) && con.radixLen == old(con.radixLen)
      invariant forall a: nat :: a < Pow2(con.L) ==>
              (con.ValueAt(a) ==
               if AnyCovers(cidrs[..i], Shr(a, w.Rest()), w.ip) then value else old(con.ValueAt(a)))
    {
      AddOne(con, w, cidrs[i], value);
      assert cidrs[..i + 1] == cidrs[..i] + [cidrs[i]];
      i := i + 1;
    }
    assert cidrs[..i] == cidrs;
  }

  /** init_from_string after parsing, and _add_constraint. */
  method AddOne(con: Constraint, w: Widths, c: Cidr, value: int)
    requires con.Valid() && con.L == w.Total() && c.addr < Pow2(w.ip)
    modifies con, con.root.repr
    ensures con.Valid() && con.root == old(con.root) && con.radix == old(con.radix)
    ensures fresh(con.root.repr - old(con.root.repr)) && con.radixLen == old(con.radixLen)
    ensures forall a: nat :: a < Pow2(con.L) ==>
              (con.ValueAt(a) ==
               if Covers(c, Shr(a, w.Rest()), w.ip) then value else old(con.ValueAt(a)))
  {
    if c.len > w.ip {
      return;
    }
    con.Set(Shl(c.addr, w.Rest()), c.len, value);
    forall a: nat | a < Pow2(con.L)
      ensures Matches(a, Shl(c.addr, w.Rest()), c.len, con.L) <==> Covers(c, Shr(a, w.Rest()), w.ip)
    {
      CoversIsMatch(c, a, w);
    }
  }

  // ------------------------------------------------------------- sets of whole prefixes

  ghost function Block(ip: nat, n: nat, rest: nat): (r: set<nat>)
    ensures forall a: nat :: a in r <==> Shl(ip, rest) <= a < Shl(ip, rest) + n
  {
    if n == 0 then {} else Block(ip, n - 1, rest) + {Shl(ip, rest) + n - 1}
  }

  lemma {:induction false} BlockSize(ip: nat, n: nat, rest: nat)
    ensures |Block(ip, n, rest)| == n
  {
    if n > 0 { BlockSize(ip, n - 1, rest); }
  }

  lemma InBlock(a: nat, ip: nat, rest: nat)
    ensures a in Block(ip, Pow2(rest), rest) <==> Shr(a, rest) == ip
  {
    ShiftParts(a, rest);
    if a in Block(ip, Pow2(rest), rest) { ShiftUnique(a, ip, a - Shl(ip, rest), rest); }
  }

  /** n prefixes stand for n * 2^rest targets. */
  lemma {:induction false} SizeOfPrefixes(s: set<nat>, targets: set<nat>, rest: nat)
    requires forall a: nat :: a in targets <==> Shr(a, rest) in s
    ensures |targets| == Shl(|s|, rest)
    decreases |s|
  {
    if ip :| ip in s {
      var others := targets - Block(ip, Pow2(rest), rest);
      OnePrefix(ip, s, targets, rest);
      SizeOfPrefixes(s - {ip}, others, rest);
      assert |s - {ip}| == |s| - 1;
      ShlNext(|s| - 1, rest);
    } else {
      ShlIsMul(0, rest);
      assert targets == {};
    }
  }

  lemma ShlNext(n: nat, rest: nat)
    ensures Shl(n + 1, rest) == Shl(n, rest) + Pow2(rest)
  {
    ShlAdd(n, 1, rest);
    ShlPow2(0, rest);
  }

  lemma OnePrefix(ip: nat, s: set<nat>, targets: set<nat>, rest: nat)
    requires ip in s
    requires forall a: nat :: a in targets <==> Shr(a, rest) in s
    ensures var others := targets - Block(ip, Pow2(rest), rest);
      && |targets| == |others| + Pow2(rest)
      && forall a: nat :: a in others <==> Shr(a, rest) in s - {ip}
  {
    var b := Block(ip, Pow2(rest), rest);
    forall a: nat ensures a in b <==> Shr(a, rest) == ip { InBlock(a, ip, rest); }
    BlockSize(ip, Pow2(rest), rest);
    assert targets == (targets - b) + b;
  }

  // ------------------------------------------------------------- numbered targets

  /** What the addresses of a tree are mapped to. */
  ghost function Meaning(t: Tree, L: nat): map<nat, int>
    requires Fits(t, L)
  {
    map a: nat | a in Below(Pow2(L)) :: Lookup(t, L, a)
  }

  /** What they are to be: a target is allowed when its prefix is. */
  ghost function Verdicts(allowed: set<nat>, w: Widths): map<nat, int> {
    map a: nat | a in Below(Pow2(w.Total())) :: if Shr(a, w.Rest()) in allowed then ADDR_ALLOWED else ADDR_DISALLOWED
  }

  /** The outcome of blocklist_init: which prefixes may be probed, and the painted tree that
      numbers their targets; c is the width of the radix blocks. */
  datatype Book = Book(w: Widths, allowed: set<nat>, tree: Tree, c: nat) {

    ghost predicate Valid() {
      && w.Valid() && c < w.Total() && Fits(tree, w.Total())
      && 0 !in allowed && allowed <= Below(Pow2(w.ip))
      && Meaning(tree, w.Total()) == Verdicts(allowed, w)
    }

    /** What the last two clauses say about one prefix and one target. */
    lemma Means()
      requires Valid()
      ensures forall ip: nat :: ip in allowed ==> ip < Pow2(w.ip)
      ensures forall a: nat :: a < Pow2(w.Total()) ==>
        (Lookup(tree, w.Total(), a) == if Shr(a, w.Rest()) in allowed then ADDR_ALLOWED else ADDR_DISALLOWED)
    {
      forall a: nat | a < Pow2(w.Total())
        ensures Lookup(tree, w.Total(), a) == if Shr(a, w.Rest()) in allowed then ADDR_ALLOWED else ADDR_DISALLOWED
      {
        assert Meaning(tree, w.Total())[a] == Verdicts(allowed, w)[a];
      }
    }

    lemma IsValid()
      requires w.Valid() && c < w.Total() && Fits(tree, w.Total()) && 0 !in allowed
      requires forall ip: nat :: ip in allowed ==> ip < Pow2(w.ip)
      requires forall a: nat :: a < Pow2(w.Total()) ==>
        (Lookup(tree, w.Total(), a) == if Shr(a, w.Rest()) in allowed then ADDR_ALLOWED else ADDR_DISALLOWED)
      ensures Valid()
    {
      assert Meaning(tree, w.Total()) == Verdicts(allowed, w);
    }

    /** Number of (prefix, port, index) targets. */
    ghost function Targets(): nat {
      Shl(|allowed|, w.Rest())
    }

    /** Each allowed prefix contributes all its port and index slots. */
    lemma AllowedTargets()
      requires Valid()
      ensures Count(tree, w.Total(), ADDR_ALLOWED) == Targets()
    {
      Means();
      CountIsSize(tree, w.Total(), ADDR_ALLOWED);
      var targets := AddressesOf(tree, w.Total(), ADDR_ALLOWED);
      forall a: nat ensures a in targets <==> Shr(a, w.Rest()) in allowed {
        if Shr(a, w.Rest()) in allowed {
          ShlPow2(w.ip, w.Rest());
          ShrBelow(a, Pow2(w.ip), w.Rest());
        }
      }
      SizeOfPrefixes(allowed, targets, w.Rest());
    }

    /** Allowed and disallowed targets make up the whole space. */
    lemma DisallowedTargets()
      requires Valid()
      ensures |allowed| <= Pow2(w.ip)
      ensures Count(tree, w.Total(), ADDR_DISALLOWED) == Shl(Pow2(w.ip) - |allowed|, w.Rest())
      ensures Count(tree, w.Total(), ADDR_ALLOWED) + Count(tree, w.Total(), ADDR_DISALLOWED) == Pow2(w.Total())
    {
      Means();
      AllowedTargets();
      BelowSize(Pow2(w.ip));
      SubsetSize(allowed, Below(Pow2(w.ip)));
      TwoValuedFromMeaning(tree, w.Total(), ADDR_ALLOWED, ADDR_DISALLOWED);
      CountsCover(tree, w.Total(), ADDR_ALLOWED, ADDR_DISALLOWED);
      ShlPow2(w.ip, w.Rest());
      ShlAdd(|allowed|, Pow2(w.ip) - |allowed|, w.Rest());
    }

    /** The target with the given index, as blocklist_lookup_index_for_ipvx_port_index numbers
        them. */
    ghost function TargetAt(index: nat): nat
      requires Valid() && index < Targets()
    {
      AllowedTargets();
      Nth(tree, w.Total(), ADDR_ALLOWED, c, index)
    }

    ghost function IndexOf(target: nat): nat
      requires Valid() && target < Pow2(w.Total())
    {
      Position(tree, w.Total(), ADDR_ALLOWED, c, target)
    }

    /** The numbering is one-to-one between [0, Targets()) and the allowed targets. */
    lemma Numbering()
      requires Valid()
      ensures forall i: nat :: i < Targets() ==>
                && TargetAt(i) < Pow2(w.Total()) && Shr(TargetAt(i), w.Rest()) in allowed
                && IndexOf(TargetAt(i)) == i
      ensures forall a: nat :: a < Pow2(w.Total()) && Shr(a, w.Rest()) in allowed ==>
                IndexOf(a) < Targets() && TargetAt(IndexOf(a)) == a
    {
      Means();
      AllowedTargets();
      forall i: nat | i < Targets()
        ensures TargetAt(i) < Pow2(w.Total()) && Shr(TargetAt(i), w.Rest()) in allowed && IndexOf(TargetAt(i)) == i
      {
        PositionOfNth(tree, w.Total(), ADDR_ALLOWED, c, i);
      }
      forall a: nat | a < Pow2(w.Total()) && Shr(a, w.Rest()) in allowed
        ensures IndexOf(a) < Targets() && TargetAt(IndexOf(a)) == a
      {
        NthOfPosition(tree, w.Total(), ADDR_ALLOWED, c, a);
      }
    }

    /** What the lookup gives for index -1: the second radix entry (0 if there is none) with
        all offset bits set. */
    ghost function Stray(): nat
      requires Valid()
    {
      var radix := Radix(tree, w.Total(), ADDR_ALLOWED, c);
      BitOr(if |radix| > 1 then radix[1] else 0, Pow2(c) - 1)
    }
  }

  // ------------------------------------------------------------- the module state

  /** The static state of blocklist.c once it is initialised. */
  class Blocklist {
    const w: Widths
    const con: Constraint
    ghost const book: Book

    ghost predicate Valid()
      reads this, con, con.root, con.root.repr, con.radix
    {
      && book.Valid() && book.w == w
      && con.Valid() && con.L == w.Total()
      && con.painted && con.paintValue == ADDR_ALLOWED
      && con.root.tree == book.tree && con.L - con.R == book.c
      && (forall j :: con.radixLen <= j < con.radix.Length ==> con.radix[j] == 0)
    }

    constructor (w: Widths, con: Constraint, ghost book: Book)
      ensures this.w == w && this.con == con && this.book == book
    {
      this.w := w;
      this.con := con;
      this.book := book;
    }

    /** blocklist_is_allowed_ipvx */
    method IsAllowedIpvx(ipvx: nat) returns (r: bool)
      requires Valid() && ipvx < Pow2(w.ip)
      ensures r <==> ipvx in book.allowed
    {
      book.Means();
      ShlStep(ipvx, Pow2(w.ip), w.Rest());
      ShlPow2(w.ip, w.Rest());
      ShiftUnique(Shl(ipvx, w.Rest()), ipvx, 0, w.Rest());
      var value := con.LookupValue(Shl(ipvx, w.Rest()));
      r := value == ADDR_ALLOWED;
    }

    /** blocklist_count_allowed_ip_port_index */
    method CountAllowedIpPortIndex() returns (count: nat)
      requires Valid()
      ensures count == book.Targets()
    {
      book.AllowedTargets();
      count := con.CountOfValue(ADDR_ALLOWED);
    }

    /** blocklist_count_allowed_ip_port */
    method CountAllowedIpPort() returns (count: nat)
      requires Valid()
      ensures count == Shl(|book.allowed|, w.port)
    {
      book.AllowedTargets();
      count := con.CountOfValue(ADDR_ALLOWED);
      ShlShl(|book.allowed|, w.port, w.index);
      ShiftUnique(count, Shl(|book.allowed|, w.port), 0, w.index);
      count := Shr(count, w.index);
    }

    /** blocklist_count_allowed_ip */
    method CountAllowedIp() returns (count: nat)
      requires Valid()
      ensures count == |book.allowed|
    {
      book.AllowedTargets();
      count := con.CountOfValue(ADDR_ALLOWED);
      ShiftUnique(count, |book.allowed|, 0, w.Rest());
      count := Shr(count, w.Rest());
    }

    /** blocklist_count_not_allowed_ip */
    method CountNotAllowedIp() returns (count: int)
      requires Valid()
      ensures count + |book.allowed| == Pow2(w.ip)
    {
      book.DisallowedTargets();
      var n := con.CountOfValue(ADDR_DISALLOWED);
      ShiftUnique(n, Pow2(w.ip) - |book.allowed|, 0, w.Rest());
      count := Shr(n, w.Rest());
    }

    /** blocklist_lookup_index_for_ipvx_port_index */
    method LookupIndex(index: int) returns (ipvx: nat)
      requires Valid() && -1 <= index < book.Targets()
      ensures index >= 0 ==> ipvx == book.TargetAt(index)
      ensures index == -1 ==> ipvx == book.Stray()
    {
      book.AllowedTargets();
      ipvx := con.LookupPainted(index, ADDR_ALLOWED);
      assert con.radix[..con.radixLen] == Radix(book.tree, w.Total(), ADDR_ALLOWED, book.c);
      assert con.radixLen > 1 ==> con.radix[1] == con.radix[..con.radixLen][1];
    }
  }

  /** The file and then the entries, as blocklist_init adds them. */
  method AddLists(con: Constraint, w: Widths, file: Option<seq<Cidr>>, entries: seq<Cidr>, value: int)
    requires con.Valid() && con.L == w.Total() && WellFormed(entries, w)
    requires file.Some? ==> WellFormed(file.value, w)
    modifies con, con.root.repr
    ensures con.Valid() && con.root == old(con.root) && con.radix == old(con.radix)
    ensures fresh(con.root.repr - old(con.root.repr)) && con.radixLen == old(con.radixLen)
    ensures forall a: nat :: a < Pow2(con.L) ==>
              (con.ValueAt(a) ==
               if InLists(Shr(a, w.Rest()), w, file, entries) then value else old(con.ValueAt(a)))
  {
    if file.Some? {
      AddAll(con, w, file.value, value);
    }
    AddAll(con, w, entries, value);
  }

  /** The first part of blocklist_init: the default value and the allow lists. */
  method InitAllowed(allowFile: Option<seq<Cidr>>, allowEntries: seq<Cidr>, w: Widths)
    returns (con: Constraint)
    requires w.Valid() && WellFormed(allowEntries, w)
    requires allowFile.Some? ==> WellFormed(allowFile.value, w)
    ensures con.R == if w.Total() < 20 then w.Total() else 20
    ensures con.Valid() && con.L == w.Total() && fresh(con) && fresh(con.root.repr) && fresh(con.radix)
    ensures forall j :: 0 <= j < con.radix.Length ==> con.radix[j] == 0
    ensures forall a: nat :: a < Pow2(con.L) ==>
              (con.ValueAt(a) ==
               if allowFile.Some? || |allowEntries| > 0 ==> InLists(Shr(a, w.Rest()), w, allowFile, allowEntries)
               then ADDR_ALLOWED else ADDR_DISALLOWED)
  {
    if allowFile.Some? || |allowEntries| > 0 {
      con := new Constraint(ADDR_DISALLOWED, w.Total());
      AddLists(con, w, allowFile, allowEntries, ADDR_ALLOWED);
    } else {
      con := new Constraint(ADDR_ALLOWED, w.Total());
    }
  }

  /** The second part: the block lists, and last the zero prefix. */
  method AddBlocked(con: Constraint, w: Widths, file: Option<seq<Cidr>>, entries: seq<Cidr>)
    requires con.Valid() && con.L == w.Total() && WellFormed(entries, w)
    requires file.Some? ==> WellFormed(file.value, w)
    modifies con, con.root.repr
    ensures con.Valid() && con.root == old(con.root) && con.radix == old(con.radix)
    ensures fresh(con.root.repr - old(con.root.repr)) && con.radixLen == old(con.radixLen)
    ensures forall a: nat :: a < Pow2(con.L) ==>
              (con.ValueAt(a) ==
               if Shr(a, w.Rest()) == 0 || InLists(Shr(a, w.Rest()), w, file, entries)
               then ADDR_DISALLOWED else old(con.ValueAt(a)))
  {
    AddLists(con, w, file, entries, ADDR_DISALLOWED);
    AddOne(con, w, Cidr(0, w.ip), ADDR_DISALLOWED);
  }

  /** blocklist_init on parsed lists; ok is false when nothing may be scanned. */
  method BlocklistInit(allowFile: Option<seq<Cidr>>, blockFile: Option<seq<Cidr>>,
                       allowEntries: seq<Cidr>, blockEntries: seq<Cidr>, w: Widths)
    returns (b: Blocklist, ok: bool)
    requires w.Valid()
    requires WellFormed(allowEntries, w) && WellFormed(blockEntries, w)
    requires allowFile.Some? ==> WellFormed(allowFile.value, w)
    requires blockFile.Some? ==> WellFormed(blockFile.value, w)
    ensures b.Valid() && b.w == w
    ensures forall ip: nat :: ip < Pow2(w.ip) ==>
              (ip in b.book.allowed <==> IsAllowed(ip, w, allowFile, allowEntries, blockFile, blockEntries))
    ensures b.book.c == if w.Total() < 20 then 0 else w.Total() - 20
    ensures ok <==> b.book.allowed != {}
  {
    var con := InitAllowed(allowFile, allowEntries, w);
    AddBlocked(con, w, blockFile, blockEntries);
    ghost var allowed := AllowedBy(w, allowFile, allowEntries, blockFile, blockEntries);
    AllowedPrefixes(w, allowFile, allowEntries, blockFile, blockEntries);
    b, ok := PaintAndCount(con, w, allowed);
  }

  /** The prefixes that the lists allow. */
  ghost function AllowedBy(w: Widths, allowFile: Option<seq<Cidr>>, allowEntries: seq<Cidr>,
                           blockFile: Option<seq<Cidr>>, blockEntries: seq<Cidr>): set<nat>
  {
    set ip: nat | ip in Below(Pow2(w.ip)) && IsAllowed(ip, w, allowFile, allowEntries, blockFile, blockEntries)
  }

  /** A target is allowed when its prefix is. */
  lemma AllowedPrefixes(w: Widths, allowFile: Option<seq<Cidr>>, allowEntries: seq<Cidr>,
                        blockFile: Option<seq<Cidr>>, blockEntries: seq<Cidr>)
    requires w.Valid()
    ensures
      var allowed := AllowedBy(w, allowFile, allowEntries, blockFile, blockEntries);
      && 0 !in allowed && (forall ip: nat :: ip in allowed ==> ip < Pow2(w.ip))
      && forall a: nat :: a < Pow2(w.Total()) ==>
           (Shr(a, w.Rest()) in allowed <==>
            IsAllowed(Shr(a, w.Rest()), w, allowFile, allowEntries, blockFile, blockEntries))
  {
    forall a: nat | a < Pow2(w.Total()) ensures Shr(a, w.Rest()) in Below(Pow2(w.ip)) {
      ShlPow2(w.ip, w.Rest());
      ShrBelow(a, Pow2(w.ip), w.Rest());
    }
  }

  /** The end of blocklist_init: paint, and see whether anything is allowed. */
  method PaintAndCount(con: Constraint, w: Widths, ghost allowed: set<nat>) returns (b: Blocklist, ok: bool)
    requires w.Valid() && con.Valid() && con.L == w.Total()
    requires 0 !in allowed && forall ip: nat :: ip in allowed ==> ip < Pow2(w.ip)
    requires forall a: nat :: a < Pow2(con.L) ==>
      (con.ValueAt(a) == if Shr(a, w.Rest()) in allowed then ADDR_ALLOWED else ADDR_DISALLOWED)
    requires forall j :: 0 <= j < con.radix.Length ==> con.radix[j] == 0
    modifies con, con.root.repr`count, con.radix
    ensures b.Valid() && b.w == w && b.book.allowed == allowed && b.book.c == con.L - con.R
    ensures ok <==> allowed != {}
  {
    b := Painted(con, w, allowed);
    var n := b.CountAllowedIp();
    ok := n != 0;
  }

  /** The end of blocklist_init: paint the allowed value. */
  method Painted(con: Constraint, w: Widths, ghost allowed: set<nat>) returns (b: Blocklist)
    requires w.Valid() && con.Valid() && con.L == w.Total()
    requires 0 !in allowed && forall ip :: ip in allowed ==> ip < Pow2(w.ip)
    requires forall a: nat :: a < Pow2(con.L) ==>
      (con.ValueAt(a) == if Shr(a, w.Rest()) in allowed then ADDR_ALLOWED else ADDR_DISALLOWED)
    requires forall j :: 0 <= j < con.radix.Length ==> con.radix[j] == 0
    modifies con, con.root.repr`count, con.radix
    ensures b.Valid() && b.w == w && b.book.allowed == allowed && b.book.c == con.L - con.R
  {
    ghost var t := con.root.tree;
    forall a: nat | a < Pow2(con.L)
      ensures Lookup(t, con.L, a) == if Shr(a, w.Rest()) in allowed then ADDR_ALLOWED else ADDR_DISALLOWED
    {
      assert con.ValueAt(a) == Lookup(t, con.L, a);
    }
    con.PaintValue(ADDR_ALLOWED);
    ghost var book := Book(w, allowed, t, con.L - con.R);
    book.IsValid();
    b := new Blocklist(w, con, book);
  }
}
