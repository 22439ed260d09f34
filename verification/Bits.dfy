/** Addresses as byte strings, most significant bit first, and the two bit comparisons the
    Patricia trie is built on (Yarrp/patricia.cpp). */
module Bits {

  // ---------------------------------------------------------------- one byte

  /** Bit j of a byte, the most significant first. */
  predicate ByteBit(b: bv8, j: nat)
    requires j < 8
    decreases j
  {
    if j == 0 then b & 0x80 != 0 else ByteBit(b << 1, j - 1)
  }

  /** The mask 0x80 >> j of BIT_TEST. */
  function BitMask(j: nat): bv8
    requires j < 8
  {
    if j == 0 then 0x80 else BitMask(j - 1) >> 1
  }

  /** The mask (-1) << (8 - k) of comp_with_mask. */
  function HighMask(k: nat): bv8
    requires 1 <= k <= 8
  {
    if k == 1 then 0x80 else (HighMask(k - 1) >> 1) | 0x80
  }

  /** BIT_TEST reads the bit its index names. */
  lemma {:induction false} BitTest(b: bv8, j: nat)
    requires j < 8
    ensures ByteBit(b, j) <==> b & BitMask(j) != 0
    decreases j
  {
    if j > 0 {
      BitTest(b << 1, j - 1);
      HalfMask(j - 1);
      ShiftedTest(b, BitMask(j - 1));
    }
  }

  lemma ShiftedTest(b: bv8, m: bv8)
    requires m & 1 == 0
    ensures (b << 1) & m != 0 <==> b & (m >> 1) != 0
  {
  }

  lemma {:induction false} HalfMask(j: nat)
    requires j < 7
    ensures BitMask(j) & 1 == 0
  {
    assert BitMask(0) == 0x80;
    assert BitMask(1) == 0x40;
    assert BitMask(2) == 0x20;
    assert BitMask(3) == 0x10;
    assert BitMask(4) == 0x08;
    assert BitMask(5) == 0x04;
    assert BitMask(6) == 0x02;
  }

  /** The first k bits of two bytes agree. */
  ghost predicate SameBits(a: bv8, b: bv8, k: nat)
    requires k <= 8
  {
    forall j :: 0 <= j < k ==> (ByteBit(a, j) <==> ByteBit(b, j))
  }

  lemma SameBitsShift(a: bv8, b: bv8, k: nat)
    requires 1 <= k <= 8
    ensures SameBits(a, b, k) <==> SameBits(a << 1, b << 1, k - 1) && (a & 0x80 == b & 0x80)
  {
    assert ByteBit(a, 0) == (a & 0x80 != 0) && ByteBit(b, 0) == (b & 0x80 != 0);
    TopBit(a, b);
    var c, d := a << 1, b << 1;
    if SameBits(a, b, k) {
      forall j | 0 <= j < k - 1 ensures ByteBit(c, j) <==> ByteBit(d, j) {
        assert ByteBit(a, j + 1) <==> ByteBit(b, j + 1);
      }
    }
    if SameBits(c, d, k - 1) && a & 0x80 == b & 0x80 {
      forall j | 0 <= j < k ensures ByteBit(a, j) <==> ByteBit(b, j) {
        if j > 0 { assert ByteBit(c, j - 1) <==> ByteBit(d, j - 1); }
      }
    }
  }

  lemma TopBit(a: bv8, b: bv8)
    ensures a & 0x80 == b & 0x80 <==> (a & 0x80 != 0 <==> b & 0x80 != 0)
  {
  }

  /** Two bytes agree under the mask exactly when their first k bits agree. */
  lemma {:induction false} SameMasked(a: bv8, b: bv8, k: nat)
    requires 1 <= k <= 8
    ensures a & HighMask(k) == b & HighMask(k) <==> SameBits(a, b, k)
    decreases k
  {
    SameBitsShift(a, b, k);
    if k > 1 {
      SameMasked(a << 1, b << 1, k - 1);
      HighMaskEven(k - 1);
      MaskShift(a, b, HighMask(k - 1));
    }
  }

  lemma {:induction false} HighMaskEven(k: nat)
    requires 1 <= k <= 7
    ensures HighMask(k) & 1 == 0
  {
    assert HighMask(1) == 0x80;
    assert HighMask(2) == 0xC0;
    assert HighMask(3) == 0xE0;
    assert HighMask(4) == 0xF0;
    assert HighMask(5) == 0xF8;
    assert HighMask(6) == 0xFC;
    assert HighMask(7) == 0xFE;
  }

  lemma MaskShift(a: bv8, b: bv8, m: bv8)
    requires m & 1 == 0
    ensures (a & ((m >> 1) | 0x80) == b & ((m >> 1) | 0x80))
         == ((a << 1) & m == (b << 1) & m && a & 0x80 == b & 0x80)
  {
  }

  /** Eight equal bits are an equal byte. */
  lemma SameByte(a: bv8, b: bv8)
    ensures a == b <==> SameBits(a, b, 8)
  {
    SameMasked(a, b, 8);
    WholeMask(a, b, HighMask(8));
  }

  lemma WholeMask(a: bv8, b: bv8, m: bv8)
    requires m == HighMask(8)
    ensures a & m == b & m <==> a == b
  {
    assert HighMask(2) == 0xC0;
    assert HighMask(4) == 0xF0;
    assert HighMask(6) == 0xFC;
    assert m == 0xFF;
    Unmasked(a);
    Unmasked(b);
  }

  lemma Unmasked(a: bv8)
    ensures a & 0xFF == a
  {
  }

  /** Exclusive or marks the bits that differ. */
  lemma {:induction false} XorBit(a: bv8, b: bv8, j: nat)
    requires j < 8
    ensures ByteBit(a ^ b, j) <==> ByteBit(a, j) != ByteBit(b, j)
    decreases j
  {
    if j == 0 {
      XorTop(a, b);
    } else {
      XorShift(a, b);
      XorBit(a << 1, b << 1, j - 1);
    }
  }

  lemma XorTop(a: bv8, b: bv8)
    ensures (a ^ b) & 0x80 != 0 <==> (a & 0x80 != 0) != (b & 0x80 != 0)
  {
  }

  lemma XorShift(a: bv8, b: bv8)
    ensures (a ^ b) << 1 == (a << 1) ^ (b << 1)
  {
  }

  lemma XorZero(a: bv8, b: bv8)
    ensures a ^ b == 0 <==> a == b
  {
  }

  // ---------------------------------------------------------------- addresses

  /** BIT_TEST (addr[i >> 3], 0x80 >> (i & 0x07)) */
  predicate Bit(addr: seq<bv8>, i: nat)
    requires i < 8 * |addr|
  {
    ByteBit(addr[i / 8], i % 8)
  }

  /** The bits of an address as a sequence. */
  function BitsOf(addr: seq<bv8>): (r: seq<bool>)
    ensures |r| == 8 * |addr|
    ensures forall i :: 0 <= i < |r| ==> r[i] == Bit(addr, i)
  {
    seq(8 * |addr|, i requires 0 <= i < 8 * |addr| => Bit(addr, i))
  }

  lemma BitOfByte(a: seq<bv8>, h: nat, j: nat)
    requires h < |a| && j < 8
    ensures BitsOf(a)[8 * h + j] == ByteBit(a[h], j)
  {
    assert (8 * h + j) / 8 == h && (8 * h + j) % 8 == j;
  }

  /** Adding k bits of the next byte to n equal bytes. */
  lemma NextBits(a: seq<bv8>, b: seq<bv8>, n: nat, k: nat)
    requires n < |a| && n < |b| && k <= 8
    requires BitsOf(a)[..8 * n] == BitsOf(b)[..8 * n]
    ensures SameBits(a[n], b[n], k) <==> BitsOf(a)[..8 * n + k] == BitsOf(b)[..8 * n + k]
  {
    var x, y := BitsOf(a), BitsOf(b);
    if SameBits(a[n], b[n], k) {
      forall i | 0 <= i < 8 * n + k ensures x[i] == y[i] {
        if i < 8 * n {
          assert x[..8 * n][i] == y[..8 * n][i];
        } else {
          BitOfByte(a, n, i - 8 * n);
          BitOfByte(b, n, i - 8 * n);
        }
      }
    }
    if x[..8 * n + k] == y[..8 * n + k] {
      forall j | 0 <= j < k ensures ByteBit(a[n], j) <==> ByteBit(b[n], j) {
        BitOfByte(a, n, j);
        BitOfByte(b, n, j);
        assert x[..8 * n + k][8 * n + j] == y[..8 * n + k][8 * n + j];
      }
    }
  }

  /** Whole bytes agree exactly when all their bits do. */
  lemma {:induction false} SameBytes(a: seq<bv8>, b: seq<bv8>, n: nat)
    requires n <= |a| && n <= |b|
    ensures a[..n] == b[..n] <==> BitsOf(a)[..8 * n] == BitsOf(b)[..8 * n]
  {
    if n > 0 {
      var h := n - 1;
      SameBytes(a, b, h);
      assert a[..n] == a[..h] + [a[h]] && b[..n] == b[..h] + [b[h]];
      var x, y := BitsOf(a), BitsOf(b);
      assert x[..8 * n][..8 * h] == x[..8 * h] && y[..8 * n][..8 * h] == y[..8 * h];
      if a[..h] == b[..h] {
        NextBits(a, b, h, 8);
        SameByte(a[h], b[h]);
      }
    }
  }

  /** comp_with_mask: whether the first mask bits of two addresses agree. The source reads
      the byte after the whole ones only when the mask does not end on a byte. */
  method CompWithMask(addr: seq<bv8>, dest: seq<bv8>, mask: nat) returns (same: bool)
    requires mask <= 8 * |addr| && mask <= 8 * |dest|
    ensures same <==> BitsOf(addr)[..mask] == BitsOf(dest)[..mask]
  {
    var n := mask / 8;
    ghost var x, y := BitsOf(addr), BitsOf(dest);
    SameBytes(addr, dest, n);
    assert x[..mask][..8 * n] == x[..8 * n] && y[..mask][..8 * n] == y[..8 * n];
    if addr[..n] == dest[..n] {
      if mask % 8 == 0 {
        return true;
      }
      var m := HighMask(mask % 8);
      SameMasked(addr[n], dest[n], mask % 8);
      NextBits(addr, dest, n, mask % 8);
      return addr[n] & m == dest[n] & m;
    }
    return false;
  }

  // ---------------------------------------------------------------- first difference

  /** How many leading bits two bit strings share. */
  function Lcp(a: seq<bool>, b: seq<bool>): (r: nat)
    ensures r <= |a| && r <= |b|
    ensures a[..r] == b[..r]
    ensures r < |a| && r < |b| ==> a[r] != b[r]
  {
    if |a| == 0 || |b| == 0 || a[0] != b[0] then 0
    else
      var k := Lcp(a[1..], b[1..]);
      assert a[..k + 1] == [a[0]] + a[1..][..k] && b[..k + 1] == [b[0]] + b[1..][..k];
      k + 1
  }

  lemma LcpUnique(a: seq<bool>, b: seq<bool>, k: nat)
    requires k <= |a| && k <= |b| && a[..k] == b[..k]
    requires k < |a| && k < |b| ==> a[k] != b[k]
    ensures Lcp(a, b) == k
  {
    assert forall i :: 0 <= i < k ==> a[i] == a[..k][i] && b[i] == b[..k][i];
    var r := Lcp(a, b);
    assert forall i :: 0 <= i < r ==> a[i] == a[..r][i] && b[i] == b[..r][i];
  }

  lemma LcpMonotone(x: seq<bool>, a: seq<bool>, b: seq<bool>)
    requires a <= b
    ensures Lcp(x, a) <= Lcp(x, b)
    ensures Lcp(x, a) < |x| && Lcp(x, a) < |a| ==> Lcp(x, b) == Lcp(x, a)
  {
    var k, r := Lcp(x, a), Lcp(x, b);
    assert x[..k] == b[..k];
    LcpAtLeast(x, b, k);
    if k < |x| && k < |a| {
      LcpUnique(x, b, k);
    }
  }

  lemma LcpAtLeast(x: seq<bool>, y: seq<bool>, k: nat)
    requires k <= |x| && k <= |y| && x[..k] == y[..k]
    ensures Lcp(x, y) >= k
  {
    assert forall i :: 0 <= i < k ==> x[i] == x[..k][i] && y[i] == y[..k][i];
  }

  lemma LcpOfExtension(x: seq<bool>, y: seq<bool>)
    ensures x <= y ==> Lcp(x, y) == |x|
  {
    if x <= y {
      assert x[..|x|] == y[..|x|];
      LcpUnique(x, y, |x|);
    }
  }

  /** Continuing a on the side x does not take shares nothing more. */
  lemma LcpOffSide(x: seq<bool>, a: seq<bool>, b: seq<bool>)
    requires a < b && |a| < |x| && b[|a|] != x[|a|]
    ensures Lcp(x, b) == Lcp(x, a)
  {
    LcpMonotone(x, a, b);
    if Lcp(x, a) == |a| {
      assert x[..|a|] == b[..|a|];
      LcpUnique(x, b, |a|);
    }
  }

  /** Only the common length matters. */
  lemma LcpOfPrefixes(x: seq<bool>, y: seq<bool>, m: nat, n: nat)
    requires m <= |x| && n <= |y|
    ensures
      var c := if m < n then m else n;
      c <= |x| && c <= |y| && Lcp(x[..m], y[..n]) == Lcp(x[..c], y[..c])
  {
    var c := if m < n then m else n;
    var k := Lcp(x[..c], y[..c]);
    assert x[..m][..k] == x[..c][..k] && y[..n][..k] == y[..c][..k];
    LcpUnique(x[..m], y[..n], k);
  }

  /** Cutting the string short caps what it shares. */
  lemma LcpOfCut(x: seq<bool>, m: nat, a: seq<bool>)
    requires m <= |x|
    ensures Lcp(x[..m], a) == if Lcp(x, a) < m then Lcp(x, a) else m
  {
    var k := if Lcp(x, a) < m then Lcp(x, a) else m;
    assert x[..m][..k] == x[..Lcp(x, a)][..k] && a[..k] == a[..Lcp(x, a)][..k];
    LcpUnique(x[..m], a, k);
  }

  /** Capping the first difference of two addresses at a length. */
  lemma CappedDifference(x: seq<bool>, y: seq<bool>, d: nat, c: nat)
    requires c <= |x| && c <= |y| && d <= |x| && d <= |y| && x[..d] == y[..d]
    requires d < c ==> x[d] != y[d]
    ensures Lcp(x[..c], y[..c]) == if d > c then c else d
  {
    var k := if d > c then c else d;
    assert x[..c][..k] == x[..d][..k] && y[..c][..k] == y[..d][..k];
    LcpUnique(x[..c], y[..c], k);
  }

  /** The first bit that differs in two different bytes; the search always finds one. */
  method FirstDifference(a: bv8, b: bv8) returns (j: nat)
    requires a != b
    ensures j < 8 && SameBits(a, b, j) && ByteBit(a, j) != ByteBit(b, j)
  {
    var r := a ^ b;
    j := 0;
    SameByte(a, b);
    while j < 8 && r & BitMask(j) == 0
      invariant j <= 8
      invariant SameBits(a, b, j)
    {
      BitTest(r, j);
      XorBit(a, b, j);
      j := j + 1;
    }
    BitTest(r, j);
    XorBit(a, b, j);
  }

  /** The byte loop of patricia_lookup: bytes are compared by exclusive or, the first
      different one is searched bit by bit, and the result is capped. */
  method DifferBit(addr: seq<bv8>, test: seq<bv8>, checkBit: nat) returns (differ: nat)
    requires checkBit <= 8 * |addr| && checkBit <= 8 * |test|
    ensures differ == Lcp(BitsOf(addr)[..checkBit], BitsOf(test)[..checkBit])
  {
    differ := 0;
    ghost var x, y := BitsOf(addr), BitsOf(test);
    var i := 0;
    while i * 8 < checkBit
      invariant differ == 8 * i <= 8 * |addr| && 8 * i <= 8 * |test|
      invariant x[..8 * i] == y[..8 * i]
      decreases checkBit - 8 * i
    {
      XorZero(addr[i], test[i]);
      if addr[i] ^ test[i] == 0 {
        differ := (i + 1) * 8;
        SameByte(addr[i], test[i]);
        NextBits(addr, test, i, 8);
        i := i + 1;
      } else {
        var j := FirstDifference(addr[i], test[i]);
        differ := i * 8 + j;
        NextBits(addr, test, i, j);
        BitOfByte(addr, i, j);
        BitOfByte(test, i, j);
        break;
      }
    }
    CappedDifference(x, y, differ, checkBit);
    if differ > checkBit {
      differ := checkBit;
    }
  }
}
