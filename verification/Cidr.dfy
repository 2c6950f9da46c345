/** IPv4 addresses and CIDR blocks (section 3.1 of RFC 4632), in the two views the service uses side by
    side: bit masks (net.IPNet.Contains) and unsigned ranges (ipNetRange). */
module Cidr {

  type u32 = x: int | 0 <= x < 0x1_0000_0000
  type octet = x: int | 0 <= x < 256

  /** The four bytes of net.IP.To4. */
  datatype IP4 = IP4(a: octet, b: octet, c: octet, d: octet)

  function IpToUint32(ip: IP4): u32 {
    ip.a * 0x100_0000 + ip.b * 0x1_0000 + ip.c * 0x100 + ip.d
  }

  function Uint32ToIP(v: u32): IP4 {
    IP4(v / 0x100_0000 % 256, v / 0x1_0000 % 256, v / 0x100 % 256, v % 256)
  }

  lemma LastByte(high: nat, low: octet)
    ensures (high * 0x100 + low) / 0x100 == high && (high * 0x100 + low) % 256 == low
  {
  }

  lemma DivideByBytes(v: nat)
    ensures v / 0x1_0000 == v / 0x100 / 0x100 && v / 0x100_0000 == v / 0x1_0000 / 0x100
  {
    assert v == v / 0x100 * 0x100 + v % 0x100;
    assert v / 0x100 == v / 0x100 / 0x100 * 0x100 + v / 0x100 % 0x100;
  }

  lemma IpToUint32Inverse(ip: IP4)
    ensures Uint32ToIP(IpToUint32(ip)) == ip
  {
    var v := IpToUint32(ip);
    DivideByBytes(v);
    LastByte(ip.a * 0x1_0000 + ip.b * 0x100 + ip.c, ip.d);
    LastByte(ip.a * 0x100 + ip.b, ip.c);
    LastByte(ip.a, ip.b);
    LastByte(0, ip.a);
  }

  lemma Uint32ToIPInverse(v: u32)
    ensures IpToUint32(Uint32ToIP(v)) == v
  {
    DivideByBytes(v);
    LastByte(v / 0x100, v % 256);
    LastByte(v / 0x1_0000, v / 0x100 % 256);
    LastByte(v / 0x100_0000, v / 0x1_0000 % 256);
    assert v / 0x100_0000 % 256 == v / 0x100_0000;
  }

  // ---------------------------------------------------------------------------------------------
  // Machine words

  function Pow2(k: nat): (p: nat)
    ensures p >= 1
  {
    if k == 0 then 1 else 2 * Pow2(k - 1)
  }

  lemma Pow2Values()
    ensures Pow2(2) == 4 && Pow2(8) == 256 && Pow2(16) == 0x1_0000 && Pow2(32) == 0x1_0000_0000
  {
    assert Pow2(8) == 256;
    assert Pow2(16) == 0x1_0000;
    assert Pow2(24) == 0x100_0000;
  }

  lemma {:induction false} Pow2Monotone(j: nat, k: nat)
    requires j <= k
    ensures Pow2(j) <= Pow2(k)
  {
    if j < k {
      Pow2Monotone(j, k - 1);
    }
  }

  /** Addition of Go's uint32, which wraps. */
  function Add32(x: u32, y: u32): u32 {
    if x + y < 0x1_0000_0000 then x + y else x + y - 0x1_0000_0000
  }

  /** `uint32(1) << s`: a shift by 32 leaves 0, not 2^32. */
  function ShiftedOne32(s: nat): (v: u32)
    ensures v == if s >= 32 then 0 else Pow2(s)
  {
    if s >= 32 then 0
    else
      Pow2Values();
      Pow2Monotone(s + 1, 32);
      Pow2(s)
  }

  /** Bitwise and. */
  function And(x: nat, y: nat): nat {
    if x == 0 || y == 0 then 0 else 2 * And(x / 2, y / 2) + (if x % 2 == 1 && y % 2 == 1 then 1 else 0)
  }

  /** The lowest k bits. */
  function Low(x: nat, k: nat): (r: nat)
    ensures r < Pow2(k)
  {
    if k == 0 then 0 else 2 * Low(x / 2, k - 1) + x % 2
  }

  /** Two different numbers with the lowest k bits clear are at least 2^k apart. */
  lemma {:induction false} ClearedGap(x: nat, y: nat, k: nat)
    requires Low(x, k) == 0 && Low(y, k) == 0 && x < y
    ensures x + Pow2(k) <= y
  {
    if k == 0 {
    } else {
      ClearedGap(x / 2, y / 2, k - 1);
    }
  }

  lemma {:induction false} LowAdd(x: nat, y: nat, k: nat)
    requires Low(x, k) == 0 && Low(y, k) == 0
    ensures Low(x + y, k) == 0
  {
    if k == 0 {
    } else {
      LowAdd(x / 2, y / 2, k - 1);
      assert (x + y) / 2 == x / 2 + y / 2;
    }
  }

  lemma {:induction false} LowFewer(x: nat, j: nat, k: nat)
    requires Low(x, k) == 0 && j <= k
    ensures Low(x, j) == 0
  {
    if j == 0 {
    } else {
      LowFewer(x / 2, j - 1, k - 1);
    }
  }

  lemma {:induction false} LowPow2(k: nat, n: nat)
    requires k <= n
    ensures Low(Pow2(n), k) == 0
  {
    if k == 0 {
    } else {
      LowPow2(k - 1, n - 1);
    }
  }

  lemma AndBit(x: nat, m: nat)
    ensures And(x, 2 * m) == 2 * And(x / 2, m)
    ensures And(x, 2 * m + 1) == 2 * And(x / 2, m) + x % 2
  {
    assert 2 * m / 2 == m && (2 * m + 1) / 2 == m;
  }

  lemma {:induction false} AndAllOnes(x: nat, n: nat)
    requires x < Pow2(n)
    ensures And(x, Pow2(n) - 1) == x
  {
    if n == 0 {
    } else {
      AndAllOnes(x / 2, n - 1);
      AndBit(x, Pow2(n - 1) - 1);
    }
  }

  /** A mask of the bits k..n-1 clears the lowest k bits. */
  lemma {:induction false} AndMask(x: nat, m: nat, k: nat, n: nat)
    requires k <= n && x < Pow2(n) && m == Pow2(n) - Pow2(k)
    ensures And(x, m) == x - Low(x, k)
  {
    if k == 0 {
      AndAllOnes(x, n);
    } else {
      var h := Pow2(n - 1) - Pow2(k - 1);
      Pow2Monotone(k - 1, n - 1);
      AndMask(x / 2, h, k - 1, n - 1);
      assert And(x, m) == 2 * And(x / 2, h) by {
        AndBit(x, h);
      }
    }
  }

  lemma LowDouble(y: nat, k: nat)
    requires k > 0
    ensures Low(2 * y, k) == 2 * Low(y, k - 1)
  {
    assert 2 * y / 2 == y;
  }

  lemma {:induction false} LowOfCleared(x: nat, k: nat)
    ensures Low(x, k) <= x && Low(x - Low(x, k), k) == 0
  {
    if k == 0 {
    } else {
      LowOfCleared(x / 2, k - 1);
      LowDouble(x / 2 - Low(x / 2, k - 1), k);
      assert x - Low(x, k) == 2 * (x / 2 - Low(x / 2, k - 1));
    }
  }

  // ---------------------------------------------------------------------------------------------
  // Blocks

  datatype RawBlock = Block(ip: u32, ones: nat)

  /** A net.IPNet as net.ParseCIDR returns it: the address has no host bits. */
  predicate Masked(b: RawBlock) {
    b.ones <= 32 && Low(b.ip, 32 - b.ones) == 0
  }

  type IPNet = b: RawBlock | Masked(b) witness Block(0, 32)

  function Size(n: IPNet): nat {
    Pow2(32 - n.ones)
  }

  /** net.CIDRMask(ones, 32). */
  function CIDRMask(ones: nat): (m: u32)
    requires ones <= 32
  {
    Pow2Values();
    Pow2Monotone(32 - ones, 32);
    Pow2(32) - Pow2(32 - ones)
  }

  /** The net.IPNet with the host bits of `ip` cleared. */
  function MaskedBlock(ip: u32, ones: nat): (n: IPNet)
    requires ones <= 32
    ensures n.ones == ones && n.ip <= ip < n.ip + Size(n)
  {
    hide Low, And, Pow2;
    MaskClears(ip, ones);
    Block(And(ip, CIDRMask(ones)), ones)
  }

  lemma MaskClears(ip: u32, ones: nat)
    requires ones <= 32
    ensures And(ip, CIDRMask(ones)) == ip - Low(ip, 32 - ones) >= 0
    ensures Low(And(ip, CIDRMask(ones)), 32 - ones) == 0
  {
    hide And, Low, Pow2;
    Pow2Values();
    AndMask(ip, CIDRMask(ones), 32 - ones, 32);
    LowOfCleared(ip, 32 - ones);
  }

  /** net.IPNet.Contains: equal under the mask. */
  predicate Contains(n: IPNet, ip: u32) {
    And(n.ip, CIDRMask(n.ones)) == And(ip, CIDRMask(n.ones))
  }

  /** The first and last address of ipNetRange, which computes in uint64. */
  function First(n: IPNet): nat {
    n.ip
  }

  function Last(n: IPNet): (l: u32)
    ensures l == n.ip + Size(n) - 1
  {
    LastInRange(n);
    n.ip + Size(n) - 1
  }

  predicate InRange(n: IPNet, ip: int) {
    First(n) <= ip <= Last(n)
  }

  /** A block ends at or before the top of the address space. */
  lemma LastInRange(n: IPNet)
    ensures n.ip + Size(n) <= 0x1_0000_0000
  {
    Pow2Values();
    LowPow2(32 - n.ones, 32);
    ClearedGap(n.ip, Pow2(32), 32 - n.ones);
  }

  predicate CidrOverlaps(a: IPNet, b: IPNet) {
    First(a) <= Last(b) && First(b) <= Last(a)
  }

  /** The test of cidrWithin: the first and the last address of the child, the last computed in uint32. */
  predicate CidrWithin(parent: IPNet, child: IPNet) {
    var size := ShiftedOne32(32 - child.ones);
    var last := Add32(Add32(child.ip, size), 0xffff_ffff);
    Contains(parent, child.ip) && Contains(parent, last)
  }

  // ---------------------------------------------------------------------------------------------
  // The two views agree

  lemma ContainsIffInRange(n: IPNet, ip: u32)
    ensures Contains(n, ip) <==> InRange(n, ip)
  {
    hide Low, Pow2, And;
    MaskClears(n.ip, n.ones);
    MaskClears(ip, n.ones);
    RoundedIn(n.ip, ip, 32 - n.ones);
  }

  /** Clearing the lowest k bits of x gives b exactly when x lies in the 2^k numbers from b. */
  lemma {:induction false} RoundedIn(b: nat, x: nat, k: nat)
    requires Low(b, k) == 0
    ensures x - Low(x, k) == b <==> b <= x < b + Pow2(k)
  {
    hide Low, Pow2;
    LowOfCleared(x, k);
    var c := x - Low(x, k);
    if c < b {
      ClearedGap(c, b, k);
    } else if b < c {
      ClearedGap(b, c, k);
    }
  }

  /** A block that meets an at least as large one lies inside it. */
  lemma OverlapNests(a: IPNet, b: IPNet)
    requires a.ones <= b.ones && CidrOverlaps(a, b)
    ensures First(a) <= First(b) && Last(b) <= Last(a)
  {
    hide Low, Pow2;
    ClearedNest(a.ip, 32 - a.ones, b.ip, 32 - b.ones);
  }

  lemma {:induction false} ClearedNest(x: nat, k: nat, y: nat, j: nat)
    requires j <= k && Low(x, k) == 0 && Low(y, j) == 0
    requires x < y + Pow2(j) && y < x + Pow2(k)
    ensures x <= y && y + Pow2(j) <= x + Pow2(k)
  {
    hide Low, Pow2;
    LowFewer(x, j, k);
    assert Low(x + Pow2(k), j) == 0 by {
      LowPow2(j, k);
      LowAdd(x, Pow2(k), j);
    }
    ClearedGap(y, x + Pow2(k), j);
    if y < x {
      ClearedGap(y, x, j);
    }
  }

  /** cidrOverlaps holds exactly when some address is in both blocks, by mask as by range, and exactly
      when one block contains the other. */
  lemma OverlapMeansIntersect(a: IPNet, b: IPNet)
    ensures CidrOverlaps(a, b) <==> exists x: u32 :: Contains(a, x) && Contains(b, x)
    ensures CidrOverlaps(a, b) <==>
            (forall x: u32 :: Contains(a, x) ==> Contains(b, x)) || (forall x: u32 :: Contains(b, x) ==> Contains(a, x))
  {
    hide Low, Pow2, And, Contains;
    forall x: u32
      ensures Contains(a, x) <==> InRange(a, x)
      ensures Contains(b, x) <==> InRange(b, x)
    {
      ContainsIffInRange(a, x);
      ContainsIffInRange(b, x);
    }
    assert Contains(a, First(a)) && Contains(b, First(b));
    if CidrOverlaps(a, b) {
      if a.ones <= b.ones { OverlapNests(a, b); } else { OverlapNests(b, a); }
      var x: u32 := if First(a) <= First(b) then First(b) else First(a);
      assert Contains(a, x) && Contains(b, x);
    }
  }

  /** Testing two addresses is enough: cidrWithin is inclusion of address sets. The sum
      `start + size - 1` of a /0 wraps and still ends at the last address. */
  lemma WithinMeansInclusion(parent: IPNet, child: IPNet)
    ensures CidrWithin(parent, child) <==> forall x: u32 :: Contains(child, x) ==> Contains(parent, x)
    ensures CidrWithin(parent, child) <==> First(parent) <= First(child) && Last(child) <= Last(parent)
  {
    hide Low, Pow2, And, Contains;
    WithinLastAddress(child);
    ContainsIffInRange(parent, First(child));
    ContainsIffInRange(parent, Last(child));
    InclusionIsOrder(parent, child);
  }

  lemma InclusionIsOrder(parent: IPNet, child: IPNet)
    ensures First(parent) <= First(child) && Last(child) <= Last(parent) <==>
            forall x: u32 :: Contains(child, x) ==> Contains(parent, x)
  {
    hide Low, Pow2, And, Contains;
    forall x: u32
      ensures Contains(child, x) <==> InRange(child, x)
      ensures Contains(parent, x) <==> InRange(parent, x)
    {
      ContainsIffInRange(child, x);
      ContainsIffInRange(parent, x);
    }
    assert InRange(child, First(child)) && InRange(child, Last(child));
  }

  lemma WithinLastAddress(child: IPNet)
    ensures Add32(Add32(child.ip, ShiftedOne32(32 - child.ones)), 0xffff_ffff) == Last(child)
  {
    hide Low, And;
    Pow2Values();
    LastInRange(child);
  }

  lemma OverlapSymmetric(c: IPNet, d: IPNet)
    ensures CidrOverlaps(c, d) <==> CidrOverlaps(d, c)
  {
  }

  /** Disjoint blocks share no address. */
  lemma DisjointAddresses(a: IPNet, b: IPNet, x: u32)
    requires !CidrOverlaps(a, b)
    ensures !(InRange(a, x) && InRange(b, x))
  {
  }
}
