/** Masks and address blocks: IP.Mask and IPNet.Contains byte by byte, and the
    intervals of addresses they stand for. */
module Subnetting {
  import opened Bytes

  function Pow2(k: nat): (p: nat)
    ensures p >= 1
  {
    if k == 0 then 1 else 2 * Pow2(k - 1)
  }

  lemma {:induction false} Pow2Add(a: nat, b: nat)
    ensures Pow2(a + b) == Pow2(a) * Pow2(b)
  {
    if a > 0 {
      Pow2Add(a - 1, b);
      assert 2 * (Pow2(a - 1) * Pow2(b)) == (2 * Pow2(a - 1)) * Pow2(b);
    }
  }

  lemma Pow2Values()
    ensures Pow2(0) == 1 && Pow2(1) == 2 && Pow2(2) == 4 && Pow2(3) == 8 && Pow2(4) == 16
    ensures Pow2(5) == 32 && Pow2(6) == 64 && Pow2(7) == 128 && Pow2(8) == 256
    ensures Pow2(16) == 0x1_0000 && Pow2(24) == 0x100_0000 && Pow2(32) == 0x1_0000_0000
  {
    assert Pow2(4) == 16;
    assert Pow2(8) == 256;
    Pow2Add(8, 8);
    Pow2Add(16, 8);
    Pow2Add(16, 16);
  }

  // ---------- masks ----------

  /** How many leading bits of byte i a mask of the given length keeps. */
  function MaskBits(bits: nat, i: nat): (k: nat)
    ensures k <= 8
  {
    if bits >= 8 * (i + 1) then 8 else if bits <= 8 * i then 0 else bits - 8 * i
  }

  /** A byte with all but its k leading bits cleared. */
  function Keep(b: byte, k: nat): byte
    requires k <= 8
  {
    RemainderBound(b, Pow2(8 - k));
    b - b % Pow2(8 - k)
  }

  lemma RemainderBound(x: nat, m: nat)
    requires m > 0
    ensures 0 <= x % m <= x
  {
    if x < m {
      assert x % m == x;
    }
  }

  /** net.IPNet with an IPv4 network number. */
  datatype IPNet = IPNet(ip: IP, bits: nat)

  function MaskQuad(q: IP, bits: nat): (m: IP)
    requires |q| == 4
    ensures |m| == 4
  {
    [Keep(q[0], MaskBits(bits, 0)), Keep(q[1], MaskBits(bits, 1)), Keep(q[2], MaskBits(bits, 2)),
      Keep(q[3], MaskBits(bits, 3))]
  }

  /** IP.Mask with a 4-byte mask. */
  function Mask(ip: IP, bits: nat): (m: IP)
    requires |ip| == 4 || IsMapped(ip)
    ensures |m| == 4
  {
    MaskQuad(To4(ip), bits)
  }

  /** IPNet.Contains. */
  predicate Contains(net: IPNet, ip: IP)
    requires |net.ip| == 4
  {
    |To4(ip)| == 4 && SameNetwork(net.ip, To4(ip), net.bits)
  }

  /** Two addresses agree on every masked byte. */
  predicate SameNetwork(a: IP, b: IP, bits: nat)
    requires |a| == |b| == 4
  {
    forall i :: 0 <= i < 4 ==> Keep(a[i], MaskBits(bits, i)) == Keep(b[i], MaskBits(bits, i))
  }

  lemma SameNetworkIsEqualMask(a: IP, b: IP, bits: nat)
    requires |a| == |b| == 4
    ensures SameNetwork(a, b, bits) <==> MaskQuad(a, bits) == MaskQuad(b, bits)
  {
    var m, n := MaskQuad(a, bits), MaskQuad(b, bits);
    forall i | 0 <= i < 4
      ensures m[i] == Keep(a[i], MaskBits(bits, i)) && n[i] == Keep(b[i], MaskBits(bits, i))
    {
      assert i == 0 || i == 1 || i == 2 || i == 3;
    }
  }

  // ---------- blocks ----------

  function BlockSize(bits: nat): (s: nat)
    requires bits <= 32
    ensures s >= 1
  {
    Pow2(32 - bits)
  }

  /** The lowest address of the block of the given prefix length around v. */
  function Base(v: Addr, bits: nat): (b: Addr)
    requires bits <= 32
    ensures b <= v < b + BlockSize(bits)
  {
    RemainderBound(v, BlockSize(bits));
    v - v % BlockSize(bits)
  }

  lemma DivideUnique(x: int, m: nat, k: int, r: int)
    requires m > 0 && x == k * m + r && 0 <= r < m
    ensures x / m == k && x % m == r
  {
    var k', r' := x / m, x % m;
    assert x == k' * m + r' && 0 <= r' < m;
    assert (k - k') * m == r' - r;
    if k > k' {
      AtLeastOnce(k - k', m);
    } else if k < k' {
      assert (k' - k) * m == r - r';
      AtLeastOnce(k' - k, m);
    }
  }

  lemma Distribute(a: int, b: int, c: int)
    ensures (a + b) * c == a * c + b * c
  {
  }

  /** Clearing the low bits of one byte and all bytes after it rounds the whole number down. */
  lemma RoundDownAtByte(hi: nat, b: byte, lo: nat, w: nat, p: nat, c: nat)
    requires lo < w && p > 0 && c * p == 256
    ensures (hi * (256 * w) + b * w + lo) % (p * w) == b % p * w + lo
  {
    var q, e := b / p, b % p;
    RoundDown(hi, q, e, lo, w, p, c);
    assert b as int == q * p + e;
    DivideUnique(hi * (256 * w) + b * w + lo, p * w, hi * c + q, e * w + lo);
  }

  lemma RoundDown(hi: nat, q: nat, e: nat, lo: nat, w: nat, p: nat, c: nat)
    requires lo < w && e < p && c * p == 256
    ensures hi * (256 * w) + (q * p + e) * w + lo == (hi * c + q) * (p * w) + (e * w + lo)
    ensures 0 <= e * w + lo < p * w
  {
    Distribute(hi * c, q, p * w);
    Distribute(q * p, e, w);
    MultiplyAssociates(q, p, w);
    MultiplyAssociates(hi, c, p * w);
    MultiplyAssociates(c, p, w);
    Distribute(p - e, e, w);
    AtLeastOnce(p - e, w);
    AtLeastOnceNat(e, w);
  }

  lemma AtLeastOnceNat(e: nat, w: nat)
    ensures e * w >= 0
  {
  }

  /** IP.Mask rounds the address down to the base of its block. */
  lemma MaskIsBase(v: Addr, bits: nat)
    requires bits <= 32
    ensures MaskQuad(Quad(v), bits) == Quad(Base(v, bits))
  {
    var q, m := Quad(v), MaskQuad(Quad(v), bits);
    QuadValue(v);
    QuadValue(Base(v, bits));
    if bits >= 24 {
      MaskLast(q, bits);
    } else if bits >= 16 {
      MaskThird(q, bits);
    } else if bits >= 8 {
      MaskSecond(q, bits);
    } else {
      MaskFirst(q, bits);
    }
    ValueInjective(m, Quad(Base(v, bits)));
  }

  lemma MaskLast(q: IP, bits: nat)
    requires |q| == 4 && 24 <= bits <= 32
    ensures Value(MaskQuad(q, bits)) == Value(q) - Value(q) % BlockSize(bits)
  {
    Pow2Values();
    ValueFour(q);
    ValueFour(MaskQuad(q, bits));
    KeepAllOrNone(q[0]);
    KeepAllOrNone(q[1]);
    KeepAllOrNone(q[2]);
    MaskOneByte(q[0] as int * 0x1_0000 + q[1] as int * 0x100 + q[2] as int, q[3], 0, 0, bits, 1, Value(q));
  }

  lemma MaskThird(q: IP, bits: nat)
    requires |q| == 4 && 16 <= bits < 24
    ensures Value(MaskQuad(q, bits)) == Value(q) - Value(q) % BlockSize(bits)
  {
    Pow2Values();
    ValueFour(q);
    ValueFour(MaskQuad(q, bits));
    KeepAllOrNone(q[0]);
    KeepAllOrNone(q[1]);
    KeepAllOrNone(q[3]);
    MaskOneByte(q[0] as int * 0x100 + q[1] as int, q[2], q[3], 1, bits, 0x100, Value(q));
  }

  lemma MaskSecond(q: IP, bits: nat)
    requires |q| == 4 && 8 <= bits < 16
    ensures Value(MaskQuad(q, bits)) == Value(q) - Value(q) % BlockSize(bits)
  {
    Pow2Values();
    ValueFour(q);
    ValueFour(MaskQuad(q, bits));
    KeepAllOrNone(q[0]);
    KeepAllOrNone(q[2]);
    KeepAllOrNone(q[3]);
    MaskOneByte(q[0], q[1], q[2] as int * 0x100 + q[3] as int, 2, bits, 0x1_0000, Value(q));
  }

  lemma MaskFirst(q: IP, bits: nat)
    requires |q| == 4 && bits < 8
    ensures Value(MaskQuad(q, bits)) == Value(q) - Value(q) % BlockSize(bits)
  {
    Pow2Values();
    ValueFour(q);
    ValueFour(MaskQuad(q, bits));
    KeepAllOrNone(q[1]);
    KeepAllOrNone(q[2]);
    KeepAllOrNone(q[3]);
    MaskOneByte(0, q[0], q[1] as int * 0x1_0000 + q[2] as int * 0x100 + q[3] as int, 3, bits, 0x100_0000, Value(q));
  }

  lemma KeepAllOrNone(b: byte)
    ensures Keep(b, 8) == b && Keep(b, 0) == 0
  {
    Pow2Values();
  }

  /** The mask cuts inside byte i, whose weight is w, of the number x. */
  lemma MaskOneByte(hi: nat, b: byte, lo: nat, i: nat, bits: nat, w: nat, x: nat)
    requires i < 4 && 8 * (3 - i) <= bits <= 8 * (4 - i)
    requires w == Pow2(8 * i) && lo < w
    requires x == hi * (256 * w) + b * w + lo
    ensures x - x % BlockSize(bits) == hi * (256 * w) + Keep(b, bits - 8 * (3 - i)) * w
  {
    var k := bits - 8 * (3 - i);
    var p := Pow2(8 - k);
    Pow2Add(8 - k, 8 * i);
    Pow2Add(k, 8 - k);
    Pow2Values();
    RoundDownAtByte(hi, b, lo, w, p, Pow2(k));
    assert b * w - b % p * w == (b - b % p) * w;
  }

  lemma BaseOfBlock(base: Addr, bits: nat, w: Addr)
    requires bits <= 32 && Base(base, bits) == base
    ensures Base(w, bits) == base <==> base <= w < base + BlockSize(bits)
  {
    var m := BlockSize(bits);
    if base <= w < base + m {
      var k := BaseIsMultiple(base, bits);
      DivideUnique(w, m, k, w - base);
    }
  }

  lemma BaseIsBase(v: Addr, bits: nat)
    requires bits <= 32
    ensures Base(Base(v, bits), bits) == Base(v, bits)
  {
    var m := BlockSize(bits);
    assert v == v / m * m + v % m;
    DivideUnique(Base(v, bits), m, v / m, 0);
  }

  /** The bytewise test of IPNet.Contains decides membership in an interval of addresses. */
  lemma ContainsIsInterval(base: Addr, bits: nat, w: Addr)
    requires bits <= 32 && Base(base, bits) == base
    ensures Contains(IPNet(Quad(base), bits), Quad(w)) <==> base <= w < base + BlockSize(bits)
  {
    SameNetworkIsEqualMask(Quad(base), Quad(w), bits);
    MaskIsBase(base, bits);
    MaskIsBase(w, bits);
    BaseOfBlock(base, bits, w);
    QuadValue(base);
    QuadValue(Base(w, bits));
  }

  lemma NextMultiple(k: int, n: int, m: nat)
    requires k * m < n * m
    ensures k * m + m <= n * m
  {
    assert (n - k) * m == n * m - k * m;
    assert n <= k ==> (k - n) * m >= 0;
    AtLeastOnce(n - k, m);
  }

  lemma MultiplyAssociates(a: int, b: int, c: int)
    ensures a * b * c == a * (b * c)
  {
  }

  /** The base of a block is a multiple of its size. */
  lemma BaseIsMultiple(base: Addr, bits: nat) returns (k: nat)
    requires bits <= 32 && Base(base, bits) == base
    ensures base == k * BlockSize(bits)
  {
    k := base / BlockSize(bits);
    DivideExact(base, BlockSize(bits));
  }

  lemma DivideExact(x: nat, m: nat)
    requires m > 0 && x % m == 0
    ensures x >= 0 && x == x / m * m
  {
  }

  /** Powers of two no larger than another divide it. */
  lemma Pow2Divides(a: nat, b: nat)
    requires a <= b
    ensures Pow2(b) == Pow2(b - a) * Pow2(a)
    ensures Pow2(a) <= Pow2(b)
  {
    Pow2Add(b - a, a);
    AtLeastOnce(Pow2(b - a), Pow2(a));
  }

  /** A block never runs past the last address, and starts above 0 if it ends there. */
  lemma BlockEnd(base: Addr, bits: nat)
    requires bits <= 32 && Base(base, bits) == base
    ensures base + BlockSize(bits) <= 0x1_0000_0000
    ensures bits >= 1 ==> BlockSize(bits) <= 0x8000_0000
  {
    var k := BaseIsMultiple(base, bits);
    Pow2Values();
    Pow2Divides(32 - bits, 32);
    NextMultiple(k, Pow2(bits), BlockSize(bits));
    if bits >= 1 {
      Pow2Divides(32 - bits, 31);
      assert 2 * Pow2(31) == Pow2(32);
    }
  }

  /** The address reached after k increments, with wrap-around. */
  function After(base: Addr, k: nat): Addr {
    (base + k) % 0x1_0000_0000
  }

  /** Counting upwards from the base leaves the block exactly when the prefix is not 0,
      so this is when a loop guarded by Contains comes to an end. */
  lemma CountingLeavesBlock(base: Addr, bits: nat)
    requires bits <= 32 && Base(base, bits) == base
    ensures (exists k: nat :: !Contains(IPNet(Quad(base), bits), Quad(After(base, k)))) <==> bits != 0
  {
    BlockEnd(base, bits);
    if bits == 0 {
      Pow2Values();
      forall k: nat
        ensures Contains(IPNet(Quad(base), bits), Quad(After(base, k)))
      {
        ContainsIsInterval(base, bits, After(base, k));
      }
    } else {
      var k := BlockSize(bits);
      ContainsIsInterval(base, bits, After(base, k));
      assert !Contains(IPNet(Quad(base), bits), Quad(After(base, k)));
    }
  }

  // ---------- host addresses ----------

  /** Addresses whose last octet is 0 or 255 are skipped. */
  predicate Skipped(v: Addr) {
    v % 0x100 == 0 || v % 0x100 == 0xFF
  }

  /** The addresses in [lo, hi) that are not skipped. */
  ghost function HostsBetween(lo: int, hi: int): set<Addr> {
    set v: Addr | lo <= v < hi && !Skipped(v)
  }

  ghost function BlockHosts(base: Addr, bits: nat): set<Addr>
    requires bits <= 32
  {
    HostsBetween(base, base + BlockSize(bits))
  }

  lemma {:induction false} HostsInOneBlock(base: int, lo: int, hi: int)
    requires 0 <= base && base % 0x100 == 0 && base + 0x100 <= 0x1_0000_0000
    requires base < lo <= hi < base + 0x100
    ensures |HostsBetween(lo, hi)| == hi - lo
    decreases hi - lo
  {
    if lo == hi {
      assert HostsBetween(lo, hi) == {};
    } else {
      HostsInOneBlock(base, lo, hi - 1);
      assert (hi - 1) % 0x100 == hi - 1 - base;
      assert HostsBetween(lo, hi) == HostsBetween(lo, hi - 1) + {hi - 1};
    }
  }

  lemma {:induction false} HostsInBlocks(base: int, k: nat)
    requires 0 <= base && base % 0x100 == 0 && base + 0x100 * k <= 0x1_0000_0000
    ensures |HostsBetween(base, base + 0x100 * k)| == 254 * k
  {
    if k == 0 {
      assert HostsBetween(base, base) == {};
    } else {
      var last := base + 0x100 * (k - 1);
      HostsInBlocks(base, k - 1);
      HostsInOneBlock(last, last + 1, last + 0xFF);
      HostsNextBlock(base, last);
    }
  }

  lemma HostsNextBlock(base: int, last: int)
    requires 0 <= base <= last && last % 0x100 == 0
    ensures |HostsBetween(base, last + 0x100)| == |HostsBetween(base, last)| + |HostsBetween(last + 1, last + 0xFF)|
  {
    var a, b := HostsBetween(base, last), HostsBetween(last + 1, last + 0xFF);
    assert last % 0x100 == 0 && (last + 0xFF) % 0x100 == 0xFF;
    assert HostsBetween(base, last + 0x100) == a + b;
    assert a !! b;
  }

  /** How many host addresses a block has. */
  function HostCount(base: Addr, bits: nat): int
    requires bits <= 32
  {
    if bits <= 24 then 254 * Pow2(24 - bits)
    else
      BlockSize(bits)
      - (if base % 0x100 == 0 then 1 else 0)
      - (if (base % 0x100) + BlockSize(bits) == 0x100 then 1 else 0)
  }

  /** A block of at most 256 addresses lies within one last-octet cycle. */
  lemma WithinOctet(base: Addr, bits: nat)
    requires 24 <= bits <= 32 && Base(base, bits) == base
    ensures base % 0x100 + BlockSize(bits) <= 0x100
  {
    var m, c := BlockSize(bits), Pow2(bits - 24);
    Pow2Add(bits - 24, 32 - bits);
    assert Pow2(8) == 256;
    var k := BaseIsMultiple(base, bits);
    WithinCycle(base, k, m, c);
  }

  lemma WithinCycle(base: nat, k: nat, m: nat, c: nat)
    requires base == k * m && c * m == 0x100 && m > 0
    ensures base % 0x100 + m <= 0x100
  {
    var t := base / 0x100;
    MultiplyAssociates(t, c, m);
    Distribute(k - t * c, t * c, m);
    assert base % 0x100 == (k - t * c) * m;
    NextMultiple(k - t * c, c, m);
  }

  lemma AlignedBlock(base: Addr, bits: nat)
    requires bits <= 24 && Base(base, bits) == base
    ensures base % 0x100 == 0 && BlockSize(bits) == 0x100 * Pow2(24 - bits)
  {
    var c := Pow2(24 - bits);
    Pow2Add(24 - bits, 8);
    Pow2Values();
    var k := BaseIsMultiple(base, bits);
    MultiplyAssociates(k, c, 0x100);
    DivideUnique(base, 0x100, k * c, 0);
  }

  /** The number of hosts of a block in closed form. */
  lemma BlockHostCount(base: Addr, bits: nat)
    requires bits <= 32 && Base(base, bits) == base
    ensures |BlockHosts(base, bits)| == HostCount(base, bits)
  {
    BlockEnd(base, bits);
    if bits <= 24 {
      AlignedBlock(base, bits);
      HostsInBlocks(base, Pow2(24 - bits));
    } else {
      SmallBlockHosts(base, BlockSize(bits)) by {
        WithinOctet(base, bits);
        Pow2Values();
        Pow2Divides(32 - bits, 7);
      }
    }
  }

  lemma SmallBlockHosts(base: Addr, m: nat)
    requires 1 <= m <= 0x80 && base % 0x100 + m <= 0x100
    ensures |HostsBetween(base, base + m)|
         == m - (if base % 0x100 == 0 then 1 else 0) - (if base % 0x100 + m == 0x100 then 1 else 0)
  {
    var b := base - base % 0x100;
    var lo := if base == b then base + 1 else base;
    var hi := if base + m == b + 0x100 then base + m - 1 else base + m;
    HostsInOneBlock(b, lo, hi);
    assert forall v: Addr | base <= v < base + m :: v % 0x100 == v - b;
    assert HostsBetween(base, base + m) == HostsBetween(lo, hi);
  }
}
