/** Byte strings as Go's net package uses them: big-endian values, bytes.Compare,
    and the IPv4-mapped form of section 2.5.5.2 of RFC 4291. */
module Bytes {

  type byte = x: int | 0 <= x < 256

  /** A net.IP read as a value; nil is the empty sequence. */
  type IP = seq<byte>

  /** An IPv4 address as a number. */
  type Addr = v: int | 0 <= v < 0x1_0000_0000

  const NIL_IP: IP := []

  // ---------- big-endian values ----------

  function Pow256(k: nat): (p: nat)
    ensures p >= 1
  {
    if k == 0 then 1 else 256 * Pow256(k - 1)
  }

  function Value(s: IP): nat {
    if |s| == 0 then 0 else Value(s[..|s| - 1]) * 256 + s[|s| - 1] as int
  }

  lemma {:induction false} ValueBound(s: IP)
    ensures Value(s) < Pow256(|s|)
  {
    if |s| > 0 {
      ValueBound(s[..|s| - 1]);
    }
  }

  lemma {:induction false} ValueAppend(a: IP, b: IP)
    ensures Value(a + b) == Value(a) * Pow256(|b|) + Value(b)
  {
    if |b| == 0 {
      assert a + b == a;
    } else {
      var b' := b[..|b| - 1];
      ValueAppend(a, b');
      assert (a + b)[..|a + b| - 1] == a + b';
      ShiftByByte(Value(a), Pow256(|b'|), Value(b'));
    }
  }

  lemma ShiftByByte(x: nat, p: nat, y: nat)
    ensures (x * p + y) * 256 == x * (256 * p) + y * 256
  {
  }

  lemma {:induction false} ValueInjective(a: IP, b: IP)
    requires |a| == |b| && Value(a) == Value(b)
    ensures a == b
  {
    if |a| > 0 {
      ValueInjective(a[..|a| - 1], b[..|b| - 1]);
      assert a == a[..|a| - 1] + [a[|a| - 1]];
      assert b == b[..|b| - 1] + [b[|b| - 1]];
    }
  }

  // ---------- bytes.Compare ----------

  function Compare(a: IP, b: IP): int {
    if |a| == 0 then (if |b| == 0 then 0 else -1)
    else if |b| == 0 then 1
    else if a[0] < b[0] then -1
    else if a[0] > b[0] then 1
    else Compare(a[1..], b[1..])
  }

  /** Compare is a three-way total order on all byte strings. */
  lemma {:induction false} CompareAntisymmetric(a: IP, b: IP)
    ensures -1 <= Compare(a, b) <= 1
    ensures Compare(a, b) == -Compare(b, a)
    ensures Compare(a, b) == 0 <==> a == b
  {
    if |a| > 0 && |b| > 0 {
      CompareAntisymmetric(a[1..], b[1..]);
      assert a == [a[0]] + a[1..];
      assert b == [b[0]] + b[1..];
    }
  }

  lemma {:induction false} CompareTransitive(a: IP, b: IP, c: IP)
    requires Compare(a, b) < 0 && Compare(b, c) < 0
    ensures Compare(a, c) < 0
  {
    if |a| > 0 && |b| > 0 && |c| > 0 && a[0] == b[0] == c[0] {
      CompareTransitive(a[1..], b[1..], c[1..]);
    }
  }

  /** On byte strings of one length the order is that of the big-endian values. */
  lemma {:induction false} CompareIsNumeric(a: IP, b: IP)
    requires |a| == |b|
    ensures Compare(a, b) < 0 <==> Value(a) < Value(b)
    ensures Compare(a, b) == 0 <==> Value(a) == Value(b)
  {
    if |a| > 0 {
      var x, y := a[1..], b[1..];
      ValueFirst(a);
      ValueFirst(b);
      ValueBound(x);
      ValueBound(y);
      CompareIsNumeric(x, y);
      LeadingByteDecides(a[0], b[0], Value(x), Value(y), Pow256(|x|));
    }
  }

  lemma ValueFirst(a: IP)
    requires |a| > 0
    ensures Value(a) == (a[0] as int) * Pow256(|a| - 1) + Value(a[1..])
  {
    assert a == a[..1] + a[1..];
    ValueAppend(a[..1], a[1..]);
    ValueOne(a[..1]);
  }

  lemma LeadingByteDecides(a: int, b: int, x: nat, y: nat, p: nat)
    requires x < p && y < p
    ensures a < b ==> a * p + x < b * p + y
    ensures a > b ==> a * p + x > b * p + y
    ensures a == b ==> a * p == b * p
  {
    assert (b - a) * p == b * p - a * p;
    if a < b {
      AtLeastOnce(b - a, p);
    } else if a > b {
      AtLeastOnce(a - b, p);
    }
  }

  lemma AtLeastOnce(k: nat, p: nat)
    requires k >= 1
    ensures k * p >= p
  {
    assert k * p == (k - 1) * p + p;
  }

  lemma ValueOne(s: IP)
    requires |s| == 1
    ensures Value(s) == s[0]
  {
    assert s[..0] == [];
  }

  lemma ValueFour(s: IP)
    requires |s| == 4
    ensures Value(s) == s[0] as int * 0x100_0000 + s[1] as int * 0x1_0000 + s[2] as int * 0x100 + s[3] as int
    ensures 0 <= Value(s) < 0x1_0000_0000
  {
    var a, b, c := s[..3], s[..2], s[..1];
    assert a[..2] == b && b[..1] == c;
    ValueOne(c);
    assert Value(b) == Value(c) * 256 + s[1] as int;
    assert Value(a) == Value(b) * 256 + s[2] as int;
  }

  // ---------- strictly ascending sequences ----------

  ghost predicate Ascending(s: seq<IP>) {
    forall i, j :: 0 <= i < j < |s| ==> Compare(s[i], s[j]) < 0
  }

  ghost function Members(s: seq<IP>): set<IP> {
    set x | x in s
  }

  /** A strictly ascending sequence is determined by its set of members. */
  lemma {:induction false} AscendingUnique(a: seq<IP>, b: seq<IP>)
    requires Ascending(a) && Ascending(b) && Members(a) == Members(b)
    ensures a == b
  {
    assert |a| > 0 ==> a[0] in Members(b);
    assert |b| > 0 ==> b[0] in Members(a);
    if |a| > 0 && |b| > 0 {
      var x, y := a[0], b[0];
      assert x in Members(b) && y in Members(a);
      HeadIsLeast(a, y);
      HeadIsLeast(b, x);
      CompareAntisymmetric(x, y);
      assert x == y;
      TailMembers(a);
      TailMembers(b);
      AscendingUnique(a[1..], b[1..]);
      assert a == [x] + a[1..] && b == [y] + b[1..];
    }
  }

  lemma HeadIsLeast(s: seq<IP>, x: IP)
    requires Ascending(s) && x in s
    ensures Compare(s[0], x) <= 0
  {
    var i :| 0 <= i < |s| && s[i] == x;
    CompareAntisymmetric(s[0], x);
  }

  lemma TailMembers(s: seq<IP>)
    requires Ascending(s) && |s| > 0
    ensures Ascending(s[1..])
    ensures Members(s[1..]) == Members(s) - {s[0]}
  {
    forall i | 1 <= i < |s|
      ensures s[i] != s[0]
    {
      CompareAntisymmetric(s[0], s[i]);
    }
    forall x | x in Members(s) - {s[0]}
      ensures x in s[1..]
    {
      var i :| 0 <= i < |s| && s[i] == x;
      assert s[1..][i - 1] == x;
    }
  }

  // ---------- IPv4 forms ----------

  const MAPPED_PREFIX: IP := [0, 0, 0, 0, 0, 0, 0, 0, 0, 0, 255, 255]

  /** The k low-order bytes of v, most significant first. */
  function BigEndian(v: nat, k: nat): (s: IP)
    ensures |s| == k
  {
    if k == 0 then [] else BigEndian(v / 0x100, k - 1) + [v % 0x100]
  }

  lemma {:induction false} BigEndianValue(v: nat, k: nat)
    requires v < Pow256(k)
    ensures Value(BigEndian(v, k)) == v
  {
    if k > 0 {
      BigEndianValue(v / 0x100, k - 1);
      var s := BigEndian(v, k);
      assert s[..k - 1] == BigEndian(v / 0x100, k - 1);
    }
  }

  /** The four bytes of an address. */
  function Quad(v: Addr): (q: IP)
    ensures |q| == 4
  {
    BigEndian(v, 4)
  }

  /** net.IPv4: the 16-byte IPv4-mapped form. */
  function Mapped(v: Addr): (ip: IP)
    ensures |ip| == 16 && IsMapped(ip)
  {
    MAPPED_PREFIX + Quad(v)
  }

  predicate IsMapped(ip: IP) {
    |ip| == 16 && ip[..12] == MAPPED_PREFIX
  }

  /** net.IP.To4; nil when the address is no IPv4 address. */
  function To4(ip: IP): (q: IP)
    ensures q == NIL_IP || |q| == 4
  {
    if |ip| == 4 then ip
    else if IsMapped(ip) then ip[12..]
    else NIL_IP
  }

  /** The number a 4-byte or IPv4-mapped slice stands for. */
  function AddrOf(ip: IP): (v: Addr)
    requires |ip| == 4 || IsMapped(ip)
  {
    ValueFour(To4(ip));
    Value(To4(ip))
  }

  lemma QuadValue(v: Addr)
    ensures Value(Quad(v)) == v
  {
    assert Pow256(4) == 0x1_0000_0000;
    BigEndianValue(v, 4);
  }

  /** Mapped and AddrOf are inverse to each other, and AddrOf undoes Quad too. */
  lemma MappedRoundTrip(v: Addr)
    ensures AddrOf(Mapped(v)) == v && AddrOf(Quad(v)) == v
    ensures To4(Mapped(v)) == Quad(v)
  {
    QuadValue(v);
    assert Mapped(v)[12..] == Quad(v);
  }

  lemma AddrRoundTrip(ip: IP)
    requires |ip| == 4 || IsMapped(ip)
    ensures To4(ip) == Quad(AddrOf(ip))
    ensures IsMapped(ip) ==> ip == Mapped(AddrOf(ip))
  {
    var v := AddrOf(ip);
    QuadValue(v);
    ValueInjective(To4(ip), Quad(v));
    if IsMapped(ip) {
      assert ip == ip[..12] + ip[12..];
    }
  }

  /** The 16-byte value of a mapped address. */
  lemma MappedValue(ip: IP)
    requires IsMapped(ip)
    ensures Value(ip) == 0xFFFF_0000_0000 + AddrOf(ip)
  {
    assert ip == MAPPED_PREFIX + ip[12..];
    ValueAppend(MAPPED_PREFIX, ip[12..]);
    assert Pow256(4) == 0x1_0000_0000;
    PrefixValue();
  }

  lemma PrefixValue()
    ensures Value(MAPPED_PREFIX) == 0xFFFF
  {
    var z: IP := seq(10, _ => 0);
    assert MAPPED_PREFIX == z + [255, 255];
    ValueAppend(z, [255, 255]);
    Zeros(10);
    assert [255, 255][..1] == [255];
    ValueOne([255]);
  }

  lemma {:induction false} Zeros(k: nat)
    ensures Value(seq(k, _ => 0)) == 0
  {
    if k > 0 {
      Zeros(k - 1);
      assert seq(k, _ => 0 as byte)[..k - 1] == seq(k - 1, _ => 0 as byte);
    }
  }

  /** A 16-byte string whose value lies in the mapped range is the mapped address. */
  lemma MappedFromValue(ip: IP, v: Addr)
    requires |ip| == 16 && Value(ip) == 0xFFFF_0000_0000 + v
    ensures ip == Mapped(v)
  {
    MappedRoundTrip(v);
    MappedValue(Mapped(v));
    ValueInjective(ip, Mapped(v));
  }

  /** Comparing two mapped addresses byte by byte decides their numeric order. */
  lemma MappedOrder(a: Addr, b: Addr)
    ensures Compare(Mapped(a), Mapped(b)) < 0 <==> a < b
    ensures Compare(Mapped(a), Mapped(b)) == 0 <==> a == b
    ensures Mapped(a) == Mapped(b) <==> a == b
  {
    MappedRoundTrip(a);
    MappedRoundTrip(b);
    MappedValue(Mapped(a));
    MappedValue(Mapped(b));
    CompareIsNumeric(Mapped(a), Mapped(b));
  }
}
