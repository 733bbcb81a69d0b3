/** ipcalc/ipcalc.go: arithmetic on mutable byte slices and set operations on address lists. */
module Ipcalc {
  import opened Bytes
  import opened Text
  import opened Subnetting

  // ---------- incip ----------

  /** The byte string one above s, wrapping around at the top. */
  function Successor(s: IP): (t: IP)
    ensures |t| == |s|
  {
    if |s| == 0 then []
    else if s[|s| - 1] < 255 then s[..|s| - 1] + [s[|s| - 1] + 1]
    else Successor(s[..|s| - 1]) + [0]
  }

  lemma {:induction false} SuccessorValue(s: IP)
    ensures Value(Successor(s)) == (Value(s) + 1) % Pow256(|s|)
  {
    if |s| > 0 {
      var h, t := s[..|s| - 1], Successor(s);
      ValueBound(h);
      if s[|s| - 1] < 255 {
        assert t[..|t| - 1] == h;
        DivideUnique(Value(s) + 1, Pow256(|s|), 0, Value(s) + 1);
      } else {
        assert t[..|t| - 1] == Successor(h);
        SuccessorValue(h);
        CarryOut(Value(h), Pow256(|h|));
      }
    }
  }

  lemma CarryOut(v: nat, p: nat)
    requires v < p
    ensures (v * 256 + 256) % (256 * p) == (v + 1) % p * 256
  {
    var k, r := if v + 1 == p then 1 else 0, if v + 1 == p then 0 else v + 1;
    DivideUnique(v + 1, p, k, r);
    DivideUnique(v * 256 + 256, 256 * p, k, r * 256);
  }

  /** How a successor looks when the carry stops before position j + 1. */
  lemma {:induction false} SuccessorShape(s: IP, t: IP, j: int)
    requires -1 <= j < |s| == |t|
    requires forall k :: j < k < |s| ==> s[k] == 255 && t[k] == 0
    requires forall k :: 0 <= k < j ==> t[k] == s[k]
    requires j >= 0 ==> s[j] < 255 && t[j] == s[j] + 1
    ensures t == Successor(s)
    decreases |s|
  {
    if |s| > 0 {
      assert t == t[..|s| - 1] + [t[|s| - 1]];
      if j < |s| - 1 {
        SuccessorShape(s[..|s| - 1], t[..|s| - 1], j);
      } else {
        assert t[..|s| - 1] == s[..|s| - 1];
      }
    }
  }

  method IncIP(ip: array<byte>)
    modifies ip
    ensures ip[..] == Successor(old(ip[..]))
  {
    ghost var was := ip[..];
    var j := ip.Length - 1;
    while j >= 0
      invariant -1 <= j < ip.Length
      invariant forall k :: j < k < ip.Length ==> was[k] == 255 && ip[k] == 0
      invariant forall k :: 0 <= k <= j ==> ip[k] == was[k]
      decreases j
    {
      ip[j] := (ip[j] as int + 1) % 256;
      if ip[j] > 0 {
        break;
      }
      j := j - 1;
    }
    SuccessorShape(was, ip[..], j);
  }

  // ---------- sort.Sort(sortedIPList(c)) ----------

  predicate Less(p: array<IP>, i: nat, j: nat)
    requires i < p.Length && j < p.Length
    reads p
  {
    Compare(p[i], p[j]) == -1
  }

  method Swap(p: array<IP>, i: nat, j: nat)
    requires i < p.Length && j < p.Length
    modifies p
    ensures p[..] == old(p[..])[i := old(p[j])][j := old(p[i])]
    ensures multiset(p[..]) == old(multiset(p[..]))
  {
    p[i], p[j] := p[j], p[i];
  }

  ghost predicate Sorted(s: seq<IP>) {
    forall i, j :: 0 <= i < j < |s| ==> Compare(s[i], s[j]) <= 0
  }

  /** s is sorted up to k but for the element at j, which is below all that follow it. */
  ghost predicate SortedBut(s: seq<IP>, k: nat, j: nat)
    requires j <= k <= |s|
  {
    forall a, b :: 0 <= a < b < k && b != j ==> Compare(s[a], s[b]) <= 0
  }

  /** The insertion sort that sort.Sort runs on short lists, through Less and Swap only. */
  method Sort(p: array<IP>)
    modifies p
    ensures Sorted(p[..])
    ensures multiset(p[..]) == old(multiset(p[..]))
  {
    if p.Length == 0 {
      return;
    }
    var i := 1;
    while i < p.Length
      invariant 1 <= i <= p.Length
      invariant Sorted(p[..i])
      invariant multiset(p[..]) == old(multiset(p[..]))
    {
      Insert(p, i);
      i := i + 1;
    }
    assert p[..] == p[..p.Length];
  }

  /** Moves the element at i down into the sorted part before it. */
  method Insert(p: array<IP>, i: nat)
    requires i < p.Length && Sorted(p[..i])
    modifies p
    ensures Sorted(p[..i + 1])
    ensures multiset(p[..]) == old(multiset(p[..]))
  {
    var j := i;
    InsertionStarts(p[..], i);
    while j > 0 && Less(p, j, j - 1)
      invariant 0 <= j <= i
      invariant SortedBut(p[..], i + 1, j)
      invariant multiset(p[..]) == old(multiset(p[..]))
      decreases j
    {
      InsertionStep(p[..], i + 1, j);
      Swap(p, j, j - 1);
      j := j - 1;
    }
    InsertionDone(p[..], i + 1, j);
  }

  lemma InsertionStarts(s: seq<IP>, i: nat)
    requires i < |s| && Sorted(s[..i])
    ensures SortedBut(s, i + 1, i)
  {
    forall a, b | 0 <= a < b < i
      ensures Compare(s[a], s[b]) <= 0
    {
      assert s[..i][a] == s[a] && s[..i][b] == s[b];
    }
  }

  lemma InsertionStep(s: seq<IP>, k: nat, j: nat)
    requires 0 < j < k <= |s| && SortedBut(s, k, j) && Compare(s[j], s[j - 1]) == -1
    ensures SortedBut(s[j := s[j - 1]][j - 1 := s[j]], k, j - 1)
  {
  }

  lemma InsertionDone(s: seq<IP>, k: nat, j: nat)
    requires j < k <= |s| && SortedBut(s, k, j)
    requires j > 0 ==> Compare(s[j], s[j - 1]) != -1
    ensures Sorted(s[..k])
  {
    forall a | 0 <= a < j
      ensures Compare(s[a], s[j]) <= 0
    {
      CompareAntisymmetric(s[j - 1], s[j]);
      CompareAntisymmetric(s[a], s[j - 1]);
      if a < j - 1 && s[a] != s[j - 1] && s[j - 1] != s[j] {
        CompareTransitive(s[a], s[j - 1], s[j]);
      }
    }
  }

  /** Sorting a list without repetitions gives the strictly ascending list of its members. */
  method SortDistinct(c: seq<IP>) returns (r: seq<IP>)
    requires forall i, j :: 0 <= i < j < |c| ==> c[i] != c[j]
    ensures Ascending(r) && Members(r) == Members(c)
  {
    var p := new IP[|c|](i requires 0 <= i < |c| => c[i]);
    assert p[..] == c;
    Sort(p);
    r := p[..];
    SortedDistinct(c, r);
  }

  lemma SortedDistinct(c: seq<IP>, r: seq<IP>)
    requires forall i, j :: 0 <= i < j < |c| ==> c[i] != c[j]
    requires Sorted(r) && multiset(r) == multiset(c)
    ensures Ascending(r) && Members(r) == Members(c)
  {
    forall x
      ensures x in r <==> x in c
    {
      assert x in multiset(r) <==> x in multiset(c);
    }
    forall i, j | 0 <= i < j < |r|
      ensures Compare(r[i], r[j]) < 0
    {
      CompareAntisymmetric(r[i], r[j]);
      if r[i] == r[j] {
        CountTwice(r, i, j);
        CountOnce(c, r[i]);
        assert false;
      }
    }
  }

  lemma CountTwice(s: seq<IP>, i: nat, j: nat)
    requires i < j < |s| && s[i] == s[j]
    ensures multiset(s)[s[i]] >= 2
  {
    assert s == s[..i] + [s[i]] + s[i + 1..j] + [s[j]] + s[j + 1..];
  }

  lemma {:induction false} CountOnce(s: seq<IP>, x: IP)
    requires forall i, j :: 0 <= i < j < |s| ==> s[i] != s[j]
    ensures multiset(s)[x] <= 1
  {
    if |s| > 0 {
      CountOnce(s[1..], x);
      assert s == [s[0]] + s[1..];
      if s[0] == x {
        assert x !in s[1..];
      }
    }
  }

  // ---------- complementip and intersectionip ----------

  /** The keys of a map in whatever order its iteration yields them. */
  method KeysInSomeOrder<K(==)>(m: map<K, bool>) returns (keys: seq<K>)
    ensures forall k :: k in keys <==> k in m
    ensures forall i, j :: 0 <= i < j < |keys| ==> keys[i] != keys[j]
  {
    keys := [];
    var left := m.Keys;
    while left != {}
      invariant left <= m.Keys
      invariant forall k :: k in keys <==> k in m && k !in left
      invariant forall i, j :: 0 <= i < j < |keys| ==> keys[i] != keys[j]
      decreases left
    {
      var k :| k in left;
      keys := keys + [k];
      left := left - {k};
    }
  }

  /** complementip, on byte strings of any kind. */
  method Complement(a: seq<IP>, b: seq<IP>) returns (c: seq<IP>)
    ensures Ascending(c) && Members(c) == Members(a) - Members(b)
  {
    c := [];
    if |a| == 0 {
      return;
    }
    var am: map<IP, bool> := map[];
    for i := 0 to |a|
      invariant am.Keys == Members(a[..i])
    {
      am := am[a[i] := true];
      assert a[..i + 1] == a[..i] + [a[i]];
    }
    assert a[..|a|] == a;
    for i := 0 to |b|
      invariant am.Keys == Members(a) - Members(b[..i])
    {
      assert b[..i + 1] == b[..i] + [b[i]];
      if b[i] in am {
        am := am - {b[i]};
      }
    }
    assert b[..|b|] == b;
    c := KeysInSomeOrder(am);
    assert Members(c) == am.Keys;
    c := SortDistinct(c);
  }

  ghost predicate AllMapped(ips: seq<IP>) {
    forall ip | ip in ips :: IsMapped(ip)
  }

  ghost function Texts(ips: seq<IP>): set<string>
    requires AllMapped(ips)
  {
    set ip | ip in ips :: IPString(ip)
  }

  lemma TextsAppend(ips: seq<IP>, i: nat)
    requires i < |ips| && AllMapped(ips)
    ensures Texts(ips[..i + 1]) == Texts(ips[..i]) + {IPString(ips[i])}
  {
    assert ips[..i + 1] == ips[..i] + [ips[i]];
  }

  lemma TextDecidesMember(ips: seq<IP>, ip: IP)
    requires AllMapped(ips) && IsMapped(ip)
    ensures IPString(ip) in Texts(ips) <==> ip in ips
    ensures ParseIP(IPString(ip)) == ip
  {
    forall x | IsMapped(x)
      ensures ParseIP(IPString(x)) == x
    {
      AddrRoundTrip(x);
      AddrTextRoundTrip(AddrOf(x));
    }
  }

  /** The map keyed by the printed form of every listed address. */
  method TextSet(ips: seq<IP>) returns (m: map<string, bool>)
    requires AllMapped(ips)
    ensures m.Keys == Texts(ips)
  {
    m := map[];
    for i := 0 to |ips|
      invariant m.Keys == Texts(ips[..i])
    {
      TextsAppend(ips, i);
      m := m[IPString(ips[i]) := true];
    }
    assert ips[..|ips|] == ips;
  }

  /** The deletion pass of intersectionip. */
  method KeepCommon(m1: map<string, bool>, m2: map<string, bool>, slice1: seq<IP>) returns (m: map<string, bool>)
    requires AllMapped(slice1)
    ensures m.Keys == m1.Keys - (Texts(slice1) - m2.Keys)
  {
    m := m1;
    for i := 0 to |slice1|
      invariant m.Keys == m1.Keys - (Texts(slice1[..i]) - m2.Keys)
    {
      TextsAppend(slice1, i);
      if IPString(slice1[i]) !in m2 {
        m := m - {IPString(slice1[i])};
      }
    }
    assert slice1[..|slice1|] == slice1;
  }

  /** intersectionip, keyed by printed addresses. */
  method Intersection(slice1: seq<IP>, slice2: seq<IP>) returns (diff: seq<IP>)
    requires AllMapped(slice1) && AllMapped(slice2)
    ensures Ascending(diff) && Members(diff) == Members(slice1) * Members(slice2)
  {
    var m1 := TextSet(slice1);
    var m2 := TextSet(slice2);
    m1 := KeepCommon(m1, m2, slice1);
    var keys := KeysInSomeOrder(m1);
    diff := [];
    for i := 0 to |keys|
      invariant |diff| == i
      invariant forall k :: 0 <= k < i ==> diff[k] == ParseIP(keys[k])
    {
      diff := diff + [ParseIP(keys[i])];
    }
    ParsedKeys(slice1, slice2, keys, diff);
    diff := SortDistinct(diff);
  }

  lemma ParsedKeys(slice1: seq<IP>, slice2: seq<IP>, keys: seq<string>, diff: seq<IP>)
    requires AllMapped(slice1) && AllMapped(slice2)
    requires forall k :: k in keys <==> k in Texts(slice1) * Texts(slice2)
    requires forall i, j :: 0 <= i < j < |keys| ==> keys[i] != keys[j]
    requires |diff| == |keys| && forall i :: 0 <= i < |keys| ==> diff[i] == ParseIP(keys[i])
    ensures Members(diff) == Members(slice1) * Members(slice2)
    ensures forall i, j :: 0 <= i < j < |diff| ==> diff[i] != diff[j]
  {
    forall i | 0 <= i < |keys|
      ensures diff[i] in slice1 && diff[i] in slice2 && keys[i] == IPString(diff[i])
    {
      assert keys[i] in keys;
      var ip :| ip in slice1 && IPString(ip) == keys[i];
      TextDecidesMember(slice1, ip);
      TextDecidesMember(slice2, ip);
    }
    forall ip | ip in slice1 && ip in slice2
      ensures ip in diff
    {
      TextDecidesMember(slice1, ip);
      TextDecidesMember(slice2, ip);
      assert IPString(ip) in keys;
      var i :| 0 <= i < |keys| && keys[i] == IPString(ip);
      assert diff[i] == ip;
    }
  }

  method RemoveUsedHosts(hosts: seq<IP>, used: seq<IP>) returns (r: seq<IP>)
    ensures Ascending(r) && Members(r) == Members(hosts) - Members(used)
  {
    r := Complement(hosts, used);
  }

  method GetUsableHosts(hosts: seq<IP>, usable: seq<IP>) returns (r: seq<IP>)
    requires AllMapped(hosts) && AllMapped(usable)
    ensures Ascending(r) && Members(r) == Members(hosts) * Members(usable)
  {
    r := Intersection(hosts, usable);
  }

  // ---------- lists of addresses and the sets they stand for ----------

  /** ips lists the addresses of s, each once, in ascending order and in mapped form. */
  ghost predicate Enumerates(ips: seq<IP>, s: set<Addr>) {
    && Ascending(ips)
    && (forall ip | ip in ips :: IsMapped(ip) && AddrOf(ip) in s)
    && (forall v | v in s :: Mapped(v) in ips)
  }

  /** The numbers of the mapped addresses in a list. */
  ghost function AddrsOf(ips: seq<IP>): set<Addr> {
    set ip | ip in ips && IsMapped(ip) :: AddrOf(ip)
  }

  /** On any list, looking for the bytes of a mapped address decides whether its number is listed. */
  lemma BytesDecideAddress(ips: seq<IP>, v: Addr)
    ensures Mapped(v) in ips <==> v in AddrsOf(ips)
  {
    MappedRoundTrip(v);
    if v in AddrsOf(ips) {
      var ip :| ip in ips && IsMapped(ip) && AddrOf(ip) == v;
      AddrRoundTrip(ip);
    }
  }

  lemma EnumeratesAddrs(ips: seq<IP>, s: set<Addr>)
    ensures Enumerates(ips, s) <==> Ascending(ips) && AllMapped(ips) && AddrsOf(ips) == s
  {
    forall v: Addr
      ensures Mapped(v) in ips <==> v in AddrsOf(ips)
    {
      BytesDecideAddress(ips, v);
    }
  }

  /** There is only one list that enumerates a given set. */
  lemma EnumerationUnique(a: seq<IP>, b: seq<IP>, s: set<Addr>)
    requires Enumerates(a, s) && Enumerates(b, s)
    ensures a == b
  {
    forall ip | ip in a || ip in b
      ensures ip in a && ip in b
    {
      AddrRoundTrip(ip);
    }
    AscendingUnique(a, b);
  }

  lemma EnumerationOrder(ips: seq<IP>, s: set<Addr>, i: nat, j: nat)
    requires Enumerates(ips, s) && i < j < |ips|
    ensures IsMapped(ips[i]) && IsMapped(ips[j]) && AddrOf(ips[i]) < AddrOf(ips[j])
  {
    assert ips[i] in ips && ips[j] in ips;
    AddrRoundTrip(ips[i]);
    AddrRoundTrip(ips[j]);
    MappedOrder(AddrOf(ips[i]), AddrOf(ips[j]));
  }

  /** The head of an enumeration is the numerically least address. */
  lemma EnumerationHead(ips: seq<IP>, s: set<Addr>)
    requires Enumerates(ips, s)
    ensures |ips| == 0 <==> s == {}
    ensures |ips| > 0 ==> IsMapped(ips[0]) && AddrOf(ips[0]) in s && forall v | v in s :: AddrOf(ips[0]) <= v
  {
    if |ips| > 0 {
      assert ips[0] in ips;
      forall v | v in s
        ensures AddrOf(ips[0]) <= v
      {
        EnumerationHeadAtMost(ips, s, v);
      }
    }
    if s != {} {
      var v :| v in s;
      assert Mapped(v) in ips;
    }
  }

  lemma EnumerationHeadAtMost(ips: seq<IP>, s: set<Addr>, v: Addr)
    requires Enumerates(ips, s) && v in s
    ensures |ips| > 0 && IsMapped(ips[0]) && AddrOf(ips[0]) <= v
  {
    var i :| 0 <= i < |ips| && ips[i] == Mapped(v);
    assert ips[0] in ips;
    MappedRoundTrip(v);
    if i > 0 {
      EnumerationOrder(ips, s, 0, i);
    }
  }

  lemma AddrsOfLast(ips: seq<IP>)
    requires AllMapped(ips) && Ascending(ips) && |ips| > 0
    ensures var front, last := ips[..|ips| - 1], ips[|ips| - 1];
      && AllMapped(front) && Ascending(front) && IsMapped(last)
      && AddrOf(last) !in AddrsOf(front) && AddrsOf(ips) == AddrsOf(front) + {AddrOf(last)}
  {
    var front, last := ips[..|ips| - 1], ips[|ips| - 1];
    assert ips == front + [last] && last in ips;
    AddrRoundTrip(last);
    BytesDecideAddress(front, AddrOf(last));
    forall i | 0 <= i < |front|
      ensures front[i] != last
    {
      CompareAntisymmetric(ips[i], last);
    }
  }

  lemma {:induction false} AddrCount(ips: seq<IP>)
    requires AllMapped(ips) && Ascending(ips)
    ensures |AddrsOf(ips)| == |ips|
  {
    if |ips| == 0 {
      assert AddrsOf(ips) == {};
    } else {
      AddrsOfLast(ips);
      AddrCount(ips[..|ips| - 1]);
    }
  }

  /** An enumeration is as long as its set is large. */
  lemma EnumerationLength(ips: seq<IP>, s: set<Addr>)
    requires Enumerates(ips, s)
    ensures |ips| == |s|
  {
    EnumeratesAddrs(ips, s);
    AddrCount(ips);
  }

  /** complementip on mapped hosts computes the set difference of addresses, whatever else is in b. */
  lemma ComplementAddrs(a: seq<IP>, b: seq<IP>, c: seq<IP>)
    requires AllMapped(a) && Ascending(c) && Members(c) == Members(a) - Members(b)
    ensures Enumerates(c, AddrsOf(a) - AddrsOf(b))
  {
    forall ip | ip in c
      ensures IsMapped(ip) && AddrOf(ip) in AddrsOf(a) - AddrsOf(b)
    {
      assert ip in Members(c);
      AddrRoundTrip(ip);
      BytesDecideAddress(b, AddrOf(ip));
      BytesDecideAddress(a, AddrOf(ip));
    }
    forall v | v in AddrsOf(a) - AddrsOf(b)
      ensures Mapped(v) in c
    {
      BytesDecideAddress(a, v);
      BytesDecideAddress(b, v);
      assert Mapped(v) in Members(c);
    }
  }

  lemma IntersectionAddrs(a: seq<IP>, b: seq<IP>, c: seq<IP>)
    requires AllMapped(a) && AllMapped(b) && Ascending(c) && Members(c) == Members(a) * Members(b)
    ensures Enumerates(c, AddrsOf(a) * AddrsOf(b))
  {
    forall ip | ip in c
      ensures IsMapped(ip) && AddrOf(ip) in AddrsOf(a) * AddrsOf(b)
    {
      assert ip in Members(c);
    }
    forall v | v in AddrsOf(a) * AddrsOf(b)
      ensures Mapped(v) in c
    {
      BytesDecideAddress(a, v);
      BytesDecideAddress(b, v);
      assert Mapped(v) in Members(c);
    }
  }

  // ---------- CIDRtoHosts ----------

  /** The bytes now held by each slice of a list. */
  function Contents(ips: seq<array<byte>>): (c: seq<IP>)
    reads ips
    ensures |c| == |ips|
  {
    seq(|ips|, i requires 0 <= i < |ips| reads ips => ips[i][..])
  }

  /** net.IPv4 allocates a new slice. */
  method NewIPv4(a: byte, b: byte, c: byte, d: byte) returns (r: array<byte>)
    ensures fresh(r) && r[..] == MAPPED_PREFIX + [a, b, c, d]
  {
    var bytes: IP := MAPPED_PREFIX + [a, b, c, d];
    r := new byte[16](i requires 0 <= i < 16 => bytes[i]);
  }

  method NewMasked(ip: IP, bits: nat) returns (r: array<byte>)
    requires IsMapped(ip)
    ensures fresh(r) && r[..] == Mask(ip, bits)
  {
    var m := Mask(ip, bits);
    r := new byte[4](i requires 0 <= i < 4 => m[i]);
  }

  /** The addresses a CIDR block hands out. */
  ghost function CIDRHosts(c: CIDR): set<Addr>
    requires c.bits <= 32
  {
    BlockHosts(Base(c.addr, c.bits), c.bits)
  }

  lemma SuccessorOfQuad(v: Addr)
    ensures Successor(Quad(v)) == Quad((v + 1) % 0x1_0000_0000)
  {
    SuccessorValue(Quad(v));
    QuadValue(v);
    QuadValue((v + 1) % 0x1_0000_0000);
    assert Pow256(4) == 0x1_0000_0000;
    ValueInjective(Successor(Quad(v)), Quad((v + 1) % 0x1_0000_0000));
  }

  lemma AscendingNext(ips: seq<IP>, x: IP)
    requires Ascending(ips) && forall ip | ip in ips :: Compare(ip, x) < 0
    ensures Ascending(ips + [x])
  {
  }

  lemma BelowNext(ips: seq<IP>, s: set<Addr>, v: Addr)
    requires Enumerates(ips, s) && forall w | w in s :: w < v
    ensures forall ip | ip in ips :: Compare(ip, Mapped(v)) < 0
  {
    forall ip | ip in ips
      ensures Compare(ip, Mapped(v)) < 0
    {
      AddrRoundTrip(ip);
      MappedOrder(AddrOf(ip), v);
    }
  }

  lemma EnumeratesNext(ips: seq<IP>, s: set<Addr>, v: Addr)
    requires Enumerates(ips, s) && forall w | w in s :: w < v
    ensures Enumerates(ips + [Mapped(v)], s + {v})
  {
    MappedRoundTrip(v);
    BelowNext(ips, s, v);
    AscendingNext(ips, Mapped(v));
    MembersNext(ips, s, v, Mapped(v));
  }

  lemma MembersNext(ips: seq<IP>, s: set<Addr>, v: Addr, x: IP)
    requires forall ip | ip in ips :: IsMapped(ip) && AddrOf(ip) in s
    requires forall w | w in s :: Mapped(w) in ips
    requires IsMapped(x) && AddrOf(x) == v && Mapped(v) == x
    ensures forall ip | ip in ips + [x] :: IsMapped(ip) && AddrOf(ip) in s + {v}
    ensures forall w | w in s + {v} :: Mapped(w) in ips + [x]
  {
  }

  lemma AfterNext(base: Addr, k: nat)
    ensures (After(base, k) + 1) % 0x1_0000_0000 == After(base, k + 1)
  {
  }

  /** Within the block the counter has not wrapped; just past the block it has left it. */
  lemma CounterInBlock(base: Addr, bits: nat, k: nat)
    requires 1 <= bits <= 32 && Base(base, bits) == base && k <= BlockSize(bits)
    ensures Contains(IPNet(Quad(base), bits), Quad(After(base, k))) <==> k < BlockSize(bits)
    ensures k < BlockSize(bits) ==> After(base, k) == base + k
  {
    BlockEnd(base, bits);
    CounterWraps(base, k, BlockSize(bits));
    ContainsIsInterval(base, bits, After(base, k));
  }

  lemma CounterWraps(base: Addr, k: nat, size: nat)
    requires k <= size <= 0x8000_0000 && base + size <= 0x1_0000_0000
    ensures base <= After(base, k) < base + size <==> k < size
    ensures k < size ==> After(base, k) == base + k
  {
  }

  /** One step of the address counter of CIDRtoHosts. */
  lemma CounterStep(base: Addr, k: nat, ip: IP)
    requires ip == Quad(After(base, k))
    ensures Successor(ip) == Quad(After(base, k + 1))
    ensures ip == [ip[0], ip[1], ip[2], ip[3]]
  {
    SuccessorOfQuad(After(base, k));
    AfterNext(base, k);
  }

  /** What one round of the loop of CIDRtoHosts makes of the hosts listed so far. */
  ghost function WithHost(listed: seq<IP>, q: IP): seq<IP>
    requires |q| == 4
  {
    if q[3] == 0x00 || q[3] == 0xFF then listed else listed + [MAPPED_PREFIX + q]
  }

  lemma HostsStep(base: Addr, k: nat)
    requires base + k < 0x1_0000_0000
    ensures HostsBetween(base, base + k + 1)
      == HostsBetween(base, base + k) + (if Skipped(base + k) then {} else {base + k})
  {
  }

  /** The state of the loop of CIDRtoHosts after k rounds. */
  ghost predicate HostListing(base: Addr, bits: nat, k: nat, ip: IP, listed: seq<IP>)
    requires bits <= 32
  {
    && k <= BlockSize(bits)
    && ip == Quad(After(base, k))
    && Enumerates(listed, HostsBetween(base, base + k))
  }

  lemma HostListingStarts(base: Addr, bits: nat)
    requires bits <= 32
    ensures HostListing(base, bits, 0, Quad(base), [])
  {
    AfterNone(base);
    assert HostsBetween(base, base + 0) == {};
  }

  lemma AfterNone(base: Addr)
    ensures After(base, 0) == base
  {
  }

  lemma HostListingRound(base: Addr, bits: nat, k: nat, ip: IP, listed: seq<IP>)
    requires 1 <= bits <= 32 && Base(base, bits) == base
    requires HostListing(base, bits, k, ip, listed) && Contains(IPNet(Quad(base), bits), ip)
    ensures k < BlockSize(bits)
    ensures HostListing(base, bits, k + 1, Successor(ip), WithHost(listed, ip))
  {
    CounterInBlock(base, bits, k);
    CounterStep(base, k, ip);
    WithHostEnumerates(listed, base, k, ip);
  }

  lemma HostListingEnds(base: Addr, bits: nat, k: nat, ip: IP, listed: seq<IP>)
    requires 1 <= bits <= 32 && Base(base, bits) == base
    requires HostListing(base, bits, k, ip, listed) && !Contains(IPNet(Quad(base), bits), ip)
    ensures Enumerates(listed, BlockHosts(base, bits))
  {
    CounterInBlock(base, bits, k);
  }

  lemma WithHostEnumerates(listed: seq<IP>, base: Addr, k: nat, q: IP)
    requires base + k < 0x1_0000_0000 && q == Quad(base + k)
    requires Enumerates(listed, HostsBetween(base, base + k))
    ensures Enumerates(WithHost(listed, q), HostsBetween(base, base + k + 1))
  {
    var v: Addr := base + k;
    HostsStep(base, k);
    LastByte(v);
    if !Skipped(v) {
      EnumeratesNext(listed, HostsBetween(base, base + k), v);
    }
  }

  lemma LastByte(v: Addr)
    ensures Quad(v)[3] as int == v % 0x100
  {
  }

  /** The loop test of CIDRtoHosts, with what it tells about the listing so far. */
  method InBlock(net: IPNet, ip: IP, ghost base: Addr, ghost k: nat, ghost listed: seq<IP>) returns (inside: bool)
    requires 1 <= net.bits <= 32 && Base(base, net.bits) == base && net.ip == Quad(base)
    requires HostListing(base, net.bits, k, ip, listed)
    ensures inside == Contains(net, ip)
    ensures inside ==>
      k < BlockSize(net.bits) && HostListing(base, net.bits, k + 1, Successor(ip), WithHost(listed, ip))
    ensures !inside ==> Enumerates(listed, BlockHosts(base, net.bits))
  {
    inside := Contains(net, ip);
    if inside {
      HostListingRound(base, net.bits, k, ip, listed);
    } else {
      HostListingEnds(base, net.bits, k, ip, listed);
    }
  }

  /** The body of the loop of CIDRtoHosts up to the increment. */
  method AddHost(ip: array<byte>, ips: seq<array<byte>>, ghost listed: seq<IP>) returns (r: seq<array<byte>>)
    requires ip.Length == 4
    requires |listed| == |ips| && forall i :: 0 <= i < |ips| ==> ips[i][..] == listed[i]
    ensures |r| == |WithHost(listed, ip[..])|
    ensures forall i :: 0 <= i < |r| ==> r[i][..] == WithHost(listed, ip[..])[i] && (fresh(r[i]) || r[i] in ips)
  {
    if ip.Length == 4 && (ip[3] == 0x00 || ip[3] == 0xFF) {
      return ips;
    }
    var a := NewIPv4(ip[0], ip[1], ip[2], ip[3]);
    assert ip[..] == [ip[0], ip[1], ip[2], ip[3]];
    r := ips + [a];
  }

  /** One round: the body and then the increment, which leaves the listed slices alone. */
  method ListRound(ip: array<byte>, ips: seq<array<byte>>, ghost listed: seq<IP>) returns (r: seq<array<byte>>)
    requires ip.Length == 4 && ip !in ips
    requires |listed| == |ips| && forall i :: 0 <= i < |ips| ==> ips[i][..] == listed[i]
    modifies ip
    ensures ip[..] == Successor(old(ip[..]))
    ensures |r| == |WithHost(listed, old(ip[..]))|
    ensures forall i :: 0 <= i < |r| ==> r[i][..] == WithHost(listed, old(ip[..]))[i] && (fresh(r[i]) || r[i] in ips)
  {
    r := AddHost(ip, ips, listed);
    IncIP(ip);
  }

  /** The loop of CIDRtoHosts, on the counter slice ip. */
  method ListBlock(net: IPNet, ip: array<byte>, ghost base: Addr) returns (ips: seq<array<byte>>)
    requires 1 <= net.bits <= 32 && Base(base, net.bits) == base
    requires net.ip == Quad(base) && ip[..] == Quad(base)
    modifies ip
    ensures forall a | a in ips :: fresh(a)
    ensures Enumerates(Contents(ips), BlockHosts(base, net.bits))
  {
    ips := [];
    ghost var k: nat, listed: seq<IP> := 0, [];
    HostListingStarts(base, net.bits);
    var inside := InBlock(net, ip[..], base, k, listed);
    while inside
      invariant ip.Length == 4
      invariant inside ==> k < BlockSize(net.bits)
      invariant inside ==> HostListing(base, net.bits, k + 1, Successor(ip[..]), WithHost(listed, ip[..]))
      invariant !inside ==> Enumerates(listed, BlockHosts(base, net.bits))
      invariant |listed| == |ips|
      invariant forall i :: 0 <= i < |ips| ==> fresh(ips[i]) && ips[i][..] == listed[i]
      decreases BlockSize(net.bits) - k, inside
    {
      ghost var q := ip[..];
      ips := ListRound(ip, ips, listed);
      listed, k := WithHost(listed, q), k + 1;
      inside := InBlock(net, ip[..], base, k, listed);
    }
    assert Contents(ips) == listed;
  }

  method CIDRtoHosts(cidr: string) returns (r: Option<seq<array<byte>>>)
    requires ParseCIDR(cidr).Some? ==> ParseCIDR(cidr).value.bits != 0
    ensures r.Some? <==> ParseCIDR(cidr).Some?
    ensures r.Some? ==> forall a | a in r.value :: fresh(a)
    ensures r.Some? ==> Enumerates(Contents(r.value), CIDRHosts(ParseCIDR(cidr).value))
    ensures r.Some? ==> var CIDR(addr, bits) := ParseCIDR(cidr).value; |r.value| == HostCount(Base(addr, bits), bits)
  {
    var parsed := ParseCIDR(cidr);
    if parsed.None? {
      return None;
    }
    var CIDR(addr, bits) := parsed.value;
    MappedRoundTrip(addr);
    MaskIsBase(addr, bits);
    BaseIsBase(addr, bits);
    var ip := NewMasked(Mapped(addr), bits);
    var ips := ListBlock(IPNet(Mask(Mapped(addr), bits), bits), ip, Base(addr, bits));
    EnumerationLength(Contents(ips), BlockHosts(Base(addr, bits), bits));
    BlockHostCount(Base(addr, bits), bits);
    r := Some(ips);
  }

  // ---------- CalcDefaultGateway ----------

  method CalcDefaultGateway(cidr: string) returns (r: Option<array<byte>>)
    ensures r.Some? <==> ParseCIDR(cidr).Some?
    ensures r.Some? ==> fresh(r.value) && r.value[..] == Quad(DefaultGateway(ParseCIDR(cidr).value))
    ensures r.Some? ==> var CIDR(addr, bits) := ParseCIDR(cidr).value;
      Value(r.value[..]) == (Base(addr, bits) + 1) % 0x1_0000_0000
  {
    var parsed := ParseCIDR(cidr);
    if parsed.None? {
      return None;
    }
    var CIDR(addr, bits) := parsed.value;
    MappedRoundTrip(addr);
    MaskIsBase(addr, bits);
    SuccessorOfQuad(Base(addr, bits));
    QuadValue(DefaultGateway(parsed.value));
    var ip := NewMasked(Mapped(addr), bits);
    IncIP(ip);
    r := Some(ip);
  }

  function DefaultGateway(c: CIDR): Addr
    requires c.bits <= 32
  {
    After(Base(c.addr, c.bits), 1)
  }

  /** The default gateway is an address of its own subnet exactly when the block has room for it. */
  lemma DefaultGatewayIsHost(c: CIDR)
    requires c.bits <= 32
    ensures DefaultGateway(c) in CIDRHosts(c)
      <==> c.bits <= 30 || (c.bits == 31 && Base(c.addr, 31) % 0x100 != 0xFE)
    ensures c.bits <= 31 ==> DefaultGateway(c) == Base(c.addr, c.bits) + 1
  {
    var base := Base(c.addr, c.bits);
    BaseIsBase(c.addr, c.bits);
    if c.bits <= 30 {
      GatewayFits(base, c.bits);
    } else if c.bits == 31 {
      assert BlockSize(31) == 2;
      var k := BaseIsMultiple(base, 31);
      GatewayOfTwo(base, k);
    } else {
      assert BlockSize(32) == 1;
    }
  }

  lemma GatewayOfTwo(base: Addr, k: nat)
    requires base == k * 2
    ensures After(base, 1) == base + 1
    ensures Skipped(After(base, 1)) <==> base % 0x100 == 0xFE
  {
  }

  lemma GatewayFits(base: Addr, bits: nat)
    requires bits <= 30 && Base(base, bits) == base
    ensures BlockSize(bits) >= 4
    ensures !Skipped(After(base, 1)) && After(base, 1) == base + 1
  {
    var c := Pow2(30 - bits);
    Pow2Add(30 - bits, 2);
    assert Pow2(2) == 4;
    var k := BaseIsMultiple(base, bits);
    MultiplyAssociates(k, c, 4);
    MultipleOfFour(base, k * c);
  }

  lemma MultipleOfFour(base: Addr, t: int)
    requires base == t * 4
    ensures !Skipped(After(base, 1)) && After(base, 1) == base + 1
  {
  }

  // ---------- IsInRangeBound and ParseIPRange ----------

  predicate IsInRangeBound(trial: IP, lower: IP, upper: IP) {
    Compare(trial, lower) >= 0 && Compare(trial, upper) <= 0
  }

  lemma RangeBoundIsNumeric(trial: IP, lower: IP, upper: IP)
    requires |trial| == |lower| == |upper|
    ensures IsInRangeBound(trial, lower, upper) <==> Value(lower) <= Value(trial) <= Value(upper)
  {
    CompareIsNumeric(trial, lower);
    CompareIsNumeric(trial, upper);
    CompareAntisymmetric(trial, lower);
    CompareAntisymmetric(trial, upper);
  }

  ghost function Interval(lo: Addr, hi: Addr): set<Addr> {
    set v: Addr | Within(v, lo, hi)
  }

  predicate Within(v: Addr, lo: Addr, hi: Addr) {
    lo <= v <= hi
  }

  function IntervalSize(lo: Addr, hi: Addr): nat {
    if lo <= hi then hi as int - lo as int + 1 else 0
  }

  /** The addresses of a configured range; none if a bound does not parse or the bounds are reversed. */
  ghost function RangeAddrs(start: string, end: string): set<Addr> {
    match (ParseAddr(start), ParseAddr(end))
    case (Some(a), Some(b)) => Interval(a, b)
    case _ => {}
  }

  /** ips is a, a + 1, a + 2, ... in mapped form. */
  ghost predicate CountsFrom(ips: seq<IP>, a: Addr) {
    a + |ips| <= 0x1_0000_0000 && forall i :: 0 <= i < |ips| ==> ips[i] == Mapped(a + i)
  }

  /** The state of the loop of ParseIPRange: the counter is one above the last address listed. */
  ghost predicate RangeListing(a: Addr, b: Addr, ip: IP, ips: seq<IP>) {
    && |ip| == 16 && Value(ip) == 0xFFFF_0000_0000 + a + |ips|
    && CountsFrom(ips, a)
    && |ips| <= IntervalSize(a, b)
  }

  lemma RangeListingStarts(a: Addr, b: Addr)
    ensures RangeListing(a, b, Mapped(a), [])
  {
    MappedRoundTrip(a);
    MappedValue(Mapped(a));
  }

  /** The lower-bound test compares the counter with itself, so only the upper bound matters,
      also when the carry has left the mapped range. */
  lemma RangeTest(ip: IP, b: Addr, v: nat)
    requires |ip| == 16 && Value(ip) == 0xFFFF_0000_0000 + v
    ensures IsInRangeBound(ip, ip, Mapped(b)) <==> v <= b
  {
    RangeBoundIsNumeric(ip, ip, Mapped(b));
    MappedRoundTrip(b);
    MappedValue(Mapped(b));
  }

  /** While the test holds the counter is the mapped form of the next address. */
  lemma RangeListingRound(a: Addr, b: Addr, ip: IP, ips: seq<IP>)
    requires RangeListing(a, b, ip, ips) && IsInRangeBound(ip, ip, Mapped(b))
    ensures |ips| < IntervalSize(a, b) && a + |ips| <= b && ip == Mapped(a + |ips|)
    ensures RangeListing(a, b, Successor(ip), ips + [Mapped(a + |ips|)])
  {
    RangeTest(ip, b, a + |ips|);
    MappedFromValue(ip, a + |ips|);
    SuccessorOfMapped(ip, a + |ips|);
    CountsFromNext(ips, a);
  }

  lemma MappedPrintsBack(v: Addr)
    ensures ParseIP(IPString(To4(Mapped(v)))) == Mapped(v)
  {
    MappedRoundTrip(v);
    AddrTextRoundTrip(v);
  }

  lemma CountsFromNext(ips: seq<IP>, a: Addr)
    requires CountsFrom(ips, a) && a + |ips| < 0x1_0000_0000
    ensures CountsFrom(ips + [Mapped(a + |ips|)], a)
  {
  }

  /** Incrementing a mapped address as a 16-byte string does not wrap around. */
  lemma SuccessorOfMapped(ip: IP, v: Addr)
    requires |ip| == 16 && Value(ip) == 0xFFFF_0000_0000 + v
    ensures Value(Successor(ip)) == 0xFFFF_0000_0000 + v + 1
  {
    SuccessorValue(ip);
    assert Pow256(8) == 0x1_0000_0000_0000_0000;
    assert Pow256(16) >= Pow256(12) >= Pow256(8);
    DivideUnique(Value(ip) + 1, Pow256(16), 0, Value(ip) + 1);
  }

  method ParseIPRange(start: string, end: string) returns (ips: seq<IP>)
    ensures match (ParseAddr(start), ParseAddr(end))
      case (Some(a), Some(b)) => CountsFrom(ips, a) && |ips| == IntervalSize(a, b)
      case _ => ips == []
  {
    var lower := ParseIP(start);
    var ip2 := ParseIP(end);
    ips := [];
    if lower == NIL_IP || ip2 == NIL_IP {
      return;
    }
    var ip1 := new byte[16](i requires 0 <= i < 16 => lower[i]);
    assert ip1[..] == lower;
    ghost var a, b := ParseAddr(start).value, ParseAddr(end).value;
    // The counter is the lower bound itself: both names denote one slice.
    var ip := ip1;
    RangeListingStarts(a, b);
    while IsInRangeBound(ip[..], ip1[..], ip2)
      invariant RangeListing(a, b, ip[..], ips)
      decreases IntervalSize(a, b) - |ips|
    {
      RangeListingRound(a, b, ip[..], ips);
      MappedPrintsBack(a + |ips|);
      ips := ips + [ParseIP(IPString(To4(ip[..])))];
      IncIP(ip);
    }
    RangeTest(ip[..], b, a + |ips|);
  }

  lemma CountsFromAddrs(ips: seq<IP>, a: Addr, b: Addr)
    requires CountsFrom(ips, a) && |ips| == IntervalSize(a, b)
    ensures Enumerates(ips, Interval(a, b))
  {
    forall i | 0 <= i < |ips|
      ensures IsMapped(ips[i]) && AddrOf(ips[i]) == a + i
    {
      MappedRoundTrip(a + i);
    }
    forall i, j | 0 <= i < j < |ips|
      ensures Compare(ips[i], ips[j]) < 0
    {
      MappedOrder(a + i, a + j);
    }
    forall v | v in Interval(a, b)
      ensures Mapped(v) in ips
    {
      assert ips[v - a] == Mapped(v);
    }
  }
}
