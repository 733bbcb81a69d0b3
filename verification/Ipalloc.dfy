/** controller/ipalloc.go: which address a pod gets, given what is recorded for its subnet. */
module Ipalloc {
  import opened Bytes
  import opened Text
  import opened Subnetting
  import opened Ipcalc
  import opened Types

  datatype AllocError =
    | BadSubnet
    | NoEnoughIP
    | NotInSubnet
    | AlreadyUsed
    | CountMismatch
    | ListExhausted

  /** What an allocator returns: the address, the text to record, and the hardware address. */
  datatype Choice = Choice(ip: IP, cidr: string, mac: string)

  datatype Alloc = Allocated(choice: Choice) | Failed(error: AllocError)

  // ---------- the text of a record ----------

  function Suffix(cidr: string): (s: string)
    ensures '/' !in s
  {
    SplitParts(cidr, '/');
    var nets := Split(cidr, '/');
    if |nets| == 2 then nets[1] else ""
  }

  function ConvertIPtoCIDR(ip: IP, cidr: string): string
    requires ip == NIL_IP || |ip| == 4 || IsMapped(ip)
  {
    IPString(ip) + "/" + Suffix(cidr)
  }

  /** The address that convertToIPList reads from the text of a record. */
  function RecordedAddr(cidr: string): Option<Addr> {
    var p := Split(cidr, '/');
    if |p| == 2 then ParseAddr(p[0]) else None
  }

  /** The text stored for an address is read back as that address, whatever the subnet's CIDR text looks like. */
  lemma RecordRoundTrip(v: Addr, cidr: string)
    ensures RecordedAddr(ConvertIPtoCIDR(Mapped(v), cidr)) == Some(v)
    ensures RecordedAddr(ConvertIPtoCIDR(Quad(v), cidr)) == Some(v)
  {
    MappedRoundTrip(v);
    AddrTextRoundTrip(v);
    AddrTextFree(v, '/');
    SplitFirst(AddrText(v), Suffix(cidr), '/');
    SplitFree(Suffix(cidr), '/');
    assert ConvertIPtoCIDR(Mapped(v), cidr) == AddrText(v) + ['/'] + Suffix(cidr);
    assert ConvertIPtoCIDR(Quad(v), cidr) == AddrText(v) + ['/'] + Suffix(cidr);
  }

  /** s is a and b with the only slash between them. */
  predicate IsSlashed(s: string, a: string, b: string) {
    s == a + "/" + b && '/' !in a && '/' !in b
  }

  lemma SlashedSplit(s: string)
    ensures |Split(s, '/')| == 2 ==> IsSlashed(s, Split(s, '/')[0], Split(s, '/')[1])
    ensures forall a, b | IsSlashed(s, a, b) :: Split(s, '/') == [a, b]
  {
    var p := Split(s, '/');
    SplitParts(s, '/');
    JoinSplit(s, '/');
    if |p| == 2 {
      assert p[1..] == [p[1]];
      assert Join(p, '/') == p[0] + "/" + p[1];
    }
    forall a, b | IsSlashed(s, a, b)
      ensures p == [a, b]
    {
      SplitFirst(a, b, '/');
      SplitFree(b, '/');
      assert s == a + ['/'] + b;
    }
  }

  /** The text of a record is the printed address with the part after the slash of the subnet's CIDR text if that has
      exactly one slash, and with an empty suffix otherwise. */
  lemma RecordTextExactly(v: Addr, cidr: string)
    ensures forall a, b | IsSlashed(cidr, a, b) :: ConvertIPtoCIDR(Mapped(v), cidr) == AddrText(v) + "/" + b
    ensures (forall a, b :: !IsSlashed(cidr, a, b)) ==> ConvertIPtoCIDR(Mapped(v), cidr) == AddrText(v) + "/"
  {
    MappedRoundTrip(v);
    SlashedSplit(cidr);
  }

  /** So for a well-formed subnet it is the address in CIDR notation with the prefix length of the subnet. */
  lemma RecordTextParses(v: Addr, cidr: string, c: CIDR)
    requires ParseCIDR(cidr) == Some(c)
    ensures ParseCIDR(ConvertIPtoCIDR(Mapped(v), cidr)) == Some(CIDR(v, c.bits))
  {
    ParseCIDRExactly(cidr, c.addr, c.bits);
    var a, b :| IsSlashForm(cidr, c.addr, c.bits, a, b);
    ParsedFree(a, '/');
    assert IsSlashed(cidr, a, b);
    RecordTextExactly(v, cidr);
    AddrTextRoundTrip(v);
    ParseCIDRExactly(ConvertIPtoCIDR(Mapped(v), cidr), v, c.bits);
    assert IsSlashForm(ConvertIPtoCIDR(Mapped(v), cidr), v, c.bits, AddrText(v), b);
  }

  /** A record text is read as an address exactly if that address is before its only slash. */
  lemma RecordedAddrExactly(s: string, v: Addr)
    ensures RecordedAddr(s) == Some(v) <==> exists a, b :: IsSlashed(s, a, b) && ParseAddr(a) == Some(v)
  {
    SlashedSplit(s);
  }

  ghost function UsedBy(items: seq<MacvlanIP>): set<Addr> {
    set it | it in items && RecordedAddr(it.spec.cidr).Some? :: RecordedAddr(it.spec.cidr).value
  }

  method ConvertToIPList(items: seq<MacvlanIP>) returns (used: seq<IP>)
    ensures AddrsOf(used) == UsedBy(items)
  {
    used := [];
    for i := 0 to |items|
      invariant AddrsOf(used) == UsedBy(items[..i])
    {
      assert items[..i + 1] == items[..i] + [items[i]];
      var ip := Split(items[i].spec.cidr, '/');
      if |ip| == 2 {
        AddrsOfNext(used, ip[0]);
        used := used + [ParseIP(ip[0])];
      }
    }
    assert items[..|items|] == items;
  }

  /** The addresses a text denotes: one, or none if it does not parse. */
  ghost function AddrSet(text: string): set<Addr> {
    match ParseAddr(text)
    case None => {}
    case Some(v) => {v}
  }

  lemma AddrsOfNext(ips: seq<IP>, text: string)
    ensures AddrsOf(ips + [ParseIP(text)]) == AddrsOf(ips) + AddrSet(text)
  {
    var next := ips + [ParseIP(text)];
    if ParseAddr(text).Some? {
      MappedRoundTrip(ParseAddr(text).value);
    }
    forall v: Addr
      ensures v in AddrsOf(next) <==> v in AddrsOf(ips) || v in AddrSet(text)
    {
      BytesDecideAddress(next, v);
      BytesDecideAddress(ips, v);
      MappedRoundTrip(v);
    }
  }

  // ---------- the hosts of a subnet ----------

  ghost function RangeUnion(ranges: seq<IPRange>): set<Addr> {
    if |ranges| == 0 then {}
    else
      var last := ranges[|ranges| - 1];
      RangeUnion(ranges[..|ranges| - 1]) + RangeAddrs(last.rangeStart, last.rangeEnd)
  }

  /** The union of the ranges does not depend on their order or on repetitions. */
  lemma {:induction false} RangeUnionMember(ranges: seq<IPRange>, v: Addr)
    ensures v in RangeUnion(ranges) <==> exists r :: r in ranges && v in RangeAddrs(r.rangeStart, r.rangeEnd)
  {
    if |ranges| > 0 {
      var front, last := ranges[..|ranges| - 1], ranges[|ranges| - 1];
      RangeUnionMember(front, v);
      assert ranges == front + [last];
      assert last in ranges;
    }
  }

  /** The addresses a subnet hands out: its hosts, cut down to the configured ranges
      unless those hold no address at all. */
  ghost function SubnetHosts(subnet: Subnet): Option<set<Addr>> {
    match ParseCIDR(subnet.spec.cidr)
    case None => None
    case Some(c) =>
      var ranges := RangeUnion(subnet.spec.ranges);
      Some(if ranges == {} then CIDRHosts(c) else CIDRHosts(c) * ranges)
  }

  /** Some range holds the address. */
  ghost predicate Covers(ranges: seq<IPRange>, v: Addr) {
    exists r :: r in ranges && v in RangeAddrs(r.rangeStart, r.rangeEnd)
  }

  /** Subnets with one CIDR whose ranges cover the same addresses have the same hosts, however the
      ranges are ordered, repeated, split or made to overlap. */
  lemma SubnetHostsIgnoreRangeForm(s: Subnet, t: Subnet)
    requires s.spec.cidr == t.spec.cidr
    requires forall v :: Covers(s.spec.ranges, v) <==> Covers(t.spec.ranges, v)
    ensures SubnetHosts(s) == SubnetHosts(t)
  {
    forall v: Addr
      ensures v in RangeUnion(s.spec.ranges) <==> v in RangeUnion(t.spec.ranges)
    {
      RangeUnionMember(s.spec.ranges, v);
      RangeUnionMember(t.spec.ranges, v);
      assert Covers(s.spec.ranges, v) <==> Covers(t.spec.ranges, v);
    }
    assert RangeUnion(s.spec.ranges) == RangeUnion(t.spec.ranges);
  }

  /** A range that holds no address: a bound does not parse, or the bounds are reversed. */
  predicate IsEmptyRange(r: IPRange) {
    match (ParseAddr(r.rangeStart), ParseAddr(r.rangeEnd))
    case (Some(a), Some(b)) => a > b
    case _ => true
  }

  lemma EmptyRanges(ranges: seq<IPRange>)
    ensures RangeUnion(ranges) == {} <==> forall r | r in ranges :: IsEmptyRange(r)
  {
    forall r | r in ranges && !IsEmptyRange(r)
      ensures RangeUnion(ranges) != {}
    {
      var a := ParseAddr(r.rangeStart).value;
      assert a in RangeAddrs(r.rangeStart, r.rangeEnd);
      RangeUnionMember(ranges, a);
    }
    if RangeUnion(ranges) != {} {
      var v :| v in RangeUnion(ranges);
      RangeUnionMember(ranges, v);
    }
  }

  /** The configured ranges hold allocation within them exactly when one of them holds an address,
      or there is nothing to allocate at all. */
  lemma RangesRestrict(subnet: Subnet)
    requires ParseCIDR(subnet.spec.cidr).Some?
    ensures (forall v | v in AllHosts(subnet) :: Covers(subnet.spec.ranges, v))
      <==> (exists r | r in subnet.spec.ranges :: !IsEmptyRange(r))
           || CIDRHosts(ParseCIDR(subnet.spec.cidr).value) == {}
  {
    var ranges := subnet.spec.ranges;
    EmptyRanges(ranges);
    forall v: Addr
      ensures Covers(ranges, v) <==> v in RangeUnion(ranges)
    {
      RangeUnionMember(ranges, v);
    }
  }

  /** The address lies between the bounds of the range. */
  predicate InRange(r: IPRange, v: Addr) {
    && ParseAddr(r.rangeStart).Some? && ParseAddr(r.rangeEnd).Some?
    && ParseAddr(r.rangeStart).value <= v <= ParseAddr(r.rangeEnd).value
  }

  /** The address is in the block, does not end in 0 or 255, and is in a range unless no address at all is. */
  ghost predicate IsHostOf(subnet: Subnet, c: CIDR, v: Addr)
    requires c.bits <= 32
  {
    && v / Pow2(32 - c.bits) == c.addr / Pow2(32 - c.bits)
    && v % 0x100 != 0 && v % 0x100 != 0xFF
    && ((forall r | r in subnet.spec.ranges :: IsEmptyRange(r)) || exists r :: r in subnet.spec.ranges && InRange(r, v))
  }

  lemma SameBlock(v: Addr, w: Addr, size: nat)
    requires size > 0
    ensures v / size == w / size <==> w - w % size <= v < w - w % size + size
  {
    var k := w / size;
    assert w - w % size == k * size;
    if w - w % size <= v < w - w % size + size {
      DivideUnique(v, size, k, v - k * size);
    }
    assert v == v / size * size + v % size;
  }

  /** Exactly which addresses a subnet hands out; none if its CIDR text is malformed. */
  lemma HostsExactly(subnet: Subnet, c: CIDR, v: Addr)
    requires ParseCIDR(subnet.spec.cidr) == Some(c)
    ensures var size := Pow2(32 - c.bits);
      var base := c.addr - c.addr % size;
      v in AllHosts(subnet) <==>
        && base <= v < base + size && v % 0x100 != 0 && v % 0x100 != 0xFF
        && ((forall r | r in subnet.spec.ranges :: IsEmptyRange(r))
            || exists r :: r in subnet.spec.ranges && InRange(r, v))
    ensures v in AllHosts(subnet) <==> IsHostOf(subnet, c, v)
  {
    SameBlock(v, c.addr, Pow2(32 - c.bits));
    HostsInBlock(c, v);
    HostsInRanges(subnet, c, v);
  }

  lemma HostsInRanges(subnet: Subnet, c: CIDR, v: Addr)
    requires ParseCIDR(subnet.spec.cidr) == Some(c)
    ensures v in AllHosts(subnet)
      <==> v in CIDRHosts(c)
           && ((forall r | r in subnet.spec.ranges :: IsEmptyRange(r))
               || exists r :: r in subnet.spec.ranges && InRange(r, v))
  {
    EmptyRanges(subnet.spec.ranges);
    RangeUnionMember(subnet.spec.ranges, v);
    forall r | r in subnet.spec.ranges
      ensures v in RangeAddrs(r.rangeStart, r.rangeEnd) <==> InRange(r, v)
    {
    }
  }

  lemma HostsInBlock(c: CIDR, v: Addr)
    requires c.bits <= 32
    ensures var size := Pow2(32 - c.bits);
      var base := c.addr - c.addr % size;
      v in CIDRHosts(c) <==> base <= v < base + size && v % 0x100 != 0 && v % 0x100 != 0xFF
  {
  }

  /** Such a subnet: one range with its bounds reversed. */
  function ReversedRange(cidr: string, lo: Addr, hi: Addr): Subnet {
    Subnet("net", map[], SubnetSpec("eth0", 100, cidr, "bridge", "", [IPRange(AddrText(hi), AddrText(lo))]))
  }

  /** The sublist of first occurrences. */
  function FirstOccurrences(hosts: seq<IP>): seq<IP> {
    if |hosts| == 0 then []
    else
      var front := FirstOccurrences(hosts[..|hosts| - 1]);
      if hosts[|hosts| - 1] in front then front else front + [hosts[|hosts| - 1]]
  }

  lemma {:induction false} FirstOccurrencesMembers(hosts: seq<IP>)
    ensures Members(FirstOccurrences(hosts)) == Members(hosts)
    ensures forall i, j :: 0 <= i < j < |FirstOccurrences(hosts)| ==>
      FirstOccurrences(hosts)[i] != FirstOccurrences(hosts)[j]
  {
    if |hosts| > 0 {
      var front := hosts[..|hosts| - 1];
      FirstOccurrencesMembers(front);
      assert hosts == front + [hosts[|hosts| - 1]];
      assert hosts[|hosts| - 1] in FirstOccurrences(front) <==> hosts[|hosts| - 1] in Members(FirstOccurrences(front));
      assert Members(hosts) == Members(front) + {hosts[|hosts| - 1]};
    }
  }

  /** p lists in ascending order the positions where members first occur. */
  ghost predicate FirstPositions(hosts: seq<IP>, p: seq<nat>) {
    && (forall j, k :: 0 <= j < k < |p| ==> p[j] < p[k])
    && forall i: nat :: i in p <==> i < |hosts| && hosts[i] !in hosts[..i]
  }

  ghost predicate ListsPositions(hosts: seq<IP>, p: seq<nat>, listed: seq<IP>) {
    |listed| == |p| && forall k :: 0 <= k < |p| ==> p[k] < |hosts| && listed[k] == hosts[p[k]]
  }

  lemma FirstPositionsNext(front: seq<IP>, x: IP, p: seq<nat>)
    requires FirstPositions(front, p)
    ensures FirstPositions(front + [x], if x in front then p else p + [|front|])
  {
    var hosts := front + [x];
    var next := if x in front then p else p + [|front|];
    forall i: nat
      ensures i in next <==> i < |hosts| && hosts[i] !in hosts[..i]
    {
      if i < |front| {
        assert hosts[..i] == front[..i] && hosts[i] == front[i];
      } else {
        assert hosts[..|front|] == front;
      }
    }
    forall k | 0 <= k < |p|
      ensures p[k] < |front|
    {
      assert p[k] in p;
    }
  }

  lemma ListsPositionsNext(front: seq<IP>, x: IP, p: seq<nat>, listed: seq<IP>)
    requires ListsPositions(front, p, listed)
    ensures ListsPositions(front + [x], p, listed)
    ensures ListsPositions(front + [x], p + [|front|], listed + [x])
  {
  }

  lemma FirstOccurrencesNext(front: seq<IP>, x: IP)
    ensures FirstOccurrences(front + [x])
      == if x in front then FirstOccurrences(front) else FirstOccurrences(front) + [x]
  {
    assert (front + [x])[..|front|] == front;
    FirstOccurrencesMembers(front);
    assert x in FirstOccurrences(front) <==> x in Members(FirstOccurrences(front));
  }

  lemma PositionsNext(front: seq<IP>, x: IP, q: seq<nat>) returns (p: seq<nat>)
    requires FirstPositions(front, q) && ListsPositions(front, q, FirstOccurrences(front))
    ensures FirstPositions(front + [x], p) && ListsPositions(front + [x], p, FirstOccurrences(front + [x]))
  {
    FirstPositionsNext(front, x, q);
    ListsPositionsNext(front, x, q, FirstOccurrences(front));
    FirstOccurrencesNext(front, x);
    p := if x in front then q else q + [|front|];
  }

  /** The first occurrences are the members at these positions, in the order of the positions. */
  lemma {:induction false} FirstOccurrencesOrder(hosts: seq<IP>) returns (p: seq<nat>)
    ensures FirstPositions(hosts, p) && ListsPositions(hosts, p, FirstOccurrences(hosts))
  {
    p := [];
    if |hosts| > 0 {
      var front, x := hosts[..|hosts| - 1], hosts[|hosts| - 1];
      p := FirstOccurrencesOrder(front);
      p := PositionsNext(front, x, p);
      assert hosts == front + [x];
    }
  }

  method RemoveDuplicatesFromSlice(hosts: seq<IP>) returns (result: seq<IP>)
    requires AllMapped(hosts)
    ensures result == FirstOccurrences(hosts)
  {
    var m: map<string, bool> := map[];
    result := [];
    for i := 0 to |hosts|
      invariant result == FirstOccurrences(hosts[..i])
      invariant AllMapped(result) && m.Keys == Texts(result)
    {
      assert hosts[..i + 1][..i] == hosts[..i];
      TextDecidesMember(result, hosts[i]);
      if IPString(hosts[i]) in m {
      } else {
        TextsNext(result, hosts[i]);
        m := m[IPString(hosts[i]) := true];
        result := result + [hosts[i]];
      }
    }
    assert hosts[..|hosts|] == hosts;
  }

  lemma TextsNext(ips: seq<IP>, ip: IP)
    requires AllMapped(ips) && IsMapped(ip)
    ensures AllMapped(ips + [ip]) && Texts(ips + [ip]) == Texts(ips) + {IPString(ip)}
  {
    var next := ips + [ip];
    assert next[..|ips|] == ips && next[..|ips| + 1] == next;
    TextsAppend(next, |ips|);
  }

  /** Dropping the duplicates changes nothing: the intersection with the hosts, and whether the
      ranges are empty at all, come out the same without it. */
  lemma DuplicatesDoNotMatter(hosts: seq<IP>, ranges: seq<IP>, x: seq<IP>, y: seq<IP>)
    requires Ascending(x) && Members(x) == Members(hosts) * Members(ranges)
    requires Ascending(y) && Members(y) == Members(hosts) * Members(FirstOccurrences(ranges))
    ensures x == y
    ensures |ranges| == 0 <==> |FirstOccurrences(ranges)| == 0
  {
    FirstOccurrencesMembers(ranges);
    AscendingUnique(x, y);
  }

  method CalcHostsInRanges(ranges: seq<IPRange>) returns (hosts: seq<IP>)
    ensures AllMapped(hosts) && AddrsOf(hosts) == RangeUnion(ranges)
    ensures forall i, j :: 0 <= i < j < |hosts| ==> hosts[i] != hosts[j]
  {
    hosts := [];
    for i := 0 to |ranges|
      invariant AllMapped(hosts) && AddrsOf(hosts) == RangeUnion(ranges[..i])
    {
      var start, end := ranges[i].rangeStart, ranges[i].rangeEnd;
      var ips := ParseIPRange(start, end);
      RangeListAddrs(start, end, ips);
      AddrsOfAppend(hosts, ips);
      hosts := hosts + ips;
      assert ranges[..i + 1][..i] == ranges[..i];
    }
    assert ranges[..|ranges|] == ranges;
    FirstOccurrencesMembers(hosts);
    SameMembersSameAddrs(hosts, FirstOccurrences(hosts));
    hosts := RemoveDuplicatesFromSlice(hosts);
  }

  lemma RangeListAddrs(start: string, end: string, ips: seq<IP>)
    requires match (ParseAddr(start), ParseAddr(end))
      case (Some(a), Some(b)) => CountsFrom(ips, a) && |ips| == IntervalSize(a, b)
      case _ => ips == []
    ensures AllMapped(ips) && AddrsOf(ips) == RangeAddrs(start, end)
  {
    if ParseAddr(start).Some? && ParseAddr(end).Some? {
      CountsFromAddrs(ips, ParseAddr(start).value, ParseAddr(end).value);
      EnumeratesAddrs(ips, RangeAddrs(start, end));
    }
  }

  lemma AddrsOfAppend(a: seq<IP>, b: seq<IP>)
    ensures AddrsOf(a + b) == AddrsOf(a) + AddrsOf(b)
  {
    forall v: Addr
      ensures v in AddrsOf(a + b) <==> v in AddrsOf(a) || v in AddrsOf(b)
    {
      BytesDecideAddress(a + b, v);
      BytesDecideAddress(a, v);
      BytesDecideAddress(b, v);
    }
  }

  lemma SameMembersSameAddrs(a: seq<IP>, b: seq<IP>)
    requires Members(a) == Members(b)
    ensures AddrsOf(a) == AddrsOf(b) && (AllMapped(a) <==> AllMapped(b))
  {
    assert forall ip :: ip in a <==> ip in Members(b);
  }

  method CalcSubnetHosts(subnet: MacvlanSubnet) returns (r: Option<seq<IP>>)
    ensures r.Some? <==> SubnetHosts(subnet).Some?
    ensures r.Some? ==> Enumerates(r.value, SubnetHosts(subnet).value)
  {
    var hosts := CIDRtoHosts(subnet.spec.cidr);
    if hosts.None? {
      return None;
    }
    var listed := Contents(hosts.value);
    ghost var all := CIDRHosts(ParseCIDR(subnet.spec.cidr).value);
    EnumeratesAddrs(listed, all);
    var ranges := CalcHostsInRanges(subnet.spec.ranges);
    EmptyIffNoAddrs(ranges);
    if |ranges| != 0 {
      var usable := GetUsableHosts(listed, ranges);
      IntersectionAddrs(listed, ranges, usable);
      return Some(usable);
    }
    r := Some(listed);
  }

  lemma EmptyIffNoAddrs(ips: seq<IP>)
    requires AllMapped(ips)
    ensures |ips| == 0 <==> AddrsOf(ips) == {}
  {
    if |ips| > 0 {
      assert ips[0] in ips;
      assert AddrOf(ips[0]) in AddrsOf(ips);
    }
  }

  // ---------- free addresses ----------

  ghost function GatewayAddrs(subnet: Subnet): set<Addr> {
    AddrSet(subnet.spec.gateway)
  }

  /** The addresses still available in a subnet when those in used are recorded. */
  ghost function Free(subnet: Subnet, used: set<Addr>): set<Addr> {
    AllHosts(subnet) - (used + GatewayAddrs(subnet))
  }

  /** The hosts of a subnet, none if its CIDR text is malformed. */
  ghost function AllHosts(subnet: Subnet): set<Addr> {
    if SubnetHosts(subnet).Some? then SubnetHosts(subnet).value else {}
  }

  ghost function Least(s: set<Addr>): (m: Addr)
    requires s != {}
    ensures m in s && forall v | v in s :: m <= v
  {
    var x :| x in s;
    var rest := s - {x};
    assert forall v | v in s :: v == x || v in rest;
    if rest == {} then x
    else
      var m := Least(rest);
      if m < x then m else x
  }

  ghost function ChoiceOf(v: Addr, subnet: Subnet, mac: string): Choice {
    Choice(Mapped(v), ConvertIPtoCIDR(Mapped(v), subnet.spec.cidr), mac)
  }

  /** The used list an allocator builds: recorded addresses and the gateway. */
  method UsedWithGateway(items: seq<MacvlanIP>, subnet: MacvlanSubnet) returns (used: seq<IP>)
    ensures AddrsOf(used) == UsedBy(items) + GatewayAddrs(subnet)
  {
    var recorded := ConvertToIPList(items);
    AddrsOfNext(recorded, subnet.spec.gateway);
    used := recorded + [ParseIP(subnet.spec.gateway)];
  }

  // ---------- auto ----------

  ghost function AutoAlloc(subnet: Subnet, used: set<Addr>): Alloc {
    if Free(subnet, used) == {} then Failed(NoEnoughIP)
    else Allocated(ChoiceOf(Least(Free(subnet, used)), subnet, ""))
  }

  /** allocateAutoIP, after the records of the subnet have been listed. */
  method AllocateAutoIP(items: seq<MacvlanIP>, subnet: MacvlanSubnet) returns (r: Alloc)
    ensures r == AutoAlloc(subnet, UsedBy(items))
  {
    var used := UsedWithGateway(items, subnet);
    var calculated := CalcSubnetHosts(subnet);
    var hosts := if calculated.Some? then calculated.value else [];
    var usable := RemoveUsedHosts(hosts, used);
    if calculated.Some? {
      EnumeratesAddrs(hosts, SubnetHosts(subnet).value);
    }
    UsableIsFree(hosts, used, usable, Free(subnet, UsedBy(items)));
    if |usable| == 0 {
      return Failed(NoEnoughIP);
    }
    r := Allocated(Choice(usable[0], ConvertIPtoCIDR(usable[0], subnet.spec.cidr), ""));
  }

  lemma UsableIsFree(hosts: seq<IP>, used: seq<IP>, usable: seq<IP>, free: set<Addr>)
    requires AllMapped(hosts) && free == AddrsOf(hosts) - AddrsOf(used)
    requires Ascending(usable) && Members(usable) == Members(hosts) - Members(used)
    ensures |usable| == 0 <==> free == {}
    ensures |usable| > 0 ==> usable[0] == Mapped(Least(free))
  {
    ComplementAddrs(hosts, used, usable);
    EnumerationHead(usable, free);
    if |usable| > 0 {
      AddrRoundTrip(usable[0]);
      LeastUnique(free, AddrOf(usable[0]));
    }
  }

  lemma LeastUnique(s: set<Addr>, m: Addr)
    requires m in s && forall v | v in s :: m <= v
    ensures Least(s) == m
  {
    assert Least(s) in s;
  }

  /** Auto mode gives out the numerically least address that is a host of the subnet, not recorded and
      not the gateway, with a text that reads back as it; it fails exactly when there is none. */
  lemma AutoAllocIsLeast(subnet: Subnet, used: set<Addr>)
    ensures match AutoAlloc(subnet, used)
      case Failed(_) => forall v | v in AllHosts(subnet) :: v in used || v in GatewayAddrs(subnet)
      case Allocated(choice) =>
        && IsMapped(choice.ip) && RecordedAddr(choice.cidr) == Some(AddrOf(choice.ip)) && choice.mac == ""
        && AddrOf(choice.ip) in AllHosts(subnet)
        && AddrOf(choice.ip) !in used && AddrOf(choice.ip) !in GatewayAddrs(subnet)
        && forall v | v in AllHosts(subnet) && v !in used && v !in GatewayAddrs(subnet) :: AddrOf(choice.ip) <= v
  {
    var free := Free(subnet, used);
    assert forall v | v in AllHosts(subnet) && v !in used && v !in GatewayAddrs(subnet) :: v in free;
    if free != {} {
      var v := Least(free);
      MappedRoundTrip(v);
      RecordRoundTrip(v, subnet.spec.cidr);
    }
  }

  /** A host that no record holds and that is not the gateway, in terms of the subnet's texts. */
  ghost predicate IsAvailable(subnet: Subnet, c: CIDR, used: set<Addr>, v: Addr)
    requires c.bits <= 32
  {
    IsHostOf(subnet, c, v) && v !in used && ParseAddr(subnet.spec.gateway) != Some(v)
  }

  lemma FreeExactly(subnet: Subnet, c: CIDR, used: set<Addr>, v: Addr)
    requires ParseCIDR(subnet.spec.cidr) == Some(c)
    ensures v in Free(subnet, used) <==> IsAvailable(subnet, c, used, v)
  {
    HostsExactly(subnet, c, v);
  }

  /** Auto mode fails exactly if no address is available, and always for a malformed subnet. */
  lemma AutoFailsExactly(subnet: Subnet, used: set<Addr>)
    ensures AutoAlloc(subnet, used) == Failed(NoEnoughIP)
      <==> match ParseCIDR(subnet.spec.cidr)
           case None => true
           case Some(c) => forall v: Addr :: !IsAvailable(subnet, c, used, v)
    ensures AutoAlloc(subnet, used).Failed? ==> AutoAlloc(subnet, used) == Failed(NoEnoughIP)
  {
    if ParseCIDR(subnet.spec.cidr).Some? {
      forall v: Addr
        ensures v in Free(subnet, used) <==> IsAvailable(subnet, ParseCIDR(subnet.spec.cidr).value, used, v)
      {
        FreeExactly(subnet, ParseCIDR(subnet.spec.cidr).value, used, v);
      }
    }
  }

  lemma LeastAvailable(subnet: Subnet, c: CIDR, used: set<Addr>, v: Addr)
    requires ParseCIDR(subnet.spec.cidr) == Some(c)
    requires IsAvailable(subnet, c, used, v) && forall w: Addr | w < v :: !IsAvailable(subnet, c, used, w)
    ensures v in Free(subnet, used) && Least(Free(subnet, used)) == v
  {
    FreeExactly(subnet, c, used, v);
    var least := Least(Free(subnet, used));
    FreeExactly(subnet, c, used, least);
  }

  /** And otherwise it gives the least available address, without a hardware address, and records it with the prefix
      length of the subnet. */
  lemma AutoGivesExactly(subnet: Subnet, c: CIDR, used: set<Addr>, v: Addr)
    requires ParseCIDR(subnet.spec.cidr) == Some(c)
    requires IsAvailable(subnet, c, used, v) && forall w: Addr | w < v :: !IsAvailable(subnet, c, used, w)
    ensures AutoAlloc(subnet, used).Allocated?
    ensures var choice := AutoAlloc(subnet, used).choice;
      choice.ip == Mapped(v) && choice.mac == "" && ParseCIDR(choice.cidr) == Some(CIDR(v, c.bits))
  {
    LeastAvailable(subnet, c, used, v);
    RecordTextParses(v, subnet.spec.cidr, c);
  }

  /** With its bounds reversed a range no longer restricts anything: auto mode then gives out the least
      host of the whole block, which lies in no range. */
  lemma ReversedRangeIsIgnored(cidr: string, lo: Addr, hi: Addr)
    requires ParseCIDR(cidr).Some? && lo < hi && CIDRHosts(ParseCIDR(cidr).value) != {}
    ensures var subnet, v := ReversedRange(cidr, lo, hi), Least(CIDRHosts(ParseCIDR(cidr).value));
      AutoAlloc(subnet, {}) == Allocated(ChoiceOf(v, subnet, "")) && !Covers(subnet.spec.ranges, v)
  {
    var subnet := ReversedRange(cidr, lo, hi);
    var hosts := CIDRHosts(ParseCIDR(cidr).value);
    AddrTextRoundTrip(lo);
    AddrTextRoundTrip(hi);
    EmptyRanges(subnet.spec.ranges);
    SplitFree("", '.');
    assert GatewayAddrs(subnet) == {};
    RangeUnionMember(subnet.spec.ranges, Least(hosts));
    assert Free(subnet, {}) == hosts;
  }

  // ---------- single ----------

  predicate IsSingleIP(ip: string) {
    ParseIP(ip) != NIL_IP
  }

  method IsInHosts(h: seq<IP>, ip: IP) returns (found: bool)
    ensures found <==> ip in h
  {
    for i := 0 to |h|
      invariant ip !in h[..i]
    {
      CompareAntisymmetric(h[i], ip);
      if Compare(h[i], ip) == 0 {
        return true;
      }
    }
    found := false;
  }

  method CheckIPValidation(ip: IP, hosts: seq<IP>, used: seq<IP>) returns (err: Option<AllocError>)
    ensures err == if ip !in hosts then Some(NotInSubnet) else if ip in used then Some(AlreadyUsed) else None
  {
    var inHosts := IsInHosts(hosts, ip);
    if !inHosts {
      return Some(NotInSubnet);
    }
    var isUsed := IsInHosts(used, ip);
    err := if isUsed then Some(AlreadyUsed) else None;
  }

  /** A requested address is granted exactly when it is free; the error tells why not. */
  ghost function RequestedAlloc(subnet: Subnet, used: set<Addr>, text: string, mac: string): Alloc {
    match SubnetHosts(subnet)
    case None => Failed(BadSubnet)
    case Some(hosts) =>
      match ParseAddr(text)
      case None => Failed(NotInSubnet)
      case Some(v) =>
        if v !in hosts then Failed(NotInSubnet)
        else if v in used + GatewayAddrs(subnet) then Failed(AlreadyUsed)
        else Allocated(ChoiceOf(v, subnet, mac))
  }

  lemma RequestedIsFree(subnet: Subnet, used: set<Addr>, text: string, mac: string)
    ensures RequestedAlloc(subnet, used, text, mac).Allocated?
      <==> ParseAddr(text).Some? && ParseAddr(text).value in Free(subnet, used)
  {
  }

  /** What becomes of a requested text, in terms of the subnet's texts. */
  lemma RequestedExactly(subnet: Subnet, used: set<Addr>, text: string, mac: string)
    ensures match ParseCIDR(subnet.spec.cidr)
      case None => RequestedAlloc(subnet, used, text, mac) == Failed(BadSubnet)
      case Some(c) =>
        if ParseAddr(text).None? || !IsHostOf(subnet, c, ParseAddr(text).value) then
          RequestedAlloc(subnet, used, text, mac) == Failed(NotInSubnet)
        else if ParseAddr(text).value in used || ParseAddr(subnet.spec.gateway) == ParseAddr(text) then
          RequestedAlloc(subnet, used, text, mac) == Failed(AlreadyUsed)
        else
          && RequestedAlloc(subnet, used, text, mac).Allocated?
          && var choice := RequestedAlloc(subnet, used, text, mac).choice;
          && choice.ip == Mapped(ParseAddr(text).value) && choice.mac == mac
          && ParseCIDR(choice.cidr) == Some(CIDR(ParseAddr(text).value, c.bits))
  {
    if ParseCIDR(subnet.spec.cidr).Some? && ParseAddr(text).Some? {
      HostsExactly(subnet, ParseCIDR(subnet.spec.cidr).value, ParseAddr(text).value);
      RecordTextParses(ParseAddr(text).value, subnet.spec.cidr, ParseCIDR(subnet.spec.cidr).value);
    }
  }

  /** The check that allocateSingleIP and allocateMultipleIP share, on the listed records. */
  method AllocateRequestedIP(items: seq<MacvlanIP>, subnet: MacvlanSubnet, text: string, mac: string) returns (r: Alloc)
    ensures r == RequestedAlloc(subnet, UsedBy(items), text, mac)
  {
    var used := UsedWithGateway(items, subnet);
    var calculated := CalcSubnetHosts(subnet);
    if calculated.None? {
      return Failed(BadSubnet);
    }
    var hosts := calculated.value;
    var ip := ParseIP(text);
    EnumeratesAddrs(hosts, SubnetHosts(subnet).value);
    if ParseAddr(text).Some? {
      BytesDecideAddress(hosts, ParseAddr(text).value);
      BytesDecideAddress(used, ParseAddr(text).value);
    }
    var err := CheckIPValidation(ip, hosts, used);
    if err.Some? {
      return Failed(err.value);
    }
    r := Allocated(Choice(ip, ConvertIPtoCIDR(ip, subnet.spec.cidr), mac));
  }

  // ---------- list ----------

  lemma ListedMany(annotation: string)
    ensures |Listed(annotation)| >= 2 <==> '-' in annotation
  {
    TrimKeeps(annotation, ' ', '-');
    TrimKeeps(TrimLeft(annotation, ' '), ' ', '-');
    SplitMany(Trim(annotation, ' '), '-');
  }

  method IsMultipleIP(ip: string) returns (r: bool)
    ensures r <==> IsAddressList(ip)
  {
    ListedMany(ip);
    if '-' !in ip {
      return false;
    }
    var ips := Listed(ip);
    if |ips| < 2 {
      return false;
    }
    r := AllAddresses(ips);
  }

  /** The scan of isMultipleIP over the listed texts. */
  method AllAddresses(ips: seq<string>) returns (r: bool)
    ensures r <==> forall j :: 0 <= j < |ips| ==> ParseAddr(ips[j]).Some?
  {
    for i := 0 to |ips|
      invariant forall j :: 0 <= j < i ==> ParseAddr(ips[j]).Some?
    {
      if ParseIP(ips[i]) == NIL_IP {
        return false;
      }
    }
    r := true;
  }

  function Listed(annotation: string): (parts: seq<string>)
    ensures |parts| >= 1
  {
    Split(Trim(annotation, ' '), '-')
  }

  /** A list annotation: at least two texts joined by '-', each an address. */
  predicate IsAddressList(annotation: string) {
    |Listed(annotation)| >= 2 && forall t | t in Listed(annotation) :: ParseAddr(t).Some?
  }

  function ListedMacs(annotationMac: string): seq<string> {
    if '-' in annotationMac then Listed(annotationMac) else []
  }

  predicate CountsDiffer(annotationIP: string, annotationMac: string) {
    var macs := ListedMacs(annotationMac);
    macs != [] && |macs| != |Listed(annotationIP)|
  }

  /** The texts listed by an annotation are what it is joined from, with spaces around the whole ignored. */
  lemma ListedOf(i: nat, parts: seq<string>, j: nat)
    requires |parts| >= 1 && forall p | p in parts :: '-' !in p
    requires Bare(Join(parts, '-'), ' ')
    ensures Listed(Repeat(' ', i) + Join(parts, '-') + Repeat(' ', j)) == parts
  {
    TrimOf(i, Join(parts, '-'), j, ' ');
    SplitJoin(parts, '-');
  }

  lemma ListedJoined(annotation: string) returns (i: nat, j: nat)
    ensures annotation == Repeat(' ', i) + Join(Listed(annotation), '-') + Repeat(' ', j)
    ensures Bare(Join(Listed(annotation), '-'), ' ') && forall p | p in Listed(annotation) :: '-' !in p
  {
    i, j := TrimSurrounds(annotation, ' ');
    JoinSplit(Trim(annotation, ' '), '-');
    SplitParts(Trim(annotation, ' '), '-');
  }

  /** The addresses selected by labelled pods. */
  ghost function HeldBy(group: seq<Pod>): set<string> {
    set p | p in group && p.labels.selectedIP != "" :: p.labels.selectedIP
  }

  /** How many leading texts are held: the index of the first one that is not. */
  function FirstUnheld(texts: seq<string>, held: set<string>): (i: nat)
    ensures i <= |texts|
  {
    if |texts| == 0 || texts[0] !in held then 0 else 1 + FirstUnheld(texts[1..], held)
  }

  /** The last index at which a text occurs. */
  function LastIndex(texts: seq<string>, t: string): (i: nat)
    requires t in texts
    ensures i < |texts| && texts[i] == t
  {
    var n := |texts| - 1;
    if texts[n] == t then n
    else
      assert texts == texts[..n] + [texts[n]];
      LastIndex(texts[..n], t)
  }

  datatype Pick = Picked(text: string, mac: string) | NonePicked(error: AllocError)

  ghost function ListPick(annotationIP: string, annotationMac: string, held: set<string>): Pick {
    var texts, macs := Listed(annotationIP), ListedMacs(annotationMac);
    var i := FirstUnheld(texts, held);
    if CountsDiffer(annotationIP, annotationMac) then NonePicked(CountMismatch)
    else if i == |texts| then NonePicked(ListExhausted)
    else Picked(texts[i], if macs == [] then "" else macs[LastIndex(texts, texts[i])])
  }

  lemma {:induction false} FirstUnheldIsFirst(texts: seq<string>, held: set<string>)
    ensures forall j :: 0 <= j < FirstUnheld(texts, held) ==> texts[j] in held
    ensures FirstUnheld(texts, held) < |texts| ==> texts[FirstUnheld(texts, held)] !in held
  {
    if |texts| > 0 && texts[0] in held {
      FirstUnheldIsFirst(texts[1..], held);
      forall j | 1 <= j < FirstUnheld(texts, held)
        ensures texts[j] in held
      {
        assert texts[j] == texts[1..][j - 1];
      }
    }
  }

  lemma {:induction false} LastIndexIsLast(texts: seq<string>, t: string)
    requires t in texts
    ensures forall j :: LastIndex(texts, t) < j < |texts| ==> texts[j] != t
  {
    var n := |texts| - 1;
    if texts[n] != t {
      assert texts == texts[..n] + [texts[n]];
      LastIndexIsLast(texts[..n], t);
    }
  }

  /** t is the first of the texts that is not held. */
  ghost predicate EarliestUnheld(texts: seq<string>, held: set<string>, t: string) {
    t !in held && exists i :: 0 <= i < |texts| && texts[i] == t && forall j :: 0 <= j < i ==> texts[j] in held
  }

  /** mac is listed at the last place where t is. */
  ghost predicate PairedLast(texts: seq<string>, macs: seq<string>, t: string, mac: string) {
    |macs| == |texts|
    && exists k :: 0 <= k < |texts| && texts[k] == t && macs[k] == mac && forall j :: k < j < |texts| ==> texts[j] != t
  }

  /** List mode picks the earliest listed text that no labelled pod holds, with the hardware
      address at the last place where that text is listed; it fails exactly when the counts
      of a hardware address list differ or every listed text is held. */
  lemma ListPickEarliest(annotationIP: string, annotationMac: string, held: set<string>)
    ensures var texts, macs := Listed(annotationIP), ListedMacs(annotationMac);
      match ListPick(annotationIP, annotationMac, held)
      case NonePicked(_) => CountsDiffer(annotationIP, annotationMac) || forall t | t in texts :: t in held
      case Picked(t, mac) =>
        !CountsDiffer(annotationIP, annotationMac) && EarliestUnheld(texts, held, t)
        && (if macs == [] then mac == "" else PairedLast(texts, macs, t, mac))
  {
    var texts := Listed(annotationIP);
    FirstUnheldIsFirst(texts, held);
    var i := FirstUnheld(texts, held);
    if i < |texts| {
      LastIndexIsLast(texts, texts[i]);
      var k := LastIndex(texts, texts[i]);
      assert texts[k] == texts[i];
    }
  }

  /** Counts are compared only if the hardware address annotation holds a dash. */
  lemma CountMismatchExactly(annotationIP: string, annotationMac: string, held: set<string>)
    ensures ListPick(annotationIP, annotationMac, held) == NonePicked(CountMismatch)
      <==> '-' in annotationMac
           && |Split(Trim(annotationMac, ' '), '-')| != |Split(Trim(annotationIP, ' '), '-')|
  {
    ListedMany(annotationMac);
  }

  /** Without a dash the annotation plays no part: the pick is the earliest text that is not held, without a
      hardware address, and there is none only if all texts are held. */
  lemma PickWithoutMacs(annotationIP: string, annotationMac: string, held: set<string>)
    requires '-' !in annotationMac
    ensures match ListPick(annotationIP, annotationMac, held)
      case Picked(t, mac) => mac == "" && EarliestUnheld(Split(Trim(annotationIP, ' '), '-'), held, t)
      case NonePicked(error) =>
        error == ListExhausted && forall t | t in Split(Trim(annotationIP, ' '), '-') :: t in held
  {
    ListPickEarliest(annotationIP, annotationMac, held);
  }

  /** With a dash and matching counts the pick is paired with the hardware address at its last place. */
  lemma PickWithMacs(annotationIP: string, annotationMac: string, held: set<string>)
    requires '-' in annotationMac
    requires |Split(Trim(annotationMac, ' '), '-')| == |Split(Trim(annotationIP, ' '), '-')|
    ensures var texts, macs := Split(Trim(annotationIP, ' '), '-'), Split(Trim(annotationMac, ' '), '-');
      match ListPick(annotationIP, annotationMac, held)
      case Picked(t, mac) => EarliestUnheld(texts, held, t) && PairedLast(texts, macs, t, mac)
      case NonePicked(error) => error == ListExhausted && forall t | t in texts :: t in held
  {
    ListPickEarliest(annotationIP, annotationMac, held);
  }

  /** allocateMultipleIP up to the choice of a text, given the listed pods of the group. */
  method SelectListedIP(annotationIP: string, annotationMac: string, group: seq<Pod>) returns (r: Pick)
    ensures r == ListPick(annotationIP, annotationMac, HeldBy(group))
  {
    var macs: seq<string> := [];
    var ips := Listed(annotationIP);
    if '-' in annotationMac {
      macs := Listed(annotationMac);
      if |macs| != |ips| {
        return NonePicked(CountMismatch);
      }
    }
    var ipUnused, ipToMac := IndexListed(ips, macs);
    ipUnused := MarkHeld(ipUnused, group);
    ghost var held := HeldBy(group);
    FirstUnheldIsFirst(ips, held);
    for i := 0 to |ips|
      invariant forall j :: 0 <= j < i ==> ips[j] in held
    {
      assert ips[i] in Entries(ips);
      if ipUnused[ips[i]] {
        assert i == FirstUnheld(ips, held);
        return Picked(ips[i], if |macs| != 0 then ipToMac[ips[i]] else "");
      }
    }
    r := NonePicked(ListExhausted);
  }

  /** The pass of allocateMultipleIP over the labelled pods. */
  method MarkHeld(unused: map<string, bool>, group: seq<Pod>) returns (ipUnused: map<string, bool>)
    requires forall t | t in unused :: unused[t]
    ensures ipUnused.Keys == unused.Keys
    ensures forall t | t in ipUnused :: ipUnused[t] <==> t !in HeldBy(group)
    ensures forall t | t in ipUnused :: ipUnused[t] <==> t == "" || forall p | p in group :: p.labels.selectedIP != t
  {
    ipUnused := unused;
    for i := 0 to |group|
      invariant ipUnused.Keys == unused.Keys
      invariant forall t | t in ipUnused :: ipUnused[t] <==> t !in HeldBy(group[..i])
    {
      HeldByNext(group, i);
      var labelIP := group[i].labels.selectedIP;
      if labelIP != "" && labelIP in ipUnused && ipUnused[labelIP] {
        ipUnused := ipUnused[labelIP := false];
      }
    }
    assert group[..|group|] == group;
  }

  ghost function Entries(texts: seq<string>): set<string> {
    set t | t in texts
  }

  lemma HeldByNext(group: seq<Pod>, i: nat)
    requires i < |group|
    ensures HeldBy(group[..i + 1])
      == HeldBy(group[..i]) + (if group[i].labels.selectedIP == "" then {} else {group[i].labels.selectedIP})
  {
    assert group[..i + 1] == group[..i] + [group[i]];
  }

  /** The two maps allocateMultipleIP fills: every text unused, and the hardware address stored last for it. */
  method IndexListed(ips: seq<string>, macs: seq<string>)
    returns (ipUnused: map<string, bool>, ipToMac: map<string, string>)
    requires macs == [] || |macs| == |ips|
    ensures ipUnused.Keys == Entries(ips) && forall t | t in ipUnused :: ipUnused[t]
    ensures macs != [] ==> ipToMac.Keys == Entries(ips) && forall t | t in ips :: ipToMac[t] == macs[LastIndex(ips, t)]
  {
    ipUnused, ipToMac := map[], map[];
    for i := 0 to |ips|
      invariant ipUnused.Keys == Entries(ips[..i]) && forall t | t in ipUnused :: ipUnused[t]
      invariant macs != [] ==> ipToMac.Keys == Entries(ips[..i])
      invariant macs != [] ==> forall t | t in ips[..i] :: ipToMac[t] == macs[LastIndex(ips[..i], t)]
    {
      assert ips[..i + 1] == ips[..i] + [ips[i]] && ips[..i + 1][..i] == ips[..i];
      ipUnused := ipUnused[ips[i] := true];
      if |macs| != 0 {
        ipToMac := ipToMac[ips[i] := macs[i]];
      }
    }
    assert ips[..|ips|] == ips;
  }
}
