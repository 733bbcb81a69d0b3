/** The default gateway, from its text in the subnet to the records that never hold it. */
module Gateway {
  import opened Bytes
  import opened Text
  import opened Subnetting
  import opened Ipcalc
  import opened Types
  import opened Ipalloc
  import opened Protocol
  import opened Uniqueness
  import opened Controller

  /** The gateway stored by the Add event is read back as the first address of the block above its base,
      and as no address at all if the CIDR text is malformed. */
  lemma StoredGatewayReadsBack(subnet: Subnet)
    requires subnet.spec.gateway == ""
    ensures GatewayAddrs(WithDefaults(subnet))
      == match ParseCIDR(subnet.spec.cidr)
         case Some(c) => {DefaultGateway(c)}
         case None => {}
  {
    if ParseCIDR(subnet.spec.cidr).Some? {
      AddrTextRoundTrip(DefaultGateway(ParseCIDR(subnet.spec.cidr).value));
    } else {
      SplitFree("<nil>", '.');
    }
  }

  /** Handling the Add event again, as after every restart, changes nothing. */
  lemma DefaultsAreIdempotent(subnet: Subnet)
    ensures WithDefaults(WithDefaults(subnet)) == WithDefaults(subnet)
  {
    var once := WithDefaults(subnet);
    assert once.spec.gateway != "";
    assert WithDefaults(once).labels == once.labels;
  }

  /** After the Add event a subnet still has no gateway address exactly if its gateway was set to a text that is no
      address, or was unset with a malformed CIDR text. */
  lemma DefaultsMaySetNone(subnet: Subnet)
    ensures GatewayAddrs(WithDefaults(subnet)) == {}
      <==> if subnet.spec.gateway == "" then ParseCIDR(subnet.spec.cidr).None? else ParseAddr(subnet.spec.gateway).None?
  {
    if subnet.spec.gateway == "" {
      StoredGatewayReadsBack(subnet);
    }
  }

  /** Such a text is any address in CIDR notation: the Add event leaves it alone, and it rules out nothing. */
  lemma CIDRGatewayRulesOutNothing(subnet: Subnet, v: Addr, bits: nat)
    requires subnet.spec.gateway == CIDRText(v, bits)
    ensures WithDefaults(subnet).spec == subnet.spec && GatewayAddrs(WithDefaults(subnet)) == {}
  {
    CIDRTextIsNoAddr(v, bits);
  }

  /** No mode of allocation gives out the gateway of the copy of the subnet that the worker has read. */
  lemma GatewayNeverAllocated(worker: Worker, used: set<Addr>, choice: Choice)
    requires worker.WithSubnet? || worker.Grouped?
    requires AllocFor(worker, used) == Some(Allocated(choice))
    ensures IsMapped(choice.ip) && AddrOf(choice.ip) !in GatewayAddrs(worker.subnet)
  {
    AllocatedIsFree(worker, used, choice);
  }

  // ---------- while the subnet has no gateway address: it is unset, or its text is none ----------

  lemma UnsetGateway(subnet: Subnet, used: set<Addr>)
    requires ParseAddr(subnet.spec.gateway).None?
    ensures Free(subnet, used) == AllHosts(subnet) - used
  {
    assert GatewayAddrs(subnet) == {};
  }

  /** The only host below the default gateway is the base of the block, if it is a host at all. */
  lemma HostsUpToGateway(subnet: Subnet, c: CIDR)
    requires ParseCIDR(subnet.spec.cidr) == Some(c) && DefaultGateway(c) in AllHosts(subnet)
    ensures Base(c.addr, c.bits) < DefaultGateway(c)
    ensures forall v | v in AllHosts(subnet) && v <= DefaultGateway(c) ::
      v == DefaultGateway(c) || v == Base(c.addr, c.bits)
  {
    DefaultGatewayIsHost(c);
    assert DefaultGateway(c) in CIDRHosts(c);
    forall v | v in AllHosts(subnet) && v <= DefaultGateway(c)
      ensures v == DefaultGateway(c) || v == Base(c.addr, c.bits)
    {
      assert v in CIDRHosts(c);
    }
  }

  lemma LeastUnused(hosts: set<Addr>, used: set<Addr>, g: Addr, b: Addr)
    requires g in hosts ==> b < g && forall v | v in hosts && v <= g :: v == g || v == b
    ensures g in hosts - used && (forall w | w in hosts - used :: g <= w)
      <==> g in hosts && g !in used && (b in hosts ==> b in used)
  {
    if b in hosts && b !in used {
      assert b in hosts - used;
    }
    forall w | w in hosts - used && g in hosts && w < g
      ensures w == b
    {
      assert w in hosts;
    }
  }

  lemma AutoGives(subnet: Subnet, used: set<Addr>, v: Addr)
    ensures AutoAlloc(subnet, used) == Allocated(ChoiceOf(v, subnet, ""))
      <==> v in Free(subnet, used) && forall w | w in Free(subnet, used) :: v <= w
  {
    var free := Free(subnet, used);
    if free != {} {
      MappedOrder(v, Least(free));
      if v in free && forall w | w in free :: v <= w {
        LeastUnique(free, v);
      }
    }
  }

  /** Whatever is recorded and whatever the ranges are, auto mode gives out the default gateway that is not ruled out
      exactly when it is a host that is not recorded and the base of the block is recorded or no host. */
  lemma UnsetGatewayIsTaken(subnet: Subnet, c: CIDR, used: set<Addr>)
    requires ParseCIDR(subnet.spec.cidr) == Some(c) && ParseAddr(subnet.spec.gateway).None?
    ensures AutoAlloc(subnet, used) == Allocated(ChoiceOf(DefaultGateway(c), subnet, ""))
      <==> DefaultGateway(c) in AllHosts(subnet) && DefaultGateway(c) !in used
           && (Base(c.addr, c.bits) in AllHosts(subnet) ==> Base(c.addr, c.bits) in used)
  {
    UnsetGateway(subnet, used);
    AutoGives(subnet, used, DefaultGateway(c));
    if DefaultGateway(c) in AllHosts(subnet) {
      HostsUpToGateway(subnet, c);
    }
    LeastUnused(AllHosts(subnet), used, DefaultGateway(c), Base(c.addr, c.bits));
  }

  /** So some set of records makes auto mode give it out exactly when it is a host of the subnet. */
  lemma UnsetGatewayCanBeTaken(subnet: Subnet, c: CIDR)
    requires ParseCIDR(subnet.spec.cidr) == Some(c) && ParseAddr(subnet.spec.gateway).None?
    ensures (exists used :: AutoAlloc(subnet, used) == Allocated(ChoiceOf(DefaultGateway(c), subnet, "")))
      <==> DefaultGateway(c) in AllHosts(subnet)
  {
    forall used
      ensures AutoAlloc(subnet, used) == Allocated(ChoiceOf(DefaultGateway(c), subnet, ""))
        ==> DefaultGateway(c) in AllHosts(subnet)
    {
      UnsetGatewayIsTaken(subnet, c, used);
    }
    if DefaultGateway(c) in AllHosts(subnet) {
      HostsUpToGateway(subnet, c);
      UnsetGatewayIsTaken(subnet, c, {Base(c.addr, c.bits)});
    }
  }

  /** A pod that asks for an address, alone or in a list, is given that default gateway exactly when
      the text denotes it and it is a host that is not recorded. */
  lemma UnsetGatewayIsGranted(subnet: Subnet, c: CIDR, used: set<Addr>, text: string, mac: string)
    requires ParseCIDR(subnet.spec.cidr) == Some(c) && ParseAddr(subnet.spec.gateway).None?
    ensures RequestedAlloc(subnet, used, text, mac) == Allocated(ChoiceOf(DefaultGateway(c), subnet, mac))
      <==> ParseAddr(text) == Some(DefaultGateway(c))
           && DefaultGateway(c) in AllHosts(subnet) && DefaultGateway(c) !in used
  {
    UnsetGateway(subnet, used);
    RequestedIsFree(subnet, used, text, mac);
    if RequestedAlloc(subnet, used, text, mac).Allocated? {
      MappedOrder(ParseAddr(text).value, DefaultGateway(c));
    }
  }

  /** The first auto allocation of a plain block takes that default gateway if the block starts on a
      multiple of 256, and never otherwise. */
  lemma FirstAutoTakesGateway(subnet: Subnet, c: CIDR)
    requires ParseCIDR(subnet.spec.cidr) == Some(c) && c.bits <= 30
    requires ParseAddr(subnet.spec.gateway).None? && subnet.spec.ranges == []
    ensures Free(subnet, {}) != {}
    ensures Least(Free(subnet, {})) == DefaultGateway(c) <==> Base(c.addr, c.bits) % 0x100 == 0
  {
    BaseIsBase(c.addr, c.bits);
    UnsetGateway(subnet, {});
    assert RangeUnion(subnet.spec.ranges) == {};
    assert AllHosts(subnet) - {} == CIDRHosts(c);
    var m := LeastHostOfBlock(Base(c.addr, c.bits), c.bits);
    LeastUnique(Free(subnet, {}), m);
  }

  lemma LeastHostOfBlock(base: Addr, bits: nat) returns (m: Addr)
    requires bits <= 30 && Base(base, bits) == base
    ensures After(base, 1) == base + 1 && m == if base % 0x100 == 0 then base + 1 else base
    ensures m in BlockHosts(base, bits) && forall v | v in BlockHosts(base, bits) :: m <= v
  {
    FirstHosts(base, bits);
    m := LeastHost(base, base + BlockSize(bits));
  }

  lemma FirstHosts(base: Addr, bits: nat)
    requires bits <= 30 && Base(base, bits) == base
    ensures BlockSize(bits) >= 4 && base % 0x100 != 0xFF && After(base, 1) == base + 1
    ensures base + 1 < 0x1_0000_0000 && !Skipped(base + 1)
  {
    GatewayFits(base, bits);
    BaseIsNotBroadcast(base, bits);
  }

  lemma LeastHost(base: Addr, end: int) returns (m: Addr)
    requires base + 4 <= end && base % 0x100 != 0xFF && base + 1 < 0x1_0000_0000 && !Skipped(base + 1)
    ensures m == if base % 0x100 == 0 then base + 1 else base
    ensures m in HostsBetween(base, end) && forall v | v in HostsBetween(base, end) :: m <= v
  {
    m := if base % 0x100 == 0 then base + 1 else base;
  }

  lemma BaseIsNotBroadcast(base: Addr, bits: nat)
    requires bits <= 30 && Base(base, bits) == base
    ensures base % 0x100 != 0xFF
  {
    var k := BaseIsMultiple(base, bits);
    Pow2Add(30 - bits, 2);
    assert Pow2(2) == 4;
    MultiplyAssociates(k, Pow2(30 - bits), 4);
    MultipleIsNotBroadcast(base, k * Pow2(30 - bits));
  }

  lemma MultipleIsNotBroadcast(base: Addr, t: int)
    requires base == t * 4
    ensures base % 0x100 != 0xFF
  {
  }
}
