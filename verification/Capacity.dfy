/** As long as no version of a subnet frees an address outside a given one, its records hold addresses of that
    one only, so there are never more of them than addresses. */
module Capacity {
  import opened Bytes
  import opened Text
  import opened Types
  import opened Ipalloc
  import opened Protocol
  import opened Uniqueness

  predicate HasSubnet(worker: Worker) {
    worker.WithSubnet? || worker.Grouped? || Carrying(worker)
  }

  /** Whenever the run writes the subnet, what it writes frees no address that subnet does not. In particular
      it may write the same spec again, with other labels; and the subnet may be deleted and written again. */
  ghost predicate KeepsWithin(acts: seq<Action>, subnet: Subnet) {
    forall a | a in acts :: KeepsWithinStep(a, subnet)
  }

  ghost predicate KeepsWithinStep(a: Action, subnet: Subnet) {
    a.SubnetWritten? && a.subnet.name == subnet.name ==> Free(a.subnet, {}) <= Free(subnet, {})
  }

  lemma SameSpecIsWithin(subnet: Subnet, other: Subnet)
    requires subnet.spec == other.spec
    ensures Free(other, {}) <= Free(subnet, {})
  {
  }

  predicate NeverWrites(acts: seq<Action>, name: string) {
    forall a | a in acts && a.SubnetWritten? :: a.subnet.name != name
  }

  /** Subnets are stored under their own names. */
  ghost predicate Named(subnets: map<string, MacvlanSubnet>) {
    forall n | n in subnets :: subnets[n].name == n
  }

  lemma {:induction false} RunNamed(n: nat, acts: seq<Action>)
    ensures Named(Run(Init(n), acts).cluster.subnets)
  {
    if |acts| > 0 {
      RunNamed(n, acts[..|acts| - 1]);
      SubnetsStep(Run(Init(n), acts[..|acts| - 1]), acts[|acts| - 1]);
    }
  }

  ghost predicate RecordsFit(records: map<Key, MacvlanIP>, subnet: MacvlanSubnet) {
    forall k | k in records && records[k].subnetLabel == subnet.name :: AddrAt(records, k) in Free(subnet, {})
  }

  /** The worker carries an address of the subnet, or has a copy that frees no others. */
  ghost predicate WorkerFits(worker: Worker, subnet: MacvlanSubnet) {
    HasSubnet(worker) && worker.subnet.name == subnet.name ==>
      if Carrying(worker) then TextAddr(worker.choice.cidr) in Free(subnet, {})
      else Free(worker.subnet, {}) <= Free(subnet, {})
  }

  /** If the subnet is stored at all, then freeing no others. */
  ghost predicate StoresWithin(s: State, subnet: MacvlanSubnet) {
    && Named(s.cluster.subnets)
    && (subnet.name in s.cluster.subnets ==> Free(s.cluster.subnets[subnet.name], {}) <= Free(subnet, {}))
  }

  ghost predicate Fits(s: State, subnet: MacvlanSubnet) {
    && StoresWithin(s, subnet)
    && RecordsFit(s.cluster.records, subnet)
    && forall i | 0 <= i < |s.workers| :: WorkerFits(s.workers[i], subnet)
  }

  /** No record and no worker refers to a subnet of this name. */
  ghost predicate Unreferenced(s: State, name: string) {
    && (forall k | k in s.cluster.records :: s.cluster.records[k].subnetLabel != name)
    && forall i | 0 <= i < |s.workers| && HasSubnet(s.workers[i]) :: s.workers[i].subnet.name != name
  }

  /** Nothing refers to the subnet yet. */
  ghost predicate Fresh(s: State, subnet: MacvlanSubnet) {
    StoresWithin(s, subnet) && Unreferenced(s, subnet.name)
  }

  lemma FreshFits(s: State, subnet: MacvlanSubnet)
    requires Fresh(s, subnet)
    ensures Fits(s, subnet)
  {
  }

  // ---------- subnets that have just been written ----------

  ghost predicate Unknown(s: State, name: string) {
    Named(s.cluster.subnets) && name !in s.cluster.subnets && Unreferenced(s, name)
  }

  lemma UnknownStep(s: State, a: Action, s': State, name: string)
    requires s' == Step(s, a) && |s'.workers| == |s.workers|
    requires Unknown(s, name) && !(a.SubnetWritten? && a.subnet.name == name)
    ensures Unknown(s', name)
  {
    SubnetsStep(s, a);
    RecordsStep(s, a);
    forall i | 0 <= i < |s'.workers| && HasSubnet(s'.workers[i])
      ensures s'.workers[i].subnet.name != name
    {
      SubnetOfWorker(s, a, s', i);
    }
  }

  lemma {:induction false} RunUnknown(n: nat, acts: seq<Action>, name: string)
    requires NeverWrites(acts, name)
    ensures Unknown(Run(Init(n), acts), name)
  {
    if |acts| > 0 {
      var s := Run(Init(n), acts[..|acts| - 1]);
      RunUnknown(n, acts[..|acts| - 1], name);
      StepKeepsWorkerCount(s, acts[|acts| - 1]);
      UnknownStep(s, acts[|acts| - 1], Run(Init(n), acts), name);
    }
  }

  /** A subnet is fresh in any run that has not written it yet, and when it then has just been written. */
  lemma FreshAfterWrite(n: nat, acts: seq<Action>, subnet: MacvlanSubnet)
    requires NeverWrites(acts, subnet.name)
    ensures Fresh(Run(Init(n), acts), subnet)
    ensures Fresh(Run(Init(n), acts + [SubnetWritten(subnet)]), subnet)
  {
    RunUnknown(n, acts, subnet.name);
    RunNext(Init(n), acts, SubnetWritten(subnet));
    EnvironmentStep(Run(Init(n), acts), SubnetWritten(subnet));
  }

  // ---------- the invariant ----------

  /** A worker learns its subnet from the store, and keeps it. */
  lemma SubnetOfWorker(s: State, a: Action, s': State, i: nat)
    requires s' == Step(s, a) && |s'.workers| == |s.workers| && i < |s.workers| && HasSubnet(s'.workers[i])
    ensures (HasSubnet(s.workers[i]) && s.workers[i].subnet == s'.workers[i].subnet)
      || (s'.workers[i].WithSubnet? && exists n ::
        n in s.cluster.subnets && s.cluster.subnets[n] == s'.workers[i].subnet)
  {
    if !a.GetSubnet? {
      SubnetKept(s, a, s', i);
    }
  }

  lemma SubnetKept(s: State, a: Action, s': State, i: nat)
    requires s' == Step(s, a) && |s'.workers| == |s.workers| && i < |s.workers| && HasSubnet(s'.workers[i])
    requires !a.GetSubnet?
    ensures HasSubnet(s.workers[i]) && s.workers[i].subnet == s'.workers[i].subnet
  {
    if OfWorker(a) {
    }
  }

  lemma StoresWithinStep(s: State, a: Action, subnet: MacvlanSubnet)
    requires StoresWithin(s, subnet) && KeepsWithinStep(a, subnet)
    ensures StoresWithin(Step(s, a), subnet)
  {
    SubnetsStep(s, a);
  }

  lemma FreeIsMonotone(subnet: Subnet, used: set<Addr>)
    ensures Free(subnet, used) <= Free(subnet, {})
  {
  }

  /** A worker that carries an address does not go back to choosing one in the same sync. */
  lemma UndecidedBefore(s: State, a: Action, s': State, i: nat)
    requires s' == Step(s, a) && |s'.workers| == |s.workers| && i < |s.workers|
    requires HasSubnet(s.workers[i]) && HasSubnet(s'.workers[i]) && !Carrying(s'.workers[i])
    ensures !Carrying(s.workers[i])
  {
    if a.GetSubnet? {
    } else if OfWorker(a) {
    }
  }

  lemma ChoiceFits(worker: Worker, used: set<Addr>, choice: Choice, subnet: Subnet)
    requires (worker.WithSubnet? || worker.Grouped?) && Free(worker.subnet, {}) <= Free(subnet, {})
    requires AllocFor(worker, used) == Some(Allocated(choice))
    ensures TextAddr(choice.cidr) in Free(subnet, {})
  {
    AllocatedIsFree(worker, used, choice);
    FreeIsMonotone(worker.subnet, used);
  }

  lemma CarryFits(s: State, a: Action, s': State, i: nat, subnet: MacvlanSubnet)
    requires s' == Step(s, a) && |s'.workers| == |s.workers| && i < |s.workers|
    requires WorkerFits(s.workers[i], subnet) && Carrying(s'.workers[i])
    ensures WorkerFits(s'.workers[i], subnet)
  {
    var before, after := s.workers[i], s'.workers[i];
    CarryStep(s, a, i);
    if !Carrying(before) {
      ListRecordsStep(s, i, a.ok);
      if before.subnet.name == subnet.name {
        ChoiceFits(before, ListedUsed(s, before, a.ok), after.choice, subnet);
      }
    }
  }

  lemma CopyFits(s: State, a: Action, s': State, i: nat, subnet: MacvlanSubnet)
    requires s' == Step(s, a) && |s'.workers| == |s.workers| && i < |s.workers|
    requires StoresWithin(s, subnet) && WorkerFits(s.workers[i], subnet)
    requires HasSubnet(s'.workers[i]) && !Carrying(s'.workers[i]) && s'.workers[i].subnet.name == subnet.name
    ensures Free(s'.workers[i].subnet, {}) <= Free(subnet, {})
  {
    SubnetOfWorker(s, a, s', i);
    if HasSubnet(s.workers[i]) && s.workers[i].subnet == s'.workers[i].subnet {
      UndecidedBefore(s, a, s', i);
    }
  }

  lemma WorkerFitsStep(s: State, a: Action, s': State, i: nat, subnet: MacvlanSubnet)
    requires s' == Step(s, a) && |s'.workers| == |s.workers| && i < |s.workers|
    requires StoresWithin(s, subnet) && WorkerFits(s.workers[i], subnet)
    ensures WorkerFits(s'.workers[i], subnet)
  {
    var after := s'.workers[i];
    if Carrying(after) {
      CarryFits(s, a, s', i, subnet);
    } else if HasSubnet(after) && after.subnet.name == subnet.name {
      CopyFits(s, a, s', i, subnet);
    }
  }

  lemma RecordsFitStep(s: State, a: Action, subnet: MacvlanSubnet)
    requires RecordsFit(s.cluster.records, subnet)
    requires CreatesRecord(s, a) ==> WorkerFits(s.workers[a.w], subnet)
    ensures RecordsFit(Step(s, a).cluster.records, subnet)
  {
    RecordsStep(s, a);
  }

  lemma {:induction false} RunFits(s: State, acts: seq<Action>, subnet: MacvlanSubnet)
    requires Fits(s, subnet) && KeepsWithin(acts, subnet)
    ensures Fits(Run(s, acts), subnet)
  {
    if |acts| > 0 {
      var front, a := acts[..|acts| - 1], acts[|acts| - 1];
      RunFits(s, front, subnet);
      var t := Run(s, front);
      var t' := Step(t, a);
      StoresWithinStep(t, a, subnet);
      RecordsFitStep(t, a, subnet);
      StepKeepsWorkerCount(t, a);
      forall i | 0 <= i < |t'.workers|
        ensures WorkerFits(t'.workers[i], subnet)
      {
        WorkerFitsStep(t, a, t', i, subnet);
      }
    }
  }

  /** From a time when records, workers and store fit the subnet, and for any number of workers and any
      failures, its records hold only hosts of the subnet and never its gateway. */
  lemma RecordsStayInSubnet(s: State, acts: seq<Action>, subnet: MacvlanSubnet)
    requires Fits(s, subnet) && KeepsWithin(acts, subnet)
    ensures RecordsFit(Run(s, acts).cluster.records, subnet)
  {
    RunFits(s, acts, subnet);
  }

  // ---------- counting ----------

  ghost function KeysOf(records: map<Key, MacvlanIP>, name: string): set<Key> {
    set k | k in records && records[k].subnetLabel == name
  }

  lemma SubsetSize<T>(a: set<T>, b: set<T>)
    requires a <= b
    ensures |a| <= |b| && (|a| == |b| <==> a == b)
  {
    assert b == a + (b - a);
    if |a| == |b| {
      assert |b - a| == 0;
    }
  }

  ghost function AddrsAt(records: map<Key, MacvlanIP>, keys: set<Key>): set<Addr>
    requires keys <= records.Keys
  {
    set k | k in keys :: AddrAt(records, k)
  }

  lemma {:induction false} DistinctAddrs(records: map<Key, MacvlanIP>, keys: set<Key>)
    requires keys <= records.Keys
    requires forall j, k | j in keys && k in keys && j != k :: AddrAt(records, j) != AddrAt(records, k)
    ensures |AddrsAt(records, keys)| == |keys|
    decreases keys
  {
    if keys != {} {
      var k :| k in keys;
      DistinctAddrs(records, keys - {k});
      assert AddrsAt(records, keys) == AddrsAt(records, keys - {k}) + {AddrAt(records, k)};
      assert AddrAt(records, k) !in AddrsAt(records, keys - {k});
    }
  }

  /** In a unique store a subnet has as many records as recorded addresses. */
  lemma RecordCount(records: map<Key, MacvlanIP>, name: string)
    requires Readable(records) && Unique(records)
    ensures |KeysOf(records, name)| == |RecordedIn(records, name)|
  {
    DistinctAddrs(records, KeysOf(records, name));
    RecordedIsAddrsAt(records, name);
  }

  lemma RecordedIsAddrsAt(records: map<Key, MacvlanIP>, name: string)
    requires Readable(records)
    ensures RecordedIn(records, name) == AddrsAt(records, KeysOf(records, name))
  {
    var keys := KeysOf(records, name);
    forall v | v in RecordedIn(records, name)
      ensures v in AddrsAt(records, keys)
    {
      var k :| k in records && records[k].subnetLabel == name && RecordedAddr(records[k].spec.cidr) == Some(v);
      assert k in keys && AddrAt(records, k) == v;
    }
    forall v | v in AddrsAt(records, keys)
      ensures v in RecordedIn(records, name)
    {
      var k :| k in keys && AddrAt(records, k) == v;
      RecordedInAddr(records, k);
    }
  }

  /** With one worker and successful Lists a subnet never has more records than it has
      addresses besides its gateway, and an auto sync is refused exactly when it has as many. */
  lemma RecordsNeverExceedCapacity(before: seq<Action>, acts: seq<Action>, subnet: MacvlanSubnet)
    requires Fits(Run(Init(1), before), subnet) && KeepsWithin(acts, subnet)
    requires ListsSucceed(before + acts)
    ensures var records := Run(Init(1), before + acts).cluster.records;
      && |KeysOf(records, subnet.name)| <= |Free(subnet, {})|
      && (AutoAlloc(subnet, RecordedIn(records, subnet.name)).Failed?
          <==> |KeysOf(records, subnet.name)| == |Free(subnet, {})|)
  {
    var s := Run(Init(1), before + acts);
    var used := RecordedIn(s.cluster.records, subnet.name);
    RunInv(1, before + acts);
    RunAppend(Init(1), before, acts);
    RecordsStayInSubnet(Run(Init(1), before), acts, subnet);
    RecordCount(s.cluster.records, subnet.name);
    UsedWithinFree(s.cluster.records, subnet);
    SubsetSize(used, Free(subnet, {}));
    assert Free(subnet, used) == Free(subnet, {}) - used;
  }

  lemma UsedWithinFree(records: map<Key, MacvlanIP>, subnet: MacvlanSubnet)
    requires Readable(records) && RecordsFit(records, subnet)
    ensures RecordedIn(records, subnet.name) <= Free(subnet, {})
  {
    forall k | k in records && records[k].subnetLabel == subnet.name
      ensures AddrAt(records, k) in Free(subnet, {})
    {
    }
  }
}
