/** No two records of one subnet hold the same address: the invariant of the one-worker system,
    and why one worker and successful Lists are needed. */
module Uniqueness {
  import opened Bytes
  import opened Text
  import opened Types
  import opened Ipalloc
  import opened Protocol

  /** The text of every record reads back as an address. */
  ghost predicate Readable(records: map<Key, MacvlanIP>) {
    forall k | k in records :: RecordedAddr(records[k].spec.cidr).Some?
  }

  /** The address that a record text reads back as; 0 for a text that reads back as none. */
  ghost function TextAddr(cidr: string): Addr {
    match RecordedAddr(cidr)
    case Some(v) => v
    case None => 0
  }

  ghost function AddrAt(records: map<Key, MacvlanIP>, k: Key): Addr
    requires k in records
  {
    TextAddr(records[k].spec.cidr)
  }

  /** Records of one subnet hold pairwise different addresses, across all namespaces. */
  ghost predicate Unique(records: map<Key, MacvlanIP>) {
    forall j, k | j in records && k in records && j != k && records[j].subnetLabel == records[k].subnetLabel
      :: AddrAt(records, j) != AddrAt(records, k)
  }

  /** A choice is an address with the record text that reads back as it. */
  ghost predicate GoodChoice(choice: Choice) {
    IsMapped(choice.ip) && RecordedAddr(choice.cidr) == Some(AddrOf(choice.ip))
  }

  ghost predicate GoodCarries(s: State) {
    forall i | 0 <= i < |s.workers| && Carrying(s.workers[i]) :: GoodChoice(s.workers[i].choice)
  }

  /** No record of the worker's subnet holds the address it carries. */
  ghost predicate AbsentFor(records: map<Key, MacvlanIP>, worker: Worker)
    requires Carrying(worker)
  {
    forall k | k in records && records[k].subnetLabel == worker.subnet.name
      :: AddrAt(records, k) != TextAddr(worker.choice.cidr)
  }

  ghost predicate CarriedAbsent(s: State) {
    forall i | 0 <= i < |s.workers| && Carrying(s.workers[i]) :: AbsentFor(s.cluster.records, s.workers[i])
  }

  ghost predicate BaseInv(s: State) {
    Readable(s.cluster.records) && GoodCarries(s)
  }

  ghost predicate Inv(s: State) {
    BaseInv(s) && Unique(s.cluster.records) && CarriedAbsent(s)
  }

  // ---------- what an allocation is ----------

  lemma ChoiceOfIsGood(v: Addr, subnet: Subnet, mac: string)
    ensures GoodChoice(ChoiceOf(v, subnet, mac)) && AddrOf(ChoiceOf(v, subnet, mac).ip) == v
  {
    RecordRoundTrip(v, subnet.spec.cidr);
    MappedRoundTrip(v);
  }

  /** Whatever the mode, an allocated address is free: a host of the subnet, not recorded, not the gateway. */
  lemma AllocatedIsFree(worker: Worker, used: set<Addr>, choice: Choice)
    requires worker.WithSubnet? || worker.Grouped?
    requires AllocFor(worker, used) == Some(Allocated(choice))
    ensures GoodChoice(choice) && AddrOf(choice.ip) in Free(worker.subnet, used)
  {
    var subnet := worker.subnet;
    if worker.WithSubnet? && ModeOf(worker.pod.Annotation(ANNOTATION_IP)) == Auto {
      ChoiceOfIsGood(Least(Free(subnet, used)), subnet, "");
    } else {
      var text := if worker.WithSubnet? then worker.pod.Annotation(ANNOTATION_IP) else worker.text;
      var mac := if worker.WithSubnet? then "" else worker.mac;
      RequestedIsFree(subnet, used, text, mac);
      ChoiceOfIsGood(ParseAddr(text).value, subnet, mac);
    }
  }

  lemma RecordedInAddr(records: map<Key, MacvlanIP>, k: Key)
    requires Readable(records) && k in records
    ensures AddrAt(records, k) in RecordedIn(records, records[k].subnetLabel)
  {
  }

  // ---------- the invariant ----------

  lemma InitInv(n: nat)
    ensures Inv(Init(n))
  {
  }

  lemma BaseInvStep(s: State, a: Action)
    requires BaseInv(s)
    ensures BaseInv(Step(s, a))
  {
    var s' := Step(s, a);
    RecordsStep(s, a);
    forall i | 0 <= i < |s'.workers| && Carrying(s'.workers[i])
      ensures GoodChoice(s'.workers[i].choice)
    {
      StepKeepsWorkerCount(s, a);
      CarryStep(s, a, i);
      if !Carrying(s.workers[i]) {
        ListRecordsStep(s, i, a.ok);
        AllocatedIsFree(s.workers[i], ListedUsed(s, s.workers[i], a.ok), s'.workers[i].choice);
      }
    }
  }

  /** A record is created only from a carried address that is absent. */
  lemma UniqueStep(s: State, a: Action)
    requires Unique(s.cluster.records)
    requires CreatesRecord(s, a) ==> AbsentFor(s.cluster.records, s.workers[a.w])
    ensures Unique(Step(s, a).cluster.records)
  {
    RecordsStep(s, a);
    if CreatesRecord(s, a) {
      UniqueCreate(s.cluster.records, s.workers[a.w]);
    }
  }

  /** Adding a record keeps uniqueness exactly when no record of its subnet holds its address. */
  lemma UniqueCreate(records: map<Key, MacvlanIP>, worker: Worker)
    requires Unique(records) && worker.Labelled? && worker.key !in records
    ensures Unique(records[worker.key := RecordOf(worker)])
      <==> AbsentFor(records, worker)
  {
    var next := records[worker.key := RecordOf(worker)];
    assert AddrAt(next, worker.key) == TextAddr(worker.choice.cidr);
    assert forall k | k in records :: k in next && next[k] == records[k] && AddrAt(next, k) == AddrAt(records, k);
  }

  /** An address allocated from a complete list of records is absent from them. */
  lemma ListedIsAbsent(s: State, w: nat)
    requires BaseInv(s) && w < |s.workers| && Carrying(StepListRecords(s, w, true).workers[w])
    requires !Carrying(s.workers[w])
    ensures AbsentFor(s.cluster.records, StepListRecords(s, w, true).workers[w])
  {
    var before, after := s.workers[w], StepListRecords(s, w, true).workers[w];
    ListRecordsStep(s, w, true);
    var used := RecordedIn(s.cluster.records, before.subnet.name);
    AllocatedIsFree(before, used, after.choice);
    forall k | k in s.cluster.records && s.cluster.records[k].subnetLabel == before.subnet.name
      ensures AddrAt(s.cluster.records, k) in used
    {
      RecordedInAddr(s.cluster.records, k);
    }
  }

  /** Absence survives the deletion of records and unrelated steps. */
  lemma AbsentShrinks(records: map<Key, MacvlanIP>, fewer: map<Key, MacvlanIP>, worker: Worker, after: Worker)
    requires Carrying(worker) && Carrying(after) && SameCarry(worker, after) && AbsentFor(records, worker)
    requires forall k | k in fewer :: k in records && fewer[k] == records[k]
    ensures AbsentFor(fewer, after)
  {
    forall k | k in fewer && fewer[k].subnetLabel == after.subnet.name
      ensures AddrAt(fewer, k) != TextAddr(after.choice.cidr)
    {
      assert AddrAt(fewer, k) == AddrAt(records, k);
    }
  }

  lemma CreatorIsDone(s: State, a: Action)
    requires CreatesRecord(s, a)
    ensures Step(s, a).workers[a.w].Ended?
  {
  }

  lemma CarriedAbsentStep(s: State, a: Action)
    requires BaseInv(s) && CarriedAbsent(s) && |s.workers| <= 1 && (a.ListRecords? ==> a.ok)
    ensures CarriedAbsent(Step(s, a))
  {
    StepKeepsWorkerCount(s, a);
    if |s.workers| == 1 {
      LoneCarryIsAbsent(s, a, Step(s, a));
    }
    OneWorkerAbsent(Step(s, a));
  }

  lemma OneWorkerAbsent(s: State)
    requires |s.workers| <= 1
    requires |s.workers| == 1 && Carrying(s.workers[0]) ==> AbsentFor(s.cluster.records, s.workers[0])
    ensures CarriedAbsent(s)
  {
  }

  lemma LoneCarryIsAbsent(s: State, a: Action, s': State)
    requires s' == Step(s, a) && |s.workers| == |s'.workers| == 1 && (a.ListRecords? ==> a.ok)
    requires BaseInv(s) && CarriedAbsent(s)
    ensures Carrying(s'.workers[0]) ==> AbsentFor(s'.cluster.records, s'.workers[0])
  {
    if Carrying(s'.workers[0]) {
      CarryStep(s, a, 0);
      if Carrying(s.workers[0]) {
        KeptCarryIsAbsent(s, a, s');
      } else {
        ListedIsAbsent(s, 0);
        ListRecordsStep(s, 0, true);
      }
    }
  }

  lemma KeptCarryIsAbsent(s: State, a: Action, s': State)
    requires s' == Step(s, a) && |s.workers| == |s'.workers| == 1
    requires Carrying(s.workers[0]) && AbsentFor(s.cluster.records, s.workers[0])
    requires Carrying(s'.workers[0]) && SameCarry(s.workers[0], s'.workers[0])
    ensures AbsentFor(s'.cluster.records, s'.workers[0])
  {
    RecordsStep(s, a);
    if CreatesRecord(s, a) {
      CreatorIsDone(s, a);
    }
    AbsentShrinks(s.cluster.records, s'.cluster.records, s.workers[0], s'.workers[0]);
  }

  lemma {:induction false} RunInv(n: nat, acts: seq<Action>)
    requires n <= 1 && ListsSucceed(acts)
    ensures Inv(Run(Init(n), acts))
  {
    if |acts| == 0 {
      InitInv(n);
    } else {
      var front, a := acts[..|acts| - 1], acts[|acts| - 1];
      RunInv(n, front);
      var s := Run(Init(n), front);
      RunKeepsWorkerCount(Init(n), front);
      BaseInvStep(s, a);
      UniqueStep(s, a);
      CarriedAbsentStep(s, a);
    }
  }

  lemma {:induction false} RunBaseInv(n: nat, acts: seq<Action>)
    ensures BaseInv(Run(Init(n), acts))
  {
    if |acts| > 0 {
      RunBaseInv(n, acts[..|acts| - 1]);
      BaseInvStep(Run(Init(n), acts[..|acts| - 1]), acts[|acts| - 1]);
    }
  }
}
