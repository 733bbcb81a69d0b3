/** The life of a record: what it is created from, that it never changes, and how the label of
    its pod drifts away from it. */
module Records {
  import opened Bytes
  import opened Text
  import opened Types
  import opened Ipalloc
  import opened Protocol
  import opened Uniqueness

  // ---------- immutability ----------

  /** A record present throughout a run is the same at its end, however often its pod is synced. */
  lemma {:induction false} RecordNeverChanges(s: State, acts: seq<Action>, key: Key)
    requires forall i | 0 <= i <= |acts| :: key in Run(s, acts[..i]).cluster.records
    ensures key in s.cluster.records && key in Run(s, acts).cluster.records
    ensures Run(s, acts).cluster.records[key] == s.cluster.records[key]
  {
    assert acts[..0] == [] && acts[..|acts|] == acts;
    assert key in Run(s, acts[..0]).cluster.records;
    assert key in Run(s, acts[..|acts|]).cluster.records;
    if |acts| > 0 {
      var front := acts[..|acts| - 1];
      forall i | 0 <= i <= |front|
        ensures key in Run(s, front[..i]).cluster.records
      {
        assert front[..i] == acts[..i];
      }
      RecordNeverChanges(s, front, key);
      RecordsStep(Run(s, front), acts[|acts| - 1]);
    }
  }

  // ---------- creation ----------

  /** A worker that has labelled a pod wrote the address it carries. */
  ghost predicate WroteItsChoice(s: State) {
    forall i | 0 <= i < |s.workers| && s.workers[i].Labelled? ::
      s.workers[i].written == SelectedText(s.workers[i].choice)
  }

  lemma LabelledStep(s: State, a: Action, s': State, i: nat)
    requires s' == Step(s, a) && |s'.workers| == |s.workers| && i < |s.workers| && s'.workers[i].Labelled?
    ensures s.workers[i] == s'.workers[i] || s'.workers[i].written == SelectedText(s'.workers[i].choice)
  {
    if a.WriteLabels? {
    } else if OfWorker(a) {
    }
  }

  lemma WroteItsChoiceStep(s: State, a: Action, s': State)
    requires WroteItsChoice(s) && s' == Step(s, a) && |s'.workers| == |s.workers|
    ensures WroteItsChoice(s')
  {
    forall i | 0 <= i < |s'.workers| && s'.workers[i].Labelled?
      ensures s'.workers[i].written == SelectedText(s'.workers[i].choice)
    {
      LabelledStep(s, a, s', i);
    }
  }

  lemma {:induction false} RunWroteItsChoice(n: nat, acts: seq<Action>)
    ensures WroteItsChoice(Run(Init(n), acts))
  {
    if |acts| > 0 {
      var s, a := Run(Init(n), acts[..|acts| - 1]), acts[|acts| - 1];
      RunWroteItsChoice(n, acts[..|acts| - 1]);
      StepKeepsWorkerCount(s, a);
      WroteItsChoiceStep(s, a, Step(s, a));
    }
  }

  /** The worker carries an available address of its subnet, with the text that is that address and the subnet's
      prefix length in CIDR notation. */
  ghost predicate TextFits(worker: Worker) {
    Carrying(worker) ==>
      && IsMapped(worker.choice.ip) && ParseCIDR(worker.subnet.spec.cidr).Some?
      && var c := ParseCIDR(worker.subnet.spec.cidr).value;
      && IsAvailable(worker.subnet, c, {}, AddrOf(worker.choice.ip))
      && ParseCIDR(worker.choice.cidr) == Some(CIDR(AddrOf(worker.choice.ip), c.bits))
  }

  lemma AllocatedChoice(worker: Worker, used: set<Addr>, choice: Choice) returns (v: Addr)
    requires worker.WithSubnet? || worker.Grouped?
    requires AllocFor(worker, used) == Some(Allocated(choice))
    ensures v in Free(worker.subnet, {}) && choice == ChoiceOf(v, worker.subnet, choice.mac)
  {
    if worker.Grouped? {
      v := RequestedChoice(worker.subnet, used, worker.text, worker.mac, choice);
    } else if ModeOf(worker.pod.Annotation(ANNOTATION_IP)) == Auto {
      v := AutoChoiceOf(worker.subnet, used, choice);
    } else {
      v := RequestedChoice(worker.subnet, used, worker.pod.Annotation(ANNOTATION_IP), "", choice);
    }
  }

  lemma AutoChoiceOf(subnet: Subnet, used: set<Addr>, choice: Choice) returns (v: Addr)
    requires AutoAlloc(subnet, used) == Allocated(choice)
    ensures v in Free(subnet, {}) && choice == ChoiceOf(v, subnet, "")
  {
    v := Least(Free(subnet, used));
  }

  lemma RequestedChoice(subnet: Subnet, used: set<Addr>, text: string, mac: string, choice: Choice) returns (v: Addr)
    requires RequestedAlloc(subnet, used, text, mac) == Allocated(choice)
    ensures v in Free(subnet, {}) && choice == ChoiceOf(v, subnet, mac)
  {
    RequestedIsFree(subnet, used, text, mac);
    v := ParseAddr(text).value;
  }

  lemma AllocatedTextFits(worker: Worker, used: set<Addr>, choice: Choice)
    requires worker.WithSubnet? || worker.Grouped?
    requires AllocFor(worker, used) == Some(Allocated(choice))
    ensures TextFits(Chosen(worker.key, worker.pod, worker.subnet, choice))
  {
    var v := AllocatedChoice(worker, used, choice);
    var c := ParseCIDR(worker.subnet.spec.cidr).value;
    MappedRoundTrip(v);
    FreeExactly(worker.subnet, c, {}, v);
    RecordTextParses(v, worker.subnet.spec.cidr, c);
  }

  lemma TextFitsStep(s: State, a: Action, s': State, i: nat)
    requires s' == Step(s, a) && |s'.workers| == |s.workers| && i < |s.workers|
    requires TextFits(s.workers[i])
    ensures TextFits(s'.workers[i])
  {
    if Carrying(s'.workers[i]) {
      CarryStep(s, a, i);
      if !Carrying(s.workers[i]) {
        ListRecordsStep(s, i, a.ok);
        AllocatedTextFits(s.workers[i], ListedUsed(s, s.workers[i], a.ok), s'.workers[i].choice);
      }
    }
  }

  lemma {:induction false} RunTextFits(n: nat, acts: seq<Action>)
    ensures forall i | 0 <= i < |Run(Init(n), acts).workers| :: TextFits(Run(Init(n), acts).workers[i])
  {
    if |acts| > 0 {
      var s, a := Run(Init(n), acts[..|acts| - 1]), acts[|acts| - 1];
      RunTextFits(n, acts[..|acts| - 1]);
      StepKeepsWorkerCount(s, a);
      forall i | 0 <= i < |s.workers|
        ensures TextFits(Step(s, a).workers[i])
      {
        TextFitsStep(s, a, Step(s, a), i);
      }
    }
  }

  /** Whenever a step adds a record, in any run of any number of workers, it is the record of the
      syncing pod and subnet, and the label written in that sync, the address chosen and the
      address read back from the record are one. */
  lemma CreatedRecordAgrees(n: nat, acts: seq<Action>, a: Action, key: Key)
    requires var s := Run(Init(n), acts);
      key !in s.cluster.records && key in Step(s, a).cluster.records
    ensures var s := Run(Init(n), acts);
      && a.Create? && a.w < |s.workers| && s.workers[a.w].Labelled? && s.workers[a.w].key == key
      && var worker, record := s.workers[a.w], Step(s, a).cluster.records[key];
      && IsMapped(worker.choice.ip)
      && RecordedAddr(record.spec.cidr) == Some(AddrOf(worker.choice.ip))
      && ParseAddr(worker.written) == Some(AddrOf(worker.choice.ip))
      && record.key == key
      && record.subnetLabel == record.spec.subnet == worker.subnet.name
      && record.spec.podId == record.ownerUID == worker.pod.uid
      && record.spec.mac == worker.choice.mac
  {
    var s := Run(Init(n), acts);
    RunBaseInv(n, acts);
    RunWroteItsChoice(n, acts);
    RecordsStep(s, a);
    var worker := s.workers[a.w];
    assert GoodChoice(worker.choice) && worker.written == SelectedText(worker.choice);
    AddrTextRoundTrip(AddrOf(worker.choice.ip));
  }

  /** And the text of that record is the chosen address with the prefix length of the worker's subnet: an address
      in its block and its ranges that does not end in 0 or 255 and is not its gateway. */
  lemma CreatedRecordText(n: nat, acts: seq<Action>, a: Action, key: Key)
    requires var s := Run(Init(n), acts);
      key !in s.cluster.records && key in Step(s, a).cluster.records
    ensures var s := Run(Init(n), acts);
      && a.Create? && a.w < |s.workers| && s.workers[a.w].Labelled?
      && var worker, record := s.workers[a.w], Step(s, a).cluster.records[key];
      && IsMapped(worker.choice.ip) && ParseCIDR(worker.subnet.spec.cidr).Some?
      && var c := ParseCIDR(worker.subnet.spec.cidr).value;
      && ParseCIDR(record.spec.cidr) == Some(CIDR(AddrOf(worker.choice.ip), c.bits))
      && IsAvailable(worker.subnet, c, {}, AddrOf(worker.choice.ip))
  {
    RunTextFits(n, acts);
    RecordsStep(Run(Init(n), acts), a);
    assert TextFits(Run(Init(n), acts).workers[a.w]);
  }

  // ---------- a second sync of a pod that has its record ----------

  /** A worker is about to label a pod whose record for the same subnet already exists. */
  ghost predicate Resyncing(s: State, w: nat) {
    && w < |s.workers| && s.workers[w].Chosen?
    && s.workers[w].key in s.cluster.pods && s.workers[w].key in s.cluster.records
    && s.cluster.records[s.workers[w].key].subnetLabel == s.workers[w].subnet.name
  }

  /** The label of a pod and the text of its record name one address. */
  ghost predicate LabelMatchesRecord(c: Cluster, key: Key)
    requires key in c.pods && key in c.records
  {
    ParseAddr(c.pods[key].labels.selectedIP) == RecordedAddr(c.records[key].spec.cidr)
  }

  /** When a pod is synced again while its record for that subnet exists, the label that a
      successful write then puts on it never names the recorded address. */
  lemma ResyncLabelDiffers(acts: seq<Action>, outcome: Outcome)
    requires ListsSucceed(acts) && outcome != Rejected && Resyncing(Run(Init(1), acts), 0)
    ensures var s := Run(Init(1), acts);
      var key, c := s.workers[0].key, Step(s, WriteLabels(0, outcome)).cluster;
      key in c.pods && key in c.records && !LabelMatchesRecord(c, key)
  {
    RunInv(1, acts);
    ResyncDrifts(Run(Init(1), acts), 0, outcome);
  }

  lemma ResyncDrifts(s: State, w: nat, outcome: Outcome)
    requires Inv(s) && Resyncing(s, w) && outcome != Rejected
    ensures var key, c := s.workers[w].key, Step(s, WriteLabels(w, outcome)).cluster;
      key in c.pods && key in c.records && !LabelMatchesRecord(c, key)
  {
    var worker := s.workers[w];
    assert GoodChoice(worker.choice) && AbsentFor(s.cluster.records, worker);
    AddrTextRoundTrip(AddrOf(worker.choice.ip));
    LabelAfterWrite(s, w, outcome);
    RecordsStep(s, WriteLabels(w, outcome));
    assert AddrAt(s.cluster.records, worker.key) != TextAddr(worker.choice.cidr);
  }

  lemma LabelAfterWrite(s: State, w: nat, outcome: Outcome)
    requires w < |s.workers| && s.workers[w].Chosen? && s.workers[w].key in s.cluster.pods && outcome != Rejected
    ensures var Chosen(key, pod, _, choice) := s.workers[w];
      Step(s, WriteLabels(w, outcome)).cluster.pods
      == WithLabels(s.cluster.pods, key, pod.Annotation(ANNOTATION_IP), SelectedText(choice))
  {
  }

  /** A pod that asks for a single address while a record of its subnet, its own included, holds that address: an
      answered List refuses it and its key goes back to the queue; after a failed one it is granted exactly when the
      subnet could give it to the first pod of all. */
  lemma SingleResync(s: State, w: nat, ok: bool, k: Key)
    requires w < |s.workers| && s.workers[w].WithSubnet? && Readable(s.cluster.records)
    requires ModeOf(s.workers[w].pod.Annotation(ANNOTATION_IP)) == Single
    requires k in s.cluster.records && s.cluster.records[k].subnetLabel == s.workers[w].subnet.name
    requires RecordedAddr(s.cluster.records[k].spec.cidr) == ParseAddr(s.workers[w].pod.Annotation(ANNOTATION_IP))
    ensures var WithSubnet(key, pod, subnet) := s.workers[w];
      var v := TextAddr(s.cluster.records[k].spec.cidr);
      StepListRecords(s, w, ok) ==
        if !ok && v in Free(subnet, {}) then Become(s, w, Chosen(key, pod, subnet, ChoiceOf(v, subnet, "")))
        else Finish(s, w, true)
  {
    var worker := s.workers[w];
    var used := ListedUsed(s, worker, ok);
    RecordedInAddr(s.cluster.records, k);
    SingleAlloc(worker, used, TextAddr(s.cluster.records[k].spec.cidr));
    ConcludeGives(s, w, AllocFor(worker, used).value);
  }

  lemma SingleAlloc(worker: Worker, used: set<Addr>, v: Addr)
    requires worker.WithSubnet? && ModeOf(worker.pod.Annotation(ANNOTATION_IP)) == Single
    requires ParseAddr(worker.pod.Annotation(ANNOTATION_IP)) == Some(v)
    ensures AllocFor(worker, used).Some?
    ensures if v in Free(worker.subnet, used)
      then AllocFor(worker, used) == Some(Allocated(ChoiceOf(v, worker.subnet, "")))
      else AllocFor(worker, used).value.Failed?
  {
    RequestedIsFree(worker.subnet, used, worker.pod.Annotation(ANNOTATION_IP), "");
  }

  // ---------- how a sync ends ----------

  /** The four ways in which a sync is given up with a nil error and without a record. */
  ghost predicate GivesUp(s: State, a: Action)
    requires OfWorker(a) && a.w < |s.workers|
  {
    match s.workers[a.w]
    case Taken(key) =>
      a.ReadPod? && (key !in s.cluster.cache || !IsMacvlanPod(s.cluster.cache[key]))
    case Fetched(_, pod) =>
      && a.GetSubnet? && a.ok && pod.Annotation(ANNOTATION_SUBNET) in s.cluster.subnets
      && ModeOf(pod.Annotation(ANNOTATION_IP)) == Invalid
    case Chosen(key, _, _, _) =>
      a.WriteLabels? && (key !in s.cluster.pods || a.outcome != Done)
    case _ => false
  }

  /** A nil error does not mean that a record exists: a sync that returns without an error
      has either a record under its key or was given up, and then it left the records alone. */
  lemma SyncWithoutError(s: State, a: Action, key: Key)
    requires OfWorker(a) && a.w < |s.workers| && !s.workers[a.w].Ended?
    requires |Step(s, a).workers| == |s.workers| && Step(s, a).workers[a.w] == Ended(key, false)
    ensures key == s.workers[a.w].key
    ensures if GivesUp(s, a) then Step(s, a).cluster.records == s.cluster.records
      else a.Create? && key in Step(s, a).cluster.records
  {
    RecordsStep(s, a);
  }

  /** Conversely, giving up ends the sync without an error, so the key is not tried again. */
  lemma GivingUpIsForgotten(s: State, a: Action, key: Key)
    requires OfWorker(a) && a.w < |s.workers| && !s.workers[a.w].Idle? && GivesUp(s, a) && key == s.workers[a.w].key
    ensures Step(s, a).workers == s.workers[a.w := Ended(key, false)]
    ensures Step(Step(s, a), Settle(a.w)).cluster.queue == s.cluster.queue
  {
    var s' := Step(s, a);
    assert s'.cluster.queue == s.cluster.queue && s'.workers == s.workers[a.w := Ended(key, false)];
    assert Step(s', Settle(a.w)) == StepSettle(s', a.w);
  }

  /** The ways in which a sync fails, so that its key is tried again. */
  ghost predicate Fails(s: State, a: Action)
    requires OfWorker(a) && a.w < |s.workers|
  {
    match s.workers[a.w]
    case Fetched(_, pod) =>
      a.GetSubnet? && (!a.ok || pod.Annotation(ANNOTATION_SUBNET) !in s.cluster.subnets)
    case WithSubnet(_, pod, subnet) =>
      if ModeOf(pod.Annotation(ANNOTATION_IP)) == Multiple then
        a.ListPods? && (!a.ok || PickFor(s, s.workers[a.w]).NonePicked?)
      else a.ListRecords? && NoneAllocated(s, a)
    case Grouped(_, _, _, _, _) => a.ListRecords? && NoneAllocated(s, a)
    case Labelled(_, _, _, _, _) => a.Create? && a.outcome != Done
    case _ => false
  }

  ghost predicate NoneAllocated(s: State, a: Action)
    requires a.ListRecords? && a.w < |s.workers| && (s.workers[a.w].WithSubnet? || s.workers[a.w].Grouped?)
  {
    var r := AllocFor(s.workers[a.w], ListedUsed(s, s.workers[a.w], a.ok));
    r.Some? && r.value.Failed?
  }

  /** A sync ends with an error exactly in these ways. */
  lemma SyncWithError(s: State, a: Action)
    requires OfWorker(a) && a.w < |s.workers| && !s.workers[a.w].Ended? && !s.workers[a.w].Idle?
    requires |Step(s, a).workers| == |s.workers|
    ensures Step(s, a).workers[a.w] == Ended(s.workers[a.w].key, true) <==> Fails(s, a)
  {
    match a {
      case Take(w, key) => assert Step(s, a) == StepTake(s, w, key);
      case ReadPod(w) => assert Step(s, a) == StepReadPod(s, w);
      case GetSubnet(w, ok) => assert Step(s, a) == StepGetSubnet(s, w, ok);
      case ListPods(w, ok) => assert Step(s, a) == StepListPods(s, w, ok);
      case ListRecords(w, ok) => assert Step(s, a) == StepListRecords(s, w, ok);
      case WriteLabels(w, outcome) => assert Step(s, a) == StepWriteLabels(s, w, outcome);
      case Create(w, outcome) => assert Step(s, a) == StepCreate(s, w, outcome);
      case Settle(w) => assert Step(s, a) == StepSettle(s, w);
    }
  }

  /** And then its key is in the queue again, and nobody's labels have changed. */
  lemma FailingIsRetried(s: State, a: Action)
    requires OfWorker(a) && a.w < |s.workers| && Fails(s, a)
    requires |Step(s, a).workers| == |s.workers|
    ensures s.workers[a.w].key in Step(Step(s, a), Settle(a.w)).cluster.queue
    ensures Step(s, a).cluster.pods == s.cluster.pods
    ensures !a.Create? ==> Step(s, a).cluster == s.cluster
  {
    var s' := Step(s, a);
    SyncWithError(s, a);
    QuietWorkerStep(s, a);
    assert Step(s', Settle(a.w)) == StepSettle(s', a.w);
  }
}
