/** The allocation protocol as a step system: doAddMacvlanIP of controller/macvlanip.go cut at
    its API calls, the worker loop of controller/controller.go, and everything the rest of the
    cluster may do between two calls. */
module Protocol {
  import opened Bytes
  import opened Text
  import opened Types
  import opened Ipalloc

  /** What the API server and the pod informer hold, and the keys waiting in the work queue. */
  datatype Cluster = Cluster(
    pods: map<Key, Pod>,
    cache: map<Key, Pod>,
    subnets: map<string, MacvlanSubnet>,
    records: map<Key, MacvlanIP>,
    queue: set<Key>)

  /** Where a worker is in the sync of one key. */
  datatype Worker =
    | Idle
    | Taken(key: Key)
    | Fetched(key: Key, pod: Pod)
    | WithSubnet(key: Key, pod: Pod, subnet: MacvlanSubnet)
    | Grouped(key: Key, pod: Pod, subnet: MacvlanSubnet, text: string, mac: string)
    | Chosen(key: Key, pod: Pod, subnet: MacvlanSubnet, choice: Choice)
    | Labelled(key: Key, pod: Pod, subnet: MacvlanSubnet, choice: Choice, written: string)
    | Ended(key: Key, err: bool)

  datatype State = State(cluster: Cluster, workers: seq<Worker>)

  /** How an API write ends: carried out, refused, or carried out with the reply lost. */
  datatype Outcome = Done | Rejected | LostReply

  datatype Action =
    // one worker
    | Take(w: nat, key: Key)
    | ReadPod(w: nat)
    | GetSubnet(w: nat, ok: bool)
    | ListPods(w: nat, ok: bool)
    | ListRecords(w: nat, ok: bool)
    | WriteLabels(w: nat, outcome: Outcome)
    | Create(w: nat, outcome: Outcome)
    | Settle(w: nat)
    // everything else
    | PodCreated(key: Key, uid: string, annotations: map<string, string>)
    | PodAnnotated(key: Key, annotations: map<string, string>)
    | PodDeleted(key: Key)
    | CacheDelivered(key: Key, pod: Option<Pod>)
    | SubnetWritten(subnet: MacvlanSubnet)
    | SubnetDeleted(name: string)
    | RecordDeleted(key: Key)
    | Enqueued(key: Key)
    | Restarted

  // ---------- the pure parts of doAddMacvlanIP ----------

  predicate IsMacvlanPod(pod: Pod) {
    ANNOTATION_IP in pod.annotations && ANNOTATION_SUBNET in pod.annotations
  }

  datatype Mode = Auto | Single | Multiple | Invalid

  function ModeOf(annotationIP: string): Mode {
    if annotationIP == "auto" then Auto
    else if IsSingleIP(annotationIP) then Single
    else if IsAddressList(annotationIP) then Multiple
    else Invalid
  }

  function MakeMacvlanIP(key: Key, pod: Pod, subnet: Subnet, cidr: string, mac: string): MacvlanIP {
    MacvlanIP(key, subnet.name, pod.uid, MacvlanIPSpec(subnet.name, pod.uid, cidr, mac))
  }

  /** The addresses read from the records labelled with a subnet. */
  ghost function RecordedIn(records: map<Key, MacvlanIP>, name: string): set<Addr> {
    set k | k in records && records[k].subnetLabel == name && RecordedAddr(records[k].spec.cidr).Some?
      :: RecordedAddr(records[k].spec.cidr).value
  }

  predicate InGroup(pods: map<Key, Pod>, k: Key, namespace: string, digest: Digest) {
    k in pods && k.namespace == namespace && pods[k].labels.multipleIPHash == Some(digest)
  }

  /** The addresses selected by the pods of a namespace that carry a hash label. */
  ghost function HeldInGroup(pods: map<Key, Pod>, namespace: string, digest: Digest): set<string> {
    set k | k in pods && InGroup(pods, k, namespace, digest) && pods[k].labels.selectedIP != ""
      :: pods[k].labels.selectedIP
  }

  // ---------- the steps of a worker ----------

  /** The sync of the worker's key returns, with an error or without. */
  function Finish(s: State, w: nat, err: bool): State
    requires w < |s.workers| && !s.workers[w].Idle?
  {
    Become(s, w, Ended(s.workers[w].key, err))
  }

  function Become(s: State, w: nat, worker: Worker): State
    requires w < |s.workers|
  {
    s.(workers := s.workers[w := worker])
  }

  predicate BusyWith(s: State, key: Key) {
    exists i :: 0 <= i < |s.workers| && !s.workers[i].Idle? && s.workers[i].key == key
  }

  function StepTake(s: State, w: nat, key: Key): State
    requires w < |s.workers|
  {
    if s.workers[w].Idle? && key in s.cluster.queue && !BusyWith(s, key)
    then Become(s, w, Taken(key)).(cluster := s.cluster.(queue := s.cluster.queue - {key}))
    else s
  }

  function StepReadPod(s: State, w: nat): State
    requires w < |s.workers|
  {
    match s.workers[w]
    case Taken(key) =>
      if key !in s.cluster.cache || !IsMacvlanPod(s.cluster.cache[key]) then Finish(s, w, false)
      else Become(s, w, Fetched(key, s.cluster.cache[key]))
    case _ => s
  }

  function StepGetSubnet(s: State, w: nat, ok: bool): State
    requires w < |s.workers|
  {
    match s.workers[w]
    case Fetched(key, pod) =>
      var name := pod.Annotation(ANNOTATION_SUBNET);
      if !ok || name !in s.cluster.subnets then Finish(s, w, true)
      else if ModeOf(pod.Annotation(ANNOTATION_IP)) == Invalid then Finish(s, w, false)
      else Become(s, w, WithSubnet(key, pod, s.cluster.subnets[name]))
    case _ => s
  }

  ghost function StepListPods(s: State, w: nat, ok: bool): State
    requires w < |s.workers|
  {
    match s.workers[w]
    case WithSubnet(key, pod, subnet) =>
      var ip := pod.Annotation(ANNOTATION_IP);
      if ModeOf(ip) != Multiple then s
      else if !ok then Finish(s, w, true)
      else
        (match ListPick(ip, pod.Annotation(ANNOTATION_MAC), HeldInGroup(s.cluster.pods, key.namespace, Sha1(ip)))
         case NonePicked(_) => Finish(s, w, true)
         case Picked(text, mac) => Become(s, w, Grouped(key, pod, subnet, text, mac)))
    case _ => s
  }

  /** What the worker allocates when the records of its subnet hold the addresses in used. */
  ghost function AllocFor(worker: Worker, used: set<Addr>): Option<Alloc> {
    match worker
    case WithSubnet(_, pod, subnet) =>
      (match ModeOf(pod.Annotation(ANNOTATION_IP))
       case Auto => Some(AutoAlloc(subnet, used))
       case Single => Some(RequestedAlloc(subnet, used, pod.Annotation(ANNOTATION_IP), ""))
       case _ => None)
    case Grouped(_, _, subnet, text, mac) => Some(RequestedAlloc(subnet, used, text, mac))
    case _ => None
  }

  /** A failed List gives an empty list, and its error is overwritten. */
  ghost function ListedUsed(s: State, worker: Worker, ok: bool): set<Addr>
    requires worker.WithSubnet? || worker.Grouped?
  {
    if ok then RecordedIn(s.cluster.records, worker.subnet.name) else {}
  }

  /** What becomes of a worker once it has its allocation. */
  function Conclude(s: State, w: nat, alloc: Option<Alloc>): State
    requires w < |s.workers| && (s.workers[w].WithSubnet? || s.workers[w].Grouped?)
  {
    var worker := s.workers[w];
    match alloc
    case None => s
    case Some(Failed(_)) => Finish(s, w, true)
    case Some(Allocated(choice)) => Become(s, w, Chosen(worker.key, worker.pod, worker.subnet, choice))
  }

  ghost function StepListRecords(s: State, w: nat, ok: bool): State
    requires w < |s.workers|
  {
    if !s.workers[w].WithSubnet? && !s.workers[w].Grouped? then s
    else Conclude(s, w, AllocFor(s.workers[w], ListedUsed(s, s.workers[w], ok)))
  }

  /** The labels of a pod after a sync of an annotation has selected an address. */
  function WithLabels(pods: map<Key, Pod>, key: Key, annotationIP: string, text: string): map<Key, Pod>
    requires key in pods
  {
    pods[key := pods[key].(labels := Labels(Some(Sha1(annotationIP)), text))]
  }

  function SelectedText(choice: Choice): string {
    if IsMapped(choice.ip) then IPString(choice.ip) else ""
  }

  /** A label write that fails ends the sync without an error: no record, and no retry. */
  function StepWriteLabels(s: State, w: nat, outcome: Outcome): State
    requires w < |s.workers|
  {
    match s.workers[w]
    case Chosen(key, pod, subnet, choice) =>
      if key !in s.cluster.pods || outcome == Rejected then Finish(s, w, false)
      else
        var text := SelectedText(choice);
        var pods := WithLabels(s.cluster.pods, key, pod.Annotation(ANNOTATION_IP), text);
        var s' := s.(cluster := s.cluster.(pods := pods));
        if outcome == LostReply then Finish(s', w, false)
        else Become(s', w, Labelled(key, pod, subnet, choice, text))
    case _ => s
  }

  /** Creating a record that already exists changes nothing and counts as success. */
  function StepCreate(s: State, w: nat, outcome: Outcome): State
    requires w < |s.workers|
  {
    match s.workers[w]
    case Labelled(key, pod, subnet, choice, _) =>
      if outcome == Rejected then Finish(s, w, true)
      else if key in s.cluster.records then Finish(s, w, outcome == LostReply)
      else
        var record := MakeMacvlanIP(key, pod, subnet, choice.cidr, choice.mac);
        var s' := s.(cluster := s.cluster.(records := s.cluster.records[key := record]));
        Finish(s', w, outcome == LostReply)
    case _ => s
  }

  /** The key of a failed sync goes back to the queue; that of any other is forgotten. */
  function StepSettle(s: State, w: nat): State
    requires w < |s.workers|
  {
    match s.workers[w]
    case Ended(key, err) =>
      var c := s.cluster;
      Become(s, w, Idle).(cluster := if err then c.(queue := c.queue + {key}) else c)
    case _ => s
  }

  // ---------- the steps of the environment ----------

  function StepEnvironment(c: Cluster, a: Action): Cluster {
    match a
    case PodCreated(key, uid, annotations) =>
      if key in c.pods then c else c.(pods := c.pods[key := Pod(uid, annotations, NO_LABELS)])
    case PodAnnotated(key, annotations) =>
      if key in c.pods then c.(pods := c.pods[key := c.pods[key].(annotations := annotations)]) else c
    case PodDeleted(key) => c.(pods := c.pods - {key})
    case CacheDelivered(key, Some(pod)) =>
      c.(cache := c.cache[key := pod], queue := if key in c.cache then c.queue else c.queue + {key})
    case CacheDelivered(key, None) => c.(cache := c.cache - {key})
    case SubnetWritten(subnet) => c.(subnets := c.subnets[subnet.name := subnet])
    case SubnetDeleted(name) => c.(subnets := c.subnets - {name})
    case RecordDeleted(key) => c.(records := c.records - {key})
    case Enqueued(key) => c.(queue := c.queue + {key})
    case Restarted => c.(queue := c.cache.Keys)
    case _ => c
  }

  /** What the rest of the cluster does while the controller runs. */
  predicate OfEnvironment(a: Action) {
    !OfWorker(a) && !a.Restarted?
  }

  predicate EnvironmentOnly(acts: seq<Action>) {
    forall a | a in acts :: OfEnvironment(a)
  }

  // ---------- runs ----------

  predicate OfWorker(a: Action) {
    a.Take? || a.ReadPod? || a.GetSubnet? || a.ListPods? || a.ListRecords? || a.WriteLabels? || a.Create? || a.Settle?
  }

  /** One step; an action that is not possible in a state leaves it as it is. */
  ghost function Step(s: State, a: Action): State {
    if OfWorker(a) then
      if a.w >= |s.workers| then s
      else
        match a
        case Take(w, key) => StepTake(s, w, key)
        case ReadPod(w) => StepReadPod(s, w)
        case GetSubnet(w, ok) => StepGetSubnet(s, w, ok)
        case ListPods(w, ok) => StepListPods(s, w, ok)
        case ListRecords(w, ok) => StepListRecords(s, w, ok)
        case WriteLabels(w, outcome) => StepWriteLabels(s, w, outcome)
        case Create(w, outcome) => StepCreate(s, w, outcome)
        case Settle(w) => StepSettle(s, w)
    else
      var s' := s.(cluster := StepEnvironment(s.cluster, a));
      if a.Restarted? then s'.(workers := seq(|s.workers|, _ => Idle)) else s'
  }

  ghost function Run(s: State, acts: seq<Action>): State {
    if |acts| == 0 then s else Step(Run(s, acts[..|acts| - 1]), acts[|acts| - 1])
  }

  function Init(n: nat): State {
    State(Cluster(map[], map[], map[], map[], {}), seq(n, _ => Idle))
  }

  lemma RunNext(s: State, acts: seq<Action>, a: Action)
    ensures Run(s, acts + [a]) == Step(Run(s, acts), a)
  {
    var next := acts + [a];
    assert next[..|next| - 1] == acts;
  }

  lemma {:induction false} RunAppend(s: State, a: seq<Action>, b: seq<Action>)
    ensures Run(s, a + b) == Run(Run(s, a), b)
  {
    if |b| == 0 {
      assert a + b == a;
    } else {
      RunAppend(s, a, b[..|b| - 1]);
      assert (a + b)[..|a + b| - 1] == a + b[..|b| - 1];
    }
  }

  /** Every List of records in the run succeeds. */
  predicate ListsSucceed(acts: seq<Action>) {
    forall a | a in acts :: a.ListRecords? ==> a.ok
  }

  // ---------- what one step may change ----------

  predicate Carrying(worker: Worker) {
    worker.Chosen? || worker.Labelled?
  }

  predicate SameCarry(a: Worker, b: Worker)
    requires Carrying(a) && Carrying(b)
  {
    a.key == b.key && a.pod == b.pod && a.subnet == b.subnet && a.choice == b.choice
  }

  lemma StepKeepsWorkerCount(s: State, a: Action)
    ensures |Step(s, a).workers| == |s.workers|
  {
  }

  lemma {:induction false} RunKeepsWorkerCount(s: State, acts: seq<Action>)
    ensures |Run(s, acts).workers| == |s.workers|
  {
    if |acts| > 0 {
      RunKeepsWorkerCount(s, acts[..|acts| - 1]);
      StepKeepsWorkerCount(Run(s, acts[..|acts| - 1]), acts[|acts| - 1]);
    }
  }

  /** This step adds the record that worker carries. */
  ghost predicate CreatesRecord(s: State, a: Action) {
    && a.Create? && a.w < |s.workers| && s.workers[a.w].Labelled?
    && a.outcome != Rejected && s.workers[a.w].key !in s.cluster.records
  }

  function RecordOf(worker: Worker): MacvlanIP
    requires worker.Labelled?
  {
    MakeMacvlanIP(worker.key, worker.pod, worker.subnet, worker.choice.cidr, worker.choice.mac)
  }

  /** The steps of a worker other than Create leave the records alone, and those other than
      WriteLabels the pods. */
  lemma QuietWorkerStep(s: State, a: Action)
    requires OfWorker(a)
    ensures !a.Create? ==> Step(s, a).cluster.records == s.cluster.records
    ensures !a.WriteLabels? ==> Step(s, a).cluster.pods == s.cluster.pods
    ensures Step(s, a).cluster.subnets == s.cluster.subnets
  {
    if a.w < |s.workers| {
      match a {
        case Take(w, key) => assert Step(s, a) == StepTake(s, w, key);
        case ReadPod(w) => assert Step(s, a) == StepReadPod(s, w);
        case GetSubnet(w, ok) => assert Step(s, a) == StepGetSubnet(s, w, ok);
        case ListPods(w, ok) => assert Step(s, a) == StepListPods(s, w, ok);
        case ListRecords(w, ok) => assert Step(s, a) == StepListRecords(s, w, ok);
        case WriteLabels(w, outcome) => assert Step(s, a) == StepWriteLabels(s, w, outcome);
        case Create(w, outcome) => assert Step(s, a) == StepCreate(s, w, outcome);
        case Settle(w) => assert Step(s, a) == StepSettle(s, w);
      }
    }
  }

  lemma EnvironmentStep(s: State, a: Action)
    requires !OfWorker(a)
    ensures Step(s, a).cluster == StepEnvironment(s.cluster, a)
  {
  }

  /** A record is added only by the Create of a worker that has labelled a pod, and never overwritten. */
  lemma RecordsStep(s: State, a: Action)
    ensures var r, r' := s.cluster.records, Step(s, a).cluster.records;
      if CreatesRecord(s, a) then r' == r[s.workers[a.w].key := RecordOf(s.workers[a.w])]
      else r' == r || (a.RecordDeleted? && r' == r - {a.key})
  {
    if a.Create? {
      if a.w < |s.workers| {
        assert Step(s, a) == StepCreate(s, a.w, a.outcome);
      }
    } else if OfWorker(a) {
      QuietWorkerStep(s, a);
    } else {
      EnvironmentStep(s, a);
    }
  }

  /** This step puts the labels of a finished choice on a pod. */
  ghost predicate WritesLabels(s: State, a: Action) {
    && a.WriteLabels? && a.w < |s.workers| && s.workers[a.w].Chosen?
    && s.workers[a.w].key in s.cluster.pods && a.outcome != Rejected
  }

  /** Every pod of the second store either has no labels or the labels it had in the first. */
  ghost predicate LabelsFrom(before: map<Key, Pod>, after: map<Key, Pod>) {
    forall k | k in after :: after[k].labels == NO_LABELS || (k in before && after[k].labels == before[k].labels)
  }

  /** Only a worker that has chosen an address labels a pod. */
  lemma PodsStep(s: State, a: Action)
    ensures var pods, pods' := s.cluster.pods, Step(s, a).cluster.pods;
      if WritesLabels(s, a) then
        var Chosen(key, pod, _, choice) := s.workers[a.w];
        pods' == WithLabels(pods, key, pod.Annotation(ANNOTATION_IP), SelectedText(choice))
      else LabelsFrom(pods, pods')
  {
    if a.WriteLabels? {
      if a.w < |s.workers| {
        assert Step(s, a) == StepWriteLabels(s, a.w, a.outcome);
      }
    } else if OfWorker(a) {
      QuietWorkerStep(s, a);
    } else {
      EnvironmentStep(s, a);
    }
  }

  /** Only the environment writes subnets. */
  lemma SubnetsStep(s: State, a: Action)
    ensures Step(s, a).cluster.subnets == (match a
      case SubnetWritten(subnet) => s.cluster.subnets[subnet.name := subnet]
      case SubnetDeleted(name) => s.cluster.subnets - {name}
      case _ => s.cluster.subnets)
  {
    if OfWorker(a) {
      QuietWorkerStep(s, a);
    } else {
      EnvironmentStep(s, a);
    }
  }

  /** A worker comes to carry an address only by listing records. */
  lemma CarryStep(s: State, a: Action, i: nat)
    requires i < |s.workers| && Carrying(Step(s, a).workers[i])
    ensures if Carrying(s.workers[i]) then SameCarry(s.workers[i], Step(s, a).workers[i])
      else a == ListRecords(i, a.ok) && Step(s, a) == StepListRecords(s, i, a.ok)
  {
    if a.ListRecords? {
      if a.w < |s.workers| {
        StepIsListRecords(s, a.w, a.ok);
        ListRecordsLeavesOthers(s, a.w, a.ok, i);
      }
    } else {
      CarryKept(s, a, Step(s, a), i);
    }
  }

  lemma ListRecordsLeavesOthers(s: State, w: nat, ok: bool, i: nat)
    requires w < |s.workers| && i < |s.workers|
    ensures |StepListRecords(s, w, ok).workers| == |s.workers|
    ensures i != w || Carrying(s.workers[w]) ==> StepListRecords(s, w, ok).workers[i] == s.workers[i]
  {
  }

  lemma CarryKept(s: State, a: Action, s': State, i: nat)
    requires s' == Step(s, a) && !a.ListRecords? && i < |s.workers| == |s'.workers| && Carrying(s'.workers[i])
    ensures Carrying(s.workers[i]) && SameCarry(s.workers[i], s'.workers[i])
  {
    if OfWorker(a) && a.w < |s.workers| {
      if a.WriteLabels? {
        assert s' == StepWriteLabels(s, a.w, a.outcome);
      } else {
        CarryStays(s, a, s', i);
      }
    }
  }

  lemma CarryStays(s: State, a: Action, s': State, i: nat)
    requires s' == Step(s, a) && OfWorker(a) && !a.ListRecords? && !a.WriteLabels?
    requires i < |s.workers| == |s'.workers| && Carrying(s'.workers[i])
    ensures s'.workers[i] == s.workers[i]
  {
  }

  /** What listing the records of its subnet makes of a worker that then carries an address. */
  lemma ListRecordsStep(s: State, w: nat, ok: bool)
    requires w < |s.workers| && !Carrying(s.workers[w]) && Carrying(StepListRecords(s, w, ok).workers[w])
    ensures var before, after := s.workers[w], StepListRecords(s, w, ok).workers[w];
      && (before.WithSubnet? || before.Grouped?)
      && after == Chosen(before.key, before.pod, before.subnet, after.choice)
      && AllocFor(before, ListedUsed(s, before, ok)) == Some(Allocated(after.choice))
    ensures StepListRecords(s, w, ok).cluster == s.cluster
  {
  }

  /** A worker comes to hold a picked text only by listing the pods of its group. */
  lemma GroupedStep(s: State, a: Action, s': State, i: nat)
    requires s' == Step(s, a) && |s'.workers| == |s.workers| && i < |s.workers| && s'.workers[i].Grouped?
    ensures s'.workers[i] == s.workers[i]
      || (a == ListPods(i, true) && s.workers[i].WithSubnet? && s'.cluster == s.cluster
          && s'.workers[i].key == s.workers[i].key && s'.workers[i].pod == s.workers[i].pod
          && ModeOf(s.workers[i].pod.Annotation(ANNOTATION_IP)) == Multiple
          && var pod := s.workers[i].pod;
          ListPick(pod.Annotation(ANNOTATION_IP), pod.Annotation(ANNOTATION_MAC),
                   HeldInGroup(s.cluster.pods, s.workers[i].key.namespace, Sha1(pod.Annotation(ANNOTATION_IP))))
          == Picked(s'.workers[i].text, s'.workers[i].mac))
  {
    if a.ListPods? {
    } else if OfWorker(a) {
    }
  }

  // ---------- what single actions give ----------

  lemma ListRecordsGives(s: State, w: nat, ok: bool, r: Alloc)
    requires w < |s.workers| && (s.workers[w].WithSubnet? || s.workers[w].Grouped?)
    requires AllocFor(s.workers[w], if ok then RecordedIn(s.cluster.records, s.workers[w].subnet.name) else {})
      == Some(r)
    ensures var k := s.workers[w];
      Step(s, ListRecords(w, ok)) == Become(s, w, match r
        case Allocated(choice) => Chosen(k.key, k.pod, k.subnet, choice)
        case Failed(_) => Ended(k.key, true))
  {
    StepIsListRecords(s, w, ok);
    StepListRecordsGives(s, w, ok, r);
    ConcludeGives(s, w, r);
  }

  lemma StepIsListRecords(s: State, w: nat, ok: bool)
    requires w < |s.workers|
    ensures Step(s, ListRecords(w, ok)) == StepListRecords(s, w, ok)
  {
  }

  lemma StepListRecordsGives(s: State, w: nat, ok: bool, r: Alloc)
    requires w < |s.workers| && (s.workers[w].WithSubnet? || s.workers[w].Grouped?)
    requires AllocFor(s.workers[w], ListedUsed(s, s.workers[w], ok)) == Some(r)
    ensures StepListRecords(s, w, ok) == Conclude(s, w, Some(r))
  {
  }

  lemma ConcludeGives(s: State, w: nat, r: Alloc)
    requires w < |s.workers| && (s.workers[w].WithSubnet? || s.workers[w].Grouped?)
    ensures var k := s.workers[w];
      Conclude(s, w, Some(r)) == Become(s, w, match r
        case Allocated(choice) => Chosen(k.key, k.pod, k.subnet, choice)
        case Failed(_) => Ended(k.key, true))
  {
  }

  ghost function PickFor(s: State, worker: Worker): Pick
    requires worker.WithSubnet?
  {
    var ip := worker.pod.Annotation(ANNOTATION_IP);
    ListPick(ip, worker.pod.Annotation(ANNOTATION_MAC), HeldInGroup(s.cluster.pods, worker.key.namespace, Sha1(ip)))
  }

  lemma ListPodsGives(s: State, w: nat, ok: bool)
    requires w < |s.workers| && s.workers[w].WithSubnet?
    requires ModeOf(s.workers[w].pod.Annotation(ANNOTATION_IP)) == Multiple
    ensures var k := s.workers[w];
      Step(s, ListPods(w, ok)) == Become(s, w,
        if ok && PickFor(s, k).Picked? then Grouped(k.key, k.pod, k.subnet, PickFor(s, k).text, PickFor(s, k).mac)
        else Ended(k.key, true))
  {
    assert Step(s, ListPods(w, ok)) == StepListPods(s, w, ok);
  }

  lemma WriteLabelsGives(s: State, w: nat, outcome: Outcome)
    requires w < |s.workers| && s.workers[w].Chosen? && s.workers[w].key in s.cluster.pods && outcome != Rejected
    ensures var Chosen(key, pod, subnet, choice) := s.workers[w];
      var text := SelectedText(choice);
      Step(s, WriteLabels(w, outcome))
      == State(s.cluster.(pods := WithLabels(s.cluster.pods, key, pod.Annotation(ANNOTATION_IP), text)),
               s.workers[w := if outcome == Done then Labelled(key, pod, subnet, choice, text) else Ended(key, false)])
  {
    assert Step(s, WriteLabels(w, outcome)) == StepWriteLabels(s, w, outcome);
  }

  lemma WriteLabelsRejected(s: State, w: nat)
    requires w < |s.workers| && s.workers[w].Chosen?
    ensures Step(s, WriteLabels(w, Rejected)) == Become(s, w, Ended(s.workers[w].key, false))
  {
    assert Step(s, WriteLabels(w, Rejected)) == StepWriteLabels(s, w, Rejected);
  }

  lemma CreateGives(s: State, w: nat, outcome: Outcome)
    requires w < |s.workers| && s.workers[w].Labelled?
    ensures var k, records := s.workers[w], s.cluster.records;
      Step(s, Create(w, outcome))
      == State(s.cluster.(records :=
                            if outcome == Rejected || k.key in records then records
                            else records[k.key := RecordOf(k)]),
               s.workers[w := Ended(k.key, outcome != Done)])
  {
    assert Step(s, Create(w, outcome)) == StepCreate(s, w, outcome);
  }

  lemma SettleGives(s: State, w: nat)
    requires w < |s.workers| && s.workers[w].Ended? && !s.workers[w].err
    ensures Step(s, Settle(w)) == Become(s, w, Idle)
  {
    assert Step(s, Settle(w)) == StepSettle(s, w);
  }
}
