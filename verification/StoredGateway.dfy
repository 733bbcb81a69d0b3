/** A gateway that is stored while the controller runs: exactly when no record comes to hold it. */
module StoredGateway {
  import opened Bytes
  import opened Text
  import opened Subnetting
  import opened Ipcalc
  import opened Types
  import opened Ipalloc
  import opened Protocol
  import opened Uniqueness
  import opened Races
  import opened Capacity
  import opened Groups
  import opened Controller
  import opened Gateway

  /** Whenever the run writes the subnet, its gateway is g; anything else about it may change. */
  ghost predicate KeepsGateway(acts: seq<Action>, name: string, g: Addr) {
    forall a | a in acts :: KeepsGatewayStep(a, name, g)
  }

  ghost predicate KeepsGatewayStep(a: Action, name: string, g: Addr) {
    a.SubnetWritten? && a.subnet.name == name ==> g in GatewayAddrs(a.subnet)
  }

  /** If the subnet is stored at all, then with the gateway g. */
  ghost predicate StoresGateway(s: State, name: string, g: Addr) {
    && Named(s.cluster.subnets)
    && (name in s.cluster.subnets ==> g in GatewayAddrs(s.cluster.subnets[name]))
  }

  lemma StoresGatewayStep(s: State, a: Action, name: string, g: Addr)
    requires StoresGateway(s, name, g) && KeepsGatewayStep(a, name, g)
    ensures StoresGateway(Step(s, a), name, g)
  {
    SubnetsStep(s, a);
  }

  lemma GatewayIsNotFree(subnet: Subnet, g: Addr)
    requires g in GatewayAddrs(subnet)
    ensures g !in Free(subnet, {})
  {
  }

  // ---------- any number of workers ----------

  /** The worker carries another address than g, or its copy of the subnet rules g out. */
  ghost predicate WorkerAvoids(worker: Worker, name: string, g: Addr) {
    HasSubnet(worker) && worker.subnet.name == name ==>
      if Carrying(worker) then RecordedAddr(worker.choice.cidr) != Some(g) else g !in Free(worker.subnet, {})
  }

  ghost predicate Avoids(s: State, name: string, g: Addr) {
    && StoresGateway(s, name, g)
    && g !in RecordedIn(s.cluster.records, name)
    && forall i | 0 <= i < |s.workers| :: WorkerAvoids(s.workers[i], name, g)
  }

  lemma ChoiceAvoids(worker: Worker, used: set<Addr>, choice: Choice, g: Addr)
    requires (worker.WithSubnet? || worker.Grouped?) && g !in Free(worker.subnet, {})
    requires AllocFor(worker, used) == Some(Allocated(choice))
    ensures RecordedAddr(choice.cidr) != Some(g)
  {
    AllocatedIsFree(worker, used, choice);
    FreeIsMonotone(worker.subnet, used);
  }

  lemma CarryAvoids(s: State, a: Action, s': State, i: nat, name: string, g: Addr)
    requires s' == Step(s, a) && |s'.workers| == |s.workers| && i < |s.workers|
    requires WorkerAvoids(s.workers[i], name, g) && Carrying(s'.workers[i])
    ensures WorkerAvoids(s'.workers[i], name, g)
  {
    var before, after := s.workers[i], s'.workers[i];
    CarryStep(s, a, i);
    if !Carrying(before) {
      ListRecordsStep(s, i, a.ok);
      if before.subnet.name == name {
        ChoiceAvoids(before, ListedUsed(s, before, a.ok), after.choice, g);
      }
    }
  }

  lemma WorkerAvoidsStep(s: State, a: Action, s': State, i: nat, name: string, g: Addr)
    requires s' == Step(s, a) && |s'.workers| == |s.workers| && i < |s.workers|
    requires StoresGateway(s, name, g) && WorkerAvoids(s.workers[i], name, g)
    ensures WorkerAvoids(s'.workers[i], name, g)
  {
    var after := s'.workers[i];
    if Carrying(after) {
      CarryAvoids(s, a, s', i, name, g);
    } else if HasSubnet(after) && after.subnet.name == name {
      CopyAvoids(s, a, s', i, name, g);
    }
  }

  lemma CopyAvoids(s: State, a: Action, s': State, i: nat, name: string, g: Addr)
    requires s' == Step(s, a) && |s'.workers| == |s.workers| && i < |s.workers|
    requires StoresGateway(s, name, g) && WorkerAvoids(s.workers[i], name, g)
    requires HasSubnet(s'.workers[i]) && !Carrying(s'.workers[i]) && s'.workers[i].subnet.name == name
    ensures g !in Free(s'.workers[i].subnet, {})
  {
    SubnetOfWorker(s, a, s', i);
    if HasSubnet(s.workers[i]) && s.workers[i].subnet == s'.workers[i].subnet {
      UndecidedBefore(s, a, s', i);
    } else {
      GatewayIsNotFree(s'.workers[i].subnet, g);
    }
  }

  /** A record holds g only if a worker that carried g has created it. */
  lemma RecordedStep(s: State, a: Action, name: string, g: Addr)
    requires g !in RecordedIn(s.cluster.records, name)
    requires CreatesRecord(s, a) && s.workers[a.w].subnet.name == name ==>
      RecordedAddr(s.workers[a.w].choice.cidr) != Some(g)
    ensures g !in RecordedIn(Step(s, a).cluster.records, name)
  {
    RecordsStep(s, a);
  }

  lemma {:induction false} RunAvoids(s: State, acts: seq<Action>, name: string, g: Addr)
    requires Avoids(s, name, g) && KeepsGateway(acts, name, g)
    ensures Avoids(Run(s, acts), name, g)
  {
    if |acts| > 0 {
      var front, a := acts[..|acts| - 1], acts[|acts| - 1];
      RunAvoids(s, front, name, g);
      var t, t' := Run(s, front), Run(s, acts);
      StoresGatewayStep(t, a, name, g);
      RecordedStep(t, a, name, g);
      StepKeepsWorkerCount(t, a);
      forall i | 0 <= i < |t'.workers|
        ensures WorkerAvoids(t'.workers[i], name, g)
      {
        WorkerAvoidsStep(t, a, t', i, name, g);
      }
    }
  }

  /** In particular a subnet that nothing refers to yet avoids its gateway. */
  lemma UnreferencedAvoids(s: State, name: string, g: Addr)
    requires StoresGateway(s, name, g) && Unreferenced(s, name)
    ensures Avoids(s, name, g)
  {
  }

  // ---------- one worker: exactly when ----------

  /** The worker carries g, or with deletions alone it can be brought to choose g. */
  ghost predicate MayGive(c: Cluster, worker: Worker, name: string, g: Addr) {
    && HasSubnet(worker) && worker.subnet.name == name
    && if Carrying(worker) then RecordedAddr(worker.choice.cidr) == Some(g)
       else g in Free(worker.subnet, {}) && MayChoose(c, worker, g)
  }

  /** In auto mode all smaller addresses that its copy leaves free are recorded; otherwise a text that it
      asks for, or has picked, or still can pick denotes g. */
  ghost predicate MayChoose(c: Cluster, worker: Worker, g: Addr)
    requires worker.WithSubnet? || worker.Grouped?
  {
    match worker
    case Grouped(_, _, _, text, _) => ParseAddr(text) == Some(g)
    case WithSubnet(key, pod, subnet) =>
      var ip := pod.Annotation(ANNOTATION_IP);
      (match ModeOf(ip)
       case Auto => forall v | v in Free(subnet, {}) && v < g :: v in RecordedIn(c.records, subnet.name)
       case Single => ParseAddr(ip) == Some(g)
       case Multiple =>
         && !CountsDiffer(ip, pod.Annotation(ANNOTATION_MAC))
         && exists i :: CanPick(Listed(ip), HeldInGroup(c.pods, key.namespace, Sha1(ip)), i, g)
       case Invalid => false)
  }

  /** The text at i denotes g, and all texts before it are other texts that are held. */
  ghost predicate CanPick(texts: seq<string>, held: set<string>, i: int, g: Addr) {
    && 0 <= i < |texts| && ParseAddr(texts[i]) == Some(g)
    && forall j | 0 <= j < i :: texts[j] in held && texts[j] != texts[i]
  }

  ghost predicate Protected(s: State, name: string, g: Addr)
    requires |s.workers| == 1
  {
    g !in RecordedIn(s.cluster.records, name) && !MayGive(s.cluster, s.workers[0], name, g)
  }

  /** What a worker allocates from any list of records that are there, it might have been brought to give. */
  lemma AllocatedMayBeGiven(c: Cluster, worker: Worker, used: set<Addr>, choice: Choice, g: Addr)
    requires worker.WithSubnet? || worker.Grouped?
    requires used <= RecordedIn(c.records, worker.subnet.name)
    requires AllocFor(worker, used) == Some(Allocated(choice)) && RecordedAddr(choice.cidr) == Some(g)
    ensures MayGive(c, worker, worker.subnet.name, g)
  {
    AllocatedIsFree(worker, used, choice);
    FreeIsMonotone(worker.subnet, used);
    if worker.Grouped? {
      RequestedText(worker.subnet, used, worker.text, worker.mac, choice, g);
    } else if ModeOf(worker.pod.Annotation(ANNOTATION_IP)) == Auto {
      AutoIsLeast(worker.subnet, used, choice, g);
    } else {
      RequestedText(worker.subnet, used, worker.pod.Annotation(ANNOTATION_IP), "", choice, g);
    }
  }

  lemma AutoIsLeast(subnet: Subnet, used: set<Addr>, choice: Choice, g: Addr)
    requires AutoAlloc(subnet, used) == Allocated(choice) && RecordedAddr(choice.cidr) == Some(g)
    ensures forall v | v in Free(subnet, {}) && v < g :: v in used
  {
    ChoiceOfIsGood(Least(Free(subnet, used)), subnet, "");
    forall v | v in Free(subnet, {}) && v !in used
      ensures g <= v
    {
      assert v in Free(subnet, used);
    }
  }

  lemma RequestedText(subnet: Subnet, used: set<Addr>, text: string, mac: string, choice: Choice, g: Addr)
    requires RequestedAlloc(subnet, used, text, mac) == Allocated(choice) && RecordedAddr(choice.cidr) == Some(g)
    ensures ParseAddr(text) == Some(g)
  {
    RequestedIsFree(subnet, used, text, mac);
    ChoiceOfIsGood(ParseAddr(text).value, subnet, mac);
  }

  lemma PickedMayBeGiven(texts: seq<string>, held: set<string>, g: Addr)
    requires FirstUnheld(texts, held) < |texts| && ParseAddr(texts[FirstUnheld(texts, held)]) == Some(g)
    ensures CanPick(texts, held, FirstUnheld(texts, held), g)
  {
    FirstUnheldIsFirst(texts, held);
  }

  /** With fewer records and fewer labels there is no more that a worker may give. */
  lemma MayGiveShrinks(before: Cluster, after: Cluster, worker: Worker, name: string, g: Addr)
    requires RecordedIn(after.records, name) <= RecordedIn(before.records, name)
    requires LabelsFrom(before.pods, after.pods)
    requires MayGive(after, worker, name, g)
    ensures MayGive(before, worker, name, g)
  {
    if worker.WithSubnet? && ModeOf(worker.pod.Annotation(ANNOTATION_IP)) == Multiple {
      var ip := worker.pod.Annotation(ANNOTATION_IP);
      FewerHeld(before.pods, after.pods, worker.key.namespace, Sha1(ip));
      var i :| CanPick(Listed(ip), HeldInGroup(after.pods, worker.key.namespace, Sha1(ip)), i, g);
      assert CanPick(Listed(ip), HeldInGroup(before.pods, worker.key.namespace, Sha1(ip)), i, g);
    }
  }

  lemma WithSubnetStep(s: State, a: Action, s': State, i: nat)
    requires s' == Step(s, a) && |s'.workers| == |s.workers| && i < |s.workers| && s'.workers[i].WithSubnet?
    ensures s'.workers[i] == s.workers[i]
      || exists n :: n in s.cluster.subnets && s.cluster.subnets[n] == s'.workers[i].subnet
  {
    if a.GetSubnet? {
    } else if OfWorker(a) {
    }
  }

  /** While the worker has not chosen yet, records and labels can only disappear. */
  lemma QuietWhileUndecided(s: State, a: Action, name: string)
    requires |s.workers| == 1 && !Carrying(s.workers[0])
    ensures RecordedIn(Step(s, a).cluster.records, name) <= RecordedIn(s.cluster.records, name)
    ensures LabelsFrom(s.cluster.pods, Step(s, a).cluster.pods)
  {
    RecordsStep(s, a);
    PodsStep(s, a);
  }

  lemma CarryIsProtected(s: State, a: Action, s': State, name: string, g: Addr)
    requires s' == Step(s, a) && |s.workers| == |s'.workers| == 1
    requires Protected(s, name, g) && Carrying(s'.workers[0])
    ensures !MayGive(s'.cluster, s'.workers[0], name, g)
  {
    var before, after := s.workers[0], s'.workers[0];
    CarryStep(s, a, 0);
    if !Carrying(before) {
      ListRecordsStep(s, 0, a.ok);
      if RecordedAddr(after.choice.cidr) == Some(g) {
        AllocatedMayBeGiven(s.cluster, before, ListedUsed(s, before, a.ok), after.choice, g);
      }
    }
  }

  lemma UndecidedIsProtected(s: State, a: Action, s': State, name: string, g: Addr)
    requires s' == Step(s, a) && |s.workers| == |s'.workers| == 1 && StoresGateway(s, name, g)
    requires Protected(s, name, g) && HasSubnet(s'.workers[0]) && !Carrying(s'.workers[0])
    ensures !MayGive(s'.cluster, s'.workers[0], name, g)
  {
    var before, after := s.workers[0], s'.workers[0];
    if after == before {
      QuietWhileUndecided(s, a, name);
      if MayGive(s'.cluster, after, name, g) {
        MayGiveShrinks(s.cluster, s'.cluster, after, name, g);
      }
    } else if after.WithSubnet? {
      WithSubnetStep(s, a, s', 0);
      if after.subnet.name == name {
        GatewayIsNotFree(after.subnet, g);
      }
    } else {
      GroupedStep(s, a, s', 0);
      SubnetOfWorker(s, a, s', 0);
      if MayGive(s'.cluster, after, name, g) {
        GroupedMayBeGiven(s, s', name, g);
      }
    }
  }

  lemma GroupedMayBeGiven(s: State, s': State, name: string, g: Addr)
    requires |s.workers| == |s'.workers| == 1 && s.workers[0].WithSubnet? && s'.workers[0].Grouped?
    requires s.workers[0].subnet == s'.workers[0].subnet && s'.cluster == s.cluster
    requires ModeOf(s.workers[0].pod.Annotation(ANNOTATION_IP)) == Multiple
    requires PickFor(s, s.workers[0]) == Picked(s'.workers[0].text, s'.workers[0].mac)
    requires MayGive(s'.cluster, s'.workers[0], name, g)
    ensures MayGive(s.cluster, s.workers[0], name, g)
  {
    var worker := s.workers[0];
    var ip := worker.pod.Annotation(ANNOTATION_IP);
    PickedMayBeGiven(Listed(ip), HeldInGroup(s.cluster.pods, worker.key.namespace, Sha1(ip)), g);
  }

  lemma ProtectedStep(s: State, a: Action, s': State, name: string, g: Addr)
    requires s' == Step(s, a) && |s.workers| == |s'.workers| == 1
    requires StoresGateway(s, name, g) && Protected(s, name, g)
    ensures Protected(s', name, g)
  {
    RecordedStep(s, a, name, g);
    if Carrying(s'.workers[0]) {
      CarryIsProtected(s, a, s', name, g);
    } else if HasSubnet(s'.workers[0]) {
      UndecidedIsProtected(s, a, s', name, g);
    }
  }

  lemma {:induction false} RunProtected(s: State, acts: seq<Action>, name: string, g: Addr)
    requires |s.workers| == 1 && StoresGateway(s, name, g) && Protected(s, name, g) && KeepsGateway(acts, name, g)
    ensures var t := Run(s, acts); |t.workers| == 1 && StoresGateway(t, name, g) && Protected(t, name, g)
  {
    if |acts| > 0 {
      var front, a := acts[..|acts| - 1], acts[|acts| - 1];
      RunProtected(s, front, name, g);
      StoresGatewayStep(Run(s, front), a, name, g);
      StepKeepsWorkerCount(Run(s, front), a);
      ProtectedStep(Run(s, front), a, Run(s, acts), name, g);
    }
  }

  // ---------- and otherwise a run in which a record comes to hold it ----------

  /** The run writes no subnet, and all its Lists of records are answered. */
  predicate Harmless(acts: seq<Action>) {
    ListsSucceed(acts) && forall a | a in acts :: !a.SubnetWritten?
  }

  lemma OneRecordIsRecorded(records: map<Key, MacvlanIP>, k: Key, g: Addr)
    requires k in records && RecordedAddr(records[k].spec.cidr) == Some(g)
    ensures g in RecordedIn(records, records[k].subnetLabel)
  {
  }

  lemma LabelledGives(s: State, g: Addr)
    requires |s.workers| == 1 && s.workers[0].Labelled? && RecordedAddr(s.workers[0].choice.cidr) == Some(g)
    ensures var acts := [RecordDeleted(s.workers[0].key), Create(0, Done)];
      Harmless(acts) && g in RecordedIn(Run(s, acts).cluster.records, s.workers[0].subnet.name)
  {
    var worker := s.workers[0];
    var s1 := Step(s, RecordDeleted(worker.key));
    RunTwo(s, RecordDeleted(worker.key), Create(0, Done));
    EnvironmentStep(s, RecordDeleted(worker.key));
    assert s1.workers == s.workers;
    CreateGives(s1, 0, Done);
    OneRecordIsRecorded(Step(s1, Create(0, Done)).cluster.records, worker.key, g);
  }

  lemma ChosenLabels(s: State)
    requires |s.workers| == 1 && s.workers[0].Chosen?
    ensures var worker := s.workers[0];
      var acts := [PodCreated(worker.key, "", map[]), WriteLabels(0, Done)];
      && Harmless(acts)
      && Run(s, acts).workers
         == [Labelled(worker.key, worker.pod, worker.subnet, worker.choice, SelectedText(worker.choice))]
  {
    var worker := s.workers[0];
    var s1 := Step(s, PodCreated(worker.key, "", map[]));
    RunTwo(s, PodCreated(worker.key, "", map[]), WriteLabels(0, Done));
    EnvironmentStep(s, PodCreated(worker.key, "", map[]));
    assert s1.workers == s.workers && worker.key in s1.cluster.pods;
    WriteLabelsGives(s1, 0, Done);
  }

  lemma CarriedRun(s: State, name: string, g: Addr) returns (acts: seq<Action>)
    requires |s.workers| == 1 && Carrying(s.workers[0]) && MayGive(s.cluster, s.workers[0], name, g)
    ensures Harmless(acts) && g in RecordedIn(Run(s, acts).cluster.records, name)
  {
    var key := s.workers[0].key;
    var last := [RecordDeleted(key), Create(0, Done)];
    if s.workers[0].Labelled? {
      acts := last;
      LabelledGives(s, g);
    } else {
      var first := [PodCreated(key, "", map[]), WriteLabels(0, Done)];
      acts := first + last;
      ChosenLabels(s);
      LabelledGives(Run(s, first), g);
      RunAppend(s, first, last);
    }
  }

  lemma MayGiveIsAllocated(c: Cluster, worker: Worker, name: string, g: Addr) returns (choice: Choice)
    requires worker.Grouped? || (worker.WithSubnet? && ModeOf(worker.pod.Annotation(ANNOTATION_IP)) != Multiple)
    requires MayGive(c, worker, name, g) && g !in RecordedIn(c.records, name)
    ensures AllocFor(worker, RecordedIn(c.records, name)) == Some(Allocated(choice))
    ensures RecordedAddr(choice.cidr) == Some(g)
  {
    var mac := if worker.WithSubnet? then "" else worker.mac;
    choice := ChoiceOf(g, worker.subnet, mac);
    ChoiceOfIsGood(g, worker.subnet, mac);
    if worker.WithSubnet? {
      UndecidedGives(c, worker, RecordedIn(c.records, name), g);
    } else {
      RequestedIsGiven(worker.subnet, RecordedIn(c.records, name), worker.text, mac, g);
    }
  }

  lemma UndecidedGives(c: Cluster, worker: Worker, used: set<Addr>, g: Addr)
    requires worker.WithSubnet? && ModeOf(worker.pod.Annotation(ANNOTATION_IP)) != Multiple
    requires used == RecordedIn(c.records, worker.subnet.name)
    requires g in Free(worker.subnet, {}) && g !in used && MayChoose(c, worker, g)
    ensures AllocFor(worker, used) == Some(Allocated(ChoiceOf(g, worker.subnet, "")))
  {
    var ip := worker.pod.Annotation(ANNOTATION_IP);
    if ModeOf(ip) == Auto {
      AutoIsGiven(worker.subnet, used, g);
    } else {
      RequestedIsGiven(worker.subnet, used, ip, "", g);
    }
  }

  lemma AutoIsGiven(subnet: Subnet, used: set<Addr>, g: Addr)
    requires g in Free(subnet, {}) && g !in used && forall v | v in Free(subnet, {}) && v < g :: v in used
    ensures AutoAlloc(subnet, used) == Allocated(ChoiceOf(g, subnet, ""))
  {
    forall w | w in Free(subnet, used)
      ensures g <= w
    {
      assert w in Free(subnet, {});
    }
    assert g in Free(subnet, used);
    AutoGives(subnet, used, g);
  }

  lemma RequestedIsGiven(subnet: Subnet, used: set<Addr>, text: string, mac: string, g: Addr)
    requires g in Free(subnet, {}) && g !in used && ParseAddr(text) == Some(g)
    ensures RequestedAlloc(subnet, used, text, mac) == Allocated(ChoiceOf(g, subnet, mac))
  {
    assert g in Free(subnet, used);
    RequestedIsFree(subnet, used, text, mac);
  }

  lemma ListedRun(s: State, name: string, g: Addr) returns (acts: seq<Action>)
    requires |s.workers| == 1 && MayGive(s.cluster, s.workers[0], name, g) && g !in RecordedIn(s.cluster.records, name)
    requires s.workers[0].Grouped?
      || (s.workers[0].WithSubnet? && ModeOf(s.workers[0].pod.Annotation(ANNOTATION_IP)) != Multiple)
    ensures Harmless(acts) && g in RecordedIn(Run(s, acts).cluster.records, name)
  {
    var list := ListRecords(0, true);
    ListedCarries(s, name, g);
    var more := CarriedRun(Run(s, [list]), name, g);
    RunAppend(s, [list], more);
    acts := [list] + more;
  }

  lemma ListedCarries(s: State, name: string, g: Addr)
    requires |s.workers| == 1 && MayGive(s.cluster, s.workers[0], name, g) && g !in RecordedIn(s.cluster.records, name)
    requires s.workers[0].Grouped?
      || (s.workers[0].WithSubnet? && ModeOf(s.workers[0].pod.Annotation(ANNOTATION_IP)) != Multiple)
    ensures var s' := Run(s, [ListRecords(0, true)]);
      |s'.workers| == 1 && Carrying(s'.workers[0]) && MayGive(s'.cluster, s'.workers[0], name, g)
  {
    var choice := MayGiveIsAllocated(s.cluster, s.workers[0], name, g);
    ListRecordsGives(s, 0, true, Allocated(choice));
    RunNext(s, [], ListRecords(0, true));
    assert [] + [ListRecords(0, true)] == [ListRecords(0, true)];
  }

  // ---------- a list whose text is held has to be freed first ----------

  ghost function Holders(pods: map<Key, Pod>, text: string): set<Key> {
    set k | k in pods && pods[k].labels.selectedIP == text
  }

  lemma {:induction false} DeletePods(s: State, keys: set<Key>) returns (acts: seq<Action>)
    ensures Harmless(acts)
    ensures Run(s, acts) == s.(cluster := s.cluster.(pods := s.cluster.pods - keys))
    decreases keys
  {
    if keys == {} {
      acts := [];
      assert s.cluster.pods - {} == s.cluster.pods;
    } else {
      var k :| k in keys;
      var front := DeletePods(s, keys - {k});
      acts := front + [PodDeleted(k)];
      RunNext(s, front, PodDeleted(k));
      EnvironmentStep(Run(s, front), PodDeleted(k));
      assert s.cluster.pods - (keys - {k}) - {k} == s.cluster.pods - keys;
    }
  }

  lemma HeldWithoutHolders(pods: map<Key, Pod>, namespace: string, digest: Digest, text: string)
    requires text != ""
    ensures HeldInGroup(pods - Holders(pods, text), namespace, digest) == HeldInGroup(pods, namespace, digest) - {text}
  {
    var fewer := pods - Holders(pods, text);
    forall t | t in HeldInGroup(pods, namespace, digest) - {text}
      ensures t in HeldInGroup(fewer, namespace, digest)
    {
      var k :| k in pods && InGroup(pods, k, namespace, digest) && pods[k].labels.selectedIP == t;
      assert k in fewer && InGroup(fewer, k, namespace, digest);
    }
    forall t | t in HeldInGroup(fewer, namespace, digest)
      ensures t in HeldInGroup(pods, namespace, digest) - {text}
    {
      var k :| k in fewer && InGroup(fewer, k, namespace, digest) && fewer[k].labels.selectedIP == t;
      assert k in pods && InGroup(pods, k, namespace, digest);
    }
  }

  lemma PicksAt(texts: seq<string>, held: set<string>, i: int, g: Addr)
    requires CanPick(texts, held, i, g)
    ensures FirstUnheld(texts, held - {texts[i]}) == i
  {
    FirstUnheldIsFirst(texts, held - {texts[i]});
  }

  lemma ListRun(s: State, name: string, g: Addr) returns (acts: seq<Action>)
    requires |s.workers| == 1 && MayGive(s.cluster, s.workers[0], name, g) && g !in RecordedIn(s.cluster.records, name)
    requires s.workers[0].WithSubnet? && ModeOf(s.workers[0].pod.Annotation(ANNOTATION_IP)) == Multiple
    ensures Harmless(acts) && g in RecordedIn(Run(s, acts).cluster.records, name)
  {
    var first := ListPicks(s, name, g);
    var more := ListedRun(Run(s, first), name, g);
    RunAppend(s, first, more);
    acts := first + more;
  }

  lemma ListPicks(s: State, name: string, g: Addr) returns (acts: seq<Action>)
    requires |s.workers| == 1 && MayGive(s.cluster, s.workers[0], name, g)
    requires s.workers[0].WithSubnet? && ModeOf(s.workers[0].pod.Annotation(ANNOTATION_IP)) == Multiple
    ensures Harmless(acts) && Run(s, acts).cluster.records == s.cluster.records
    ensures var s' := Run(s, acts);
      |s'.workers| == 1 && s'.workers[0].Grouped? && MayGive(s'.cluster, s'.workers[0], name, g)
  {
    var worker := s.workers[0];
    var ip := worker.pod.Annotation(ANNOTATION_IP);
    var held := HeldInGroup(s.cluster.pods, worker.key.namespace, Sha1(ip));
    var i :| CanPick(Listed(ip), held, i, g);
    var text := Listed(ip)[i];
    assert Split("", '.') == [""];
    var first := DeletePods(s, Holders(s.cluster.pods, text));
    var s1 := Run(s, first);
    HeldWithoutHolders(s.cluster.pods, worker.key.namespace, Sha1(ip), text);
    PicksAt(Listed(ip), held, i, g);
    assert PickFor(s1, worker).Picked? && PickFor(s1, worker).text == text;
    ListPodsGives(s1, 0, true);
    RunNext(s, first, ListPods(0, true));
    acts := first + [ListPods(0, true)];
  }

  lemma MayGiveRun(s: State, name: string, g: Addr) returns (acts: seq<Action>)
    requires |s.workers| == 1 && MayGive(s.cluster, s.workers[0], name, g) && g !in RecordedIn(s.cluster.records, name)
    ensures Harmless(acts) && g in RecordedIn(Run(s, acts).cluster.records, name)
  {
    if Carrying(s.workers[0]) {
      acts := CarriedRun(s, name, g);
    } else if s.workers[0].WithSubnet? && ModeOf(s.workers[0].pod.Annotation(ANNOTATION_IP)) == Multiple {
      acts := ListRun(s, name, g);
    } else {
      acts := ListedRun(s, name, g);
    }
  }

  /** With one worker and the gateway g stored, no run that keeps it ever records g exactly when no record of the
      subnet holds g now and the sync under way, if any, may not give it. */
  lemma GatewayKeptExactly(s: State, name: string, g: Addr)
    requires |s.workers| == 1 && StoresGateway(s, name, g)
    ensures (forall acts | KeepsGateway(acts, name, g) :: g !in RecordedIn(Run(s, acts).cluster.records, name))
      <==> Protected(s, name, g)
  {
    if Protected(s, name, g) {
      forall acts | KeepsGateway(acts, name, g)
        ensures g !in RecordedIn(Run(s, acts).cluster.records, name)
      {
        RunProtected(s, acts, name, g);
      }
    } else {
      var acts := [];
      if g !in RecordedIn(s.cluster.records, name) {
        acts := MayGiveRun(s, name, g);
      }
      assert KeepsGateway(acts, name, g) && g in RecordedIn(Run(s, acts).cluster.records, name);
    }
  }

  // ---------- the write of the Add event ----------

  /** The state in which the Add event has just stored a subnet with its defaults. */
  ghost function Stored(n: nat, before: seq<Action>, raw: MacvlanSubnet): State {
    Run(Init(n), before + [SubnetWritten(WithDefaults(raw))])
  }

  lemma StoredStores(n: nat, before: seq<Action>, raw: MacvlanSubnet, c: CIDR)
    requires raw.spec.gateway == "" && ParseCIDR(raw.spec.cidr) == Some(c)
    ensures StoresGateway(Stored(n, before, raw), raw.name, DefaultGateway(c))
    ensures |Stored(n, before, raw).workers| == n
  {
    StoredGatewayReadsBack(raw);
    RunNamed(n, before);
    RunNext(Init(n), before, SubnetWritten(WithDefaults(raw)));
    EnvironmentStep(Run(Init(n), before), SubnetWritten(WithDefaults(raw)));
    RunKeepsWorkerCount(Init(n), before + [SubnetWritten(WithDefaults(raw))]);
  }

  /** Whatever has happened before the Add event stored the default gateway, from then on no record comes to hold
      it in any run that keeps it exactly when none holds it at that moment and the sync under way may not give it. */
  lemma DefaultGatewayKeptExactly(before: seq<Action>, raw: MacvlanSubnet, c: CIDR)
    requires raw.spec.gateway == "" && ParseCIDR(raw.spec.cidr) == Some(c)
    ensures |Stored(1, before, raw).workers| == 1
    ensures (forall acts | KeepsGateway(acts, raw.name, DefaultGateway(c)) ::
               DefaultGateway(c) !in RecordedIn(Run(Stored(1, before, raw), acts).cluster.records, raw.name))
      <==> Protected(Stored(1, before, raw), raw.name, DefaultGateway(c))
  {
    StoredStores(1, before, raw, c);
    GatewayKeptExactly(Stored(1, before, raw), raw.name, DefaultGateway(c));
  }

  /** For any number of workers: if at that moment no record holds the default gateway, no worker carries it, and no
      worker has a copy of the subnet that leaves it free, then no later record holds it. */
  lemma NoRecordHoldsDefaultGateway(n: nat, before: seq<Action>, raw: MacvlanSubnet, c: CIDR, acts: seq<Action>)
    requires raw.spec.gateway == "" && ParseCIDR(raw.spec.cidr) == Some(c)
    requires var s := Stored(n, before, raw);
      && DefaultGateway(c) !in RecordedIn(s.cluster.records, raw.name)
      && forall i | 0 <= i < |s.workers| :: WorkerAvoids(s.workers[i], raw.name, DefaultGateway(c))
    requires KeepsGateway(acts, raw.name, DefaultGateway(c))
    ensures DefaultGateway(c) !in RecordedIn(Run(Stored(n, before, raw), acts).cluster.records, raw.name)
  {
    StoredStores(n, before, raw, c);
    RunAvoids(Stored(n, before, raw), acts, raw.name, DefaultGateway(c));
  }

  // ---------- a run in which the Add event comes too late ----------

  function FetchActs(key: Key): seq<Action> {
    [Take(0, key), ReadPod(0), GetSubnet(0, true)]
  }

  /** A sync reads the subnet, the Add event stores the gateway, and the sync goes on. */
  function LateActs(raw: MacvlanSubnet, key: Key): seq<Action> {
    OnePodActs(raw, key, NewPod("u", raw.name)) + FetchActs(key)
    + [SubnetWritten(WithDefaults(raw)), ListRecords(0, true)] + FinishActs(0)
  }

  /** The worker has read the subnet, and then a new version of it has been stored. */
  function Rewritten(raw: MacvlanSubnet, stored: MacvlanSubnet, key: Key): State {
    var pod := NewPod("u", raw.name);
    State(Cluster(map[key := pod], map[key := pod], map[raw.name := stored], map[], {}), [WithSubnet(key, pod, raw)])
  }

  lemma FetchThenWrite(raw: MacvlanSubnet, stored: MacvlanSubnet, key: Key)
    requires stored.name == raw.name
    ensures Step(Run(OnePodState(raw, key, NewPod("u", raw.name)), FetchActs(key)), SubnetWritten(stored))
      == Rewritten(raw, stored, key)
  {
    var pod := NewPod("u", raw.name);
    var s := OnePodState(raw, key, pod);
    NewPodIsAuto("u", raw);
    RunThree(s, Take(0, key), ReadPod(0), GetSubnet(0, true));
    RunFetch(s, 0, key, pod, raw);
    WriteAfterFetch(raw, stored, key);
  }

  lemma WriteAfterFetch(raw: MacvlanSubnet, stored: MacvlanSubnet, key: Key)
    requires stored.name == raw.name
    ensures var pod := NewPod("u", raw.name);
      Step(Fetching(OnePodState(raw, key, pod), 0, key, pod, raw), SubnetWritten(stored)) == Rewritten(raw, stored, key)
  {
    var pod := NewPod("u", raw.name);
    EnvironmentStep(Fetching(OnePodState(raw, key, pod), 0, key, pod, raw), SubnetWritten(stored));
    assert {key} - {key} == {};
    assert map[raw.name := raw][raw.name := stored] == map[raw.name := stored];
  }

  lemma NoRecords(name: string)
    ensures RecordedIn(map[], name) == {}
  {
  }

  /** The worker chooses from its copy after the new version has been stored. */
  lemma LateChoice(raw: MacvlanSubnet, stored: MacvlanSubnet, key: Key)
    requires Free(raw, {}) != {}
    ensures Step(Rewritten(raw, stored, key), ListRecords(0, true))
      == Become(Rewritten(raw, stored, key), 0, Chosen(key, NewPod("u", raw.name), raw, AutoChoice(raw, {})))
  {
    NewPodIsAuto("u", raw);
    NoRecords(raw.name);
    StepChoose(Rewritten(raw, stored, key), 0, key, NewPod("u", raw.name), raw, true, {});
  }

  lemma LateFinish(raw: MacvlanSubnet, stored: MacvlanSubnet, key: Key)
    requires Free(raw, {}) != {}
    ensures var s := Become(Rewritten(raw, stored, key), 0,
      Chosen(key, NewPod("u", raw.name), raw, AutoChoice(raw, {})));
      var cluster := Run(s, FinishActs(0)).cluster;
      cluster.subnets == map[raw.name := stored] && Least(Free(raw, {})) in RecordedIn(cluster.records, raw.name)
  {
    var s := Become(Rewritten(raw, stored, key), 0, Chosen(key, NewPod("u", raw.name), raw, AutoChoice(raw, {})));
    RunFinish(s, 0);
    ChoiceOfIsGood(Least(Free(raw, {})), raw, "");
    OneRecordIsRecorded(Run(s, FinishActs(0)).cluster.records, key, Least(Free(raw, {})));
  }

  lemma RunLate(raw: MacvlanSubnet, key: Key)
    requires Free(raw, {}) != {}
    ensures var cluster := Run(Init(1), LateActs(raw, key)).cluster;
      cluster.subnets == map[raw.name := WithDefaults(raw)]
        && Least(Free(raw, {})) in RecordedIn(cluster.records, raw.name)
  {
    var pod, stored := NewPod("u", raw.name), WithDefaults(raw);
    var s := OnePodState(raw, key, pod);
    RunFourParts(Init(1), OnePodActs(raw, key, pod), FetchActs(key), [SubnetWritten(stored), ListRecords(0, true)],
      FinishActs(0));
    RunOnePod(raw, key, pod);
    RunTwo(Run(s, FetchActs(key)), SubnetWritten(stored), ListRecords(0, true));
    FetchThenWrite(raw, stored, key);
    LateChoice(raw, stored, key);
    LateFinish(raw, stored, key);
  }

  /** One worker, all Lists answered: a record that is chosen and created after the default gateway has been
      stored holds it. */
  lemma LateGatewayRun(raw: MacvlanSubnet, c: CIDR, key: Key)
    requires ParseCIDR(raw.spec.cidr) == Some(c) && c.bits <= 30 && Base(c.addr, c.bits) % 0x100 == 0
    requires raw.spec.gateway == "" && raw.spec.ranges == []
    ensures ListsSucceed(LateActs(raw, key))
    ensures var cluster := Run(Init(1), LateActs(raw, key)).cluster;
      && cluster.subnets == map[raw.name := WithDefaults(raw)]
      && GatewayAddrs(WithDefaults(raw)) == {DefaultGateway(c)}
      && DefaultGateway(c) in RecordedIn(cluster.records, raw.name)
  {
    StoredGatewayReadsBack(raw);
    FirstAutoTakesGateway(raw, c);
    RunLate(raw, key);
  }
}
