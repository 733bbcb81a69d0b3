/** Runs that break uniqueness: two workers, or a List of records that fails. */
module Races {
  import opened Bytes
  import opened Text
  import opened Ipcalc
  import opened Types
  import opened Ipalloc
  import opened Protocol
  import opened Uniqueness

  // ---------- pieces of a sync in auto mode ----------

  lemma RunTwo(s: State, a: Action, b: Action)
    ensures Run(s, [a, b]) == Step(Step(s, a), b)
  {
    RunNext(s, [], a);
    RunNext(s, [a], b);
    assert [] + [a] == [a] && [a] + [b] == [a, b];
  }

  lemma RunThree(s: State, a: Action, b: Action, c: Action)
    ensures Run(s, [a, b, c]) == Step(Step(Step(s, a), b), c)
  {
    RunTwo(s, a, b);
    RunNext(s, [a, b], c);
    assert [a, b] + [c] == [a, b, c];
  }

  lemma RunFour(s: State, a: Action, b: Action, c: Action, d: Action)
    ensures Run(s, [a, b, c, d]) == Step(Step(Step(Step(s, a), b), c), d)
  {
    RunTwo(s, a, b);
    RunTwo(Step(Step(s, a), b), c, d);
    RunAppend(s, [a, b], [c, d]);
    assert [a, b] + [c, d] == [a, b, c, d];
  }

  ghost predicate AutoPod(pod: Pod, subnet: MacvlanSubnet) {
    && IsMacvlanPod(pod)
    && ModeOf(pod.Annotation(ANNOTATION_IP)) == Auto
    && pod.Annotation(ANNOTATION_SUBNET) == subnet.name
  }

  /** Worker w could now take up the key of a pod of the subnet. */
  ghost predicate CanFetch(s: State, w: nat, key: Key, pod: Pod, subnet: MacvlanSubnet) {
    && w < |s.workers| && s.workers[w].Idle?
    && key in s.cluster.queue && !BusyWith(s, key)
    && key in s.cluster.cache && s.cluster.cache[key] == pod
    && IsMacvlanPod(pod) && ModeOf(pod.Annotation(ANNOTATION_IP)) != Invalid
    && pod.Annotation(ANNOTATION_SUBNET) == subnet.name
    && subnet.name in s.cluster.subnets && s.cluster.subnets[subnet.name] == subnet
  }

  /** And the pod asks for any address. */
  ghost predicate Ready(s: State, w: nat, key: Key, pod: Pod, subnet: MacvlanSubnet) {
    CanFetch(s, w, key, pod, subnet) && AutoPod(pod, subnet)
  }

  function ChooseActs(w: nat, key: Key, ok: bool): seq<Action> {
    [Take(w, key), ReadPod(w), GetSubnet(w, true), ListRecords(w, ok)]
  }

  function FinishActs(w: nat): seq<Action> {
    [WriteLabels(w, Done), Create(w, Done), Settle(w)]
  }

  lemma RunFetch(s: State, w: nat, key: Key, pod: Pod, subnet: MacvlanSubnet)
    requires CanFetch(s, w, key, pod, subnet)
    ensures Step(Step(Step(s, Take(w, key)), ReadPod(w)), GetSubnet(w, true)) == Fetching(s, w, key, pod, subnet)
  {
    var s1 := Step(s, Take(w, key));
    assert s1 == State(s.cluster.(queue := s.cluster.queue - {key}), s.workers[w := Taken(key)]);
    var s2 := Step(s1, ReadPod(w));
    assert s2 == State(s1.cluster, s.workers[w := Fetched(key, pod)]);
    var s3 := Step(s2, GetSubnet(w, true));
    assert s3 == StepGetSubnet(s2, w, true);
  }

  /** The worker has taken up the key and read its subnet. */
  function Fetching(s: State, w: nat, key: Key, pod: Pod, subnet: MacvlanSubnet): State
    requires w < |s.workers|
  {
    State(s.cluster.(queue := s.cluster.queue - {key}), s.workers[w := WithSubnet(key, pod, subnet)])
  }

  lemma StepChoose(s: State, w: nat, key: Key, pod: Pod, subnet: MacvlanSubnet, ok: bool, used: set<Addr>)
    requires w < |s.workers| && s.workers[w] == WithSubnet(key, pod, subnet) && AutoPod(pod, subnet)
    requires used == if ok then RecordedIn(s.cluster.records, subnet.name) else {}
    requires Free(subnet, used) != {}
    ensures Step(s, ListRecords(w, ok)) == Become(s, w, Chosen(key, pod, subnet, AutoChoice(subnet, used)))
  {
    ListRecordsGives(s, w, ok, Allocated(AutoChoice(subnet, used)));
  }

  /** The choice of an auto pod of the subnet when the records hold the addresses in used. */
  ghost function AutoChoice(subnet: MacvlanSubnet, used: set<Addr>): Choice
    requires Free(subnet, used) != {}
  {
    ChoiceOf(Least(Free(subnet, used)), subnet, "")
  }

  lemma RunChoose(s: State, w: nat, key: Key, pod: Pod, subnet: MacvlanSubnet, ok: bool, used: set<Addr>)
    requires Ready(s, w, key, pod, subnet)
    requires used == if ok then RecordedIn(s.cluster.records, subnet.name) else {}
    requires Free(subnet, used) != {}
    ensures Run(s, ChooseActs(w, key, ok))
      == State(s.cluster.(queue := s.cluster.queue - {key}),
               s.workers[w := Chosen(key, pod, subnet, AutoChoice(subnet, used))])
  {
    RunFour(s, Take(w, key), ReadPod(w), GetSubnet(w, true), ListRecords(w, ok));
    RunFetch(s, w, key, pod, subnet);
    StepChoose(Fetching(s, w, key, pod, subnet), w, key, pod, subnet, ok, used);
  }

  lemma RunFinish(s: State, w: nat)
    requires w < |s.workers| && s.workers[w].Chosen?
    requires s.workers[w].key in s.cluster.pods && s.workers[w].key !in s.cluster.records
    ensures var s' := Run(s, FinishActs(w));
      var Chosen(key, pod, subnet, choice) := s.workers[w];
      && s'.workers == s.workers[w := Idle]
      && s'.cluster.records == s.cluster.records[key := MakeMacvlanIP(key, pod, subnet, choice.cidr, choice.mac)]
      && s'.cluster.pods.Keys == s.cluster.pods.Keys
      && s'.cluster.(pods := s.cluster.pods, records := s.cluster.records) == s.cluster
  {
    RunTwo(s, WriteLabels(w, Done), Create(w, Done));
    RunNext(s, [WriteLabels(w, Done), Create(w, Done)], Settle(w));
    assert FinishActs(w) == [WriteLabels(w, Done), Create(w, Done)] + [Settle(w)];
    WriteLabelsGives(s, w, Done);
    var s1 := Step(s, WriteLabels(w, Done));
    CreateGives(s1, w, Done);
    var s2 := Step(s1, Create(w, Done));
    SettleGives(s2, w);
  }

  // ---------- a subnet with room ----------

  /** A subnet on the /30 block around an address. */
  function SmallSubnet(v: Addr): MacvlanSubnet {
    CIDRTextRoundTrip(v, 30);
    Subnet("net", map[], SubnetSpec("eth0", 100, CIDRText(v, 30), "bridge", "", []))
  }

  lemma SmallSubnetHasRoom(v: Addr)
    ensures Free(SmallSubnet(v), {}) != {}
  {
    SmallSubnetFree(v);
    DefaultGatewayIsHost(CIDR(v, 30));
  }

  lemma SmallSubnetFree(v: Addr)
    ensures Free(SmallSubnet(v), {}) == CIDRHosts(CIDR(v, 30))
  {
    var subnet := SmallSubnet(v);
    CIDRTextRoundTrip(v, 30);
    assert GatewayAddrs(subnet) == {};
    assert RangeUnion(subnet.spec.ranges) == {};
    assert AllHosts(subnet) == CIDRHosts(CIDR(v, 30));
  }

  /** The annotations of a pod that asks for any address of a subnet. */
  function AutoAnnotations(name: string): map<string, string> {
    map[ANNOTATION_IP := "auto", ANNOTATION_SUBNET := name]
  }

  function NewPod(uid: string, name: string): Pod {
    Pod(uid, AutoAnnotations(name), NO_LABELS)
  }

  lemma NewPodIsAuto(uid: string, subnet: MacvlanSubnet)
    ensures AutoPod(NewPod(uid, subnet.name), subnet)
  {
    assert |ANNOTATION_IP| != |ANNOTATION_SUBNET|;
  }

  // ---------- the start of both runs: a subnet and two new pods in the informer's cache ----------

  function SetUpActs(subnet: MacvlanSubnet, a: Key, b: Key): seq<Action> {
    [SubnetWritten(subnet)]
    + [PodCreated(a, "ua", AutoAnnotations(subnet.name)), PodCreated(b, "ub", AutoAnnotations(subnet.name)),
       CacheDelivered(a, Some(NewPod("ua", subnet.name))), CacheDelivered(b, Some(NewPod("ub", subnet.name)))]
  }

  function TwoPods(a: Key, b: Key, subnet: MacvlanSubnet): map<Key, Pod> {
    map[a := NewPod("ua", subnet.name)][b := NewPod("ub", subnet.name)]
  }

  function SetUpState(n: nat, subnet: MacvlanSubnet, a: Key, b: Key): State {
    var pods := TwoPods(a, b, subnet);
    State(Cluster(pods, pods, map[subnet.name := subnet], map[], {a, b}), seq(n, _ => Idle))
  }

  /** The cluster that knows one subnet and nothing else. */
  function OneSubnet(subnet: MacvlanSubnet): Cluster {
    Cluster(map[], map[], map[subnet.name := subnet], map[], {})
  }

  lemma RunWriteSubnet(n: nat, subnet: MacvlanSubnet)
    ensures Run(Init(n), [SubnetWritten(subnet)]) == State(OneSubnet(subnet), seq(n, _ => Idle))
  {
    RunNext(Init(n), [], SubnetWritten(subnet));
    assert [] + [SubnetWritten(subnet)] == [SubnetWritten(subnet)];
    EnvironmentStep(Init(n), SubnetWritten(subnet));
  }

  /** Two pods are created and delivered. */
  lemma EnterPods(c: Cluster, a: Key, b: Key, p: Pod, q: Pod)
    requires a != b && p.labels == q.labels == NO_LABELS && c.pods == c.cache == map[] && c.queue == {}
    ensures var c1 := StepEnvironment(c, PodCreated(a, p.uid, p.annotations));
      var c2 := StepEnvironment(c1, PodCreated(b, q.uid, q.annotations));
      var c3 := StepEnvironment(c2, CacheDelivered(a, Some(p)));
      StepEnvironment(c3, CacheDelivered(b, Some(q)))
      == c.(pods := map[a := p][b := q], cache := map[a := p][b := q], queue := {a, b})
  {
  }

  lemma RunSetUp(n: nat, subnet: MacvlanSubnet, a: Key, b: Key)
    requires a != b
    ensures Run(Init(n), SetUpActs(subnet, a, b)) == SetUpState(n, subnet, a, b)
  {
    var name := subnet.name;
    RunWriteSubnet(n, subnet);
    RunFour(State(OneSubnet(subnet), seq(n, _ => Idle)),
            PodCreated(a, "ua", AutoAnnotations(name)), PodCreated(b, "ub", AutoAnnotations(name)),
            CacheDelivered(a, Some(NewPod("ua", name))), CacheDelivered(b, Some(NewPod("ub", name))));
    RunAppend(Init(n), [SubnetWritten(subnet)], SetUpActs(subnet, a, b)[1..]);
    assert SetUpActs(subnet, a, b) == [SubnetWritten(subnet)] + SetUpActs(subnet, a, b)[1..];
    EnterPods(OneSubnet(subnet), a, b, NewPod("ua", name), NewPod("ub", name));
  }

  // ---------- a start with one pod ----------

  function OnePodActs(subnet: MacvlanSubnet, key: Key, pod: Pod): seq<Action> {
    [SubnetWritten(subnet)] + [PodCreated(key, pod.uid, pod.annotations), CacheDelivered(key, Some(pod))]
  }

  function OnePodState(subnet: MacvlanSubnet, key: Key, pod: Pod): State {
    State(Cluster(map[key := pod], map[key := pod], map[subnet.name := subnet], map[], {key}), [Idle])
  }

  lemma RunOnePod(subnet: MacvlanSubnet, key: Key, pod: Pod)
    requires pod.labels == NO_LABELS
    ensures Run(Init(1), OnePodActs(subnet, key, pod)) == OnePodState(subnet, key, pod)
  {
    var start := State(OneSubnet(subnet), [Idle]);
    RunWriteSubnet(1, subnet);
    assert State(OneSubnet(subnet), seq(1, _ => Idle)) == start;
    RunTwo(start, PodCreated(key, pod.uid, pod.annotations), CacheDelivered(key, Some(pod)));
    EnterPod(start, key, pod);
    RunAppend(Init(1), [SubnetWritten(subnet)], OnePodActs(subnet, key, pod)[1..]);
    assert OnePodActs(subnet, key, pod) == [SubnetWritten(subnet)] + OnePodActs(subnet, key, pod)[1..];
  }

  lemma EnterPod(s: State, key: Key, pod: Pod)
    requires pod.labels == NO_LABELS && s.cluster.pods == s.cluster.cache == map[] && s.cluster.queue == {}
    ensures Step(Step(s, PodCreated(key, pod.uid, pod.annotations)), CacheDelivered(key, Some(pod)))
      == s.(cluster := s.cluster.(pods := map[key := pod], cache := map[key := pod], queue := {key}))
  {
  }

  // ---------- two workers ----------

  function TwoWorkerActs(subnet: MacvlanSubnet, a: Key, b: Key): seq<Action> {
    SetUpActs(subnet, a, b) + ChooseActs(0, a, true) + ChooseActs(1, b, true) + FinishActs(0) + FinishActs(1)
  }

  lemma RunFourParts(s: State, p: seq<Action>, q: seq<Action>, r: seq<Action>, t: seq<Action>)
    ensures Run(s, p + q + r + t) == Run(Run(Run(Run(s, p), q), r), t)
  {
    RunAppend(s, p + q + r, t);
    RunAppend(s, p + q, r);
    RunAppend(s, p, q);
  }

  lemma RunFive(s: State, p: seq<Action>, q: seq<Action>, r: seq<Action>, t: seq<Action>, u: seq<Action>)
    ensures Run(s, p + q + r + t + u) == Run(Run(Run(Run(Run(s, p), q), r), t), u)
  {
    RunAppend(s, p, q);
    RunAppend(s, p + q, r);
    RunAppend(s, p + q + r, t);
    RunAppend(s, p + q + r + t, u);
  }

  lemma SetUpIsReady(n: nat, subnet: MacvlanSubnet, a: Key, b: Key)
    requires n >= 1 && a != b
    ensures Ready(SetUpState(n, subnet, a, b), 0, a, NewPod("ua", subnet.name), subnet)
    ensures RecordedIn(SetUpState(n, subnet, a, b).cluster.records, subnet.name) == {}
  {
    NewPodIsAuto("ua", subnet);
  }

  /** The first worker has chosen the least free address for the first pod. */
  ghost function OneChosen(n: nat, subnet: MacvlanSubnet, a: Key, b: Key): State
    requires n >= 1 && Free(subnet, {}) != {}
  {
    var s := SetUpState(n, subnet, a, b);
    State(s.cluster.(queue := {b}),
          s.workers[0 := Chosen(a, NewPod("ua", subnet.name), subnet, AutoChoice(subnet, {}))])
  }

  lemma FirstChooses(n: nat, subnet: MacvlanSubnet, a: Key, b: Key)
    requires n >= 1 && a != b && Free(subnet, {}) != {}
    ensures Run(SetUpState(n, subnet, a, b), ChooseActs(0, a, true)) == OneChosen(n, subnet, a, b)
  {
    SetUpIsReady(n, subnet, a, b);
    RunChoose(SetUpState(n, subnet, a, b), 0, a, NewPod("ua", subnet.name), subnet, true, {});
    assert {a, b} - {a} == {b};
  }

  lemma SecondIsReady(n: nat, subnet: MacvlanSubnet, a: Key, b: Key)
    requires n >= 2 && a != b && Free(subnet, {}) != {}
    ensures Ready(OneChosen(n, subnet, a, b), 1, b, NewPod("ub", subnet.name), subnet)
    ensures RecordedIn(OneChosen(n, subnet, a, b).cluster.records, subnet.name) == {}
  {
    NewPodIsAuto("ub", subnet);
  }

  /** The second worker, whose list is still empty, chooses the same address for the second pod. */
  lemma SecondChooses(n: nat, subnet: MacvlanSubnet, a: Key, b: Key)
    requires n >= 2 && a != b && Free(subnet, {}) != {}
    ensures var s := OneChosen(n, subnet, a, b);
      Run(s, ChooseActs(1, b, true))
      == State(s.cluster.(queue := {}),
               s.workers[1 := Chosen(b, NewPod("ub", subnet.name), subnet, AutoChoice(subnet, {}))])
  {
    SecondIsReady(n, subnet, a, b);
    RunChoose(OneChosen(n, subnet, a, b), 1, b, NewPod("ub", subnet.name), subnet, true, {});
    assert {b} - {b} == {};
  }

  /** With two workers both lists may come before both creates: two pods get one address. */
  lemma TwoWorkersCollide(n: nat, subnet: MacvlanSubnet, a: Key, b: Key)
    requires n >= 2 && a != b && Free(subnet, {}) != {}
    ensures !Unique(Run(Init(n), TwoWorkerActs(subnet, a, b)).cluster.records)
  {
    RunSetUp(n, subnet, a, b);
    FirstChooses(n, subnet, a, b);
    SecondChooses(n, subnet, a, b);
    RunFive(Init(n), SetUpActs(subnet, a, b), ChooseActs(0, a, true), ChooseActs(1, b, true), FinishActs(0),
      FinishActs(1));
    BothFinish(Run(OneChosen(n, subnet, a, b), ChooseActs(1, b, true)), a, b);
  }

  lemma BothFinish(s: State, a: Key, b: Key)
    requires a != b && |s.workers| >= 2 && s.workers[0].Chosen? && s.workers[1].Chosen?
    requires s.workers[0].key == a && s.workers[1].key == b
    requires s.workers[0].subnet == s.workers[1].subnet && s.workers[0].choice == s.workers[1].choice
    requires a in s.cluster.pods && b in s.cluster.pods && a !in s.cluster.records && b !in s.cluster.records
    ensures !Unique(Run(Run(s, FinishActs(0)), FinishActs(1)).cluster.records)
  {
    RunFinish(s, 0);
    RunFinish(Run(s, FinishActs(0)), 1);
    Collision(Run(Run(s, FinishActs(0)), FinishActs(1)).cluster.records, a, b);
  }

  lemma TwoWorkerListsSucceed(subnet: MacvlanSubnet, a: Key, b: Key)
    ensures ListsSucceed(TwoWorkerActs(subnet, a, b))
  {
  }

  lemma Collision(records: map<Key, MacvlanIP>, a: Key, b: Key)
    requires a in records && b in records && a != b
    requires records[a].subnetLabel == records[b].subnetLabel && records[a].spec.cidr == records[b].spec.cidr
    ensures !Unique(records)
  {
    assert AddrAt(records, a) == AddrAt(records, b);
  }

  /** The number of workers decides: every run whose Lists succeed keeps addresses unique, up to one worker. */
  lemma UniqueExactlyUpToOneWorker(n: nat)
    ensures (forall acts | ListsSucceed(acts) :: Unique(Run(Init(n), acts).cluster.records)) <==> n <= 1
  {
    if n <= 1 {
      forall acts | ListsSucceed(acts)
        ensures Unique(Run(Init(n), acts).cluster.records)
      {
        RunInv(n, acts);
      }
    } else {
      var v: Addr := 0x0A00_0000;
      var subnet, a, b := SmallSubnet(v), Key("default", "a"), Key("default", "b");
      SmallSubnetHasRoom(v);
      TwoWorkersCollide(n, subnet, a, b);
      TwoWorkerListsSucceed(subnet, a, b);
    }
  }

  // ---------- a List of records that fails ----------

  /** In every mode, a worker that allocates from an empty list because its List has failed breaks
      uniqueness exactly when the address it so chooses is recorded. */
  lemma FailedListCollides(s: State, w: nat, choice: Choice)
    requires w < |s.workers| && (s.workers[w].WithSubnet? || s.workers[w].Grouped?)
    requires AllocFor(s.workers[w], {}) == Some(Allocated(choice))
    requires s.workers[w].key in s.cluster.pods && s.workers[w].key !in s.cluster.records
    requires Readable(s.cluster.records) && Unique(s.cluster.records)
    ensures IsMapped(choice.ip)
    ensures Unique(Run(Step(s, ListRecords(w, false)), FinishActs(w)).cluster.records)
      <==> AddrOf(choice.ip) !in RecordedIn(s.cluster.records, s.workers[w].subnet.name)
  {
    var k := s.workers[w];
    AllocatedIsFree(k, {}, choice);
    ListRecordsGives(s, w, false, Allocated(choice));
    RunFinish(Become(s, w, Chosen(k.key, k.pod, k.subnet, choice)), w);
    var worker := Labelled(k.key, k.pod, k.subnet, choice, "");
    UniqueCreate(s.cluster.records, worker);
    AbsentIsUnrecorded(s.cluster.records, worker);
  }

  lemma AbsentIsUnrecorded(records: map<Key, MacvlanIP>, worker: Worker)
    requires Readable(records) && Carrying(worker)
    ensures AbsentFor(records, worker) <==> TextAddr(worker.choice.cidr) !in RecordedIn(records, worker.subnet.name)
  {
    forall k | k in records
      ensures AddrAt(records, k) in RecordedIn(records, records[k].subnetLabel)
    {
      RecordedInAddr(records, k);
    }
  }

  function FailedListActs(subnet: MacvlanSubnet, a: Key, b: Key): seq<Action> {
    SetUpActs(subnet, a, b) + ChooseActs(0, a, true) + FinishActs(0) + ChooseActs(0, b, false) + FinishActs(0)
  }

  /** One failed List is enough: a run of one worker in which two pods get one address. */
  lemma FailedListRun(subnet: MacvlanSubnet, a: Key, b: Key)
    requires a != b && Free(subnet, {}) != {}
    ensures !Unique(Run(Init(1), FailedListActs(subnet, a, b)).cluster.records)
  {
    RunSetUp(1, subnet, a, b);
    RunFive(Init(1), SetUpActs(subnet, a, b), ChooseActs(0, a, true), FinishActs(0), ChooseActs(0, b, false),
      FinishActs(0));
    FailedSecond(subnet, a, b);
  }

  lemma FirstCreated(subnet: MacvlanSubnet, a: Key, b: Key)
    requires a != b && Free(subnet, {}) != {}
    ensures var s := Run(Run(SetUpState(1, subnet, a, b), ChooseActs(0, a, true)), FinishActs(0));
      var cidr := AutoChoice(subnet, {}).cidr;
      && s.workers == [Idle]
      && s.cluster.records == map[a := MakeMacvlanIP(a, NewPod("ua", subnet.name), subnet, cidr, "")]
      && s.cluster.queue == {b} && s.cluster.subnets == map[subnet.name := subnet]
      && s.cluster.cache == TwoPods(a, b, subnet) && a in s.cluster.pods && b in s.cluster.pods
  {
    FirstChooses(1, subnet, a, b);
    RunFinish(OneChosen(1, subnet, a, b), 0);
    assert OneChosen(1, subnet, a, b).workers[0 := Idle] == [Idle];
  }

  lemma FailedSecond(subnet: MacvlanSubnet, a: Key, b: Key)
    requires a != b && Free(subnet, {}) != {}
    ensures var s := Run(Run(SetUpState(1, subnet, a, b), ChooseActs(0, a, true)), FinishActs(0));
      !Unique(Run(Run(s, ChooseActs(0, b, false)), FinishActs(0)).cluster.records)
  {
    FirstCreated(subnet, a, b);
    NewPodIsAuto("ub", subnet);
    FailedAgain(Run(Run(SetUpState(1, subnet, a, b), ChooseActs(0, a, true)), FinishActs(0)), subnet, a, b);
  }

  lemma FailedAgain(s: State, subnet: MacvlanSubnet, a: Key, b: Key)
    requires Free(subnet, {}) != {} && a != b
    requires Ready(s, 0, b, NewPod("ub", subnet.name), subnet) && b in s.cluster.pods
    requires a in s.cluster.records && b !in s.cluster.records
    requires s.cluster.records[a].subnetLabel == subnet.name
      && s.cluster.records[a].spec.cidr == AutoChoice(subnet, {}).cidr
    ensures !Unique(Run(Run(s, ChooseActs(0, b, false)), FinishActs(0)).cluster.records)
  {
    RunChoose(s, 0, b, NewPod("ub", subnet.name), subnet, false, {});
    var s4 := Run(s, ChooseActs(0, b, false));
    RunFinish(s4, 0);
    Collision(Run(s4, FinishActs(0)).cluster.records, a, b);
  }
}
