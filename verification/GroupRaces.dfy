/** List annotations and several workers: the groups of a list then stay distinct only if the list is of no use. */
module GroupRaces {
  import opened Bytes
  import opened Text
  import opened Subnetting
  import opened Types
  import opened Ipalloc
  import opened Protocol
  import opened Races
  import opened Groups
  import opened GroupRuns

  // ---------- a list whose first text no subnet hands out ----------

  ghost predicate NoLabels(pods: map<Key, Pod>, list: string) {
    forall k | k in pods :: pods[k].labels.multipleIPHash != Some(Sha1(list))
  }

  predicate WorkerBlocked(worker: Worker, list: string) {
    (worker.Grouped? || Carrying(worker)) && worker.pod.Annotation(ANNOTATION_IP) == list ==>
      worker.Grouped? && worker.text == Listed(list)[0]
  }

  ghost predicate Blocked(s: State, list: string) {
    NoLabels(s.cluster.pods, list) && forall i | 0 <= i < |s.workers| :: WorkerBlocked(s.workers[i], list)
  }

  lemma NothingHeldInGroup(pods: map<Key, Pod>, namespace: string, list: string)
    requires NoLabels(pods, list)
    ensures HeldInGroup(pods, namespace, Sha1(list)) == {}
  {
  }

  lemma WorkerBlockedStep(s: State, a: Action, s': State, i: nat, list: string)
    requires s' == Step(s, a) && |s'.workers| == |s.workers| && i < |s.workers|
    requires ModeOf(list) == Multiple && !Assignable(Listed(list)[0])
    requires NoLabels(s.cluster.pods, list) && WorkerBlocked(s.workers[i], list)
    ensures WorkerBlocked(s'.workers[i], list)
  {
    var before, after := s.workers[i], s'.workers[i];
    if Carrying(after) {
      CarryStep(s, a, i);
      if !Carrying(before) {
        ListRecordsStep(s, i, a.ok);
        if before.Grouped? {
          GroupedChoice(before, ListedUsed(s, before, a.ok), after.choice);
        }
      }
    } else if after.Grouped? {
      GroupedStep(s, a, s', i);
      NothingHeldInGroup(s.cluster.pods, after.key.namespace, list);
    }
  }

  lemma NoLabelsStep(s: State, a: Action, list: string)
    requires NoLabels(s.cluster.pods, list)
    requires WritesLabels(s, a) ==> WorkerBlocked(s.workers[a.w], list)
    ensures NoLabels(Step(s, a).cluster.pods, list)
  {
    PodsStep(s, a);
  }

  /** Such a list blocks its pods: with any number of workers none is ever labelled for it. */
  lemma {:induction false} RunBlocked(n: nat, acts: seq<Action>, list: string)
    requires ModeOf(list) == Multiple && !Assignable(Listed(list)[0])
    ensures Blocked(Run(Init(n), acts), list)
  {
    if |acts| > 0 {
      var s, a := Run(Init(n), acts[..|acts| - 1]), acts[|acts| - 1];
      RunBlocked(n, acts[..|acts| - 1], list);
      StepKeepsWorkerCount(s, a);
      NoLabelsStep(s, a, list);
      forall i | 0 <= i < |s.workers|
        ensures WorkerBlocked(Step(s, a).workers[i], list)
      {
        WorkerBlockedStep(s, a, Step(s, a), i, list);
      }
    }
  }

  // ---------- and any other list ----------

  /** Worker w takes up the key of a pod of the list and chooses an address. */
  function ChooseListed(w: nat, key: Key): seq<Action> {
    [Take(w, key), ReadPod(w), GetSubnet(w, true)] + [ListPods(w, true), ListRecords(w, true)]
  }

  lemma RunChooseListed(s: State, w: nat, key: Key, list: string, v: Addr)
    requires ModeOf(list) == Multiple && ParseAddr(Listed(list)[0]) == Some(v) && !Skipped(v)
    requires CanFetch(s, w, key, ListPod(list), SmallSubnet(v))
    requires s.cluster.records == map[] && HeldInGroup(s.cluster.pods, key.namespace, Sha1(list)) == {}
    ensures Run(s, ChooseListed(w, key))
      == State(s.cluster.(queue := s.cluster.queue - {key}),
               s.workers[w := Chosen(key, ListPod(list), SmallSubnet(v), ListChoice(v))])
  {
    var pod, subnet := ListPod(list), SmallSubnet(v);
    var fetched := Fetching(s, w, key, pod, subnet);
    RunAppend(s, [Take(w, key), ReadPod(w), GetSubnet(w, true)], [ListPods(w, true), ListRecords(w, true)]);
    RunThree(s, Take(w, key), ReadPod(w), GetSubnet(w, true));
    RunFetch(s, w, key, pod, subnet);
    RunTwo(fetched, ListPods(w, true), ListRecords(w, true));
    ListedGives(fetched, w, key, list, v);
  }

  lemma ListedGives(s: State, w: nat, key: Key, list: string, v: Addr)
    requires ModeOf(list) == Multiple && ParseAddr(Listed(list)[0]) == Some(v) && !Skipped(v)
    requires w < |s.workers| && s.workers[w] == WithSubnet(key, ListPod(list), SmallSubnet(v))
    requires s.cluster.records == map[] && HeldInGroup(s.cluster.pods, key.namespace, Sha1(list)) == {}
    ensures Step(Step(s, ListPods(w, true)), ListRecords(w, true))
      == Become(s, w, Chosen(key, ListPod(list), SmallSubnet(v), ListChoice(v)))
  {
    var pod, subnet, text := ListPod(list), SmallSubnet(v), Listed(list)[0];
    ListPodAnnotations(list);
    PickAt(list, {}, 0);
    ListPodsGives(s, w, true);
    var grouped := Grouped(key, pod, subnet, text, "");
    TextIsAllocated(grouped, v);
    assert RecordedIn(s.cluster.records, subnet.name) == {};
    ListRecordsGives(Become(s, w, grouped), w, true, Allocated(ListChoice(v)));
  }

  function TwoListPods(list: string): map<Key, Pod> {
    map[PodKey(0) := ListPod(list)][PodKey(1) := ListPod(list)]
  }

  /** A subnet and two pods of the list. */
  function OfferTwo(list: string, v: Addr): seq<Action> {
    [SubnetWritten(SmallSubnet(v))]
    + [PodCreated(PodKey(0), "u", ListAnnotations(list)), PodCreated(PodKey(1), "u", ListAnnotations(list)),
       CacheDelivered(PodKey(0), Some(ListPod(list))), CacheDelivered(PodKey(1), Some(ListPod(list)))]
  }

  function OfferedTwo(n: nat, list: string, v: Addr): State {
    var pods := TwoListPods(list);
    State(Cluster(pods, pods, map["net" := SmallSubnet(v)], map[], {PodKey(0), PodKey(1)}), seq(n, _ => Idle))
  }

  lemma RunOfferTwo(n: nat, list: string, v: Addr)
    ensures Run(Init(n), OfferTwo(list, v)) == OfferedTwo(n, list, v)
  {
    var pod, subnet := ListPod(list), SmallSubnet(v);
    RunWriteSubnet(n, subnet);
    RunFour(State(OneSubnet(subnet), seq(n, _ => Idle)),
            PodCreated(PodKey(0), "u", ListAnnotations(list)), PodCreated(PodKey(1), "u", ListAnnotations(list)),
            CacheDelivered(PodKey(0), Some(pod)), CacheDelivered(PodKey(1), Some(pod)));
    RunAppend(Init(n), [SubnetWritten(subnet)], OfferTwo(list, v)[1..]);
    assert OfferTwo(list, v) == [SubnetWritten(subnet)] + OfferTwo(list, v)[1..];
    PodKeysDiffer(0, 1);
    EnterPods(OneSubnet(subnet), PodKey(0), PodKey(1), pod, pod);
  }

  lemma UnlabelledHoldNothing(list: string, namespace: string)
    ensures HeldInGroup(TwoListPods(list), namespace, Sha1(list)) == {}
  {
  }

  /** The first worker has chosen the address of the first text for the first pod. */
  ghost function OneChosenFor(n: nat, list: string, v: Addr): State
    requires n >= 2
  {
    var s := OfferedTwo(n, list, v);
    State(s.cluster.(queue := {PodKey(1)}),
          s.workers[0 := Chosen(PodKey(0), ListPod(list), SmallSubnet(v), ListChoice(v))])
  }

  lemma FirstListed(n: nat, list: string, v: Addr)
    requires n >= 2 && ModeOf(list) == Multiple && ParseAddr(Listed(list)[0]) == Some(v) && !Skipped(v)
    ensures Run(OfferedTwo(n, list, v), ChooseListed(0, PodKey(0))) == OneChosenFor(n, list, v)
  {
    ListPodAnnotations(list);
    PodKeysDiffer(0, 1);
    UnlabelledHoldNothing(list, NAMESPACE);
    RunChooseListed(OfferedTwo(n, list, v), 0, PodKey(0), list, v);
    assert {PodKey(0), PodKey(1)} - {PodKey(0)} == {PodKey(1)};
  }

  /** The second, which finds no pod labelled yet, chooses the same one for the second pod. */
  lemma SecondListed(n: nat, list: string, v: Addr)
    requires n >= 2 && ModeOf(list) == Multiple && ParseAddr(Listed(list)[0]) == Some(v) && !Skipped(v)
    ensures var s, s' := OneChosenFor(n, list, v), Run(OneChosenFor(n, list, v), ChooseListed(1, PodKey(1)));
      && s'.cluster.pods == TwoListPods(list)
      && s'.workers == s.workers[1 := Chosen(PodKey(1), ListPod(list), SmallSubnet(v), ListChoice(v))]
  {
    ListPodAnnotations(list);
    PodKeysDiffer(0, 1);
    UnlabelledHoldNothing(list, NAMESPACE);
    RunChooseListed(OneChosenFor(n, list, v), 1, PodKey(1), list, v);
  }

  lemma BothLabel(s: State, list: string, v: Addr)
    requires |s.workers| >= 2 && s.cluster.pods == TwoListPods(list)
    requires s.workers[0] == Chosen(PodKey(0), ListPod(list), SmallSubnet(v), ListChoice(v))
    requires s.workers[1] == Chosen(PodKey(1), ListPod(list), SmallSubnet(v), ListChoice(v))
    ensures !GroupDistinct(Run(s, [WriteLabels(0, Done), WriteLabels(1, Done)]).cluster.pods, list)
  {
    var s1 := Step(s, WriteLabels(0, Done));
    ListPodAnnotations(list);
    PodKeysDiffer(0, 1);
    RunTwo(s, WriteLabels(0, Done), WriteLabels(1, Done));
    WriteLabelsGives(s, 0, Done);
    WriteLabelsGives(s1, 1, Done);
    LabelledTwice(Step(s1, WriteLabels(1, Done)), list, PodKey(0), PodKey(1), SelectedText(ListChoice(v)));
  }

  function ListRaceActs(list: string, v: Addr): seq<Action> {
    OfferTwo(list, v) + ChooseListed(0, PodKey(0)) + ChooseListed(1, PodKey(1))
    + [WriteLabels(0, Done), WriteLabels(1, Done)]
  }

  /** With two workers both may list the pods before either labels one: two pods get one address. */
  lemma TwoWorkersShareText(n: nat, list: string, v: Addr)
    requires n >= 2 && ModeOf(list) == Multiple && ParseAddr(Listed(list)[0]) == Some(v) && !Skipped(v)
    ensures !GroupDistinct(Run(Init(n), ListRaceActs(list, v)).cluster.pods, list)
  {
    var last := [WriteLabels(0, Done), WriteLabels(1, Done)];
    RunFourParts(Init(n), OfferTwo(list, v), ChooseListed(0, PodKey(0)), ChooseListed(1, PodKey(1)), last);
    RunOfferTwo(n, list, v);
    OfferedTwoShare(n, list, v);
  }

  lemma OfferedTwoShare(n: nat, list: string, v: Addr)
    requires n >= 2 && ModeOf(list) == Multiple && ParseAddr(Listed(list)[0]) == Some(v) && !Skipped(v)
    ensures var s := Run(Run(OfferedTwo(n, list, v), ChooseListed(0, PodKey(0))), ChooseListed(1, PodKey(1)));
      !GroupDistinct(Run(s, [WriteLabels(0, Done), WriteLabels(1, Done)]).cluster.pods, list)
  {
    FirstListed(n, list, v);
    SecondListed(n, list, v);
    BothLabel(Run(OneChosenFor(n, list, v), ChooseListed(1, PodKey(1))), list, v);
  }

  /** With two workers or more, the groups of a list, also of a canonical one, stay distinct in every run exactly
      when no subnet hands out its first text, so that no pod is ever labelled for it. */
  lemma GroupsDistinctForManyWorkers(n: nat, list: string)
    requires n >= 2 && ModeOf(list) == Multiple
    ensures (forall acts :: GroupDistinct(Run(Init(n), acts).cluster.pods, list)) <==> !Assignable(Listed(list)[0])
  {
    if Assignable(Listed(list)[0]) {
      var v := ParseAddr(Listed(list)[0]).value;
      TwoWorkersShareText(n, list, v);
    } else {
      forall acts
        ensures GroupDistinct(Run(Init(n), acts).cluster.pods, list)
      {
        RunBlocked(n, acts, list);
      }
    }
  }
}
