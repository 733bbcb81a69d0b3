/** How many pods a list annotation can serve: its groups never grow beyond the texts that can be reached. */
module GroupSizes {
  import opened Text
  import opened Types
  import opened Ipalloc
  import opened Protocol
  import opened Capacity
  import opened Groups

  /** The listed texts up to the first one that no subnet hands out. */
  ghost function Reachable(list: string): set<string> {
    set i | 0 <= i < |Listed(list)| && AssignableUpTo(list, i) :: Listed(list)[i]
  }

  /** The pods of a namespace in the group of a list. */
  ghost function GroupKeys(pods: map<Key, Pod>, namespace: string, list: string): set<Key> {
    set k | k in pods && InGroup(pods, k, namespace, Sha1(list))
  }

  ghost predicate LabelsReachable(pods: map<Key, Pod>, list: string) {
    forall k | k in pods && pods[k].labels.multipleIPHash == Some(Sha1(list)) ::
      pods[k].labels.selectedIP in Reachable(list)
  }

  ghost predicate WorkerReaches(worker: Worker, list: string) {
    WorksOn(worker, list) ==>
      if worker.Grouped? then Assignable(worker.text) ==> worker.text in Reachable(list)
      else SelectedText(worker.choice) in Reachable(list)
  }

  lemma ReachableIsCanonical(list: string, t: string)
    requires SafeList(list) && t in Reachable(list)
    ensures Canonical(t) && t in Listed(list)
  {
  }

  lemma PickReaches(pods: map<Key, Pod>, namespace: string, list: string, annotationMac: string, text: string,
    mac: string)
    requires LabelsGood(pods) && Assignable(text)
    requires ListPick(list, annotationMac, HeldInGroup(pods, namespace, Sha1(list))) == Picked(text, mac)
    ensures text in Reachable(list)
  {
    var held := HeldInGroup(pods, namespace, Sha1(list));
    FirstUnheldIsFirst(Listed(list), held);
    forall t | t in held
      ensures GoodLabel(t)
    {
      HeldAreGood(pods, namespace, Sha1(list), t);
    }
    HeldUpTo(list, held, FirstUnheld(Listed(list), held));
  }

  lemma ListRecordsReaches(s: State, w: nat, ok: bool, list: string)
    requires w < |s.workers| && WorkerReaches(s.workers[w], list) && ModeOf(list) == Multiple && SafeList(list)
    requires !Carrying(s.workers[w]) && Carrying(StepListRecords(s, w, ok).workers[w])
    ensures WorkerReaches(StepListRecords(s, w, ok).workers[w], list)
  {
    var before, after := s.workers[w], StepListRecords(s, w, ok).workers[w];
    ListRecordsStep(s, w, ok);
    if WorksOn(after, list) {
      assert before.Grouped?;
      GroupedChoice(before, ListedUsed(s, before, ok), after.choice);
      ReachableIsCanonical(list, before.text);
    }
  }

  lemma WorkerReachesStep(s: State, a: Action, s': State, i: nat, list: string)
    requires s' == Step(s, a) && |s'.workers| == |s.workers| && i < |s.workers|
    requires LabelsGood(s.cluster.pods) && SafeList(list) && ModeOf(list) == Multiple
    requires WorkerReaches(s.workers[i], list)
    ensures WorkerReaches(s'.workers[i], list)
  {
    var before, after := s.workers[i], s'.workers[i];
    if Carrying(after) {
      CarryStep(s, a, i);
      if !Carrying(before) {
        ListRecordsReaches(s, i, a.ok, list);
      } else if after.Chosen? {
        StaysChosen(s, a, s', i);
      }
    } else if after.Grouped? {
      GroupedStep(s, a, s', i);
      if after != before && WorksOn(after, list) && Assignable(after.text) {
        PickReaches(s.cluster.pods, after.key.namespace, list, after.pod.Annotation(ANNOTATION_MAC), after.text,
          after.mac);
      }
    }
  }

  lemma StaysChosen(s: State, a: Action, s': State, i: nat)
    requires s' == Step(s, a) && |s'.workers| == |s.workers| && i < |s.workers|
    requires Carrying(s.workers[i]) && s'.workers[i].Chosen?
    ensures s.workers[i].Chosen?
  {
    if OfWorker(a) {
    }
  }

  lemma LabelsReachableStep(s: State, a: Action, list: string)
    requires LabelsReachable(s.cluster.pods, list)
    requires WritesLabels(s, a) ==> WorkerReaches(s.workers[a.w], list)
    ensures LabelsReachable(Step(s, a).cluster.pods, list)
  {
    PodsStep(s, a);
  }

  ghost predicate Reaches(s: State, list: string) {
    |s.workers| == 1 && LabelsReachable(s.cluster.pods, list) && WorkerReaches(s.workers[0], list)
  }

  lemma ReachesStep(s: State, a: Action, s': State, list: string)
    requires s' == Step(s, a) && |s'.workers| == 1
    requires Reaches(s, list) && LabelsGood(s.cluster.pods) && SafeList(list) && ModeOf(list) == Multiple
    ensures Reaches(s', list)
  {
    if WritesLabels(s, a) {
      assert a.w == 0;
    }
    LabelsReachableStep(s, a, list);
    WorkerReachesStep(s, a, s', 0, list);
  }

  lemma InitReaches(list: string)
    ensures Reaches(Init(1), list)
  {
  }

  lemma {:induction false} RunReaches(acts: seq<Action>, list: string)
    requires SafeList(list) && ModeOf(list) == Multiple
    ensures Reaches(Run(Init(1), acts), list)
  {
    if |acts| == 0 {
      InitReaches(list);
    } else {
      RunReaches(acts[..|acts| - 1], list);
      RunGroupInv(acts[..|acts| - 1], list);
      var s := Run(Init(1), acts[..|acts| - 1]);
      StepKeepsWorkerCount(s, acts[|acts| - 1]);
      ReachesStep(s, acts[|acts| - 1], Run(Init(1), acts), list);
    }
  }

  // ---------- counting ----------

  ghost function LabelsOf(pods: map<Key, Pod>, keys: set<Key>): set<string>
    requires keys <= pods.Keys
  {
    set k | k in keys :: pods[k].labels.selectedIP
  }

  lemma {:induction false} DistinctLabels(pods: map<Key, Pod>, keys: set<Key>)
    requires keys <= pods.Keys
    requires forall j, k | j in keys && k in keys && j != k :: pods[j].labels.selectedIP != pods[k].labels.selectedIP
    ensures |LabelsOf(pods, keys)| == |keys|
    decreases keys
  {
    if keys != {} {
      var k :| k in keys;
      DistinctLabels(pods, keys - {k});
      assert LabelsOf(pods, keys) == LabelsOf(pods, keys - {k}) + {pods[k].labels.selectedIP};
      assert pods[k].labels.selectedIP !in LabelsOf(pods, keys - {k});
    }
  }

  lemma HeldAreLabels(pods: map<Key, Pod>, namespace: string, list: string)
    requires LabelsGood(pods)
    ensures HeldInGroup(pods, namespace, Sha1(list)) == LabelsOf(pods, GroupKeys(pods, namespace, list))
  {
    forall k | k in GroupKeys(pods, namespace, list)
      ensures pods[k].labels.selectedIP != ""
    {
      GoodLabelNotEmpty(pods[k].labels.selectedIP);
    }
  }

  /** In a reachable state a group has as many pods as held texts, all of them reachable. */
  lemma GroupIsHeld(acts: seq<Action>, list: string, namespace: string)
    requires SafeList(list) && ModeOf(list) == Multiple
    ensures var pods := Run(Init(1), acts).cluster.pods;
      var held := HeldInGroup(pods, namespace, Sha1(list));
      |GroupKeys(pods, namespace, list)| == |held| && held <= Reachable(list)
  {
    var pods := Run(Init(1), acts).cluster.pods;
    RunGroupInv(acts, list);
    RunReaches(acts, list);
    HeldAreLabels(pods, namespace, list);
    DistinctLabels(pods, GroupKeys(pods, namespace, list));
  }

  lemma ReachableAreListed(list: string)
    ensures Reachable(list) <= Entries(Listed(list))
  {
  }

  lemma ExhaustedIffAllHeld(list: string, annotationMac: string, held: set<string>)
    ensures ListPick(list, annotationMac, held) == NonePicked(ListExhausted)
      <==> !CountsDiffer(list, annotationMac) && Entries(Listed(list)) <= held
  {
    FirstUnheldIsFirst(Listed(list), held);
  }

  /** For a safe list and one worker, a group never has more pods than the list has different texts up to the first
      one that no subnet hands out, and the list is exhausted exactly when the group has as many pods as the list
      has different texts. */
  lemma GroupNeverExceedsList(acts: seq<Action>, list: string, namespace: string, annotationMac: string)
    requires SafeList(list) && ModeOf(list) == Multiple
    ensures var pods := Run(Init(1), acts).cluster.pods;
      && |GroupKeys(pods, namespace, list)| <= |Reachable(list)| <= |Entries(Listed(list))|
      && (ListPick(list, annotationMac, HeldInGroup(pods, namespace, Sha1(list))) == NonePicked(ListExhausted)
          <==> !CountsDiffer(list, annotationMac)
               && |GroupKeys(pods, namespace, list)| == |Entries(Listed(list))|)
  {
    var held := HeldInGroup(Run(Init(1), acts).cluster.pods, namespace, Sha1(list));
    GroupIsHeld(acts, list, namespace);
    ReachableAreListed(list);
    ExhaustedIffAllHeld(list, annotationMac, held);
    SubsetSize(held, Reachable(list));
    SubsetSize(Reachable(list), Entries(Listed(list)));
    SubsetSize(held, Entries(Listed(list)));
  }
}
