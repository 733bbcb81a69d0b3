/** List annotations: the pods of a namespace that share the hash label of a list annotation
    carry different selected addresses, exactly for the lists whose texts can be trusted. */
module Groups {
  import opened Bytes
  import opened Text
  import opened Subnetting
  import opened Types
  import opened Ipalloc
  import opened Protocol
  import opened Uniqueness

  /** A text whose address some subnet hands out. */
  predicate Assignable(t: string) {
    ParseAddr(t).Some? && !Skipped(ParseAddr(t).value)
  }

  /** What the controller writes as a selected address. */
  predicate GoodLabel(t: string) {
    Assignable(t) && Canonical(t)
  }

  /** The pods of one namespace in the group of a list carry pairwise different addresses. */
  ghost predicate GroupDistinct(pods: map<Key, Pod>, list: string) {
    forall j: Key, k: Key | j != k && j.namespace == k.namespace
        && InGroup(pods, j, j.namespace, Sha1(list)) && InGroup(pods, k, k.namespace, Sha1(list))
      :: pods[j].labels.selectedIP != pods[k].labels.selectedIP
  }

  /** No text is written with needless zeros, up to the first one that no subnet hands out
      and that therefore blocks the list. */
  ghost predicate SafeList(list: string) {
    forall i | 0 <= i < |Listed(list)| && AssignableUpTo(list, i) :: Canonical(Listed(list)[i])
  }

  ghost predicate AssignableUpTo(list: string, i: nat)
    requires i < |Listed(list)|
  {
    forall j | 0 <= j <= i :: Assignable(Listed(list)[j])
  }

  // ---------- the invariant ----------

  ghost predicate LabelsGood(pods: map<Key, Pod>) {
    forall k | k in pods && pods[k].labels != NO_LABELS :: GoodLabel(pods[k].labels.selectedIP)
  }

  predicate WorksOn(worker: Worker, list: string) {
    (worker.Grouped? || worker.Chosen?) && worker.pod.Annotation(ANNOTATION_IP) == list
  }

  ghost predicate WorkerSafe(pods: map<Key, Pod>, worker: Worker, list: string) {
    && (Carrying(worker) ==> GoodLabel(SelectedText(worker.choice)))
    && (WorksOn(worker, list) ==>
          var held := HeldInGroup(pods, worker.key.namespace, Sha1(list));
          if worker.Grouped? then worker.text !in held && (Assignable(worker.text) ==> Canonical(worker.text))
          else SelectedText(worker.choice) !in held)
  }

  ghost predicate GroupInv(s: State, list: string) {
    && LabelsGood(s.cluster.pods)
    && GroupDistinct(s.cluster.pods, list)
    && forall i | 0 <= i < |s.workers| :: WorkerSafe(s.cluster.pods, s.workers[i], list)
  }

  // ---------- labels that only disappear ----------

  lemma FewerLabels(before: map<Key, Pod>, after: map<Key, Pod>, list: string)
    requires LabelsFrom(before, after)
    ensures LabelsGood(before) ==> LabelsGood(after)
    ensures GroupDistinct(before, list) ==> GroupDistinct(after, list)
  {
    forall k, namespace | InGroup(after, k, namespace, Sha1(list))
      ensures InGroup(before, k, namespace, Sha1(list)) && before[k].labels == after[k].labels
    {
    }
  }

  lemma FewerHeld(before: map<Key, Pod>, after: map<Key, Pod>, namespace: string, digest: Digest)
    requires LabelsFrom(before, after)
    ensures HeldInGroup(after, namespace, digest) <= HeldInGroup(before, namespace, digest)
  {
    forall k | k in after && InGroup(after, k, namespace, digest)
      ensures InGroup(before, k, namespace, digest) && before[k].labels == after[k].labels
    {
    }
  }

  // ---------- labels that are written ----------

  lemma GoodLabelNotEmpty(t: string)
    requires GoodLabel(t)
    ensures t != ""
  {
    assert Split("", '.') == [""];
  }

  lemma WrittenLabels(pods: map<Key, Pod>, worker: Worker, list: string)
    requires worker.Chosen? && worker.key in pods && LabelsGood(pods) && GroupDistinct(pods, list)
    requires WorkerSafe(pods, worker, list)
    ensures var after := WithLabels(pods, worker.key, worker.pod.Annotation(ANNOTATION_IP),
      SelectedText(worker.choice));
      LabelsGood(after) && GroupDistinct(after, list)
  {
    var annotation, text := worker.pod.Annotation(ANNOTATION_IP), SelectedText(worker.choice);
    var after := WithLabels(pods, worker.key, annotation, text);
    var namespace := worker.key.namespace;
    forall k | k != worker.key && k.namespace == namespace && InGroup(after, k, namespace, Sha1(list))
      && annotation == list
      ensures after[k].labels.selectedIP != text
    {
      assert InGroup(pods, k, namespace, Sha1(list));
      GoodLabelNotEmpty(pods[k].labels.selectedIP);
      assert pods[k].labels.selectedIP in HeldInGroup(pods, namespace, Sha1(list));
    }
  }

  // ---------- choices ----------

  /** An allocated address is never one that subnets skip. */
  lemma FreeIsNotSkipped(subnet: Subnet, used: set<Addr>, v: Addr)
    requires v in Free(subnet, used)
    ensures !Skipped(v)
  {
  }

  lemma AddrTextIsGood(v: Addr)
    requires !Skipped(v)
    ensures GoodLabel(AddrText(v))
  {
    AddrTextRoundTrip(v);
  }

  lemma ChoiceLabelIsGood(worker: Worker, used: set<Addr>, choice: Choice)
    requires worker.WithSubnet? || worker.Grouped?
    requires AllocFor(worker, used) == Some(Allocated(choice))
    ensures GoodLabel(SelectedText(choice))
  {
    AllocatedIsFree(worker, used, choice);
    FreeIsNotSkipped(worker.subnet, used, AddrOf(choice.ip));
    AddrTextIsGood(AddrOf(choice.ip));
  }

  /** From a picked text the address it denotes is allocated, so a canonical text becomes the label. */
  lemma GroupedChoice(worker: Worker, used: set<Addr>, choice: Choice)
    requires worker.Grouped? && AllocFor(worker, used) == Some(Allocated(choice))
    ensures Assignable(worker.text)
    ensures Canonical(worker.text) ==> SelectedText(choice) == worker.text
  {
    RequestedIsFree(worker.subnet, used, worker.text, worker.mac);
    var v := ParseAddr(worker.text).value;
    FreeIsNotSkipped(worker.subnet, used, v);
    MappedRoundTrip(v);
  }

  /** The picked text is the only one tried: it is granted exactly when its address is free,
      and otherwise the sync fails without looking at a later text. */
  lemma NeverFallsThrough(s: State, w: nat, ok: bool)
    requires w < |s.workers| && s.workers[w].Grouped?
    ensures var k, s' := s.workers[w], StepListRecords(s, w, ok);
      var used := ListedUsed(s, k, ok);
      && s'.cluster == s.cluster
      && if ParseAddr(k.text).Some? && ParseAddr(k.text).value in Free(k.subnet, used)
         then s'.workers[w] == Chosen(k.key, k.pod, k.subnet, ChoiceOf(ParseAddr(k.text).value, k.subnet, k.mac))
         else s'.workers[w] == Ended(k.key, true)
  {
    var k := s.workers[w];
    var used := ListedUsed(s, k, ok);
    RequestedIsFree(k.subnet, used, k.text, k.mac);
    ConcludeGives(s, w, RequestedAlloc(k.subnet, used, k.text, k.mac));
  }

  lemma HeldAreGood(pods: map<Key, Pod>, namespace: string, digest: Digest, t: string)
    requires LabelsGood(pods) && t in HeldInGroup(pods, namespace, digest)
    ensures GoodLabel(t)
  {
  }

  /** All texts before a picked one are held, so they have been assigned. */
  lemma HeldUpTo(list: string, held: set<string>, i: nat)
    requires i < |Listed(list)| && Assignable(Listed(list)[i])
    requires forall t | t in held :: GoodLabel(t)
    requires forall j :: 0 <= j < i ==> Listed(list)[j] in held
    ensures AssignableUpTo(list, i)
  {
  }

  /** A safe list gives up a text that is canonical if it can be assigned at all. */
  lemma SafePick(pods: map<Key, Pod>, namespace: string, list: string, annotationMac: string, text: string, mac: string)
    requires SafeList(list) && LabelsGood(pods)
    requires ListPick(list, annotationMac, HeldInGroup(pods, namespace, Sha1(list))) == Picked(text, mac)
    ensures text !in HeldInGroup(pods, namespace, Sha1(list))
    ensures Assignable(text) ==> Canonical(text)
  {
    var held := HeldInGroup(pods, namespace, Sha1(list));
    FirstUnheldIsFirst(Listed(list), held);
    if Assignable(text) {
      forall t | t in held
        ensures GoodLabel(t)
      {
        HeldAreGood(pods, namespace, Sha1(list), t);
      }
      HeldUpTo(list, held, FirstUnheld(Listed(list), held));
    }
  }

  // ---------- steps ----------

  /** A worker that keeps its place and choice stays safe while labels only disappear. */
  lemma KeptWorkerSafe(before: map<Key, Pod>, after: map<Key, Pod>, worker: Worker, list: string)
    requires LabelsFrom(before, after) && WorkerSafe(before, worker, list)
    ensures WorkerSafe(after, worker, list)
  {
    if WorksOn(worker, list) {
      FewerHeld(before, after, worker.key.namespace, Sha1(list));
    }
  }

  lemma ListRecordsSafe(s: State, w: nat, ok: bool, list: string)
    requires w < |s.workers| && WorkerSafe(s.cluster.pods, s.workers[w], list) && ModeOf(list) == Multiple
    requires !Carrying(s.workers[w]) && Carrying(StepListRecords(s, w, ok).workers[w])
    ensures WorkerSafe(s.cluster.pods, StepListRecords(s, w, ok).workers[w], list)
  {
    var before, after := s.workers[w], StepListRecords(s, w, ok).workers[w];
    var used := ListedUsed(s, before, ok);
    ListRecordsStep(s, w, ok);
    ChoiceLabelIsGood(before, used, after.choice);
    if WorksOn(after, list) {
      assert before.Grouped?;
      GroupedChoice(before, used, after.choice);
    }
  }

  lemma WorkerSafeStep(s: State, a: Action, s': State, list: string)
    requires s' == Step(s, a) && |s.workers| == |s'.workers| == 1
    requires GroupInv(s, list) && SafeList(list) && ModeOf(list) == Multiple
    ensures WorkerSafe(s'.cluster.pods, s'.workers[0], list)
  {
    var before, after := s.workers[0], s'.workers[0];
    PodsStep(s, a);
    if Carrying(after) {
      CarryStep(s, a, 0);
      if !Carrying(before) {
        ListRecordsSafe(s, 0, a.ok, list);
        ListRecordsStep(s, 0, a.ok);
      } else if after.Chosen? {
        ChosenStays(s, a, s');
        KeptWorkerSafe(s.cluster.pods, s'.cluster.pods, before, list);
      }
    } else if after.Grouped? {
      GroupedStep(s, a, s', 0);
      if after == before {
        GroupedStays(s, a, s');
        KeptWorkerSafe(s.cluster.pods, s'.cluster.pods, before, list);
      } else if WorksOn(after, list) {
        SafePick(s.cluster.pods, after.key.namespace, list, after.pod.Annotation(ANNOTATION_MAC), after.text,
          after.mac);
      }
    }
  }

  lemma ChosenStays(s: State, a: Action, s': State)
    requires s' == Step(s, a) && |s.workers| == |s'.workers| == 1 && Carrying(s.workers[0]) && s'.workers[0].Chosen?
    ensures s'.workers[0] == s.workers[0] && !WritesLabels(s, a)
  {
    if OfWorker(a) {
    }
  }

  lemma GroupedStays(s: State, a: Action, s': State)
    requires s' == Step(s, a) && |s.workers| == |s'.workers| == 1 && s.workers[0].Grouped?
    ensures !WritesLabels(s, a)
  {
  }

  lemma PodsSafeStep(s: State, a: Action, list: string)
    requires LabelsGood(s.cluster.pods) && GroupDistinct(s.cluster.pods, list)
    requires WritesLabels(s, a) ==> WorkerSafe(s.cluster.pods, s.workers[a.w], list)
    ensures LabelsGood(Step(s, a).cluster.pods) && GroupDistinct(Step(s, a).cluster.pods, list)
  {
    var pods' := Step(s, a).cluster.pods;
    PodsStep(s, a);
    if WritesLabels(s, a) {
      WrittenLabels(s.cluster.pods, s.workers[a.w], list);
    } else {
      FewerLabels(s.cluster.pods, pods', list);
    }
  }

  lemma OneWorkerGroupInv(s: State, list: string)
    requires |s.workers| == 1 && LabelsGood(s.cluster.pods) && GroupDistinct(s.cluster.pods, list)
    ensures GroupInv(s, list) <==> WorkerSafe(s.cluster.pods, s.workers[0], list)
  {
  }

  lemma GroupInvStep(s: State, a: Action, s': State, list: string)
    requires s' == Step(s, a) && |s.workers| == |s'.workers| == 1
    requires GroupInv(s, list) && SafeList(list) && ModeOf(list) == Multiple
    ensures GroupInv(s', list)
  {
    OneWorkerGroupInv(s, list);
    PodsSafeStep(s, a, list);
    WorkerSafeStep(s, a, s', list);
    OneWorkerGroupInv(s', list);
  }

  lemma InitGroupInv(list: string)
    ensures GroupInv(Init(1), list)
  {
  }

  /** For a safe list the labels of its groups are distinct in every reachable one-worker state,
      through failed writes, lost replies, failed Lists, restarts and deletions. */
  lemma {:induction false} RunGroupInv(acts: seq<Action>, list: string)
    requires SafeList(list) && ModeOf(list) == Multiple
    ensures |Run(Init(1), acts).workers| == 1 && GroupInv(Run(Init(1), acts), list)
  {
    if |acts| == 0 {
      InitGroupInv(list);
    } else {
      RunGroupInv(acts[..|acts| - 1], list);
      var s := Run(Init(1), acts[..|acts| - 1]);
      StepKeepsWorkerCount(s, acts[|acts| - 1]);
      GroupInvStep(s, acts[|acts| - 1], Run(Init(1), acts), list);
    }
  }
}
