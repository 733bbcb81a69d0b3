/** Runs that give two pods of one list group the same selected address: every list that is not
    safe has one. */
module GroupRuns {
  import opened Bytes
  import opened Text
  import opened Subnetting
  import opened Ipcalc
  import opened Types
  import opened Ipalloc
  import opened Protocol
  import opened Races
  import opened Groups

  const NAMESPACE := "default"

  function ListAnnotations(list: string): map<string, string> {
    map[ANNOTATION_IP := list, ANNOTATION_SUBNET := "net"]
  }

  function ListPod(list: string): Pod {
    Pod("u", ListAnnotations(list), NO_LABELS)
  }

  lemma ListPodAnnotations(list: string)
    ensures var p := ListPod(list);
      IsMacvlanPod(p) && p.Annotation(ANNOTATION_IP) == list && p.Annotation(ANNOTATION_SUBNET) == "net"
      && p.Annotation(ANNOTATION_MAC) == ""
  {
    assert |ANNOTATION_IP| < |ANNOTATION_MAC| < |ANNOTATION_SUBNET|;
  }

  /** The k-th pod name: all names differ in length. */
  function PodKey(k: nat): Key {
    Key(NAMESPACE, seq(k, _ => 'p'))
  }

  lemma PodKeysDiffer(j: nat, k: nat)
    requires j != k
    ensures PodKey(j) != PodKey(k)
  {
    assert |PodKey(j).name| == j && |PodKey(k).name| == k;
  }

  /** One idle worker, no records, an empty queue, and only the first m pod names ever used. */
  ghost predicate Quiet(s: State, m: nat) {
    && s.workers == [Idle] && s.cluster.records == map[] && s.cluster.queue == {}
    && forall k: nat | k >= m :: PodKey(k) !in s.cluster.pods && PodKey(k) !in s.cluster.cache
  }

  ghost function Held(s: State, list: string): set<string> {
    HeldInGroup(s.cluster.pods, NAMESPACE, Sha1(list))
  }

  // ---------- one pod labelled, with the reply to the label write lost ----------

  /** Offer a subnet around v and a new pod, and take up its key. */
  function OfferActs(list: string, key: Key, v: Addr): seq<Action> {
    [SubnetWritten(SmallSubnet(v)), PodCreated(key, "u", ListAnnotations(list)),
     CacheDelivered(key, Some(ListPod(list))), Take(0, key)]
  }

  function SelectActs(): seq<Action> {
    [ReadPod(0), GetSubnet(0, true), ListPods(0, true), ListRecords(0, true)]
  }

  /** Then sync the pod, and lose the reply to its label write. */
  function AssignActs(list: string, key: Key, v: Addr): seq<Action> {
    OfferActs(list, key, v) + SelectActs() + [WriteLabels(0, LostReply), Settle(0)]
  }

  function Offered(c: Cluster, list: string, key: Key, v: Addr): Cluster {
    c.(pods := c.pods[key := ListPod(list)],
       cache := c.cache[key := ListPod(list)],
       subnets := c.subnets["net" := SmallSubnet(v)])
  }

  lemma OfferPod(s: State, key: Key, list: string, v: Addr)
    requires s.workers == [Idle] && s.cluster.queue == {} && key !in s.cluster.pods && key !in s.cluster.cache
    ensures Step(Step(Step(s, SubnetWritten(SmallSubnet(v))), PodCreated(key, "u", ListAnnotations(list))),
                 CacheDelivered(key, Some(ListPod(list))))
      == State(Offered(s.cluster, list, key, v).(queue := {key}), [Idle])
  {
    var s1 := Step(s, SubnetWritten(SmallSubnet(v)));
    assert s1 == State(s.cluster.(subnets := s.cluster.subnets["net" := SmallSubnet(v)]), [Idle]);
    var s2 := Step(s1, PodCreated(key, "u", ListAnnotations(list)));
    assert s2 == State(s1.cluster.(pods := s.cluster.pods[key := ListPod(list)]), [Idle]);
  }

  lemma OfferTake(c: Cluster, key: Key)
    requires c.queue == {key}
    ensures Step(State(c, [Idle]), Take(0, key)) == State(c.(queue := {}), [Taken(key)])
  {
    var s := State(c, [Idle]);
    assert Step(s, Take(0, key)) == StepTake(s, 0, key);
    assert {key} - {key} == {};
  }

  lemma RunOffer(s: State, key: Key, list: string, v: Addr)
    requires s.workers == [Idle] && s.cluster.queue == {} && key !in s.cluster.pods && key !in s.cluster.cache
    ensures Run(s, OfferActs(list, key, v)) == State(Offered(s.cluster, list, key, v), [Taken(key)])
  {
    RunFour(s, SubnetWritten(SmallSubnet(v)), PodCreated(key, "u", ListAnnotations(list)),
            CacheDelivered(key, Some(ListPod(list))), Take(0, key));
    OfferPod(s, key, list, v);
    OfferTake(Offered(s.cluster, list, key, v).(queue := {key}), key);
  }

  /** v itself is free in the small subnet around it. */
  lemma SmallSubnetHas(v: Addr)
    requires !Skipped(v)
    ensures v in Free(SmallSubnet(v), {})
  {
    var subnet := SmallSubnet(v);
    CIDRTextRoundTrip(v, 30);
    assert GatewayAddrs(subnet) == {};
    assert RangeUnion(subnet.spec.ranges) == {};
    assert AllHosts(subnet) == CIDRHosts(CIDR(v, 30));
  }

  ghost function ListChoice(v: Addr): Choice {
    ChoiceOf(v, SmallSubnet(v), "")
  }

  lemma SelectSubnet(c: Cluster, list: string, key: Key, v: Addr)
    requires ModeOf(list) == Multiple && key in c.cache && c.cache[key] == ListPod(list)
    requires "net" in c.subnets && c.subnets["net"] == SmallSubnet(v)
    ensures Step(Step(State(c, [Taken(key)]), ReadPod(0)), GetSubnet(0, true))
      == State(c, [WithSubnet(key, ListPod(list), SmallSubnet(v))])
  {
    ListPodAnnotations(list);
    var s1 := Step(State(c, [Taken(key)]), ReadPod(0));
    assert s1 == State(c, [Fetched(key, ListPod(list))]);
    var s2 := Step(s1, GetSubnet(0, true));
    assert s2 == StepGetSubnet(s1, 0, true);
  }

  lemma SelectText(c: Cluster, list: string, key: Key, subnet: MacvlanSubnet, text: string)
    requires ModeOf(list) == Multiple
    requires ListPick(list, "", HeldInGroup(c.pods, key.namespace, Sha1(list))) == Picked(text, "")
    ensures Step(State(c, [WithSubnet(key, ListPod(list), subnet)]), ListPods(0, true))
      == State(c, [Grouped(key, ListPod(list), subnet, text, "")])
  {
    ListPodAnnotations(list);
    ListPodsGives(State(c, [WithSubnet(key, ListPod(list), subnet)]), 0, true);
  }

  lemma SelectAddr(c: Cluster, list: string, key: Key, v: Addr, text: string)
    requires c.records == map[] && ParseAddr(text) == Some(v) && !Skipped(v)
    ensures Step(State(c, [Grouped(key, ListPod(list), SmallSubnet(v), text, "")]), ListRecords(0, true))
      == State(c, [Chosen(key, ListPod(list), SmallSubnet(v), ListChoice(v))])
  {
    var s := State(c, [Grouped(key, ListPod(list), SmallSubnet(v), text, "")]);
    assert RecordedIn(c.records, SmallSubnet(v).name) == {};
    TextIsAllocated(s.workers[0], v);
    ListRecordsGives(s, 0, true, Allocated(ListChoice(v)));
  }

  lemma TextIsAllocated(worker: Worker, v: Addr)
    requires worker.Grouped? && worker.subnet == SmallSubnet(v) && worker.mac == ""
    requires ParseAddr(worker.text) == Some(v) && !Skipped(v)
    ensures AllocFor(worker, {}) == Some(Allocated(ListChoice(v)))
  {
    SmallSubnetHas(v);
    RequestedIsFree(worker.subnet, {}, worker.text, "");
  }

  lemma SelectLabel(c: Cluster, list: string, key: Key, v: Addr)
    requires key in c.pods
    ensures Run(State(c, [Chosen(key, ListPod(list), SmallSubnet(v), ListChoice(v))]),
      [WriteLabels(0, LostReply), Settle(0)])
      == State(c.(pods := WithLabels(c.pods, key, list, AddrText(v))), [Idle])
  {
    ListPodAnnotations(list);
    MappedRoundTrip(v);
    assert SelectedText(ListChoice(v)) == AddrText(v);
    var s := State(c, [Chosen(key, ListPod(list), SmallSubnet(v), ListChoice(v))]);
    RunTwo(s, WriteLabels(0, LostReply), Settle(0));
    WriteLabelsGives(s, 0, LostReply);
    SettleGives(Step(s, WriteLabels(0, LostReply)), 0);
  }

  /** The cluster after the pod has been offered and labelled. */
  function Assigned(c: Cluster, list: string, key: Key, v: Addr): Cluster {
    var o := Offered(c, list, key, v);
    o.(pods := WithLabels(o.pods, key, list, AddrText(v)))
  }

  lemma OfferKeepsHeld(c: Cluster, list: string, key: Key, v: Addr)
    requires key !in c.pods
    ensures HeldInGroup(Offered(c, list, key, v).pods, NAMESPACE, Sha1(list))
      == HeldInGroup(c.pods, NAMESPACE, Sha1(list))
  {
    var pods, pods' := c.pods, Offered(c, list, key, v).pods;
    assert LabelsFrom(pods, pods') && LabelsFrom(pods', pods);
    FewerHeld(pods, pods', NAMESPACE, Sha1(list));
    FewerHeld(pods', pods, NAMESPACE, Sha1(list));
  }

  lemma RunAssign(s: State, m: nat, list: string, v: Addr, text: string)
    requires Quiet(s, m) && ModeOf(list) == Multiple && ParseAddr(text) == Some(v) && !Skipped(v)
    requires ListPick(list, "", Held(s, list)) == Picked(text, "")
    ensures Run(s, AssignActs(list, PodKey(m), v)) == State(Assigned(s.cluster, list, PodKey(m), v), [Idle])
  {
    var key := PodKey(m);
    var c := Offered(s.cluster, list, key, v);
    RunOffer(s, key, list, v);
    OfferKeepsHeld(s.cluster, list, key, v);
    SelectSubnet(c, list, key, v);
    SelectText(c, list, key, SmallSubnet(v), text);
    SelectAddr(c, list, key, v, text);
    RunFour(State(c, [Taken(key)]), ReadPod(0), GetSubnet(0, true), ListPods(0, true), ListRecords(0, true));
    SelectLabel(c, list, key, v);
    RunAppend(s, OfferActs(list, key, v), SelectActs());
    RunAppend(s, OfferActs(list, key, v) + SelectActs(), [WriteLabels(0, LostReply), Settle(0)]);
  }

  /** What such a run leaves: a quiet state whose group also holds the text of v. */
  lemma AssignLeavesQuiet(s: State, m: nat, list: string, v: Addr)
    requires Quiet(s, m)
    ensures var s' := State(Assigned(s.cluster, list, PodKey(m), v), [Idle]);
      && Quiet(s', m + 1)
      && Held(s', list) == Held(s, list) + {AddrText(v)}
      && Labels(s', list, PodKey(m), AddrText(v))
      && (forall k | k in s.cluster.pods :: k in s'.cluster.pods && s'.cluster.pods[k] == s.cluster.pods[k])
  {
    forall k: nat | k >= m + 1
      ensures PodKey(k) != PodKey(m)
    {
      PodKeysDiffer(k, m);
    }
    AssignAddsHeld(s.cluster, list, PodKey(m), v);
  }

  /** The pod is in the group of the list with a selected address. */
  ghost predicate Labels(s: State, list: string, key: Key, text: string) {
    InGroup(s.cluster.pods, key, NAMESPACE, Sha1(list)) && s.cluster.pods[key].labels.selectedIP == text
  }

  lemma AssignAddsHeld(c: Cluster, list: string, key: Key, v: Addr)
    requires key !in c.pods && key.namespace == NAMESPACE
    ensures HeldInGroup(Assigned(c, list, key, v).pods, NAMESPACE, Sha1(list))
      == HeldInGroup(c.pods, NAMESPACE, Sha1(list)) + {AddrText(v)}
  {
    AddrTextNotEmpty(v);
    var pods, pods' := c.pods, Assigned(c, list, key, v).pods;
    var held, held' := HeldInGroup(pods, NAMESPACE, Sha1(list)), HeldInGroup(pods', NAMESPACE, Sha1(list));
    forall k | k in pods && InGroup(pods, k, NAMESPACE, Sha1(list))
      ensures k != key && InGroup(pods', k, NAMESPACE, Sha1(list)) && pods'[k] == pods[k]
    {
    }
    assert held <= held';
    assert InGroup(pods', key, NAMESPACE, Sha1(list)) && pods'[key].labels.selectedIP == AddrText(v);
    forall k | k in pods' && k != key && InGroup(pods', k, NAMESPACE, Sha1(list))
      ensures InGroup(pods, k, NAMESPACE, Sha1(list)) && pods'[k] == pods[k]
    {
    }
  }

  lemma AddrTextNotEmpty(v: Addr)
    ensures AddrText(v) != ""
  {
  }

  // ---------- filling the group up to the first text that is not canonical ----------

  /** All texts up to i can be assigned, and the one at i is the first that is not canonical. */
  ghost predicate FirstBad(list: string, i: nat) {
    && i < |Listed(list)| && AssignableUpTo(list, i) && !Canonical(Listed(list)[i])
    && forall j | 0 <= j < i :: Canonical(Listed(list)[j])
  }

  ghost predicate HoldsFirst(s: State, list: string, i: nat)
    requires i <= |Listed(list)|
  {
    && (forall j | 0 <= j < i :: Listed(list)[j] in Held(s, list))
    && forall t | t in Held(s, list) :: Canonical(t)
  }

  lemma PickAt(list: string, held: set<string>, i: nat)
    requires i < |Listed(list)| && Listed(list)[i] !in held
    requires forall j | 0 <= j < i :: Listed(list)[j] in held
    ensures ListPick(list, "", held) == Picked(Listed(list)[i], "")
  {
    FirstUnheldIsFirst(Listed(list), held);
    assert FirstUnheld(Listed(list), held) <= i;
    assert FirstUnheld(Listed(list), held) >= i;
  }

  /** One more pod is given the text at i, and its printed form becomes its label. */
  lemma AssignAt(acts: seq<Action>, m: nat, list: string, i: nat) returns (more: seq<Action>)
    requires ModeOf(list) == Multiple && i < |Listed(list)| && Assignable(Listed(list)[i])
    requires var s := Run(Init(1), acts);
      Quiet(s, m) && HoldsFirst(s, list, i) && Listed(list)[i] !in Held(s, list)
    ensures var s, s' := Run(Init(1), acts), Run(Init(1), more);
      var text := AddrText(ParseAddr(Listed(list)[i]).value);
      && Quiet(s', m + 1) && HoldsFirst(s', list, i)
      && Held(s', list) == Held(s, list) + {text}
      && Labels(s', list, PodKey(m), text)
      && (forall k | k in s.cluster.pods :: k in s'.cluster.pods && s'.cluster.pods[k] == s.cluster.pods[k])
  {
    var s := Run(Init(1), acts);
    var text := Listed(list)[i];
    var v := ParseAddr(text).value;
    PickAt(list, Held(s, list), i);
    RunAssign(s, m, list, v, text);
    AssignLeavesQuiet(s, m, list, v);
    RunAppend(Init(1), acts, AssignActs(list, PodKey(m), v));
    AddrTextRoundTrip(v);
    more := acts + AssignActs(list, PodKey(m), v);
  }

  /** A run after which the group holds all texts before i. */
  lemma {:induction false} Fill(list: string, i: nat) returns (acts: seq<Action>, m: nat)
    requires ModeOf(list) == Multiple && i <= |Listed(list)|
    requires forall j | 0 <= j < i :: Assignable(Listed(list)[j]) && Canonical(Listed(list)[j])
    ensures Quiet(Run(Init(1), acts), m) && HoldsFirst(Run(Init(1), acts), list, i)
  {
    if i == 0 {
      acts, m := [], 0;
      NothingHeld(list);
    } else {
      acts, m := Fill(list, i - 1);
      acts, m := FillNext(acts, m, list, i - 1);
    }
  }

  lemma NothingHeld(list: string)
    ensures Quiet(Run(Init(1), []), 0) && HoldsFirst(Run(Init(1), []), list, 0)
  {
    assert Run(Init(1), []) == Init(1);
    assert Init(1).workers == [Idle];
  }

  lemma FillNext(acts: seq<Action>, m: nat, list: string, i: nat) returns (more: seq<Action>, m': nat)
    requires ModeOf(list) == Multiple && i < |Listed(list)| && GoodLabel(Listed(list)[i])
    requires Quiet(Run(Init(1), acts), m) && HoldsFirst(Run(Init(1), acts), list, i)
    ensures Quiet(Run(Init(1), more), m') && HoldsFirst(Run(Init(1), more), list, i + 1)
  {
    more, m' := acts, m;
    if Listed(list)[i] !in Held(Run(Init(1), acts), list) {
      more := AssignAt(acts, m, list, i);
      m' := m + 1;
    }
  }

  /** The first bad text is never held, so two pods in a row are given its address. */
  lemma BadTextRepeats(list: string, i: nat) returns (acts: seq<Action>)
    requires ModeOf(list) == Multiple && FirstBad(list, i)
    ensures !GroupDistinct(Run(Init(1), acts).cluster.pods, list)
  {
    FirstBadTexts(list, i);
    var m;
    acts, m := Fill(list, i);
    acts := AssignAt(acts, m, list, i);
    acts := AssignAt(acts, m + 1, list, i);
    PodKeysDiffer(m, m + 1);
    LabelledTwice(Run(Init(1), acts), list, PodKey(m), PodKey(m + 1), AddrText(ParseAddr(Listed(list)[i]).value));
  }

  lemma FirstBadTexts(list: string, i: nat)
    requires FirstBad(list, i)
    ensures Assignable(Listed(list)[i])
    ensures forall j | 0 <= j < i :: Assignable(Listed(list)[j]) && Canonical(Listed(list)[j])
  {
  }

  lemma LabelledTwice(s: State, list: string, j: Key, k: Key, text: string)
    requires j != k && j.namespace == k.namespace == NAMESPACE
    requires Labels(s, list, j, text) && Labels(s, list, k, text)
    ensures !GroupDistinct(s.cluster.pods, list)
  {
  }

  lemma {:induction false} FindFirstBad(list: string, n: nat) returns (i: nat)
    requires n < |Listed(list)| && AssignableUpTo(list, n) && !Canonical(Listed(list)[n])
    ensures FirstBad(list, i)
    decreases n
  {
    if j :| 0 <= j < n && !Canonical(Listed(list)[j]) {
      i := FindFirstBad(list, j);
    } else {
      i := n;
    }
  }

  /** With one worker the groups of a list annotation stay distinct in every run exactly when the list is safe. */
  lemma GroupsDistinctExactlyForSafeLists(list: string)
    requires ModeOf(list) == Multiple
    ensures (forall acts :: GroupDistinct(Run(Init(1), acts).cluster.pods, list)) <==> SafeList(list)
  {
    if SafeList(list) {
      forall acts
        ensures GroupDistinct(Run(Init(1), acts).cluster.pods, list)
      {
        RunGroupInv(acts, list);
      }
    } else {
      var n :| 0 <= n < |Listed(list)| && AssignableUpTo(list, n) && !Canonical(Listed(list)[n]);
      var i := FindFirstBad(list, n);
      var acts := BadTextRepeats(list, i);
      assert !GroupDistinct(Run(Init(1), acts).cluster.pods, list);
    }
  }

  /** In particular they do for every list written in canonical texts. */
  lemma CanonicalListsStayDistinct(list: string, acts: seq<Action>)
    requires ModeOf(list) == Multiple && forall t | t in Listed(list) :: Canonical(t)
    ensures GroupDistinct(Run(Init(1), acts).cluster.pods, list)
  {
    RunGroupInv(acts, list);
  }
}
