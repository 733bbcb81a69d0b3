/** What one sync makes of its pod: which annotations it accepts, what it then records, and what it writes. */
module Syncs {
  import opened Bytes
  import opened Text
  import opened Types
  import opened Ipalloc
  import opened Protocol
  import opened Uniqueness
  import opened Capacity

  // ---------- the form of the address annotation ----------

  /** At least two texts joined by dashes, each an address, perhaps with spaces around the whole. */
  predicate IsListText(text: string) {
    && |Split(Trim(text, ' '), '-')| >= 2
    && forall t | t in Split(Trim(text, ' '), '-') :: ParseAddr(t).Some?
  }

  /** The mode of every text. */
  lemma ModeExactly(text: string)
    ensures ModeOf(text) == Auto <==> text == "auto"
    ensures ModeOf(text) == Single <==> ParseAddr(text).Some?
    ensures ModeOf(text) == Multiple
      <==> |Split(Trim(text, ' '), '-')| >= 2 && forall t | t in Split(Trim(text, ' '), '-') :: ParseAddr(t).Some?
    ensures ModeOf(text) == Invalid <==> text != "auto" && ParseAddr(text).None? && !IsListText(text)
  {
    ListedMany(text);
    if ParseAddr(text).Some? {
      ParsedFree(text, '-');
    }
    AutoIsNoAddr();
  }

  lemma AutoIsNoAddr()
    ensures ParseAddr("auto").None?
  {
    assert "auto"[0] == 'a';
    if ParseAddr("auto").Some? {
      ParsedFree("auto", 'a');
    }
  }

  /** An address in CIDR notation is none of them. */
  lemma CIDRAnnotationIsInvalid(v: Addr, bits: nat)
    ensures ModeOf(CIDRText(v, bits)) == Invalid
  {
    CIDRTextIsNoAddr(v, bits);
    AddrTextFree(v, '-');
    DecFree(bits, '-');
    ListedMany(CIDRText(v, bits));
    ModeExactly(CIDRText(v, bits));
    assert '/' in CIDRText(v, bits);
  }

  // ---------- the first steps of a sync ----------

  /** A sync goes on only with a cached pod that has both annotations; otherwise it ends at once without an error. */
  lemma ReadPodExactly(s: State, w: nat, key: Key)
    requires w < |s.workers| && s.workers[w] == Taken(key)
    ensures var cache := s.cluster.cache;
      Step(s, ReadPod(w)) == Become(s, w,
        if key in cache && ANNOTATION_IP in cache[key].annotations && ANNOTATION_SUBNET in cache[key].annotations
        then Fetched(key, cache[key]) else Ended(key, false))
  {
    assert Step(s, ReadPod(w)) == StepReadPod(s, w);
  }

  /** It goes on only with the stored subnet that the pod names and an address annotation of a known form. */
  lemma GetSubnetExactly(s: State, w: nat, ok: bool, key: Key, pod: Pod)
    requires w < |s.workers| && s.workers[w] == Fetched(key, pod)
    ensures var name, text := pod.Annotation(ANNOTATION_SUBNET), pod.Annotation(ANNOTATION_IP);
      Step(s, GetSubnet(w, ok)) == Become(s, w,
        if !ok || name !in s.cluster.subnets then Ended(key, true)
        else if text == "auto" || ParseAddr(text).Some? || IsListText(text)
        then WithSubnet(key, pod, s.cluster.subnets[name])
        else Ended(key, false))
  {
    ModeExactly(pod.Annotation(ANNOTATION_IP));
    assert Step(s, GetSubnet(w, ok)) == StepGetSubnet(s, w, ok);
  }

  /** The label write touches one pod only, and of that pod only the two labels: the hash of the address annotation
      of the pod as it was read, and the printed address. */
  lemma WriteLabelsExactly(s: State, w: nat, outcome: Outcome)
    requires w < |s.workers| && s.workers[w].Chosen? && IsMapped(s.workers[w].choice.ip)
    requires s.workers[w].key in s.cluster.pods && outcome != Rejected
    ensures var Chosen(key, pod, _, choice) := s.workers[w];
      var pods, c := s.cluster.pods, Step(s, WriteLabels(w, outcome)).cluster;
      && c == s.cluster.(pods := c.pods) && c.pods.Keys == pods.Keys
      && (forall k | k in pods && k != key :: c.pods[k] == pods[k])
      && c.pods[key].uid == pods[key].uid && c.pods[key].annotations == pods[key].annotations
      && c.pods[key].labels.multipleIPHash == Some(Sha1(pod.Annotation(ANNOTATION_IP)))
      && c.pods[key].labels.selectedIP == AddrText(AddrOf(choice.ip))
  {
    WriteLabelsGives(s, w, outcome);
  }

  // ---------- what a sync works with, in every run ----------

  /** A text that the annotation lists or is denotes the address. */
  ghost predicate AsksFor(text: string, v: Addr) {
    || text == "auto"
    || ParseAddr(text) == Some(v)
    || (IsListText(text) && exists t :: t in Split(Trim(text, ' '), '-') && ParseAddr(t) == Some(v))
  }

  predicate HasPod(worker: Worker) {
    worker.Fetched? || HasSubnet(worker)
  }

  ghost predicate AsAsked(worker: Worker) {
    && (HasPod(worker) ==> ANNOTATION_IP in worker.pod.annotations && ANNOTATION_SUBNET in worker.pod.annotations)
    && (HasSubnet(worker) ==>
          && worker.subnet.name == worker.pod.Annotation(ANNOTATION_SUBNET)
          && ModeOf(worker.pod.Annotation(ANNOTATION_IP)) != Invalid)
    && (worker.Grouped? ==> ListsText(worker.pod, worker.text))
    && (Carrying(worker) ==> CarriesAsked(worker.pod, worker.choice))
  }

  ghost predicate ListsText(pod: Pod, text: string) {
    ModeOf(pod.Annotation(ANNOTATION_IP)) == Multiple && text in Listed(pod.Annotation(ANNOTATION_IP))
  }

  ghost predicate CarriesAsked(pod: Pod, choice: Choice) {
    RecordedAddr(choice.cidr).Some? && AsksFor(pod.Annotation(ANNOTATION_IP), RecordedAddr(choice.cidr).value)
  }

  lemma AllocatedAsAsked(worker: Worker, used: set<Addr>, choice: Choice)
    requires worker.WithSubnet? || worker.Grouped?
    requires AsAsked(worker) && AllocFor(worker, used) == Some(Allocated(choice))
    ensures CarriesAsked(worker.pod, choice)
  {
    var ip := worker.pod.Annotation(ANNOTATION_IP);
    AllocatedIsFree(worker, used, choice);
    ModeExactly(ip);
    if worker.Grouped? {
      RequestedIsFree(worker.subnet, used, worker.text, worker.mac);
      ChoiceOfIsGood(ParseAddr(worker.text).value, worker.subnet, worker.mac);
    } else if ModeOf(ip) == Single {
      RequestedIsFree(worker.subnet, used, ip, "");
      ChoiceOfIsGood(ParseAddr(ip).value, worker.subnet, "");
    }
  }

  lemma PickIsListed(annotationIP: string, annotationMac: string, held: set<string>, text: string, mac: string)
    requires ListPick(annotationIP, annotationMac, held) == Picked(text, mac)
    ensures text in Listed(annotationIP)
  {
  }

  lemma CarriesAskedStep(s: State, a: Action, s': State, i: nat)
    requires s' == Step(s, a) && |s'.workers| == |s.workers| && i < |s.workers|
    requires AsAsked(s.workers[i]) && Carrying(s'.workers[i])
    ensures AsAsked(s'.workers[i])
  {
    CarryStep(s, a, i);
    if !Carrying(s.workers[i]) {
      ListRecordsStep(s, i, a.ok);
      AllocatedAsAsked(s.workers[i], ListedUsed(s, s.workers[i], a.ok), s'.workers[i].choice);
    }
  }

  lemma ListsTextStep(s: State, a: Action, s': State, i: nat)
    requires s' == Step(s, a) && |s'.workers| == |s.workers| && i < |s.workers|
    requires AsAsked(s.workers[i]) && s'.workers[i].Grouped?
    ensures AsAsked(s'.workers[i])
  {
    var before, after := s.workers[i], s'.workers[i];
    GroupedStep(s, a, s', i);
    if after != before {
      SubnetKept(s, a, s', i);
      var ip := before.pod.Annotation(ANNOTATION_IP);
      PickIsListed(ip, before.pod.Annotation(ANNOTATION_MAC),
                   HeldInGroup(s.cluster.pods, before.key.namespace, Sha1(ip)), after.text, after.mac);
    }
  }

  lemma FirstStepsAsAsked(s: State, a: Action, s': State, i: nat)
    requires s' == Step(s, a) && |s'.workers| == |s.workers| && i < |s.workers|
    requires Named(s.cluster.subnets) && AsAsked(s.workers[i])
    requires s'.workers[i].Fetched? || s'.workers[i].WithSubnet?
    ensures AsAsked(s'.workers[i])
  {
    if a.ReadPod? {
    } else if a.GetSubnet? {
    } else if OfWorker(a) {
    }
  }

  lemma AsAskedStep(s: State, a: Action, s': State, i: nat)
    requires s' == Step(s, a) && |s'.workers| == |s.workers| && i < |s.workers|
    requires Named(s.cluster.subnets) && AsAsked(s.workers[i])
    ensures AsAsked(s'.workers[i])
  {
    if Carrying(s'.workers[i]) {
      CarriesAskedStep(s, a, s', i);
    } else if s'.workers[i].Grouped? {
      ListsTextStep(s, a, s', i);
    } else if HasPod(s'.workers[i]) {
      FirstStepsAsAsked(s, a, s', i);
    }
  }

  lemma {:induction false} RunAsAsked(n: nat, acts: seq<Action>)
    ensures forall i | 0 <= i < |Run(Init(n), acts).workers| :: AsAsked(Run(Init(n), acts).workers[i])
  {
    if |acts| > 0 {
      var s, a := Run(Init(n), acts[..|acts| - 1]), acts[|acts| - 1];
      RunAsAsked(n, acts[..|acts| - 1]);
      RunNamed(n, acts[..|acts| - 1]);
      StepKeepsWorkerCount(s, a);
      forall i | 0 <= i < |s.workers|
        ensures AsAsked(Step(s, a).workers[i])
      {
        AsAskedStep(s, a, Step(s, a), i);
      }
    }
  }

  /** Every record of any run is for a pod with both annotations, is of the subnet that the pod names, and holds an
      address that the pod asks for. */
  lemma RecordedAsAsked(n: nat, acts: seq<Action>, a: Action)
    requires CreatesRecord(Run(Init(n), acts), a)
    ensures var worker := Run(Init(n), acts).workers[a.w];
      var pod, record := worker.pod, RecordOf(worker);
      && ANNOTATION_IP in pod.annotations && ANNOTATION_SUBNET in pod.annotations
      && record.subnetLabel == pod.annotations[ANNOTATION_SUBNET]
      && RecordedAddr(record.spec.cidr).Some?
      && AsksFor(pod.annotations[ANNOTATION_IP], RecordedAddr(record.spec.cidr).value)
  {
    RunAsAsked(n, acts);
    assert AsAsked(Run(Init(n), acts).workers[a.w]);
  }

  /** A pod whose address annotation is neither "auto", nor an address, nor a list of addresses never gets further
      than reading its subnet: no step of its sync changes a pod or a record, and unless the subnet cannot be read
      the sync ends without an error. */
  lemma InvalidIsGivenUp(n: nat, acts: seq<Action>, a: Action)
    requires var s := Run(Init(n), acts);
      && OfWorker(a) && a.w < |s.workers| && HasPod(s.workers[a.w])
      && var text := s.workers[a.w].pod.Annotation(ANNOTATION_IP);
      text != "auto" && ParseAddr(text).None? && !IsListText(text)
    ensures var s, s' := Run(Init(n), acts), Step(Run(Init(n), acts), a);
      && s.workers[a.w].Fetched? && s'.cluster == s.cluster
      && s' == if !a.GetSubnet? then s
               else Become(s, a.w, Ended(s.workers[a.w].key,
                 !a.ok || s.workers[a.w].pod.Annotation(ANNOTATION_SUBNET) !in s.cluster.subnets))
  {
    var s := Run(Init(n), acts);
    RunAsAsked(n, acts);
    assert AsAsked(s.workers[a.w]);
    ModeExactly(s.workers[a.w].pod.Annotation(ANNOTATION_IP));
    FetchedOnlyGets(s, a);
    if a.GetSubnet? {
      GetSubnetExactly(s, a.w, a.ok, s.workers[a.w].key, s.workers[a.w].pod);
    }
  }

  lemma FetchedOnlyGets(s: State, a: Action)
    requires OfWorker(a) && a.w < |s.workers| && s.workers[a.w].Fetched?
    ensures !a.GetSubnet? ==> Step(s, a) == s
  {
  }
}
