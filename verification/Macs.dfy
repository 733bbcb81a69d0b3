/** Which hardware address a record carries: exactly what becomes of the annotation that asks for one. */
module Macs {
  import opened Bytes
  import opened Text
  import opened Types
  import opened Ipalloc
  import opened Protocol
  import opened Races

  /** The hardware address annotation is looked at for a list of addresses and a list of hardware addresses only. */
  predicate ReadsMacs(pod: Pod) {
    ModeOf(pod.Annotation(ANNOTATION_IP)) == Multiple && '-' in pod.Annotation(ANNOTATION_MAC)
  }

  /** mac is the hardware address at the last place where t is listed. */
  predicate PairedMac(pod: Pod, t: string, mac: string) {
    var texts, macs := Listed(pod.Annotation(ANNOTATION_IP)), ListedMacs(pod.Annotation(ANNOTATION_MAC));
    |macs| == |texts| && t in texts && mac == macs[LastIndex(texts, t)]
  }

  /** The hardware address that goes with a record text for this pod. */
  ghost predicate MacFor(pod: Pod, cidr: string, mac: string) {
    if ReadsMacs(pod) then exists t :: PairedMac(pod, t, mac) && ParseAddr(t) == RecordedAddr(cidr)
    else mac == ""
  }

  ghost predicate MacFits(worker: Worker) {
    && (worker.Grouped? ==>
          ModeOf(worker.pod.Annotation(ANNOTATION_IP)) == Multiple
          && if ReadsMacs(worker.pod) then PairedMac(worker.pod, worker.text, worker.mac) else worker.mac == "")
    && (Carrying(worker) ==> MacFor(worker.pod, worker.choice.cidr, worker.choice.mac))
  }

  lemma MacOfPick(pod: Pod, held: set<string>, text: string, mac: string)
    requires ModeOf(pod.Annotation(ANNOTATION_IP)) == Multiple
    requires ListPick(pod.Annotation(ANNOTATION_IP), pod.Annotation(ANNOTATION_MAC), held) == Picked(text, mac)
    ensures if ReadsMacs(pod) then PairedMac(pod, text, mac) else mac == ""
  {
  }

  lemma MacOfAlloc(worker: Worker, used: set<Addr>, choice: Choice)
    requires worker.WithSubnet? || worker.Grouped?
    requires MacFits(worker) && AllocFor(worker, used) == Some(Allocated(choice))
    ensures MacFor(worker.pod, choice.cidr, choice.mac)
  {
    if worker.Grouped? {
      RequestedIsFree(worker.subnet, used, worker.text, worker.mac);
      RecordRoundTrip(ParseAddr(worker.text).value, worker.subnet.spec.cidr);
    }
  }

  lemma MacFitsStep(s: State, a: Action, s': State, i: nat)
    requires s' == Step(s, a) && |s'.workers| == |s.workers| && i < |s.workers|
    requires MacFits(s.workers[i])
    ensures MacFits(s'.workers[i])
  {
    var before, after := s.workers[i], s'.workers[i];
    if Carrying(after) {
      CarryStep(s, a, i);
      if !Carrying(before) {
        ListRecordsStep(s, i, a.ok);
        MacOfAlloc(before, ListedUsed(s, before, a.ok), after.choice);
      }
    } else if after.Grouped? {
      GroupedStep(s, a, s', i);
      if after != before {
        var pod := before.pod;
        MacOfPick(pod, HeldInGroup(s.cluster.pods, before.key.namespace, Sha1(pod.Annotation(ANNOTATION_IP))),
          after.text, after.mac);
      }
    }
  }

  lemma {:induction false} RunMacFits(n: nat, acts: seq<Action>)
    ensures forall i | 0 <= i < |Run(Init(n), acts).workers| :: MacFits(Run(Init(n), acts).workers[i])
  {
    if |acts| > 0 {
      var s, a := Run(Init(n), acts[..|acts| - 1]), acts[|acts| - 1];
      RunMacFits(n, acts[..|acts| - 1]);
      StepKeepsWorkerCount(s, a);
      forall i | 0 <= i < |s.workers|
        ensures MacFits(Step(s, a).workers[i])
      {
        MacFitsStep(s, a, Step(s, a), i);
      }
    }
  }

  /** Every record created in any run carries exactly this hardware address: with a list of addresses
      and a list of hardware addresses, the one at the last place of a listed text that denotes the
      recorded address; in every other case none, whatever the annotation says. */
  lemma RecordedMac(n: nat, acts: seq<Action>, a: Action)
    requires CreatesRecord(Run(Init(n), acts), a)
    ensures var worker := Run(Init(n), acts).workers[a.w];
      var record, pod := RecordOf(worker), worker.pod;
      if ReadsMacs(pod) then exists t ::
        PairedMac(pod, t, record.spec.mac) && ParseAddr(t) == RecordedAddr(record.spec.cidr)
      else record.spec.mac == ""
  {
    RunMacFits(n, acts);
    assert MacFits(Run(Init(n), acts).workers[a.w]);
  }

  // ---------- an annotation that is ignored ----------

  /** A pod that asks for any address of a subnet and for a hardware address, or several. */
  function MacPod(name: string, mac: string): Pod {
    Pod("u", map[ANNOTATION_IP := "auto", ANNOTATION_SUBNET := name, ANNOTATION_MAC := mac], NO_LABELS)
  }

  lemma MacPodIsAuto(subnet: MacvlanSubnet, mac: string)
    ensures AutoPod(MacPod(subnet.name, mac), subnet) && MacPod(subnet.name, mac).Annotation(ANNOTATION_MAC) == mac
  {
    assert |ANNOTATION_IP| != |ANNOTATION_SUBNET| && |ANNOTATION_MAC| != |ANNOTATION_SUBNET|;
    assert ANNOTATION_IP[|ANNOTATION_IP| - 1] != ANNOTATION_MAC[|ANNOTATION_MAC| - 1];
  }

  function MacActs(subnet: MacvlanSubnet, key: Key, mac: string): seq<Action> {
    OnePodActs(subnet, key, MacPod(subnet.name, mac)) + ChooseActs(0, key, true) + FinishActs(0)
  }

  /** An auto pod gets a record without a hardware address, be its annotation one address or a list. */
  lemma MacIsIgnored(subnet: MacvlanSubnet, key: Key, mac: string)
    requires Free(subnet, {}) != {}
    ensures var records := Run(Init(1), MacActs(subnet, key, mac)).cluster.records;
      key in records && records[key].spec.mac == ""
  {
    var pod := MacPod(subnet.name, mac);
    MacPodIsAuto(subnet, mac);
    RunOnePod(subnet, key, pod);
    var s := OnePodState(subnet, key, pod);
    RunChoose(s, 0, key, pod, subnet, true, {});
    RunFinish(Run(s, ChooseActs(0, key, true)), 0);
    RunAppend(Init(1), OnePodActs(subnet, key, pod), ChooseActs(0, key, true));
    RunAppend(Init(1), OnePodActs(subnet, key, pod) + ChooseActs(0, key, true), FinishActs(0));
  }
}
