/** A run in which the label of a pod and its record come to name different addresses. */
module Drift {
  import opened Bytes
  import opened Text
  import opened Subnetting
  import opened Ipcalc
  import opened Types
  import opened Ipalloc
  import opened Protocol
  import opened Races
  import opened Records

  /** The first pod is synced, its key is queued again as after a restart, and it chooses once more. */
  function ResyncActs(subnet: MacvlanSubnet, a: Key, b: Key): seq<Action> {
    SetUpActs(subnet, a, b) + ChooseActs(0, a, true) + FinishActs(0) + [Enqueued(a)] + ChooseActs(0, a, true)
  }

  /** Two addresses of the subnet are free at the start. */
  ghost predicate HasTwo(subnet: MacvlanSubnet) {
    Free(subnet, {}) != {} && Free(subnet, {Least(Free(subnet, {}))}) != {}
  }

  lemma SmallSubnetHasTwo(v: Addr)
    ensures HasTwo(SmallSubnet(v))
  {
    var base := Base(v, 30);
    var hosts := CIDRHosts(CIDR(v, 30));
    SmallSubnetFree(v);
    BaseIsBase(v, 30);
    BlockEnd(base, 30);
    assert BlockSize(30) == 4;
    var k := BaseIsMultiple(base, 30);
    TwoOfFour(base, k);
    assert base + 1 in hosts && base + 2 in hosts;
    var m := Least(hosts);
    assert Free(SmallSubnet(v), {m}) == Free(SmallSubnet(v), {}) - {m};
  }

  lemma TwoOfFour(base: Addr, k: nat)
    requires base == k * 4
    ensures !Skipped(base + 1) && !Skipped(base + 2)
  {
  }

  lemma OneRecorded(records: map<Key, MacvlanIP>, a: Key, v: Addr)
    requires records.Keys == {a} && RecordedAddr(records[a].spec.cidr) == Some(v)
    ensures RecordedIn(records, records[a].subnetLabel) == {v}
  {
  }

  lemma ChoosesAgain(s: State, subnet: MacvlanSubnet, a: Key)
    requires HasTwo(subnet) && s.workers == [Idle] && a in s.cluster.pods
    requires s.cluster.records
      == map[a := MakeMacvlanIP(a, NewPod("ua", subnet.name), subnet, AutoChoice(subnet, {}).cidr, "")]
    requires Ready(s, 0, a, NewPod("ua", subnet.name), subnet)
    ensures Resyncing(Run(s, ChooseActs(0, a, true)), 0)
  {
    RecordRoundTrip(Least(Free(subnet, {})), subnet.spec.cidr);
    OneRecorded(s.cluster.records, a, Least(Free(subnet, {})));
    RunChoose(s, 0, a, NewPod("ua", subnet.name), subnet, true, {Least(Free(subnet, {}))});
  }

  lemma EnqueuedIsReady(s: State, subnet: MacvlanSubnet, a: Key, b: Key)
    requires a != b && s.workers == [Idle]
    requires s.cluster.subnets == map[subnet.name := subnet] && s.cluster.cache == TwoPods(a, b, subnet)
    ensures var s' := Run(s, [Enqueued(a)]);
      Ready(s', 0, a, NewPod("ua", subnet.name), subnet) && s'.workers == [Idle]
      && s'.cluster.records == s.cluster.records && s'.cluster.pods == s.cluster.pods
  {
    RunNext(s, [], Enqueued(a));
    assert [] + [Enqueued(a)] == [Enqueued(a)];
    NewPodIsAuto("ua", subnet);
  }

  lemma ResyncListsSucceed(subnet: MacvlanSubnet, a: Key, b: Key)
    ensures ListsSucceed(ResyncActs(subnet, a, b))
  {
  }

  /** One worker whose Lists all succeed gets to where it labels a pod that has its record. */
  lemma ResyncIsReached(subnet: MacvlanSubnet, a: Key, b: Key)
    requires a != b && HasTwo(subnet)
    ensures Resyncing(Run(Init(1), ResyncActs(subnet, a, b)), 0)
  {
    var s := Run(Run(SetUpState(1, subnet, a, b), ChooseActs(0, a, true)), FinishActs(0));
    RunSetUp(1, subnet, a, b);
    RunFive(Init(1), SetUpActs(subnet, a, b), ChooseActs(0, a, true), FinishActs(0), [Enqueued(a)],
      ChooseActs(0, a, true));
    FirstCreated(subnet, a, b);
    EnqueuedIsReady(s, subnet, a, b);
    ChoosesAgain(Run(s, [Enqueued(a)]), subnet, a);
  }

  /** So there is a run after which the label of a pod names another address than its record. */
  lemma LabelsDrift(subnet: MacvlanSubnet, a: Key, b: Key)
    requires a != b && HasTwo(subnet)
    ensures var c := Run(Init(1), ResyncActs(subnet, a, b) + [WriteLabels(0, Done)]).cluster;
      exists key :: key in c.pods && key in c.records && !LabelMatchesRecord(c, key)
  {
    ResyncIsReached(subnet, a, b);
    ResyncListsSucceed(subnet, a, b);
    ResyncLabelDiffers(ResyncActs(subnet, a, b), Done);
    RunNext(Init(1), ResyncActs(subnet, a, b), WriteLabels(0, Done));
  }
}
