/** The running controller: controller/macvlanip.go, controller/controller.go, controller/purge.go and
    controller/macvlansubnet.go as methods over the stores they read and write. Before every API call
    the rest of the cluster may act in any way, and every call may fail. A ghost trace records
    what has happened as actions of the step system, and Valid() says that the stores are what
    that run of the step system gives. */
module Controller {
  import opened Bytes
  import opened Text
  import opened Subnetting
  import opened Ipcalc
  import opened Types
  import opened Ipalloc
  import opened Protocol
  import opened Purging
  import opened Uniqueness

  datatype CreateResult = Created | AlreadyExists | OtherError

  /** An object handed out by the subnet informer. */
  class CachedSubnet {
    const name: string
    var labels: map<string, string>
    var spec: SubnetSpec

    constructor (subnet: Subnet)
      ensures name == subnet.name && labels == subnet.labels && spec == subnet.spec
    {
      name, labels, spec := subnet.name, subnet.labels, subnet.spec;
    }
  }

  /** fmt.Sprint of an integer. */
  function SprintInt(n: int): string {
    if n < 0 then "-" + Dec(-n) else Dec(n)
  }

  /** The gateway text a subnet has after its Add event: for CIDR text that does not parse it is
      the printed form of a nil address. */
  function DefaultedGateway(spec: SubnetSpec): string {
    if spec.gateway != "" then spec.gateway
    else if ParseCIDR(spec.cidr).Some? then AddrText(DefaultGateway(ParseCIDR(spec.cidr).value))
    else "<nil>"
  }

  function WithDefaults(subnet: Subnet): Subnet {
    subnet.(labels := subnet.labels["master" := subnet.spec.master]
                        ["vlan" := SprintInt(subnet.spec.vlan)]["mode" := subnet.spec.mode],
            spec := subnet.spec.(gateway := DefaultedGateway(subnet.spec)))
  }

  /** s is the numeral of n, without needless zeros. */
  predicate IsNumeral(s: string, n: nat) {
    s != "" && AllDigits(s) && DecValue(s) == n && (|s| == 1 || s[0] != '0')
  }

  /** What the Add event makes of a subnet: three labels say its master, VLAN and mode, an unset gateway becomes the
      address after the base of the block, and nothing else changes. */
  lemma DefaultsExactly(subnet: Subnet)
    ensures var d := WithDefaults(subnet);
      && d.name == subnet.name
      && d.labels.Keys == subnet.labels.Keys + {"master", "vlan", "mode"}
      && d.labels["master"] == subnet.spec.master && d.labels["mode"] == subnet.spec.mode
      && (subnet.spec.vlan >= 0 ==> IsNumeral(d.labels["vlan"], subnet.spec.vlan))
      && (subnet.spec.vlan < 0 ==>
            && d.labels["vlan"] != "" && d.labels["vlan"][0] == '-'
            && IsNumeral(d.labels["vlan"][1..], -subnet.spec.vlan))
      && (forall k | k in subnet.labels && k !in {"master", "vlan", "mode"} :: d.labels[k] == subnet.labels[k])
      && d.spec == subnet.spec.(gateway := d.spec.gateway)
    ensures WithDefaults(subnet).spec.gateway ==
      if subnet.spec.gateway != "" then subnet.spec.gateway
      else match ParseCIDR(subnet.spec.cidr)
        case Some(c) => AddrText((Base(c.addr, c.bits) + 1) % 0x1_0000_0000)
        case None => "<nil>"
  {
    var n := if subnet.spec.vlan < 0 then -subnet.spec.vlan else subnet.spec.vlan;
    DecRoundTrip(n);
    DecNoLeadingZero(n);
    LabelNamesDiffer();
  }

  lemma LabelNamesDiffer()
    ensures "master" != "vlan" && "master" != "mode" && "vlan" != "mode"
  {
    assert "vlan"[0] == 'v' && "mode"[0] == 'm' && |"master"| == 6;
  }

  /** The records with a subnet label, in some order. */
  method LabelledRecords(records: map<Key, MacvlanIP>, name: string) returns (items: seq<MacvlanIP>)
    ensures UsedBy(items) == RecordedIn(records, name)
    ensures forall it :: it in items <==> exists k :: k in records && records[k] == it && it.subnetLabel == name
  {
    items := [];
    var left := records.Keys;
    while left != {}
      invariant left <= records.Keys
      invariant forall it ::
        it in items <==> exists k :: k in records && k !in left && records[k] == it && it.subnetLabel == name
      decreases left
    {
      var k :| k in left;
      left := left - {k};
      if records[k].subnetLabel == name {
        items := items + [records[k]];
      }
    }
    ListedIsRecorded(records, name, items);
  }

  lemma ListedIsRecorded(records: map<Key, MacvlanIP>, name: string, items: seq<MacvlanIP>)
    requires forall it :: it in items <==> exists k :: k in records && records[k] == it && it.subnetLabel == name
    ensures UsedBy(items) == RecordedIn(records, name)
  {
    forall k | k in records && records[k].subnetLabel == name
      ensures records[k] in items
    {
    }
    forall v | v in UsedBy(items)
      ensures v in RecordedIn(records, name)
    {
      var it :| it in items && RecordedAddr(it.spec.cidr) == Some(v);
      var k :| k in records && records[k] == it && it.subnetLabel == name;
    }
    forall v | v in RecordedIn(records, name)
      ensures v in UsedBy(items)
    {
      var k :| k in records && records[k].subnetLabel == name && RecordedAddr(records[k].spec.cidr) == Some(v);
      assert records[k] in items;
    }
  }

  /** The pods of a namespace that carry a hash label, in some order. */
  method LabelledPods(pods: map<Key, Pod>, namespace: string, digest: Digest) returns (group: seq<Pod>)
    ensures HeldBy(group) == HeldInGroup(pods, namespace, digest)
    ensures forall p ::
      p in group <==> exists k ::
        k in pods && k.namespace == namespace && pods[k].labels.multipleIPHash == Some(digest) && pods[k] == p
  {
    group := [];
    var left := pods.Keys;
    while left != {}
      invariant left <= pods.Keys
      invariant forall p ::
        p in group <==> exists k :: k !in left && InGroup(pods, k, namespace, digest) && pods[k] == p
      decreases left
    {
      var k :| k in left;
      left := left - {k};
      if InGroup(pods, k, namespace, digest) {
        group := group + [pods[k]];
      }
    }
    ListedIsHeld(pods, namespace, digest, group);
  }

  lemma ListedIsHeld(pods: map<Key, Pod>, namespace: string, digest: Digest, group: seq<Pod>)
    requires forall p :: p in group <==> exists k :: InGroup(pods, k, namespace, digest) && pods[k] == p
    ensures HeldBy(group) == HeldInGroup(pods, namespace, digest)
  {
    forall k | InGroup(pods, k, namespace, digest)
      ensures pods[k] in group
    {
    }
  }

  /** The labels and, if unset, the gateway that onMacvlanSubnetAdd gives an object, in place. */
  method FillDefaults(subnet: CachedSubnet)
    modifies subnet
    ensures Subnet(subnet.name, subnet.labels, subnet.spec)
      == WithDefaults(old(Subnet(subnet.name, subnet.labels, subnet.spec)))
    ensures subnet.labels.Keys == old(subnet.labels.Keys) + {"master", "vlan", "mode"}
    ensures subnet.labels["master"] == subnet.spec.master && subnet.labels["mode"] == subnet.spec.mode
    ensures subnet.spec.vlan >= 0 ==> IsNumeral(subnet.labels["vlan"], subnet.spec.vlan)
    ensures forall k | k in old(subnet.labels) && k !in {"master", "vlan", "mode"} ::
      subnet.labels[k] == old(subnet.labels[k])
    ensures subnet.spec == old(subnet.spec).(gateway := subnet.spec.gateway)
  {
    DefaultsExactly(Subnet(subnet.name, subnet.labels, subnet.spec));
    subnet.labels := subnet.labels["master" := subnet.spec.master];
    subnet.labels := subnet.labels["vlan" := SprintInt(subnet.spec.vlan)];
    subnet.labels := subnet.labels["mode" := subnet.spec.mode];
    if subnet.spec.gateway == "" {
      var gateway := CalcDefaultGateway(subnet.spec.cidr);
      var text := "<nil>";
      if gateway.Some? {
        MappedRoundTrip(DefaultGateway(ParseCIDR(subnet.spec.cidr).value));
        text := IPString(gateway.value[..]);
      }
      subnet.spec := subnet.spec.(gateway := text);
    }
  }

  lemma RunInvIfListsSucceed(acts: seq<Action>)
    ensures ListsSucceed(acts) ==> Unique(Run(Init(1), acts).cluster.records)
  {
    if ListsSucceed(acts) {
      RunInv(1, acts);
    }
  }

  class Controller {
    // the API server
    var pods: map<Key, Pod>
    var subnets: map<string, MacvlanSubnet>
    var records: map<Key, MacvlanIP>
    // the pod informer and the work queue
    var cache: map<Key, Pod>
    var queue: set<Key>

    ghost var worker: Worker
    ghost var trace: seq<Action>

    function Stores(): Cluster
      reads this
    {
      Cluster(pods, cache, subnets, records, queue)
    }

    ghost function Now(): State
      reads this
    {
      State(Stores(), [worker])
    }

    ghost predicate Valid()
      reads this
    {
      Now() == Run(Init(1), trace)
    }

    constructor ()
      ensures Valid() && worker == Idle && trace == []
    {
      pods, subnets, records, cache, queue := map[], map[], map[], map[], {};
      worker, trace := Idle, [];
      new;
      assert Init(1).workers == [Idle];
    }

    /** Notes that the stores have just gone through one action. */
    ghost method Log(before: State, a: Action)
      requires before == Run(Init(1), trace) && |before.workers| == 1
      requires Stores() == Step(before, a).cluster
      modifies this`worker, this`trace
      ensures Valid() && trace == old(trace) + [a]
      ensures |Step(before, a).workers| == 1 && worker == Step(before, a).workers[0]
    {
      RunNext(Init(1), trace, a);
      StepKeepsWorkerCount(before, a);
      worker := Step(before, a).workers[0];
      trace := trace + [a];
    }

    /** One action of the environment. */
    method Apply(a: Action)
      requires Valid() && OfEnvironment(a)
      modifies this
      ensures Valid() && trace == old(trace) + [a] && worker == old(worker)
      ensures Stores() == StepEnvironment(old(Stores()), a)
    {
      ghost var before := Now();
      var c := StepEnvironment(Stores(), a);
      pods, cache, subnets, records, queue := c.pods, c.cache, c.subnets, c.records, c.queue;
      EnvironmentStep(before, a);
      Log(before, a);
    }

    /** A given series of such actions. */
    method Play(acts: seq<Action>)
      requires Valid() && EnvironmentOnly(acts)
      modifies this
      ensures Valid() && worker == old(worker) && trace == old(trace) + acts
      ensures Now() == Run(old(Now()), acts)
    {
      for i := 0 to |acts|
        invariant Valid() && worker == old(worker) && trace == old(trace) + acts[..i]
      {
        Apply(acts[i]);
      }
      assert acts[..|acts|] == acts;
      RunAppend(Init(1), old(trace), acts);
    }

    /** Whatever the rest of the cluster does up to the next API call. */
    method Interfere()
      requires Valid()
      modifies this
      ensures Valid() && worker == old(worker)
      ensures old(trace) <= trace && EnvironmentOnly(trace[|old(trace)|..])
    {
      var script: seq<Action> := *;
      if EnvironmentOnly(script) {
        Play(script);
      }
    }

    // ---------- the pure view of the stores ----------

    /** Lists the records labelled with a subnet, in some order; a failed call gives an empty list. */
    method ListMacvlanIPs(name: string) returns (items: seq<MacvlanIP>, ghost ok: bool)
      requires Valid()
      modifies this
      ensures Valid() && worker == old(worker) && old(trace) <= trace
      ensures UsedBy(items) == if ok then RecordedIn(records, name) else {}
    {
      Interfere();
      var answered: bool := *;
      ok := answered;
      items := [];
      if answered {
        items := LabelledRecords(records, name);
      }
    }

    method ListGroup(namespace: string, digest: Digest) returns (group: seq<Pod>, ok: bool)
      requires Valid()
      modifies this
      ensures Valid() && worker == old(worker) && old(trace) <= trace
      ensures ok ==> HeldBy(group) == HeldInGroup(pods, namespace, digest)
    {
      Interfere();
      ok := *;
      group := [];
      if ok {
        group := LabelledPods(pods, namespace, digest);
      }
    }

    // ---------- the API calls of a sync, in their order ----------

    method GetMacvlanSubnet(key: Key, pod: Pod) returns (subnet: Option<MacvlanSubnet>)
      requires Valid() && worker == Fetched(key, pod)
      modifies this
      ensures Valid() && old(trace) <= trace
      ensures subnet.None? ==> worker == Ended(key, true)
      ensures subnet.Some? ==> worker == if ModeOf(pod.Annotation(ANNOTATION_IP)) == Invalid then Ended(key, false)
                                         else WithSubnet(key, pod, subnet.value)
    {
      Interfere();
      ghost var before := Now();
      var name := pod.Annotation(ANNOTATION_SUBNET);
      var ok: bool := *;
      subnet := if ok && name in subnets then Some(subnets[name]) else None;
      Log(before, GetSubnet(0, ok));
    }

    /** The worker holds the outcome of an allocation. */
    ghost predicate Holds(key: Key, pod: Pod, subnet: MacvlanSubnet, r: Alloc)
      reads this
    {
      match r
      case Allocated(choice) => worker == Chosen(key, pod, subnet, choice)
      case Failed(_) => worker == Ended(key, true)
    }

    ghost method LogListRecords(ok: bool, r: Alloc)
      requires Valid() && (worker.WithSubnet? || worker.Grouped?)
      requires AllocFor(worker, if ok then RecordedIn(records, worker.subnet.name) else {}) == Some(r)
      modifies this`worker, this`trace
      ensures Valid() && old(trace) <= trace
      ensures Holds(old(worker).key, old(worker).pod, old(worker).subnet, r)
    {
      ListRecordsGives(Now(), 0, ok, r);
      Log(Now(), ListRecords(0, ok));
    }

    /** The pods of the group have been listed, or the call was left out or failed. */
    ghost method LogListPods(ok: bool, pick: Pick)
      requires Valid() && worker.WithSubnet? && ModeOf(worker.pod.Annotation(ANNOTATION_IP)) == Multiple
      requires ok ==> pick == PickFor(Now(), worker)
      modifies this`worker, this`trace
      ensures Valid() && old(trace) <= trace
      ensures worker == var w := old(worker);
        if ok && pick.Picked? then Grouped(w.key, w.pod, w.subnet, pick.text, pick.mac) else Ended(w.key, true)
    {
      ListPodsGives(Now(), 0, ok);
      Log(Now(), ListPods(0, ok));
    }

    method AllocateAuto(key: Key, pod: Pod, subnet: MacvlanSubnet) returns (r: Alloc)
      requires Valid() && worker == WithSubnet(key, pod, subnet) && ModeOf(pod.Annotation(ANNOTATION_IP)) == Auto
      modifies this
      ensures Valid() && old(trace) <= trace && Holds(key, pod, subnet, r)
    {
      var items; ghost var ok;
      items, ok := ListMacvlanIPs(subnet.name);
      r := AllocateAutoIP(items, subnet);
      LogListRecords(ok, r);
    }

    method AllocateSingle(key: Key, pod: Pod, subnet: MacvlanSubnet) returns (r: Alloc)
      requires Valid() && worker == WithSubnet(key, pod, subnet) && ModeOf(pod.Annotation(ANNOTATION_IP)) == Single
      modifies this
      ensures Valid() && old(trace) <= trace && Holds(key, pod, subnet, r)
    {
      var items; ghost var ok;
      items, ok := ListMacvlanIPs(subnet.name);
      r := AllocateRequestedIP(items, subnet, pod.Annotation(ANNOTATION_IP), "");
      LogListRecords(ok, r);
    }

    method AllocateMultiple(key: Key, pod: Pod, subnet: MacvlanSubnet) returns (r: Alloc)
      requires Valid() && worker == WithSubnet(key, pod, subnet) && ModeOf(pod.Annotation(ANNOTATION_IP)) == Multiple
      modifies this
      ensures Valid() && old(trace) <= trace && Holds(key, pod, subnet, r)
    {
      var pick := PickListed(key, pod, subnet);
      if pick.NonePicked? {
        return Failed(pick.error);
      }
      var items; ghost var ok;
      items, ok := ListMacvlanIPs(subnet.name);
      r := AllocateRequestedIP(items, subnet, pick.text, pick.mac);
      LogListRecords(ok, r);
    }

    /** allocateMultipleIP up to the choice of a text. */
    method PickListed(key: Key, pod: Pod, subnet: MacvlanSubnet) returns (pick: Pick)
      requires Valid() && worker == WithSubnet(key, pod, subnet) && ModeOf(pod.Annotation(ANNOTATION_IP)) == Multiple
      modifies this
      ensures Valid() && old(trace) <= trace
      ensures worker == if pick.Picked? then Grouped(key, pod, subnet, pick.text, pick.mac) else Ended(key, true)
    {
      var annotationIP, annotationMac := pod.Annotation(ANNOTATION_IP), pod.Annotation(ANNOTATION_MAC);
      if CountsDiffer(annotationIP, annotationMac) {
        pick := NonePicked(CountMismatch);
        LogListPods(true, pick);
        return;
      }
      var group, listed := ListGroup(key.namespace, Sha1(annotationIP));
      if !listed {
        pick := NonePicked(ListExhausted);
        LogListPods(false, pick);
        return;
      }
      pick := SelectListedIP(annotationIP, annotationMac, group);
      LogListPods(true, pick);
    }

    /** Reads the latest version of the pod and writes the labels, again on a conflict, up to five times. */
    method UpdatePodLabels(key: Key, pod: Pod, subnet: MacvlanSubnet, choice: Choice) returns (ok: bool)
      requires Valid() && worker == Chosen(key, pod, subnet, choice)
      modifies this
      ensures Valid() && old(trace) <= trace
      ensures worker == if ok then Labelled(key, pod, subnet, choice, SelectedText(choice)) else Ended(key, false)
    {
      for attempt := 0 to 5
        invariant Valid() && old(trace) <= trace && worker == Chosen(key, pod, subnet, choice)
      {
        Interfere();
        var conflict: bool := *;
        var outcome: Outcome := *;
        if key !in pods || (!conflict && outcome == Rejected) {
          LogRejected();
          return false;
        }
        if !conflict {
          PutLabels(key, pod, subnet, choice, outcome);
          return outcome == Done;
        }
      }
      LogRejected();
      ok := false;
    }

    /** The label write has been given up. */
    ghost method LogRejected()
      requires Valid() && worker.Chosen?
      modifies this`worker, this`trace
      ensures Valid() && trace == old(trace) + [WriteLabels(0, Rejected)] && worker == Ended(old(worker).key, false)
    {
      WriteLabelsRejected(Now(), 0);
      Log(Now(), WriteLabels(0, Rejected));
    }

    /** The update that goes through, with its reply or without. */
    method PutLabels(key: Key, pod: Pod, subnet: MacvlanSubnet, choice: Choice, outcome: Outcome)
      requires Valid() && worker == Chosen(key, pod, subnet, choice) && key in pods && outcome != Rejected
      modifies this
      ensures Valid() && trace == old(trace) + [WriteLabels(0, outcome)]
      ensures worker
        == if outcome == Done then Labelled(key, pod, subnet, choice, SelectedText(choice)) else Ended(key, false)
      ensures Stores() == old(Stores()).(pods := pods) && pods.Keys == old(pods.Keys)
      ensures forall k | k in pods && k != key :: pods[k] == old(pods[k])
      ensures pods[key]
        == old(pods[key]).(labels := Labels(Some(Sha1(pod.Annotation(ANNOTATION_IP))), SelectedText(choice)))
    {
      ghost var before := Now();
      pods := WithLabels(pods, key, pod.Annotation(ANNOTATION_IP), SelectedText(choice));
      WriteLabelsGives(before, 0, outcome);
      Log(before, WriteLabels(0, outcome));
    }

    method CreateMacvlanIP(key: Key, pod: Pod, subnet: MacvlanSubnet, choice: Choice) returns (result: CreateResult)
      requires Valid() && worker == Labelled(key, pod, subnet, choice, SelectedText(choice))
      modifies this
      ensures Valid() && old(trace) <= trace && worker == Ended(key, result == OtherError)
      ensures result != OtherError ==> key in records
      ensures result == Created ==> records[key] == MakeMacvlanIP(key, pod, subnet, choice.cidr, choice.mac)
    {
      Interfere();
      ghost var before := Now();
      var outcome: Outcome := *;
      result := if outcome != Done then OtherError else if key in records then AlreadyExists else Created;
      if outcome != Rejected && key !in records {
        records := records[key := MakeMacvlanIP(key, pod, subnet, choice.cidr, choice.mac)];
      }
      CreateGives(before, 0, outcome);
      Log(before, Create(0, outcome));
    }

    // ---------- one sync ----------

    /** The choice of a mode in doAddMacvlanIP; None for an annotation of no known form. */
    method Allocate(key: Key, pod: Pod, subnet: MacvlanSubnet) returns (r: Option<Alloc>)
      requires Valid()
      requires worker == if ModeOf(pod.Annotation(ANNOTATION_IP)) == Invalid then Ended(key, false)
                         else WithSubnet(key, pod, subnet)
      modifies this
      ensures Valid() && old(trace) <= trace
      ensures if r.Some? then Holds(key, pod, subnet, r.value) else worker == Ended(key, false)
    {
      var annotationIP := pod.Annotation(ANNOTATION_IP);
      var alloc;
      if annotationIP == "auto" {
        alloc := AllocateAuto(key, pod, subnet);
      } else if IsSingleIP(annotationIP) {
        alloc := AllocateSingle(key, pod, subnet);
      } else {
        var multiple := IsMultipleIP(annotationIP);
        if !multiple {
          return None;
        }
        alloc := AllocateMultiple(key, pod, subnet);
      }
      r := Some(alloc);
    }

    method DoAddMacvlanIP(key: Key, pod: Pod) returns (err: bool)
      requires Valid() && worker == if IsMacvlanPod(pod) then Fetched(key, pod) else Ended(key, false)
      modifies this
      ensures Valid() && old(trace) <= trace && worker == Ended(key, err)
      ensures !IsMacvlanPod(pod) ==> !err && trace == old(trace)
    {
      if !IsMacvlanPod(pod) {
        return false;
      }
      var subnet := GetMacvlanSubnet(key, pod);
      if subnet.None? {
        return true;
      }
      var r := Allocate(key, pod, subnet.value);
      if r.None? {
        return false;
      }
      if r.value.Failed? {
        return true;
      }
      var ok := UpdatePodLabels(key, pod, subnet.value, r.value.choice);
      if !ok {
        return false;
      }
      var result := CreateMacvlanIP(key, pod, subnet.value, r.value.choice);
      err := result == OtherError;
    }

    /** Position n of the trace is where the pod is looked up: without a macvlan pod there, nothing more is
        done and no error returned. */
    method SyncHandler(key: Key) returns (err: bool, ghost n: nat)
      requires Valid() && worker == Taken(key)
      modifies this
      ensures Valid() && old(trace) <= trace && worker == Ended(key, err)
      ensures |old(trace)| <= n < |trace| && trace[n] == ReadPod(0)
      ensures var seen := Run(Init(1), trace[..n]).cluster.cache;
        key !in seen || !IsMacvlanPod(seen[key]) ==> !err && |trace| == n + 1
    {
      Interfere();
      ghost var before, lead := Now(), trace;
      n := |trace|;
      Log(before, ReadPod(0));
      assert trace[..n] == lead;
      if key !in cache {
        err := false;
        return;
      }
      var pod := cache[key];
      err := DoAddMacvlanIP(key, pod);
      assert trace[..n] == lead;
    }

    /** workqueue.Get: it waits for a key, and returns without one only when the queue has been shut down
        and is empty. */
    method TakeKey() returns (took: Option<Key>)
      requires Valid() && worker == Idle
      modifies this
      ensures Valid() && old(trace) <= trace
      ensures took.None? ==> worker == Idle && queue == {}
      ensures took.Some? ==>
        worker == Taken(took.value) && |old(trace)| < |trace| && trace[|trace| - 1] == Take(0, took.value)
    {
      Interfere();
      if queue == {} {
        return None;
      }
      ghost var before := Now();
      var key :| key in queue;
      queue := queue - {key};
      Log(before, Take(0, key));
      took := Some(key);
    }

    /** workqueue.AddRateLimited or Forget, and Done. */
    method SettleKey(key: Key, err: bool)
      requires Valid() && worker == Ended(key, err)
      modifies this
      ensures Valid() && worker == Idle && old(trace) < trace && trace[|trace| - 1] == Settle(0)
      ensures err ==> key in queue
    {
      Interfere();
      ghost var before := Now();
      if err {
        queue := queue + {key};
      }
      Log(before, Settle(0));
    }

    /** Takes one key from the queue and syncs it. Between calls the worker is idle, and what the
        controller has done is a run of the step system; so as long as every List of records has
        succeeded no two records of one subnet hold the same address. */
    method ProcessNextWorkItem() returns (more: bool, ghost took: Option<Key>, ghost err: bool)
      requires Valid() && worker == Idle
      modifies this
      ensures Valid() && worker == Idle && old(trace) <= trace
      ensures more == took.Some? && (!more ==> queue == {})
      ensures more ==> Take(0, took.value) in trace[|old(trace)|..] && trace[|trace| - 1] == Settle(0)
      ensures more && err ==> took.value in queue
      ensures ListsSucceed(trace) ==> Unique(records)
    {
      err := false;
      var key := TakeKey();
      took, more := key, key.Some?;
      if more {
        ghost var lead := trace;
        err := SyncAndSettle(key.value);
        assert trace[|lead| - 1] == lead[|lead| - 1];
      }
      RunInvIfListsSucceed(trace);
    }

    method SyncAndSettle(key: Key) returns (err: bool)
      requires Valid() && worker == Taken(key)
      modifies this
      ensures Valid() && worker == Idle && old(trace) <= trace && |trace| > 0 && trace[|trace| - 1] == Settle(0)
      ensures err ==> key in queue
    {
      ghost var n;
      err, n := SyncHandler(key);
      SettleKey(key, err);
    }

    // ---------- purge ----------

    method DeleteRecord(key: Key)
      requires Valid()
      modifies this
      ensures Valid() && worker == old(worker) && trace == old(trace) + [RecordDeleted(key)]
      ensures Stores() == old(Stores()).(records := old(records) - {key})
    {
      Apply(RecordDeleted(key));
    }

    /** Goes through a snapshot of the records and deletes those whose pods the informer does not know; the
        cluster acts between all calls as the rounds say. */
    method Purge(listed: seq<MacvlanIP>, rounds: seq<Round>) returns (count: nat)
      requires Valid() && |rounds| == |listed|
      requires forall r | r in rounds :: EnvironmentOnly(r.before) && EnvironmentOnly(r.between)
      modifies this
      ensures Valid() && worker == old(worker) && old(trace) <= trace && EnvironmentOnly(trace[|old(trace)|..])
      ensures Now() == PurgeRun(old(Now()), listed, rounds)
      ensures exists counted: set<nat> :: count == |counted| && forall i: nat ::
        i in counted
        <==> i < |listed| && rounds[i].reply == Done && Missing(old(Now()), listed, rounds, i, listed[i].key)
    {
      count := 0;
      ghost var s := Now();
      for i := 0 to |listed|
        invariant Valid() && worker == old(worker) && old(trace) <= trace && EnvironmentOnly(trace[|old(trace)|..])
        invariant Now() == PurgeRun(s, listed[..i], rounds[..i])
        invariant count == |Counted(s, listed, rounds, i)|
      {
        PurgeRunNext(s, listed, rounds, i);
        CountedNext(s, listed, rounds, i);
        var deleted := PurgeOne(listed[i].key, rounds[i]);
        if !deleted {
          continue;
        }
        count := count + 1;
      }
      assert listed[..|listed|] == listed && rounds[..|rounds|] == rounds;
      assert forall i: nat ::
        i in Counted(s, listed, rounds, |listed|) <==> i < |listed| && CountsAt(s, listed, rounds, i);
    }

    /** One round of purge. */
    method PurgeOne(key: Key, round: Round) returns (deleted: bool)
      requires Valid() && EnvironmentOnly(round.before) && EnvironmentOnly(round.between)
      modifies this
      ensures Valid() && worker == old(worker) && old(trace) <= trace && EnvironmentOnly(trace[|old(trace)|..])
      ensures Now() == AfterRound(old(Now()), key, round)
      ensures deleted <==> key !in Run(old(Now()), round.before).cluster.cache && round.reply == Done
    {
      Play(round.before);
      if key in cache {
        return false;
      }
      Play(round.between);
      if round.reply != Rejected {
        RunNext(Init(1), trace, RecordDeleted(key));
        DeleteRecord(key);
      }
      deleted := round.reply == Done;
    }

    // ---------- the Add event of a subnet ----------

    method OnMacvlanSubnetAdd(subnet: CachedSubnet) returns (updated: bool)
      requires Valid()
      modifies this, subnet
      ensures Valid() && worker == old(worker) && old(trace) <= trace && EnvironmentOnly(trace[|old(trace)|..])
      ensures Subnet(subnet.name, subnet.labels, subnet.spec)
        == WithDefaults(old(Subnet(subnet.name, subnet.labels, subnet.spec)))
      ensures subnet.labels.Keys == old(subnet.labels.Keys) + {"master", "vlan", "mode"}
      ensures subnet.labels["master"] == subnet.spec.master && subnet.labels["mode"] == subnet.spec.mode
      ensures subnet.spec.vlan >= 0 ==> IsNumeral(subnet.labels["vlan"], subnet.spec.vlan)
      ensures subnet.spec == old(subnet.spec).(gateway := subnet.spec.gateway)
      ensures updated ==>
        subnet.name in subnets && subnets[subnet.name] == Subnet(subnet.name, subnet.labels, subnet.spec)
    {
      FillDefaults(subnet);
      Interfere();
      updated := *;
      updated := updated && subnet.name in subnets && Listable(subnet.spec.cidr);
      if updated {
        Apply(SubnetWritten(Subnet(subnet.name, subnet.labels, subnet.spec)));
      }
    }
  }
}
