/** controller/purge.go: what a purge removes, whatever the cluster and the workers do between its calls. */
module Purging {
  import opened Types
  import opened Protocol

  /** One round of the loop of purge: what happens before the pod is looked up, what happens between that
      and the deletion, and how the deletion ends. A record that is gone already is deleted without harm. */
  datatype Round = Round(before: seq<Action>, between: seq<Action>, reply: Outcome)

  ghost function AfterRound(s: State, key: Key, r: Round): State {
    var looked := Run(s, r.before);
    if key in looked.cluster.cache then looked
    else
      var now := Run(looked, r.between);
      if r.reply == Rejected then now else Step(now, RecordDeleted(key))
  }

  ghost function PurgeRun(s: State, listed: seq<MacvlanIP>, rounds: seq<Round>): State
    requires |rounds| == |listed|
  {
    if |listed| == 0 then s
    else
      var n := |listed| - 1;
      AfterRound(PurgeRun(s, listed[..n], rounds[..n]), listed[n].key, rounds[n])
  }

  /** The state at the beginning of round i. */
  ghost function RoundStart(s: State, listed: seq<MacvlanIP>, rounds: seq<Round>, i: nat): State
    requires |rounds| == |listed| && i <= |listed|
  {
    PurgeRun(s, listed[..i], rounds[..i])
  }

  /** When round i looks, the informer's cache has no pod of that key. */
  ghost predicate Missing(s: State, listed: seq<MacvlanIP>, rounds: seq<Round>, i: nat, key: Key)
    requires |rounds| == |listed| && i < |listed|
  {
    key !in Run(RoundStart(s, listed, rounds, i), rounds[i].before).cluster.cache
  }

  /** Round i finds the pod of its record missing from the informer's cache. */
  ghost predicate OrphanAt(s: State, listed: seq<MacvlanIP>, rounds: seq<Round>, i: nat)
    requires |rounds| == |listed| && i < |listed|
  {
    Missing(s, listed, rounds, i, listed[i].key)
  }

  ghost predicate CountsAt(s: State, listed: seq<MacvlanIP>, rounds: seq<Round>, i: nat)
    requires |rounds| == |listed| && i < |listed|
  {
    OrphanAt(s, listed, rounds, i) && rounds[i].reply == Done
  }

  /** The rounds before n that purge counts. */
  ghost function Counted(s: State, listed: seq<MacvlanIP>, rounds: seq<Round>, n: nat): set<nat>
    requires |rounds| == |listed| && n <= |listed|
  {
    set i: nat | 0 <= i < n && CountsAt(s, listed, rounds, i)
  }

  lemma CountedNext(s: State, listed: seq<MacvlanIP>, rounds: seq<Round>, n: nat)
    requires |rounds| == |listed| && n < |listed|
    ensures |Counted(s, listed, rounds, n + 1)|
         == |Counted(s, listed, rounds, n)| + (if CountsAt(s, listed, rounds, n) then 1 else 0)
  {
    OneMore(Counted(s, listed, rounds, n), Counted(s, listed, rounds, n + 1), n, CountsAt(s, listed, rounds, n));
  }

  lemma OneMore(a: set<nat>, b: set<nat>, n: nat, more: bool)
    requires n !in a && forall i: nat :: i in b <==> i in a || (more && i == n)
    ensures |b| == |a| + (if more then 1 else 0)
  {
    assert b == if more then a + {n} else a;
  }

  lemma PurgeRunNext(s: State, listed: seq<MacvlanIP>, rounds: seq<Round>, i: nat)
    requires |rounds| == |listed| && i < |listed|
    ensures PurgeRun(s, listed[..i + 1], rounds[..i + 1])
         == AfterRound(PurgeRun(s, listed[..i], rounds[..i]), listed[i].key, rounds[i])
  {
    assert listed[..i + 1][..i] == listed[..i] && rounds[..i + 1][..i] == rounds[..i];
  }

  // ---------- which records disappear ----------

  /** The step neither deletes the record of the key nor creates it. */
  ghost predicate SparesStep(s: State, a: Action, key: Key) {
    a != RecordDeleted(key) && !(CreatesRecord(s, a) && s.workers[a.w].key == key)
  }

  ghost predicate Spares(s: State, acts: seq<Action>, key: Key) {
    forall i | 0 <= i < |acts| :: SparesStep(Run(s, acts[..i]), acts[i], key)
  }

  /** Between its calls nobody else deletes or creates the record of the key. */
  ghost predicate RoundSpares(s: State, r: Round, key: Key) {
    Spares(s, r.before, key) && Spares(Run(s, r.before), r.between, key)
  }

  lemma {:induction false} SparedRecord(s: State, acts: seq<Action>, key: Key)
    requires Spares(s, acts, key)
    ensures key in Run(s, acts).cluster.records <==> key in s.cluster.records
  {
    if |acts| > 0 {
      var front, last := acts[..|acts| - 1], acts[|acts| - 1];
      forall i | 0 <= i < |front|
        ensures SparesStep(Run(s, front[..i]), front[i], key)
      {
        assert front[..i] == acts[..i] && SparesStep(Run(s, acts[..i]), acts[i], key);
      }
      SparedRecord(s, front, key);
      assert SparesStep(Run(s, front), last, key);
      RecordsStep(Run(s, front), last);
    }
  }

  lemma RoundDeletes(s: State, key: Key, r: Round, k: Key)
    requires RoundSpares(s, r, k)
    ensures k in AfterRound(s, key, r).cluster.records
      <==> k in s.cluster.records && !(k == key && key !in Run(s, r.before).cluster.cache && r.reply != Rejected)
  {
    SparedRecord(s, r.before, k);
    SparedRecord(Run(s, r.before), r.between, k);
    EnvironmentStep(Run(Run(s, r.before), r.between), RecordDeleted(key));
  }

  /** In every round nobody else deletes or creates the record of the key. */
  ghost predicate AllSpare(s: State, listed: seq<MacvlanIP>, rounds: seq<Round>, key: Key)
    requires |rounds| == |listed|
  {
    forall i | 0 <= i < |listed| :: RoundSpares(RoundStart(s, listed, rounds, i), rounds[i], key)
  }

  /** Round i finds the pod of the key missing, and its deletion is not refused. */
  ghost predicate PurgesAt(s: State, listed: seq<MacvlanIP>, rounds: seq<Round>, key: Key, i: nat)
    requires |rounds| == |listed| && i < |listed|
  {
    listed[i].key == key && OrphanAt(s, listed, rounds, i) && rounds[i].reply != Rejected
  }

  ghost predicate PurgedBefore(s: State, listed: seq<MacvlanIP>, rounds: seq<Round>, key: Key, n: nat)
    requires |rounds| == |listed| && n <= |listed|
  {
    exists i :: 0 <= i < n && PurgesAt(s, listed, rounds, key, i)
  }

  lemma PurgedNext(s: State, listed: seq<MacvlanIP>, rounds: seq<Round>, key: Key, n: nat)
    requires |rounds| == |listed| && n < |listed|
    ensures PurgedBefore(s, listed, rounds, key, n + 1)
      <==> PurgedBefore(s, listed, rounds, key, n) || PurgesAt(s, listed, rounds, key, n)
  {
  }

  lemma RoundNext(s: State, listed: seq<MacvlanIP>, rounds: seq<Round>, key: Key, n: nat)
    requires |rounds| == |listed| && n < |listed| && AllSpare(s, listed, rounds, key)
    ensures key in RoundStart(s, listed, rounds, n + 1).cluster.records
      <==> key in RoundStart(s, listed, rounds, n).cluster.records && !PurgesAt(s, listed, rounds, key, n)
  {
    PurgeRunNext(s, listed, rounds, n);
    assert RoundSpares(RoundStart(s, listed, rounds, n), rounds[n], key);
    RoundDeletes(RoundStart(s, listed, rounds, n), listed[n].key, rounds[n], key);
  }

  lemma FirstRound(s: State, listed: seq<MacvlanIP>, rounds: seq<Round>, key: Key)
    requires |rounds| == |listed|
    ensures RoundStart(s, listed, rounds, 0) == s && !PurgedBefore(s, listed, rounds, key, 0)
  {
  }

  lemma {:induction false} PurgedUpTo(s: State, listed: seq<MacvlanIP>, rounds: seq<Round>, key: Key, n: nat)
    requires |rounds| == |listed| && n <= |listed| && key in s.cluster.records && AllSpare(s, listed, rounds, key)
    ensures key !in RoundStart(s, listed, rounds, n).cluster.records <==> PurgedBefore(s, listed, rounds, key, n)
  {
    if n == 0 {
      FirstRound(s, listed, rounds, key);
    } else {
      PurgedUpTo(s, listed, rounds, key, n - 1);
      RoundNext(s, listed, rounds, key, n - 1);
      PurgedNext(s, listed, rounds, key, n - 1);
    }
  }

  /** Whatever the cluster and the workers do in between, a record that nobody else deletes or creates disappears
      in a purge exactly if some round finds its pod missing from the informer's cache and the deletion is not
      refused. */
  lemma PurgedExactly(s: State, listed: seq<MacvlanIP>, rounds: seq<Round>, key: Key)
    requires |rounds| == |listed| && key in s.cluster.records && AllSpare(s, listed, rounds, key)
    ensures key !in PurgeRun(s, listed, rounds).cluster.records
      <==> exists i :: 0 <= i < |listed| && PurgesAt(s, listed, rounds, key, i)
  {
    PurgedUpTo(s, listed, rounds, key, |listed|);
    assert listed[..|listed|] == listed && rounds[..|rounds|] == rounds;
  }
}
