/**
 The mark-and-sweep protocol around the sweep: publishers store a candidate and later commit its
 reference, any number of collectors read the clock, mark the live references, list the
 inventory and delete by version, all interleaved freely.
 */
module CandidateProtocol {
  import opened CandidateSweep

  type Key = string

  /** A stored candidate: every store of the key gives it a new version and touch time. */
  datatype Item = Item(version: nat, touchedAt: int)

  /** A publisher's last store. */
  datatype Pending = Pending(key: Key, storedAt: int)

  datatype Entry = Entry(key: Key, item: Item)

  datatype Collecting =
    | Clocked(cutoff: int)
    | EarlyMarked(live: set<Key>)
    | Marked(cutoff: int, live: set<Key>, listed: set<Entry>)

  datatype State = State(
    now: int,
    store: map<Key, Item>,
    nextVersion: nat,
    committed: set<Key>,
    pending: map<nat, Pending>,
    collectors: map<nat, Collecting>)

  datatype Action =
    | Tick(duration: nat)
    | Store(publisher: nat, key: Key)
    | Commit(publisher: nat)
    | Release(key: Key)
    | ReadClock(collector: nat)
    | Mark(collector: nat)
    | MarkBeforeClock(collector: nat)
    | List(collector: nat, key: Key)
    | Delete(collector: nat, entry: Entry)
    | Finish(collector: nat)

  /**
   The three rules the protocol rests on, each of which can be relaxed: publishers commit
   strictly within the grace period, the clock is read before the live references are marked,
   and a delete succeeds only on the current version.
   */
  datatype Rules = Rules(strictDeadline: bool, clockFirst: bool, versionedDelete: bool)

  const STRICT := Rules(true, true, true)

  datatype Outcome = Stuck | Next(state: State)

  function Init(): State {
    State(0, map[], 0, {}, map[], map[])
  }

  predicate MayCommit(rules: Rules, grace: int, now: int, storedAt: int) {
    if rules.strictDeadline then now < storedAt + grace else now <= storedAt + grace
  }

  function Step(rules: Rules, grace: int, s: State, action: Action): Outcome {
    match action
    case Tick(d) => Next(s.(now := s.now + d))
    case Store(publisher, key) =>
      Next(s.(store := s.store[key := Item(s.nextVersion, s.now)],
              nextVersion := s.nextVersion + 1,
              pending := s.pending[publisher := Pending(key, s.now)]))
    case Commit(publisher) =>
      if publisher in s.pending && MayCommit(rules, grace, s.now, s.pending[publisher].storedAt)
      then Next(s.(committed := s.committed + {s.pending[publisher].key}))
      else Stuck
    case Release(key) => Next(s.(committed := s.committed - {key}))
    case ReadClock(collector) =>
      if collector !in s.collectors then Next(s.(collectors := s.collectors[collector := Clocked(s.now - grace)]))
      else if s.collectors[collector].EarlyMarked? then
        Next(s.(collectors := s.collectors[collector := Marked(s.now - grace, s.collectors[collector].live, {})]))
      else Stuck
    case Mark(collector) =>
      if collector in s.collectors && s.collectors[collector].Clocked?
      then Next(s.(collectors := s.collectors[collector := Marked(s.collectors[collector].cutoff, s.committed, {})]))
      else Stuck
    case MarkBeforeClock(collector) =>
      if !rules.clockFirst && collector !in s.collectors
      then Next(s.(collectors := s.collectors[collector := EarlyMarked(s.committed)]))
      else Stuck
    case List(collector, key) =>
      if collector in s.collectors && s.collectors[collector].Marked? && key in s.store
      then
        var c := s.collectors[collector];
        Next(s.(collectors := s.collectors[collector := c.(listed := c.listed + {Entry(key, s.store[key])})]))
      else Stuck
    case Delete(collector, entry) =>
      if collector in s.collectors && s.collectors[collector].Marked? && entry in s.collectors[collector].listed
         && Reclaimable(entry.item.touchedAt, entry.key, s.collectors[collector].cutoff, s.collectors[collector].live)
      then
        if entry.key in s.store && (rules.versionedDelete ==> s.store[entry.key].version == entry.item.version)
        then Next(s.(store := s.store - {entry.key}))
        else Next(s)
      else Stuck
    case Finish(collector) => Next(s.(collectors := s.collectors - {collector}))
  }

  /** The state after a run, or Stuck when some action was not enabled. */
  function Run(rules: Rules, grace: int, actions: seq<Action>): Outcome {
    if actions == [] then Next(Init())
    else
      var before := Run(rules, grace, actions[..|actions| - 1]);
      if before.Stuck? then Stuck else Step(rules, grace, before.state, actions[|actions| - 1])
  }

  /** Every committed reference still has its candidate. */
  predicate Safe(s: State) {
    s.committed <= s.store.Keys
  }

  ghost predicate StoreOk(s: State) {
    forall k | k in s.store :: s.store[k].version < s.nextVersion && s.store[k].touchedAt <= s.now
  }

  /** A candidate whose publisher may still commit is there, touched no earlier than that store. */
  ghost predicate PendingOk(grace: int, s: State) {
    forall p | p in s.pending && s.now < s.pending[p].storedAt + grace ::
      s.pending[p].key in s.store && s.store[s.pending[p].key].touchedAt >= s.pending[p].storedAt
  }

  /** A listed entry whose version is current still has its touch time. */
  ghost predicate EntryOk(s: State, e: Entry) {
    e.item.version < s.nextVersion
    && (e.key in s.store && s.store[e.key].version == e.item.version ==> s.store[e.key] == e.item)
  }

  /** Whatever is committed and old enough for a collector is among the references it marked. */
  ghost predicate CollectorOk(grace: int, s: State, c: Collecting) {
    match c
    case Clocked(cutoff) => cutoff <= s.now - grace
    case EarlyMarked(_) => false
    case Marked(cutoff, live, listed) =>
      && cutoff <= s.now - grace
      && (forall k | k in s.committed && k in s.store && s.store[k].touchedAt <= cutoff :: k in live)
      && (forall e | e in listed :: EntryOk(s, e))
  }

  ghost predicate Invariant(grace: int, s: State) {
    && Safe(s) && StoreOk(s) && PendingOk(grace, s)
    && (forall c | c in s.collectors :: CollectorOk(grace, s, s.collectors[c]))
  }

  lemma StepKeepsInvariant(grace: int, s: State, action: Action)
    requires grace > 0 && Invariant(grace, s) && Step(STRICT, grace, s, action).Next?
    ensures Invariant(grace, Step(STRICT, grace, s, action).state)
  {
    var t := Step(STRICT, grace, s, action).state;
    forall c | c in t.collectors
      ensures CollectorOk(grace, t, t.collectors[c])
    {
      if c in s.collectors {
        assert CollectorOk(grace, s, s.collectors[c]);
      }
    }
  }

  /**
   In every interleaving of publishers and collectors that follows the rules, no candidate that
   committed state refers to is ever deleted.
   */
  lemma {:induction false} NoLiveCandidateDeleted(grace: int, actions: seq<Action>)
    requires grace > 0 && Run(STRICT, grace, actions).Next?
    ensures Safe(Run(STRICT, grace, actions).state)
    ensures Invariant(grace, Run(STRICT, grace, actions).state)
  {
    if actions != [] {
      NoLiveCandidateDeleted(grace, actions[..|actions| - 1]);
      StepKeepsInvariant(grace, Run(STRICT, grace, actions[..|actions| - 1]).state, actions[|actions| - 1]);
    }
  }

  lemma RunSnoc(rules: Rules, grace: int, actions: seq<Action>, action: Action)
    ensures Run(rules, grace, actions + [action]) ==
            if Run(rules, grace, actions).Stuck? then Stuck else Step(rules, grace, Run(rules, grace, actions).state, action)
  {
    assert (actions + [action])[..|actions|] == actions;
  }

  /** Committing exactly at the deadline is already too late. */
  lemma LateCommitUnsafe(rules: Rules)
    requires !rules.strictDeadline
    ensures exists actions :: Run(rules, 10, actions).Next? && !Safe(Run(rules, 10, actions).state)
  {
    var entry := Entry("k", Item(0, 0));
    assert {} + {entry} == {entry};
    var actions := [Store(0, "k"), Tick(10), ReadClock(1), Mark(1), List(1, "k"), Commit(0), Delete(1, entry)];
    var s := State(0, map["k" := Item(0, 0)], 1, {}, map[0 := Pending("k", 0)], map[]);
    assert Step(rules, 10, Init(), actions[0]) == Next(s);
    var s1 := s.(now := 10);
    var s2 := s1.(collectors := map[1 := Clocked(0)]);
    var s3 := s1.(collectors := map[1 := Marked(0, {}, {})]);
    var s4 := s1.(collectors := map[1 := Marked(0, {}, {entry})]);
    var s5 := s4.(committed := {"k"});
    var s6 := s5.(store := map[]);
    assert Step(rules, 10, s, actions[1]) == Next(s1);
    assert Step(rules, 10, s1, actions[2]) == Next(s2);
    assert Step(rules, 10, s2, actions[3]) == Next(s3);
    assert Step(rules, 10, s3, actions[4]) == Next(s4);
    assert Step(rules, 10, s4, actions[5]) == Next(s5);
    assert Step(rules, 10, s5, actions[6]) == Next(s6);
    SevenSteps(rules, 10, actions, [s, s1, s2, s3, s4, s5, s6]);
    assert "k" in s6.committed;
  }

  /** A live snapshot taken before the clock is read misses a commit in between. */
  lemma MarkBeforeClockUnsafe(rules: Rules)
    requires !rules.clockFirst
    ensures exists actions :: Run(rules, 10, actions).Next? && !Safe(Run(rules, 10, actions).state)
  {
    var entry := Entry("k", Item(0, 0));
    assert {} + {entry} == {entry};
    var actions := [Store(0, "k"), MarkBeforeClock(1), Commit(0), Tick(10), ReadClock(1), List(1, "k"), Delete(1, entry)];
    var s := State(0, map["k" := Item(0, 0)], 1, {}, map[0 := Pending("k", 0)], map[]);
    assert Step(rules, 10, Init(), actions[0]) == Next(s);
    var s1 := s.(collectors := map[1 := EarlyMarked({})]);
    var s2 := s1.(committed := {"k"});
    var s3 := s2.(now := 10);
    var s4 := s3.(collectors := map[1 := Marked(0, {}, {})]);
    var s5 := s3.(collectors := map[1 := Marked(0, {}, {entry})]);
    var s6 := s5.(store := map[]);
    assert Step(rules, 10, s, actions[1]) == Next(s1);
    assert Step(rules, 10, s1, actions[2]) == Next(s2);
    assert Step(rules, 10, s2, actions[3]) == Next(s3);
    assert Step(rules, 10, s3, actions[4]) == Next(s4);
    assert Step(rules, 10, s4, actions[5]) == Next(s5);
    assert Step(rules, 10, s5, actions[6]) == Next(s6);
    SevenSteps(rules, 10, actions, [s, s1, s2, s3, s4, s5, s6]);
    assert "k" in s6.committed;
  }

  /** A delete that ignores the version removes a candidate stored again after it was listed. */
  lemma UnversionedDeleteUnsafe(rules: Rules)
    requires !rules.versionedDelete
    ensures exists actions :: Run(rules, 10, actions).Next? && !Safe(Run(rules, 10, actions).state)
  {
    var entry := Entry("k", Item(0, 0));
    assert {} + {entry} == {entry};
    var actions := [Store(0, "k"), Tick(10), ReadClock(1), Mark(1), List(1, "k"), Store(0, "k"), Commit(0)];
    var s := State(0, map["k" := Item(0, 0)], 1, {}, map[0 := Pending("k", 0)], map[]);
    assert Step(rules, 10, Init(), actions[0]) == Next(s);
    var s1 := s.(now := 10);
    var s2 := s1.(collectors := map[1 := Clocked(0)]);
    var s3 := s1.(collectors := map[1 := Marked(0, {}, {})]);
    var s4 := s1.(collectors := map[1 := Marked(0, {}, {entry})]);
    var s5 := s4.(store := map["k" := Item(1, 10)], nextVersion := 2, pending := map[0 := Pending("k", 10)]);
    var s6 := s5.(committed := {"k"});
    assert Step(rules, 10, s, actions[1]) == Next(s1);
    assert Step(rules, 10, s1, actions[2]) == Next(s2);
    assert Step(rules, 10, s2, actions[3]) == Next(s3);
    assert Step(rules, 10, s3, actions[4]) == Next(s4);
    assert Step(rules, 10, s4, actions[5]) == Next(s5);
    assert Step(rules, 10, s5, actions[6]) == Next(s6);
    SevenSteps(rules, 10, actions, [s, s1, s2, s3, s4, s5, s6]);
    RunSnoc(rules, 10, actions, Delete(1, entry));
    var s7 := s6.(store := map[]);
    assert Step(rules, 10, s6, Delete(1, entry)) == Next(s7);
    assert "k" in s7.committed;
  }

  lemma SevenSteps(rules: Rules, grace: int, actions: seq<Action>, states: seq<State>)
    requires |actions| == |states| == 7
    requires Step(rules, grace, Init(), actions[0]) == Next(states[0])
    requires forall i | 1 <= i < 7 :: Step(rules, grace, states[i - 1], actions[i]) == Next(states[i])
    ensures Run(rules, grace, actions) == Next(states[6])
  {
    hide Step;
    for i := 1 to 8
      invariant Run(rules, grace, actions[..i]) == Next(states[i - 1])
    {
      if i == 7 {
        break;
      }
      assert actions[..i + 1] == actions[..i] + [actions[i]];
      RunSnoc(rules, grace, actions[..i], actions[i]);
    }
    assert actions[..7] == actions;
  }

  /** The protocol is safe in every run exactly when it keeps all three rules. */
  lemma SafeExactlyWhenStrict(rules: Rules)
    ensures rules == STRICT <==>
            forall grace, actions | grace > 0 && Run(rules, grace, actions).Next? :: Safe(Run(rules, grace, actions).state)
  {
    if rules == STRICT {
      forall grace, actions | grace > 0 && Run(rules, grace, actions).Next?
        ensures Safe(Run(rules, grace, actions).state)
      {
        NoLiveCandidateDeleted(grace, actions);
      }
    } else if !rules.strictDeadline {
      LateCommitUnsafe(rules);
    } else if !rules.clockFirst {
      MarkBeforeClockUnsafe(rules);
    } else {
      UnversionedDeleteUnsafe(rules);
    }
  }

  /** Safety is not bought by never deleting: in any run, what is old and uncommitted can be reclaimed. */
  lemma GarbageIsReclaimed(rules: Rules, grace: int, before: seq<Action>, collector: nat, key: Key)
    requires Run(rules, grace, before).Next?
    requires var s := Run(rules, grace, before).state;
             && collector !in s.collectors && key in s.store && key !in s.committed
             && s.store[key].touchedAt <= s.now - grace
    ensures var s := Run(rules, grace, before).state;
            var after := [ReadClock(collector), Mark(collector), List(collector, key), Delete(collector, Entry(key, s.store[key]))];
            var end := Run(rules, grace, before + after);
            end.Next? && end.state.store == s.store - {key} && end.state.committed == s.committed
  {
    var s := Run(rules, grace, before).state;
    var entry := Entry(key, s.store[key]);
    assert {} + {entry} == {entry};
    var after := [ReadClock(collector), Mark(collector), List(collector, key), Delete(collector, entry)];
    var cutoff := s.now - grace;
    var s1 := s.(collectors := s.collectors[collector := Clocked(cutoff)]);
    var s2 := s1.(collectors := s1.collectors[collector := Marked(cutoff, s.committed, {})]);
    var s3 := s2.(collectors := s2.collectors[collector := Marked(cutoff, s.committed, {entry})]);
    var s4 := s3.(store := s.store - {key});
    assert Step(rules, grace, s, after[0]) == Next(s1);
    assert Step(rules, grace, s1, after[1]) == Next(s2);
    assert Step(rules, grace, s2, after[2]) == Next(s3);
    assert Step(rules, grace, s3, after[3]) == Next(s4);
    RunSnoc(rules, grace, before, after[0]);
    RunSnoc(rules, grace, before + [after[0]], after[1]);
    RunSnoc(rules, grace, before + [after[0]] + [after[1]], after[2]);
    RunSnoc(rules, grace, before + [after[0]] + [after[1]] + [after[2]], after[3]);
    assert before + after == before + [after[0]] + [after[1]] + [after[2]] + [after[3]];
  }
}
