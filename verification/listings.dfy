/**
 * The listing reconciliation of listings_check.py: compare a baseline snapshot
 * with a current one, stamp the "last updated" sentinel of the event log with
 * the run's time, and append one "listed" record per new (exchange, symbol)
 * pair and one "delisted" record per vanished pair, each group sorted.
 *
 * The log is local to the run (loaded, changed, saved), so it is modelled as
 * the value handed in and the value handed back. The clock reading `now` is a
 * parameter.
 */
module Listings {
  import opened Wrappers
  import opened Ordering

  /** A listing snapshot as stored in JSON: exchange name to its symbols. */
  type Snapshot = map<string, seq<string>>

  /** One record of the event log; `date` is JSON null in the sentinel template. */
  datatype Entry = Entry(date: Option<int>, symbol: string, name: string, action: string)

  const LastUpdated: string := "last updated"
  const Listed: string := "listed"
  const Delisted: string := "delisted"

  /** DUMMY_ENTRY, the template of the sentinel record. */
  const DummyEntry: Entry := Entry(None, "NA", "NA", LastUpdated)

  /** The set of (exchange, symbol) pairs a snapshot lists. */
  function Flatten(snap: Snapshot): (r: set<Pair>)
    ensures forall p :: p in r <==> p.0 in snap && p.1 in snap[p.0]
  {
    set ex, sym | ex in snap && sym in snap[ex] :: (ex, sym)
  }

  /** The pairs listed now but not in the baseline. */
  function Added(baseline: Snapshot, current: Snapshot): (r: set<Pair>)
    ensures forall p :: p in r <==>
      (p.0 in current && p.1 in current[p.0]) && !(p.0 in baseline && p.1 in baseline[p.0])
  {
    Flatten(current) - Flatten(baseline)
  }

  /** The pairs in the baseline that are no longer listed. */
  function Removed(baseline: Snapshot, current: Snapshot): (r: set<Pair>)
    ensures forall p :: p in r <==>
      (p.0 in baseline && p.1 in baseline[p.0]) && !(p.0 in current && p.1 in current[p.0])
  {
    Flatten(baseline) - Flatten(current)
  }

  /** The (exchange, symbol) pair a transition record is about. */
  function PairOf(e: Entry): Pair {
    (e.name, e.symbol)
  }

  /** The index of the first entry whose action is "last updated", if any. */
  function FirstSentinel(log: seq<Entry>): (r: Option<nat>)
    ensures r.None? <==> forall j :: 0 <= j < |log| ==> log[j].action != LastUpdated
    ensures r.Some? ==> r.value < |log| && log[r.value].action == LastUpdated
    ensures r.Some? ==> forall j :: 0 <= j < r.value ==> log[j].action != LastUpdated
  {
    if log == [] then None
    else if log[0].action == LastUpdated then Some(0)
    else match FirstSentinel(log[1..])
      case None => None
      case Some(i) => Some(i + 1)
  }

  /** The log after the "update or add dummy" step. */
  function Touched(log: seq<Entry>, now: int): (r: seq<Entry>)
    ensures FirstSentinel(log).Some? ==> |r| == |log|
    ensures FirstSentinel(log).None? ==> |r| == |log| + 1 && r[0] == Entry(Some(now), "NA", "NA", LastUpdated)
  {
    match FirstSentinel(log)
    case Some(i) => log[i := log[i].(date := Some(now))]
    case None => [DummyEntry.(date := Some(now))] + log
  }

  /** The record appended for one pair. */
  function TransitionRecord(p: Pair, action: string, now: int): Entry {
    Entry(Some(now), p.1, p.0, action)
  }

  /** The records appended for a sequence of pairs, in that order. */
  function Transitions(pairs: seq<Pair>, action: string, now: int): (r: seq<Entry>)
    ensures |r| == |pairs|
    ensures forall k :: 0 <= k < |r| ==> r[k].action == action && r[k].date == Some(now) && PairOf(r[k]) == pairs[k]
  {
    seq(|pairs|, k requires 0 <= k < |pairs| => TransitionRecord(pairs[k], action, now))
  }

  lemma TransitionsSnoc(log: seq<Entry>, pairs: seq<Pair>, p: Pair, action: string, now: int)
    ensures log + Transitions(pairs + [p], action, now)
         == (log + Transitions(pairs, action, now)) + [TransitionRecord(p, action, now)]
  {
    assert Transitions(pairs + [p], action, now) == Transitions(pairs, action, now) + [TransitionRecord(p, action, now)];
  }

  lemma SortStep(pairs: set<Pair>, done: seq<Pair>, remaining: set<Pair>, p: Pair)
    requires SortedPairs(pairs) == done + SortedPairs(remaining)
    requires IsLeast(p, remaining)
    ensures SortedPairs(pairs) == (done + [p]) + SortedPairs(remaining - {p})
  {
    SortedPairsUnfold(remaining, p);
  }

  /**
   * The log a run saves, given the set of pairs that appeared (`added`) and the
   * set that disappeared (`removed`).
   */
  ghost function RunLog(log: seq<Entry>, added: set<Pair>, removed: set<Pair>, now: int): (r: seq<Entry>)
    ensures |r| == |Touched(log, now)| + |added| + |removed|
  {
    Touched(log, now)
      + Transitions(SortedPairs(added), Listed, now)
      + Transitions(SortedPairs(removed), Delisted, now)
  }

  /** The scan with the `found` flag: stamp the first sentinel, or insert a fresh one at the front. */
  method TouchSentinel(log: seq<Entry>, now: int) returns (out: seq<Entry>)
    ensures out == Touched(log, now)
  {
    out := log;
    var found := false;
    var i := 0;
    while i < |out|
      invariant 0 <= i <= |out|
      invariant out == log
      invariant forall j :: 0 <= j < i ==> log[j].action != LastUpdated
    {
      if out[i].action == LastUpdated {
        out := out[i := out[i].(date := Some(now))];
        found := true;
        break;
      }
      i := i + 1;
    }
    if !found {
      var dummy := DummyEntry.(date := Some(now));
      out := [dummy] + out;
    }
  }

  /** `for ex, sym in sorted(pairs): log.append(...)`, taking the least remaining pair each time. */
  method AppendTransitions(log: seq<Entry>, pairs: set<Pair>, action: string, now: int) returns (out: seq<Entry>)
    ensures out == log + Transitions(SortedPairs(pairs), action, now)
  {
    out := log;
    var remaining := pairs;
    ghost var done: seq<Pair> := [];
    while remaining != {}
      invariant SortedPairs(pairs) == done + SortedPairs(remaining)
      invariant out == log + Transitions(done, action, now)
      decreases |remaining|
    {
      LeastExists(remaining);
      var p :| IsLeast(p, remaining);
      SortStep(pairs, done, remaining, p);
      TransitionsSnoc(log, done, p, action, now);
      out := out + [TransitionRecord(p, action, now)];
      done := done + [p];
      remaining := remaining - {p};
    }
  }

  /** The body of `main()` between loading and saving. */
  method Reconcile(baseline: Snapshot, current: Snapshot, log: seq<Entry>, now: int) returns (out: seq<Entry>)
    ensures out == RunLog(log, Added(baseline, current), Removed(baseline, current), now)
  {
    out := TouchSentinel(log, now);
    var baselineSet := Flatten(baseline);
    var currentSet := Flatten(current);
    out := AppendTransitions(out, currentSet - baselineSet, Listed, now);
    out := AppendTransitions(out, baselineSet - currentSet, Delisted, now);
  }

  // ---- Properties of a run ----

  /** A log that already has a sentinel keeps its length; only the first sentinel's date changes. */
  lemma SentinelUpdatedInPlace(log: seq<Entry>, now: int, i: nat)
    requires i < |log| && log[i].action == LastUpdated
    requires forall j :: 0 <= j < i ==> log[j].action != LastUpdated
    ensures |Touched(log, now)| == |log|
    ensures Touched(log, now)[i] == log[i].(date := Some(now))
    ensures forall j :: 0 <= j < |log| && j != i ==> Touched(log, now)[j] == log[j]
  {
    assert FirstSentinel(log) == Some(i);
  }

  /** A log without a sentinel gets a stamped copy of DUMMY_ENTRY in front of all its entries. */
  lemma SentinelInsertedAtFront(log: seq<Entry>, now: int)
    requires forall j :: 0 <= j < |log| ==> log[j].action != LastUpdated
    ensures Touched(log, now) == [Entry(Some(now), "NA", "NA", LastUpdated)] + log
  {
  }

  lemma {:induction false} FirstSentinelAppend(a: seq<Entry>, b: seq<Entry>)
    requires FirstSentinel(a).Some?
    ensures FirstSentinel(a + b) == FirstSentinel(a)
  {
    if a[0].action != LastUpdated {
      assert (a + b)[1..] == a[1..] + b;
      FirstSentinelAppend(a[1..], b);
    }
  }

  /** The shape of a saved log: the updated old log, then the "listed" records, then the "delisted" ones. */
  lemma {:induction false} RunLayout(t: seq<Entry>, xs: seq<Pair>, ys: seq<Pair>, now: int)
    ensures var out := t + Transitions(xs, Listed, now) + Transitions(ys, Delisted, now);
      && |out| == |t| + |xs| + |ys|
      && out[..|t|] == t
      && (forall k :: |t| <= k < |t| + |xs| ==> out[k] == TransitionRecord(xs[k - |t|], Listed, now))
      && (forall k :: |t| + |xs| <= k < |out| ==> out[k] == TransitionRecord(ys[k - |t| - |xs|], Delisted, now))
  {
  }

  lemma RunKeepsFirstSentinel(t: seq<Entry>, xs: seq<Pair>, ys: seq<Pair>, now: int)
    requires FirstSentinel(t).Some?
    ensures FirstSentinel(t + Transitions(xs, Listed, now) + Transitions(ys, Delisted, now)) == FirstSentinel(t)
  {
    var rest := Transitions(xs, Listed, now) + Transitions(ys, Delisted, now);
    FirstSentinelAppend(t, rest);
    assert t + Transitions(xs, Listed, now) + Transitions(ys, Delisted, now) == t + rest;
  }

  /** The index of the sentinel a run stamps: the first existing one, or the inserted one at 0. */
  function StampedIndex(log: seq<Entry>): nat {
    match FirstSentinel(log)
    case Some(i) => i
    case None => 0
  }

  lemma TouchedStampsSentinel(log: seq<Entry>, now: int)
    ensures FirstSentinel(Touched(log, now)) == Some(StampedIndex(log))
    ensures StampedIndex(log) < |Touched(log, now)|
    ensures Touched(log, now)[StampedIndex(log)].date == Some(now)
  {
    if FirstSentinel(log).None? {
      assert Touched(log, now)[0].action == LastUpdated;
    }
  }

  /**
   * After a run the first "last updated" record sits where the first old one was
   * (or at the front when there was none) and carries the run's time.
   */
  lemma SentinelStamped(log: seq<Entry>, added: set<Pair>, removed: set<Pair>, now: int)
    ensures var out := RunLog(log, added, removed, now);
      FirstSentinel(out) == Some(StampedIndex(log)) && out[StampedIndex(log)].date == Some(now)
  {
    var t := Touched(log, now);
    var xs := SortedPairs(added);
    var ys := SortedPairs(removed);
    TouchedStampsSentinel(log, now);
    RunKeepsFirstSentinel(t, xs, ys, now);
    RunLayout(t, xs, ys, now);
  }

  /**
   * A log with at most one "last updated" record leaves the run with exactly
   * one: the stamped sentinel is the only record with that action.
   */
  lemma SoleSentinel(log: seq<Entry>, added: set<Pair>, removed: set<Pair>, now: int)
    requires forall i, j :: 0 <= i < j < |log| ==> !(log[i].action == LastUpdated && log[j].action == LastUpdated)
    ensures var out := RunLog(log, added, removed, now);
      forall k :: 0 <= k < |out| && out[k].action == LastUpdated ==> k == StampedIndex(log)
  {
    var t := Touched(log, now);
    var xs := SortedPairs(added);
    var ys := SortedPairs(removed);
    var out := RunLog(log, added, removed, now);
    assert out == t + Transitions(xs, Listed, now) + Transitions(ys, Delisted, now);
    RunLayout(t, xs, ys, now);
    TouchedStampsSentinel(log, now);
    forall k | 0 <= k < |out| && k != StampedIndex(log)
      ensures out[k].action != LastUpdated
    {
      if k >= |t| + |xs| {
        assert out[k] == TransitionRecord(ys[k - |t| - |xs|], Delisted, now);
      } else if k >= |t| {
        assert out[k] == TransitionRecord(xs[k - |t|], Listed, now);
      } else {
        assert out[k] == t[k];
        match FirstSentinel(log)
        case Some(i) =>
          assert t[k] == log[k];
          if i < k {
            assert !(log[i].action == LastUpdated && log[k].action == LastUpdated);
          }
        case None =>
          assert t[k] == log[k - 1];
      }
    }
  }

  /** What the update step keeps: every old entry in order, with only the first sentinel's date changed. */
  lemma TouchedPreserves(log: seq<Entry>, now: int)
    ensures var t := Touched(log, now);
      var shift := |t| - |log|;
      && (shift == 0 || shift == 1)
      && (forall j :: 0 <= j < |log| ==> t[shift + j].(date := log[j].date) == log[j])
      && (forall j :: 0 <= j < |log| && t[shift + j] != log[j] ==> FirstSentinel(log) == Some(j))
  {
    var t := Touched(log, now);
    match FirstSentinel(log)
    case Some(i) =>
      assert t == log[i := log[i].(date := Some(now))];
    case None =>
      assert t == [DummyEntry.(date := Some(now))] + log;
      assert forall j :: 0 <= j < |log| ==> t[1 + j] == log[j];
  }

  /** A run's log starts with the updated old log. */
  lemma RunLogPrefix(log: seq<Entry>, added: set<Pair>, removed: set<Pair>, now: int)
    ensures |Touched(log, now)| <= |RunLog(log, added, removed, now)|
    ensures RunLog(log, added, removed, now)[..|Touched(log, now)|] == Touched(log, now)
  {
    var t := Touched(log, now);
    var xs := Transitions(SortedPairs(added), Listed, now);
    var ys := Transitions(SortedPairs(removed), Delisted, now);
    assert RunLog(log, added, removed, now) == t + (xs + ys);
  }

  /** A log that starts with `t` keeps what `t` kept of `log`. */
  lemma ExtendKeeps(log: seq<Entry>, t: seq<Entry>, out: seq<Entry>, shift: nat)
    requires |t| == |log| + shift && |t| <= |out| && out[..|t|] == t
    requires forall j :: 0 <= j < |log| ==> t[shift + j].(date := log[j].date) == log[j]
    requires forall j :: 0 <= j < |log| && t[shift + j] != log[j] ==> FirstSentinel(log) == Some(j)
    ensures forall j :: 0 <= j < |log| ==> out[shift + j].(date := log[j].date) == log[j]
    ensures forall j :: 0 <= j < |log| && out[shift + j] != log[j] ==> FirstSentinel(log) == Some(j)
  {
    assert forall k :: 0 <= k < |t| ==> out[k] == t[k];
  }

  /**
   * Every entry of the old log survives in order, shifted by one when a sentinel
   * was inserted; the only change is the date of the first sentinel. The log only grows.
   */
  lemma OldEntriesPreserved(log: seq<Entry>, added: set<Pair>, removed: set<Pair>, now: int)
    ensures var out := RunLog(log, added, removed, now);
      var shift := |Touched(log, now)| - |log|;
      && (shift == 0 || shift == 1)
      && |out| >= |log| + shift
      && (forall j :: 0 <= j < |log| ==> out[shift + j].(date := log[j].date) == log[j])
      && (forall j :: 0 <= j < |log| && out[shift + j] != log[j] ==> FirstSentinel(log) == Some(j))
  {
    var t := Touched(log, now);
    RunLogPrefix(log, added, removed, now);
    TouchedPreserves(log, now);
    ExtendKeeps(log, t, RunLog(log, added, removed, now), |t| - |log|);
  }

  /** A strictly ascending run of records, read as pairs, covers exactly the set it was sorted from. */
  lemma RecordsOfSorted(out: seq<Entry>, n: nat, s: set<Pair>, sorted: seq<Pair>, action: string, now: int)
    requires |sorted| == |s| && StrictlyAscending(sorted) && forall p :: p in sorted <==> p in s
    requires n + |sorted| <= |out|
    requires out[n..n + |sorted|] == Transitions(sorted, action, now)
    ensures forall k :: n <= k < n + |s| ==> out[k].action == action && out[k].date == Some(now) && PairOf(out[k]) in s
    ensures forall p :: p in s ==> exists k :: n <= k < n + |s| && PairOf(out[k]) == p
    ensures forall k, l :: n <= k < l < n + |s| ==> PairLess(PairOf(out[k]), PairOf(out[l]))
  {
    forall k | n <= k < n + |s|
      ensures out[k].action == action && out[k].date == Some(now) && PairOf(out[k]) == sorted[k - n]
    {
      assert out[k] == out[n..n + |sorted|][k - n];
    }
    forall p | p in s
      ensures exists k :: n <= k < n + |s| && PairOf(out[k]) == p
    {
      var i :| 0 <= i < |sorted| && sorted[i] == p;
      assert PairOf(out[n + i]) == p;
    }
    forall k, l | n <= k < l < n + |s|
      ensures PairLess(PairOf(out[k]), PairOf(out[l]))
    {
      assert PairOf(out[k]) == sorted[k - n] && PairOf(out[l]) == sorted[l - n];
    }
  }

  /** The records a sorted set appends at the end of a log. */
  lemma TailRecords(prefix: seq<Entry>, s: set<Pair>, sorted: seq<Pair>, action: string, now: int)
    requires |sorted| == |s| && StrictlyAscending(sorted) && forall p :: p in sorted <==> p in s
    ensures var out := prefix + Transitions(sorted, action, now);
      var n := |prefix|;
      && |out| == n + |s|
      && (forall k :: n <= k < n + |s| ==> out[k].action == action && out[k].date == Some(now) && PairOf(out[k]) in s)
      && (forall p :: p in s ==> exists k :: n <= k < n + |s| && PairOf(out[k]) == p)
      && (forall k, l :: n <= k < l < n + |s| ==> PairLess(PairOf(out[k]), PairOf(out[l])))
  {
    var out := prefix + Transitions(sorted, action, now);
    assert out[|prefix|..|prefix| + |sorted|] == Transitions(sorted, action, now);
    RecordsOfSorted(out, |prefix|, s, sorted, action, now);
  }

  /**
   * Right after the updated old log come exactly the added pairs, one "listed"
   * record each, dated `now`, in strictly ascending order.
   */
  lemma ListedRecords(log: seq<Entry>, added: set<Pair>, removed: set<Pair>, now: int)
    ensures var out := RunLog(log, added, removed, now);
      var n := |Touched(log, now)|;
      && |out| == n + |added| + |removed|
      && out[..n] == Touched(log, now)
      && (forall k :: n <= k < n + |added| ==>
            out[k].action == Listed && out[k].date == Some(now) && PairOf(out[k]) in added)
      && (forall p :: p in added ==> exists k :: n <= k < n + |added| && PairOf(out[k]) == p)
      && (forall k, l :: n <= k < l < n + |added| ==> PairLess(PairOf(out[k]), PairOf(out[l])))
  {
    var t := Touched(log, now);
    var xs := SortedPairs(added);
    var ys := SortedPairs(removed);
    var out := RunLog(log, added, removed, now);
    assert out == t + Transitions(xs, Listed, now) + Transitions(ys, Delisted, now);
    RunLayout(t, xs, ys, now);
    assert out[|t|..|t| + |xs|] == Transitions(xs, Listed, now);
    RecordsOfSorted(out, |t|, added, xs, Listed, now);
  }

  /**
   * After the "listed" records come exactly the removed pairs, one "delisted"
   * record each, dated `now`, in strictly ascending order, up to the end of the log.
   */
  lemma DelistedRecords(log: seq<Entry>, added: set<Pair>, removed: set<Pair>, now: int)
    ensures var out := RunLog(log, added, removed, now);
      var n := |Touched(log, now)| + |added|;
      && |out| == n + |removed|
      && (forall k :: n <= k < n + |removed| ==>
            out[k].action == Delisted && out[k].date == Some(now) && PairOf(out[k]) in removed)
      && (forall p :: p in removed ==> exists k :: n <= k < n + |removed| && PairOf(out[k]) == p)
      && (forall k, l :: n <= k < l < n + |removed| ==> PairLess(PairOf(out[k]), PairOf(out[l])))
  {
    var t := Touched(log, now);
    var xs := SortedPairs(added);
    var ys := SortedPairs(removed);
    var out := RunLog(log, added, removed, now);
    var prefix := t + Transitions(xs, Listed, now);
    assert out == prefix + Transitions(ys, Delisted, now);
    TailRecords(prefix, removed, ys, Delisted, now);
  }

  /** When both snapshots list the same pairs, the run only stamps the sentinel. */
  lemma SameListingsOnlyStamp(baseline: Snapshot, current: Snapshot, log: seq<Entry>, now: int)
    requires Flatten(baseline) == Flatten(current)
    ensures RunLog(log, Added(baseline, current), Removed(baseline, current), now) == Touched(log, now)
  {
    assert Added(baseline, current) == {} && Removed(baseline, current) == {};
  }

  /**
   * There is no suppression against earlier events: a second run over the same
   * differences appends every transition record again.
   */
  lemma RerunAppendsAgain(log: seq<Entry>, added: set<Pair>, removed: set<Pair>, now: int, later: int)
    ensures var once := RunLog(log, added, removed, now);
      var twice := RunLog(once, added, removed, later);
      |twice| == |once| + |added| + |removed|
  {
    var once := RunLog(log, added, removed, now);
    SentinelStamped(log, added, removed, now);
    RunLayout(Touched(once, later), SortedPairs(added), SortedPairs(removed), later);
  }

  /** Sorting a two-element set whose elements are in order. */
  lemma SortedPairOfTwo(p: Pair, q: Pair)
    requires PairLess(p, q)
    ensures SortedPairs({p, q}) == [p, q]
  {
    PairLessIrreflexive(p);
    assert StrictlyAscending([p, q]);
    AscendingUnique(SortedPairs({p, q}), [p, q]);
  }

  lemma SortedPairOfOne(p: Pair)
    ensures SortedPairs({p}) == [p]
  {
    AscendingUnique(SortedPairs({p}), [p]);
  }

  /** Baseline {A: [X]} and current {A: [X, Y], B: [Z]}: (A, Y) and (B, Z) are new, nothing is gone. */
  lemma NewListingsDiff()
    ensures Added(map["A" := ["X"]], map["A" := ["X", "Y"], "B" := ["Z"]]) == {("A", "Y"), ("B", "Z")}
    ensures Removed(map["A" := ["X"]], map["A" := ["X", "Y"], "B" := ["Z"]]) == {}
  {
    var baseline := map["A" := ["X"]];
    var current := map["A" := ["X", "Y"], "B" := ["Z"]];
    assert Flatten(baseline) == {("A", "X")};
    assert ("A", "X") in Flatten(current) && ("A", "Y") in Flatten(current) && ("B", "Z") in Flatten(current);
    assert Flatten(current) == {("A", "X"), ("A", "Y"), ("B", "Z")};
  }

  /** The saved log for that example: two "listed" records, (A, Y) then (B, Z). */
  lemma NewListingsExample(log: seq<Entry>, now: int)
    ensures RunLog(log, {("A", "Y"), ("B", "Z")}, {}, now)
         == Touched(log, now) + [Entry(Some(now), "Y", "A", Listed), Entry(Some(now), "Z", "B", Listed)]
  {
    assert StrLess("A", "B");
    SortedPairOfTwo(("A", "Y"), ("B", "Z"));
  }

  /** Baseline {A: [X, Y]} and current {A: [X]}: only (A, Y) is gone. */
  lemma DelistingDiff()
    ensures Added(map["A" := ["X", "Y"]], map["A" := ["X"]]) == {}
    ensures Removed(map["A" := ["X", "Y"]], map["A" := ["X"]]) == {("A", "Y")}
  {
    var baseline := map["A" := ["X", "Y"]];
    var current := map["A" := ["X"]];
    assert ("A", "X") in Flatten(baseline) && ("A", "Y") in Flatten(baseline);
    assert Flatten(baseline) == {("A", "X"), ("A", "Y")};
    assert Flatten(current) == {("A", "X")};
  }

  /** The saved log for that example: one "delisted" record, (A, Y). */
  lemma DelistingExample(log: seq<Entry>, now: int)
    ensures RunLog(log, {}, {("A", "Y")}, now) == Touched(log, now) + [Entry(Some(now), "Y", "A", Delisted)]
  {
    SortedPairOfOne(("A", "Y"));
  }
}
