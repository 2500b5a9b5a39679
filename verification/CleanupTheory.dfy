/** What the plans promise: which torrents go, in what order, and that repeating a plan on what it
    left removes nothing more. */
module CleanupTheory {
  import Lex
  import opened Optional
  import opened Candidates
  import opened RatioGate
  import opened RatioHistory
  import opened Cleanup
  import WatchDirectory

  // ---------------------------------------------------------------------------
  // The order and the extent of the disk-pressure removals
  // ---------------------------------------------------------------------------

  lemma LessSingle(a: int, b: int)
    ensures Lex.Less([a], [b]) <==> a < b
  {
    assert [a][1..] == [] && [b][1..] == [];
  }

  lemma KeysAreRatios(ts: seq<Torrent>)
    ensures forall k :: 0 <= k < |SortDescending(Keyed(ts))| ==>
              SortDescending(Keyed(ts))[k].rank == [-SortDescending(Keyed(ts))[k].torrent.ratio]
  {
    hide SortDescending;
    var sorted := SortDescending(Keyed(ts));
    SortLength(Keyed(ts));
    forall k | 0 <= k < |sorted|
      ensures sorted[k].rank == [-sorted[k].torrent.ratio]
    {
      assert sorted[k] in multiset(sorted);
      assert sorted[k] in Keyed(ts);
    }
  }

  /** The valve's order: a permutation of the candidates with ascending ratios. */
  lemma LowestRatioFirst(ts: seq<Torrent>, a: nat, b: nat)
    requires a <= b < |ts|
    ensures |ByRatio(ts)| == |ts| && multiset(ByRatio(ts)) == multiset(ts)
    ensures ByRatio(ts)[a].ratio <= ByRatio(ts)[b].ratio
  {
    ByRatioIsDrawn(ts);
    SortIsStable(Keyed(ts), []);
    KeysAreRatios(ts);
    var sorted := SortDescending(Keyed(ts));
    assert |sorted| == |ts|;
    LessSingle(-sorted[a].torrent.ratio, -sorted[b].torrent.ratio);
  }

  /** Equal ratios keep the candidates' order. */
  lemma {:induction false} EqualRatiosKeepTheirOrder(ts: seq<Torrent>, ratio: int)
    ensures WithRank(SortDescending(Keyed(ts)), [-ratio]) == WithRank(Keyed(ts), [-ratio])
    ensures Torrents(SortDescending(Keyed(ts))) == ByRatio(ts)
  {
    SortIsStable(Keyed(ts), [-ratio]);
  }

  /** What the valve removes: nothing unless it is on and the first reading is at or above the
      threshold; then the shortest lowest-ratio-first prefix of the candidates after which a reading is
      below it, or all of them. Each removal follows a reading at or above the threshold, and no
      torrent removed has a higher ratio than a candidate kept. */
  lemma {:induction false} PressureRemovesTheShortestPrefix(ts: seq<Torrent>, first: Disk, disk: nat -> Disk,
                                                            threshold: real)
    ensures var plan, order := PlanPressure(ts, first, disk, threshold), ByRatio(OldVersionCandidates(ts));
            && plan <= order
            && (plan != [] ==> threshold > 0.0 && !Below(first, threshold))
            && (forall k :: 0 <= k < |plan| ==> !Below(disk(k), threshold))
            && (threshold > 0.0 && !Below(first, threshold) && |plan| < |order| ==> Below(disk(|plan|), threshold))
            && (forall a, b :: 0 <= a < |plan| <= b < |order| ==> plan[a].ratio <= order[b].ratio)
            && multiset(order) == multiset(OldVersionCandidates(ts))
  {
    hide OldVersionCandidates, ByRatio, Below;
    var candidates := OldVersionCandidates(ts);
    var plan, order := PlanPressure(ts, first, disk, threshold), ByRatio(candidates);
    ByRatioIsDrawn(candidates);
    forall a, b | 0 <= a < |plan| <= b < |order|
      ensures plan[a].ratio <= order[b].ratio
    {
      LowestRatioFirst(candidates, a, b);
      assert plan[a] == order[a];
    }
  }

  // ---------------------------------------------------------------------------
  // The records
  // ---------------------------------------------------------------------------

  function NamesOf(ts: seq<Torrent>): set<string> {
    set k | 0 <= k < |ts| :: ts[k].name
  }

  lemma {:induction false} RecordOf(removed: RemovedHistory, plan: seq<Torrent>, today: int, reason: Reason,
                                    ratioOf: Torrent -> int, t: Torrent)
    requires DistinctNames(plan) && t in plan
    ensures var after := RecordAll(removed, plan, today, reason, ratioOf);
            t.name in after && after[t.name] == Removal(today, reason, Some(ratioOf(t)))
  {
    var init, last := plan[..|plan| - 1], plan[|plan| - 1];
    if t != last {
      var k :| 0 <= k < |plan| && plan[k] == t;
      assert init[k] == t;
      RecordOf(removed, init, today, reason, ratioOf, t);
    }
  }

  /** The removed history gains exactly the names removed, dated today, with their ratios; every other
      record stays as it was. */
  lemma {:induction false} HistoryGainsExactlyThePlan(removed: RemovedHistory, plan: seq<Torrent>, today: int,
                                                      reason: Reason,
                                   ratioOf: Torrent -> int)
    requires DistinctNames(plan)
    ensures var after := RecordAll(removed, plan, today, reason, ratioOf);
            && after.Keys == removed.Keys + NamesOf(plan)
            && (forall t :: t in plan ==> after[t.name] == Removal(today, reason, Some(ratioOf(t))))
            && (forall name :: name in removed && name !in NamesOf(plan) ==> after[name] == removed[name])
  {
    hide RecordAll, DistinctNames;
    var after := RecordAll(removed, plan, today, reason, ratioOf);
    forall name
      ensures name in after <==> name in removed || name in NamesOf(plan)
      ensures name in removed && name !in NamesOf(plan) ==> after[name] == removed[name]
    {
      RecordAllIs(removed, plan, today, reason, ratioOf, name);
    }
    forall t | t in plan
      ensures t.name in after && after[t.name] == Removal(today, reason, Some(ratioOf(t)))
    {
      RecordOf(removed, plan, today, reason, ratioOf, t);
    }
  }

  // ---------------------------------------------------------------------------
  // Which torrents go
  // ---------------------------------------------------------------------------

  lemma SelectedIff(held: seq<Torrent>, pick: Torrent -> bool, t: Torrent)
    requires DistinctIds(held)
    ensures t in Select(OldVersionCandidates(held), pick) <==> Superseded(held, t) && pick(t)
  {
    hide OldVersionCandidates, Superseded;
    SelectIs(OldVersionCandidates(held), pick);
    CandidatesAreTheSuperseded(held, t);
  }

  /** The cleanup by ratio plans a torrent if and only if it is superseded and its ratio reached the
      floor, or the check is skipped. */
  lemma {:induction false} CleanupPlanIff(held: seq<Torrent>, skipRatioCheck: bool, minRatio: int, t: Torrent)
    requires DistinctIds(held)
    ensures t in PlanCleanup(held, skipRatioCheck, minRatio)
            <==> Superseded(held, t) && (skipRatioCheck || t.ratio as real / 1000.0 >= minRatio as real / 1000.0)
  {
    hide Superseded, OldVersionCandidates, Select;
    SelectedIff(held, EarnedEnough(skipRatioCheck, minRatio), t);
  }

  /** The stagnation cleanup plans a torrent if and only if it is superseded and has a sample at least
      `window` days old, and its ratio is less than that of the oldest such sample plus the delta. */
  lemma {:induction false} StagnationPlanIff(held: seq<Torrent>, history: History, today: int, window: int,
                                             minDelta: int, t: Torrent)
    requires DistinctIds(held)
    ensures t in PlanStagnation(held, history, today, window, minDelta)
            <==> Superseded(held, t)
                 && exists s :: OldestAged(SamplesOf(history, t.name), s, today, window) && t.ratio < s.ratio + minDelta
  {
    hide Superseded, OldVersionCandidates, Select, Anchor, OldestAged;
    SelectedIff(held, Stagnates(history, today, window, minDelta), t);
    AnchorIs(SamplesOf(history, t.name), today, window);
  }

  /** Over runs at most two days apart that report it, a superseded torrent is planned if and only if it
      has been tracked for the window and gained less than the delta since a day that is between the
      window and a week more than the window ago. */
  lemma {:induction false} GainDecides(held: seq<Torrent>, history: History, reports: seq<Report>, t: Torrent,
                                       window: int, minDelta: int)
    requires DistinctIds(held) && Superseded(held, t) && window >= 0 && Reported(reports, t.name)
    requires Tracked(SamplesOf(history, t.name), Visits(reports, t.name), 2)
    ensures reports != []
    ensures var today := reports[|reports| - 1].today;
            var plan := PlanStagnation(held, Runs(history, reports, SAMPLE_INTERVAL, window), today, window, minDelta);
            if today - reports[0].today < window then t !in plan
            else exists k :: 0 <= k < |reports| && window <= today - reports[k].today <= window + 7
                   && (t in plan <==> t.ratio - reports[k].current[t.name] < minDelta)
  {
    assert SAMPLE_INTERVAL == 7;
    ReportedAnchor(history, reports, t.name, SAMPLE_INTERVAL, window);
    var today := reports[|reports| - 1].today;
    SelectedIff(held, Stagnates(Runs(history, reports, SAMPLE_INTERVAL, window), today, window, minDelta), t);
    hide Superseded, OldVersionCandidates, Select, Runs, Tracked, Anchor, SAMPLE_INTERVAL;
  }

  /** A sample is due a week after the last one, and not before. */
  lemma {:induction false} WeeklySampling(samples: Samples, today: int, ratio: int, window: int)
    requires Spaced(samples, SAMPLE_INTERVAL) && window >= 0
    requires samples != [] && samples[|samples| - 1].date <= today
    ensures var last := samples[|samples| - 1];
            var updated := Update(samples, None, today, ratio, SAMPLE_INTERVAL, window);
            updated != []
            && updated[|updated| - 1] == if today - last.date >= 7 then Sample(today, ratio) else last
  {
    hide Spaced, Update, After, AllNewer, NoneNewer;
    var k, grown, j := UpdateShape(samples, None, today, ratio, SAMPLE_INTERVAL, window);
    assert samples[0..] == samples;
    Cut(grown, j, today - (window + SAMPLE_INTERVAL) - 1, |grown| - 1);
  }

  /** A reading that calls for removals, in bytes: at least `threshold` hundredths of the disk are used. */
  predicate TooFull(d: Disk, threshold: real) {
    if d.total == 0 then threshold <= 0.0 else 100.0 * d.used as real >= threshold * d.total as real
  }

  lemma TooFullIs(d: Disk, threshold: real)
    ensures TooFull(d, threshold) <==> !Below(d, threshold)
  {
    if d.total != 0 {
      Quotient(d.used as real, d.total as real, threshold);
    }
  }

  lemma Quotient(used: real, total: real, threshold: real)
    requires total > 0.0
    ensures used / total * 100.0 < threshold <==> 100.0 * used < threshold * total
  {
    var share := used / total * 100.0;
    assert used == used / total * total;
    assert share * total == 100.0 * used;
    if share < threshold {
      Scaled(share, threshold, total);
    } else {
      ScaledUp(threshold, share, total);
    }
  }

  lemma Scaled(a: real, b: real, c: real)
    requires a < b && c > 0.0
    ensures a * c < b * c
  {
  }

  lemma ScaledUp(a: real, b: real, c: real)
    requires a <= b && c > 0.0
    ensures a * c <= b * c
  {
  }

  /** The valve in bytes: it removes nothing unless it is on and the first reading calls for it; then every
      removal follows a reading that calls for it, and it goes on until one does not or no candidate is
      left. */
  lemma {:induction false} PressureInBytes(held: seq<Torrent>, first: Disk, disk: nat -> Disk, threshold: real)
    ensures var plan, order := PlanPressure(held, first, disk, threshold), ByRatio(OldVersionCandidates(held));
            && plan <= order
            && (plan != [] ==> threshold > 0.0 && TooFull(first, threshold))
            && (forall k: nat :: k < |plan| ==> TooFull(disk(k), threshold))
            && (threshold > 0.0 && TooFull(first, threshold) && |plan| < |order| ==> !TooFull(disk(|plan|), threshold))
  {
    hide ByRatio, OldVersionCandidates, Below, TooFull;
    PressureRemovesTheShortestPrefix(held, first, disk, threshold);
    var plan := PlanPressure(held, first, disk, threshold);
    TooFullIs(first, threshold);
    TooFullIs(disk(|plan|), threshold);
    forall k: nat | k < |plan|
      ensures TooFull(disk(k), threshold)
    {
      TooFullIs(disk(k), threshold);
    }
  }

  // ---------------------------------------------------------------------------
  // Repeating a plan
  // ---------------------------------------------------------------------------

  lemma PlannedIds(plan: seq<Torrent>, t: Torrent)
    requires t in plan
    ensures t.id in Ids(plan)
  {
    var k :| 0 <= k < |plan| && plan[k] == t;
    assert plan[k].id == t.id;
  }

  lemma NoneSelected(ts: seq<Torrent>, pick: Torrent -> bool)
    requires forall t :: t in ts ==> !pick(t)
    ensures Select(ts, pick) == []
  {
    var picked := Select(ts, pick);
    assert picked != [] ==> picked[0] in picked;
    SelectIs(ts, pick);
  }

  /** Any planner that picks by the torrent alone picks nothing among the survivors of its own plan. */
  lemma {:induction false} PlanRepeatsToNothing(held: seq<Torrent>, pick: Torrent -> bool)
    requires DistinctIds(held)
    ensures var plan := Select(OldVersionCandidates(held), pick);
            Select(OldVersionCandidates(Without(held, Ids(plan))), pick) == []
  {
    hide OldVersionCandidates, Superseded;
    var candidates := OldVersionCandidates(held);
    var plan := Select(candidates, pick);
    SelectIsDrawn(candidates, pick);
    SelectIs(candidates, pick);
    GoodPlan(held, plan);
    RemovalLeavesTheRest(held, Ids(plan));
    var left := Without(held, Ids(plan));
    forall t | t in OldVersionCandidates(left)
      ensures !pick(t)
    {
      CandidatesAreTheSuperseded(left, t);
      CandidatesAreTheSuperseded(held, t);
      if pick(t) {
        PlannedIds(plan, t);
      }
    }
    NoneSelected(OldVersionCandidates(left), pick);
  }

  /** Repeating `cleanup_old_versions` with the same settings removes nothing more. */
  lemma {:induction false} CleanupRepeatsToNothing(held: seq<Torrent>, skipRatioCheck: bool, minRatio: int)
    requires DistinctIds(held)
    ensures var plan := PlanCleanup(held, skipRatioCheck, minRatio);
            PlanCleanup(Without(held, Ids(plan)), skipRatioCheck, minRatio) == []
  {
    PlanRepeatsToNothing(held, EarnedEnough(skipRatioCheck, minRatio));
  }

  /** When the valve had to remove every candidate there is none left to remove. */
  lemma NoCandidateLeft(held: seq<Torrent>, first: Disk, disk: nat -> Disk, threshold: real)
    requires DistinctIds(held)
    requires |PlanPressure(held, first, disk, threshold)| == |OldVersionCandidates(held)|
    ensures var plan := PlanPressure(held, first, disk, threshold);
            OldVersionCandidates(Without(held, Ids(plan))) == []
  {
    hide OldVersionCandidates, Superseded, ByRatio;
    var candidates := OldVersionCandidates(held);
    var plan := PlanPressure(held, first, disk, threshold);
    PressureIsDrawn(held, first, disk, threshold);
    PressureRemovesTheShortestPrefix(held, first, disk, threshold);
    ByRatioIsDrawn(candidates);
    GoodPlan(held, plan);
    RemovalLeavesTheRest(held, Ids(plan));
    var left := Without(held, Ids(plan));
    assert plan == ByRatio(candidates);
    if OldVersionCandidates(left) != [] {
      var t := OldVersionCandidates(left)[0];
      CandidatesAreTheSuperseded(left, t);
      CandidatesAreTheSuperseded(held, t);
      assert t in multiset(candidates);
      assert t in multiset(plan);
      PlannedIds(plan, t);
      assert false;
    }
  }

  /** The reading at which the valve stopped, if it left a candidate. */
  function LastReading(held: seq<Torrent>, first: Disk, disk: nat -> Disk, threshold: real): Disk {
    if threshold <= 0.0 || Below(first, threshold) then first
    else disk(|PlanPressure(held, first, disk, threshold)|)
  }

  /** A second pass of the valve removes nothing more, if the first left no candidate or the disk is no
      fuller than at the reading that stopped it. */
  lemma {:induction false} PressureRepeatsToNothing(held: seq<Torrent>, first: Disk, disk: nat -> Disk,
                                                    threshold: real, again: Disk,
                                 later: nat -> Disk)
    requires DistinctIds(held)
    ensures var plan := PlanPressure(held, first, disk, threshold);
            || |plan| == |OldVersionCandidates(held)|
            || UsedPercent(again) <= UsedPercent(LastReading(held, first, disk, threshold))
            ==> PlanPressure(Without(held, Ids(plan)), again, later, threshold) == []
  {
    hide OldVersionCandidates, ByRatio, UsedPercent;
    var plan := PlanPressure(held, first, disk, threshold);
    PressureRemovesTheShortestPrefix(held, first, disk, threshold);
    ByRatioIsDrawn(OldVersionCandidates(held));
    if |plan| == |OldVersionCandidates(held)| {
      NoCandidateLeft(held, first, disk, threshold);
      ByRatioIsDrawn([]);
    }
  }

  lemma {:induction false} CurrentIs(ts: seq<Torrent>, t: Torrent)
    requires DistinctNames(ts) && t in ts
    ensures t.name in CurrentRatios(ts) && CurrentRatios(ts)[t.name] == t.ratio
  {
    var init, last := ts[..|ts| - 1], ts[|ts| - 1];
    if t in init {
      CurrentIs(init, t);
      var k :| 0 <= k < |init| && init[k] == t;
      assert ts[k] == t;
    }
  }

  lemma SecondUpdateOf(name: string, history: History, current: map<string, int>, current': map<string, int>,
                       dates: map<string, int>, dates': map<string, int>, today: int, window: int)
    requires window >= 0 && name in current && name in current' && current[name] == current'[name]
    requires RemovedOn(dates, name) == RemovedOn(dates', name)
    ensures var once := UpdateHistory(history, current, today, SAMPLE_INTERVAL, window, dates);
            var twice := UpdateHistory(once, current', today, SAMPLE_INTERVAL, window, dates');
            SamplesOf(twice, name) == SamplesOf(once, name)
  {
    hide Update;
    UpdateTwiceIsOnce(SamplesOf(history, name), RemovedOn(dates, name), today, current[name], SAMPLE_INTERVAL, window);
  }

  lemma RemovedDatesUnchanged(removed: RemovedHistory, plan: seq<Torrent>, today: int, reason: Reason,
                              ratioOf: Torrent -> int, t: Torrent)
    requires DistinctNames(plan) && t.name !in NamesOf(plan)
    ensures RemovedOn(Dates(RecordAll(removed, plan, today, reason, ratioOf)), t.name)
         == RemovedOn(Dates(removed), t.name)
  {
    HistoryGainsExactlyThePlan(removed, plan, today, reason, ratioOf);
  }

  /** Repeating `cleanup_stagnant_torrents` on the same day removes nothing more: the survivors are
      sampled, filtered and judged exactly as before. */
  lemma {:induction false} StagnationRepeatsToNothing(held: seq<Torrent>, history: History, removed: RemovedHistory,
                                                      today: int,
                                   window: int, minDelta: int)
    requires DistinctIds(held) && DistinctNames(held) && window >= 0
    ensures var current := CurrentRatios(held);
            var once := UpdateHistory(history, current, today, SAMPLE_INTERVAL, window, Dates(removed));
            var plan := PlanStagnation(held, once, today, window, minDelta);
            var left := Without(held, Ids(plan));
            var removed' := RecordAll(removed, plan, today, Stagnant, ListedRatio(current));
            var twice := UpdateHistory(once, CurrentRatios(left), today, SAMPLE_INTERVAL, window, Dates(removed'));
            PlanStagnation(left, twice, today, window, minDelta) == []
  {
    var current := CurrentRatios(held);
    var once := UpdateHistory(history, current, today, SAMPLE_INTERVAL, window, Dates(removed));
    var pick := Stagnates(once, today, window, minDelta);
    var plan := PlanStagnation(held, once, today, window, minDelta);
    var left := Without(held, Ids(plan));
    var removed' := RecordAll(removed, plan, today, Stagnant, ListedRatio(current));
    var twice := UpdateHistory(once, CurrentRatios(left), today, SAMPLE_INTERVAL, window, Dates(removed'));
    hide OldVersionCandidates, Superseded, UpdateHistory, SamplesOf, Anchor, RecordAll, CurrentRatios, Dates, RemovedOn,
         DistinctIds, DistinctNames, Without, Ids, Select;
    SelectIsDrawn(OldVersionCandidates(held), pick);
    GoodPlan(held, plan);
    SupersededAreHeld(held);
    RemovingAPlanIsACleanupStep(held, plan);
    WithoutIs(held, Ids(plan));
    PlanRepeatsToNothing(held, pick);
    SelectIs(OldVersionCandidates(left), pick);
    forall t | t in OldVersionCandidates(left)
      ensures !Stagnates(twice, today, window, minDelta)(t)
    {
      CandidatesAreTheSuperseded(left, t);
      SupersededAreHeld(left);
      CurrentIs(held, t);
      CurrentIs(left, t);
      SurvivorsAreNotPlanned(held, plan, t);
      RemovedDatesUnchanged(removed, plan, today, Stagnant, ListedRatio(current), t);
      SecondUpdateOf(t.name, history, current, CurrentRatios(left), Dates(removed), Dates(removed'), today, window);
      assert !pick(t);
    }
    NoneSelected(OldVersionCandidates(left), Stagnates(twice, today, window, minDelta));
  }

  lemma SurvivorsAreNotPlanned(held: seq<Torrent>, plan: seq<Torrent>, t: Torrent)
    requires DistinctIds(held) && DistinctNames(held) && (forall p :: p in plan ==> p in held)
    requires t in held && t.id !in Ids(plan)
    ensures t.name !in NamesOf(plan)
  {
    forall k | 0 <= k < |plan|
      ensures plan[k].name != t.name
    {
      assert plan[k] in held;
      PlannedIds(plan, plan[k]);
    }
  }

  // ---------------------------------------------------------------------------
  // What carrying out a plan comes to
  // ---------------------------------------------------------------------------

  lemma {:induction false} PlannedIdsAre(held: seq<Torrent>, plan: seq<Torrent>, t: Torrent)
    requires DistinctIds(held) && t in held && forall u :: u in plan ==> u in held
    ensures t.id in Ids(plan) <==> t in plan
  {
    if t in plan {
      var k :| 0 <= k < |plan| && plan[k] == t;
      assert plan[k].id == t.id;
    }
    if t.id in Ids(plan) {
      var k :| 0 <= k < |plan| && plan[k].id == t.id;
      assert plan[k] in held;
    }
  }

  lemma SafeNamesAre(plan: seq<Torrent>, name: string)
    ensures name in SafeNames(plan) <==> WatchDirectory.SafeName(name) && exists u :: u in plan && u.name == name
  {
    hide WatchDirectory.SafeName;
    if u :| u in plan && u.name == name {
      var k :| 0 <= k < |plan| && plan[k] == u;
      assert WatchDirectory.SafeName(plan[k].name) <==> WatchDirectory.SafeName(name);
    }
  }

  /** Exactly the torrents of the plan go, and the watch files of their names, where these are safe. Each
      is on record as removed today, with the ratio it was held at; all other records stay. */
  lemma {:induction false} PlanIsCarriedOut(s: State, plan: seq<Torrent>, today: int, reason: Reason,
                                            ratioOf: Torrent -> int, t: Torrent, name: string)
    requires DistinctIds(s.held) && DistinctNames(s.held)
    requires DistinctNames(plan) && forall u :: u in plan ==> u in s.held
    requires ratioOf == OwnRatio() || ratioOf == ListedRatio(CurrentRatios(s.held))
    ensures var after := Carry(s, plan, today, reason, ratioOf);
            && (t in after.held <==> t in s.held && t !in plan)
            && (name in after.watch
                <==> name in s.watch && !(WatchDirectory.SafeName(name) && exists u :: u in plan && u.name == name))
            && (t in plan ==> t.name in after.removed && after.removed[t.name] == Removal(today, reason, Some(t.ratio)))
            && ((forall u :: u in plan ==> u.name != name) ==>
                  && (name in after.removed <==> name in s.removed)
                  && (name in s.removed ==> after.removed[name] == s.removed[name]))
  {
    hide Without, Ids, SafeNames, RecordAll, WatchDirectory.SafeName, CurrentRatios, DistinctIds, DistinctNames;
    WithoutIs(s.held, Ids(plan));
    SafeNamesAre(plan, name);
    HistoryGainsExactlyThePlan(s.removed, plan, today, reason, ratioOf);
    if t in s.held {
      PlannedIdsAre(s.held, plan, t);
      CurrentIs(s.held, t);
    }
  }
}
