/** The three cleanup paths and the state they evolve from run to run. */
module Cleanup {
  import Lex
  import opened Optional
  import opened Candidates
  import opened RatioGate
  import opened RatioHistory
  import WatchDirectory

  const SAMPLE_INTERVAL := 7

  type RemovedHistory = map<string, Removal>

  predicate DistinctNames(ts: seq<Torrent>) {
    forall a, b :: 0 <= a < b < |ts| ==> ts[a].name != ts[b].name
  }

  // ---------------------------------------------------------------------------
  // Plans
  // ---------------------------------------------------------------------------

  function Select(ts: seq<Torrent>, pick: Torrent -> bool): seq<Torrent> {
    if ts == [] then []
    else
      var init, t := Select(ts[..|ts| - 1], pick), ts[|ts| - 1];
      if pick(t) then init + [t] else init
  }

  lemma {:induction false} SelectIs(ts: seq<Torrent>, pick: Torrent -> bool)
    ensures forall t :: t in Select(ts, pick) <==> t in ts && pick(t)
  {
    if ts != [] {
      SelectIs(ts[..|ts| - 1], pick);
      assert ts == ts[..|ts| - 1] + [ts[|ts| - 1]];
    }
  }

  /** `plan_cleanup` removes what reached the floor. */
  function EarnedEnough(skipRatioCheck: bool, minRatio: int): Torrent -> bool {
    (t: Torrent) => skipRatioCheck || t.ratio >= minRatio
  }

  /** `plan_stagnation_cleanup` removes what an anchor shows to have grown too little. */
  function Stagnates(history: History, today: int, window: int, minDelta: int): Torrent -> bool {
    (t: Torrent) => var anchor := Anchor(SamplesOf(history, t.name), today, window);
         anchor.Some? && t.ratio - anchor.value.ratio < minDelta
  }

  function PlanCleanup(ts: seq<Torrent>, skipRatioCheck: bool, minRatio: int): seq<Torrent> {
    Select(OldVersionCandidates(ts), EarnedEnough(skipRatioCheck, minRatio))
  }

  function PlanStagnation(ts: seq<Torrent>, history: History, today: int, window: int, minDelta: int): seq<Torrent> {
    Select(OldVersionCandidates(ts), Stagnates(history, today, window, minDelta))
  }

  function Rejects(pick: Torrent -> bool): Torrent -> bool {
    (t: Torrent) => !pick(t)
  }

  lemma SelectSnoc(ts: seq<Torrent>, i: nat, pick: Torrent -> bool)
    requires i < |ts|
    ensures Select(ts[..i + 1], pick) == Select(ts[..i], pick) + if pick(ts[i]) then [ts[i]] else []
  {
    assert ts[..i + 1][..i] == ts[..i];
  }

  method PlanCleanupLists(ts: seq<Torrent>, skipRatioCheck: bool, minRatio: int)
    returns (toRemove: seq<Torrent>, toKeep: seq<Torrent>)
    ensures toRemove == PlanCleanup(ts, skipRatioCheck, minRatio)
    ensures toKeep == Select(OldVersionCandidates(ts), Rejects(EarnedEnough(skipRatioCheck, minRatio)))
  {
    hide OldVersionCandidates;
    var candidates := CollectOldVersions(ts);
    ghost var pick := EarnedEnough(skipRatioCheck, minRatio);
    toRemove, toKeep := [], [];
    for i := 0 to |candidates|
      invariant toRemove == Select(candidates[..i], pick)
      invariant toKeep == Select(candidates[..i], Rejects(pick))
    {
      SelectSnoc(candidates, i, pick);
      SelectSnoc(candidates, i, Rejects(pick));
      hide Select;
      if !skipRatioCheck && candidates[i].ratio < minRatio {
        toKeep := toKeep + [candidates[i]];
      } else {
        toRemove := toRemove + [candidates[i]];
      }
    }
    assert candidates[..|candidates|] == candidates;
  }

  method PlanStagnationLists(ts: seq<Torrent>, history: History, today: int, window: int, minDelta: int)
    returns (toRemove: seq<Torrent>, toKeep: seq<Torrent>)
    ensures toRemove == PlanStagnation(ts, history, today, window, minDelta)
    ensures toKeep == Select(OldVersionCandidates(ts), Rejects(Stagnates(history, today, window, minDelta)))
  {
    hide OldVersionCandidates, Anchor;
    var candidates := CollectOldVersions(ts);
    ghost var pick := Stagnates(history, today, window, minDelta);
    toRemove, toKeep := [], [];
    for i := 0 to |candidates|
      invariant toRemove == Select(candidates[..i], pick)
      invariant toKeep == Select(candidates[..i], Rejects(pick))
    {
      SelectSnoc(candidates, i, pick);
      SelectSnoc(candidates, i, Rejects(pick));
      hide Select;
      var t := candidates[i];
      var anchor := Anchor(SamplesOf(history, t.name), today, window);
      if anchor.None? {
        toKeep := toKeep + [t];
      } else if t.ratio - anchor.value.ratio < minDelta {
        toRemove := toRemove + [t];
      } else {
        toKeep := toKeep + [t];
      }
    }
    assert candidates[..|candidates|] == candidates;
  }

  // ---------------------------------------------------------------------------
  // Disk pressure
  // ---------------------------------------------------------------------------

  datatype Disk = Disk(total: nat, used: nat)

  /** `_used_percent`. */
  function UsedPercent(d: Disk): real {
    if d.total == 0 then 0.0 else d.used as real / d.total as real * 100.0
  }

  /** A reading that no longer calls for removals. */
  predicate Below(d: Disk, threshold: real) {
    UsedPercent(d) < threshold
  }

  function Keyed(ts: seq<Torrent>): seq<Entry> {
    seq(|ts|, k requires 0 <= k < |ts| => Entry([-ts[k].ratio], ts[k]))
  }

  /** `candidates.sort(key=ratio)`: ascending and stable, that is, descending by the negated ratio. */
  function ByRatio(ts: seq<Torrent>): seq<Torrent> {
    Torrents(SortDescending(Keyed(ts)))
  }

  /** How many of `n` candidates go, when `disk(k)` is the reading taken before the k-th of them: up
      to the first reading below the threshold. */
  function Needed(disk: nat -> Disk, threshold: real, n: nat, k: nat): (m: nat)
    requires k <= n
    ensures k <= m <= n
    ensures forall i :: k <= i < m ==> !Below(disk(i), threshold)
    ensures m < n ==> Below(disk(m), threshold)
    decreases n - k
  {
    if k == n || Below(disk(k), threshold) then k else Needed(disk, threshold, n, k + 1)
  }

  /** What the disk-pressure valve removes; the reading `first` decides whether it opens at all. */
  function PlanPressure(ts: seq<Torrent>, first: Disk, disk: nat -> Disk, threshold: real): seq<Torrent> {
    if threshold <= 0.0 || Below(first, threshold) then []
    else
      var order := ByRatio(OldVersionCandidates(ts));
      order[..Needed(disk, threshold, |order|, 0)]
  }

  // ---------------------------------------------------------------------------
  // Removing a plan
  // ---------------------------------------------------------------------------

  function Ids(ts: seq<Torrent>): set<nat> {
    set k | 0 <= k < |ts| :: ts[k].id
  }

  function SafeNames(ts: seq<Torrent>): set<string> {
    set k | 0 <= k < |ts| && WatchDirectory.SafeName(ts[k].name) :: ts[k].name
  }

  /** The records of a plan, written one after the other. */
  function RecordAll(removed: RemovedHistory, plan: seq<Torrent>, today: int, reason: Reason, ratioOf: Torrent -> int)
    : RemovedHistory
  {
    if plan == [] then removed
    else
      var t := plan[|plan| - 1];
      RecordAll(removed, plan[..|plan| - 1], today, reason, ratioOf)[t.name := Removal(today, reason, Some(ratioOf(t)))]
  }

  datatype Event = Event(name: string, day: int, reason: Reason)

  function Events(plan: seq<Torrent>, today: int, reason: Reason): seq<Event> {
    seq(|plan|, k requires 0 <= k < |plan| => Event(plan[k].name, today, reason))
  }

  function OwnRatio(): Torrent -> int { (t: Torrent) => t.ratio }

  /** `current_ratios`: by name, the last listed of equal names. */
  function CurrentRatios(ts: seq<Torrent>): map<string, int> {
    if ts == [] then map[]
    else CurrentRatios(ts[..|ts| - 1])[ts[|ts| - 1].name := ts[|ts| - 1].ratio]
  }

  function ListedRatio(current: map<string, int>): Torrent -> int {
    (t: Torrent) => if t.name in current then current[t.name] else 0
  }

  function Dates(removed: RemovedHistory): map<string, int> {
    map name | name in removed :: removed[name].date
  }

  // ---------------------------------------------------------------------------
  // What a plan may contain
  // ---------------------------------------------------------------------------

  /** A plan drawn from the candidates, each at most as often as it occurs there. */
  ghost predicate DrawnFrom(plan: seq<Torrent>, candidates: seq<Torrent>) {
    multiset(plan) <= multiset(candidates)
  }

  lemma {:induction false} SelectIsDrawn(ts: seq<Torrent>, pick: Torrent -> bool)
    ensures DrawnFrom(Select(ts, pick), ts)
  {
    if ts != [] {
      SelectIsDrawn(ts[..|ts| - 1], pick);
      assert ts == ts[..|ts| - 1] + [ts[|ts| - 1]];
    }
  }

  lemma PrefixIsDrawn(ts: seq<Torrent>, candidates: seq<Torrent>, n: nat)
    requires DrawnFrom(ts, candidates) && n <= |ts|
    ensures DrawnFrom(ts[..n], candidates)
  {
    assert ts == ts[..n] + ts[n..];
    assert multiset(ts) == multiset(ts[..n]) + multiset(ts[n..]);
  }

  lemma OnceAtMost(ts: seq<Torrent>, a: nat, b: nat)
    requires a < b < |ts| && multiset(ts)[ts[a]] <= 1
    ensures ts[a] != ts[b]
  {
    var left, right := ts[..b], ts[b..];
    assert ts == left + right;
    assert multiset(ts) == multiset(left) + multiset(right);
    assert left[a] == ts[a] && right[0] == ts[b];
    assert multiset(left)[ts[a]] >= 1 by {
      assert ts[a] in left;
    }
    assert multiset(right)[ts[b]] >= 1 by {
      assert ts[b] in right;
    }
  }

  /** Such a plan holds only superseded torrents, of different names if the names held are different. */
  lemma {:induction false} GoodPlan(held: seq<Torrent>, plan: seq<Torrent>)
    requires DistinctIds(held) && DrawnFrom(plan, OldVersionCandidates(held))
    ensures forall t :: t in plan ==> Superseded(held, t)
    ensures OnlySuperseded(held, Ids(plan))
    ensures DistinctNames(held) ==> DistinctNames(plan)
  {
    hide OldVersionCandidates, Superseded;
    forall t | t in plan
      ensures Superseded(held, t) && multiset(plan)[t] <= 1
    {
      assert t in multiset(plan);
      assert multiset(plan)[t] <= multiset(OldVersionCandidates(held))[t];
      CandidatesAreTheSuperseded(held, t);
      assert t in multiset(OldVersionCandidates(held));
    }
    SupersededAreHeld(held);
    forall t | t in held && t.id in Ids(plan)
      ensures Superseded(held, t)
    {
      var k :| 0 <= k < |plan| && plan[k].id == t.id;
      assert plan[k] in plan && plan[k] in held;
    }
    forall a, b | 0 <= a < b < |plan| && DistinctNames(held)
      ensures plan[a].name != plan[b].name
    {
      assert plan[a] in plan && plan[b] in plan;
      OnceAtMost(plan, a, b);
    }
  }

  lemma SupersededAreHeld(held: seq<Torrent>)
    ensures forall t :: Superseded(held, t) ==> t in held
  {
  }

  lemma {:induction false} RemovingAPlanIsACleanupStep(held: seq<Torrent>, plan: seq<Torrent>)
    requires DistinctIds(held) && DrawnFrom(plan, OldVersionCandidates(held))
    ensures CleanupStep(held, Without(held, Ids(plan)))
    ensures DistinctIds(Without(held, Ids(plan)))
    ensures DistinctNames(held) ==> DistinctNames(Without(held, Ids(plan)))
  {
    GoodPlan(held, plan);
    WithoutIs(held, Ids(plan));
    if DistinctNames(held) {
      WithoutNames(held, Ids(plan));
    }
  }

  lemma {:induction false} WithoutNames(ts: seq<Torrent>, ids: set<nat>)
    requires DistinctNames(ts)
    ensures DistinctNames(Without(ts, ids))
  {
    if ts != [] {
      var init, t := ts[..|ts| - 1], ts[|ts| - 1];
      WithoutNames(init, ids);
      WithoutIsPart(init, ids);
      var left := Without(init, ids);
      forall k | 0 <= k < |left|
        ensures left[k].name != t.name
      {
        assert left[k] in init;
      }
    }
  }

  lemma {:induction false} WithoutNothing(ts: seq<Torrent>)
    ensures Without(ts, {}) == ts && Ids([]) == {}
  {
    if ts != [] {
      WithoutNothing(ts[..|ts| - 1]);
      assert ts == ts[..|ts| - 1] + [ts[|ts| - 1]];
    }
  }

  lemma {:induction false} WithoutTwice(ts: seq<Torrent>, a: set<nat>, b: set<nat>)
    ensures Without(Without(ts, a), b) == Without(ts, a + b)
  {
    if ts != [] {
      var init, t := ts[..|ts| - 1], ts[|ts| - 1];
      WithoutTwice(init, a, b);
      assert (Without(init, a) + [t])[..|Without(init, a)|] == Without(init, a);
    }
  }

  lemma PlanSnoc(plan: seq<Torrent>, t: Torrent, today: int, reason: Reason)
    ensures Ids(plan + [t]) == Ids(plan) + {t.id}
    ensures SafeNames(plan + [t]) == SafeNames(plan) + SafeNames([t])
    ensures Events(plan + [t], today, reason) == Events(plan, today, reason) + [Event(t.name, today, reason)]
  {
    hide WatchDirectory.SafeName;
    var all := plan + [t];
    assert forall k :: 0 <= k < |plan| ==> all[k] == plan[k];
    assert all[|plan|] == t && [t][0] == t;
    forall n | n in Ids(plan) + {t.id}
      ensures n in Ids(all)
    {
      if n in Ids(plan) {
        var k :| 0 <= k < |plan| && plan[k].id == n;
        assert all[k].id == n;
      }
    }
    forall n | n in SafeNames(plan) + SafeNames([t])
      ensures n in SafeNames(all)
    {
      if n in SafeNames(plan) {
        var k :| 0 <= k < |plan| && WatchDirectory.SafeName(plan[k].name) && plan[k].name == n;
        assert all[k].name == n;
      }
    }
  }

  // ---------------------------------------------------------------------------
  // Removal records and verdicts
  // ---------------------------------------------------------------------------

  /** Every removal so far is on record, under its own day or a later one. */
  ghost predicate LogOnRecord(log: seq<Event>, removed: RemovedHistory, lastDay: int) {
    forall k :: 0 <= k < |log| ==>
      log[k].day <= lastDay && log[k].name in removed && removed[log[k].name].date >= log[k].day
  }

  /** A name removed for any reason is not removed as stagnant again within `window` days. */
  ghost predicate NoVerdictOnADeadCopy(log: seq<Event>, window: int) {
    forall i, j :: 0 <= i < j < |log| && log[i].name == log[j].name && log[j].reason == Stagnant
                   ==> log[j].day >= log[i].day + window + 1
  }

  /** A stagnation verdict falls later than `window` days after the removal on record for its name. */
  ghost predicate Late(plan: seq<Torrent>, removed: RemovedHistory, today: int, window: int) {
    forall k :: 0 <= k < |plan| && plan[k].name in removed ==> today >= removed[plan[k].name].date + window + 1
  }

  lemma {:induction false} VerdictsComeLate(held: seq<Torrent>, history: History, removed: RemovedHistory, today: int,
                                            window: int,
                         minDelta: int)
    requires window >= 1 && DistinctIds(held)
    ensures var updated := UpdateHistory(history, CurrentRatios(held), today, SAMPLE_INTERVAL, window, Dates(removed));
            Late(PlanStagnation(held, updated, today, window, minDelta), removed, today, window)
  {
    hide Update, Anchor, OldVersionCandidates;
    var current := CurrentRatios(held);
    var updated := UpdateHistory(history, current, today, SAMPLE_INTERVAL, window, Dates(removed));
    var pick := Stagnates(updated, today, window, minDelta);
    SelectIs(OldVersionCandidates(held), pick);
    var plan := PlanStagnation(held, updated, today, window, minDelta);
    NoAnchorWithoutSamples(today, window);
    forall k | 0 <= k < |plan| && plan[k].name in removed
      ensures today >= removed[plan[k].name].date + window + 1
    {
      var t := plan[k];
      assert pick(t);
      AnchorPostdatesRemoval(SamplesOf(history, t.name), removed[t.name].date, today,
                             if t.name in current then current[t.name] else 0, SAMPLE_INTERVAL, window);
    }
  }

  lemma NoAnchorWithoutSamples(today: int, window: int)
    ensures Anchor([], today, window).None?
  {
  }

  lemma RecordSnoc(removed: RemovedHistory, plan: seq<Torrent>, i: nat, today: int, reason: Reason,
                   ratioOf: Torrent -> int)
    requires i < |plan|
    ensures RecordAll(removed, plan[..i + 1], today, reason, ratioOf)
         == RecordAll(removed, plan[..i], today, reason, ratioOf)
              [plan[i].name := Removal(today, reason, Some(ratioOf(plan[i])))]
  {
    assert plan[..i + 1][..i] == plan[..i];
  }

  lemma {:induction false} RecordAllIs(removed: RemovedHistory, plan: seq<Torrent>, today: int, reason: Reason,
                                       ratioOf: Torrent -> int, name: string)
    ensures var after := RecordAll(removed, plan, today, reason, ratioOf);
            && (name in after <==> name in removed || exists k :: 0 <= k < |plan| && plan[k].name == name)
            && (if exists k :: 0 <= k < |plan| && plan[k].name == name
                then after[name].date == today && after[name].reason == reason
                else name in removed ==> after[name] == removed[name])
  {
    if plan != [] {
      var init, t := plan[..|plan| - 1], plan[|plan| - 1];
      RecordAllIs(removed, init, today, reason, ratioOf, name);
      if exists k :: 0 <= k < |init| && init[k].name == name {
        var k :| 0 <= k < |init| && init[k].name == name;
        assert plan[k].name == name;
      }
      assert forall k :: 0 <= k < |init| ==> plan[k] == init[k];
    }
  }

  /** Carrying out a plan keeps both properties of the log. */
  lemma {:induction false} LogGrows(log: seq<Event>, removed: RemovedHistory, lastDay: int, window: int,
                                    plan: seq<Torrent>, today: int,
                 reason: Reason, ratioOf: Torrent -> int)
    requires LogOnRecord(log, removed, lastDay) && NoVerdictOnADeadCopy(log, window)
    requires today >= lastDay && DistinctNames(plan)
    requires reason == Stagnant ==> Late(plan, removed, today, window)
    ensures LogOnRecord(log + Events(plan, today, reason), RecordAll(removed, plan, today, reason, ratioOf), today)
    ensures NoVerdictOnADeadCopy(log + Events(plan, today, reason), window)
  {
    var events := Events(plan, today, reason);
    var all := log + events;
    var after := RecordAll(removed, plan, today, reason, ratioOf);
    hide RecordAll;
    forall k | 0 <= k < |all|
      ensures all[k].day <= today && all[k].name in after && after[all[k].name].date >= all[k].day
    {
      RecordAllIs(removed, plan, today, reason, ratioOf, all[k].name);
      if k >= |log| {
        assert plan[k - |log|].name == all[k].name;
      } else {
        assert all[k] == log[k];
      }
    }
    forall i, j | |log| <= i < j < |all|
      ensures all[i].name != all[j].name
    {
      assert plan[i - |log|].name == all[i].name && plan[j - |log|].name == all[j].name;
    }
    forall i, j | 0 <= i < j < |all| && all[i].name == all[j].name && all[j].reason == Stagnant
      ensures all[j].day >= all[i].day + window + 1
    {
      if j >= |log| {
        assert plan[j - |log|].name == all[j].name;
        assert all[i] == log[i];
      } else {
        assert all[i] == log[i] && all[j] == log[j];
      }
    }
  }

  lemma KeyedTorrents(ts: seq<Torrent>)
    ensures Torrents(Keyed(ts)) == ts
  {
  }

  lemma {:induction false} InsertTorrents(es: seq<Entry>, e: Entry)
    ensures multiset(Torrents(InsertDescending(es, e))) == multiset(Torrents(es)) + multiset{e.torrent}
  {
    hide Lex.Less;
    if es == [] || Lex.Less(es[0].rank, e.rank) {
      assert Torrents([e] + es) == [e.torrent] + Torrents(es);
    } else {
      InsertTorrents(es[1..], e);
      assert es == [es[0]] + es[1..];
      assert Torrents(es) == [es[0].torrent] + Torrents(es[1..]);
      var rest := InsertDescending(es[1..], e);
      assert Torrents([es[0]] + rest) == [es[0].torrent] + Torrents(rest);
    }
  }

  lemma {:induction false} SortTorrents(es: seq<Entry>)
    ensures multiset(Torrents(SortDescending(es))) == multiset(Torrents(es))
  {
    hide InsertDescending;
    if es != [] {
      var init, e := es[..|es| - 1], es[|es| - 1];
      SortTorrents(init);
      InsertTorrents(SortDescending(init), e);
      assert Torrents(es) == Torrents(init) + [e.torrent];
    }
  }

  lemma ByRatioIsDrawn(ts: seq<Torrent>)
    ensures DrawnFrom(ByRatio(ts), ts) && |ByRatio(ts)| == |ts| && multiset(ByRatio(ts)) == multiset(ts)
  {
    SortLength(Keyed(ts));
    SortTorrents(Keyed(ts));
    KeyedTorrents(ts);
  }

  lemma PressureCases(held: seq<Torrent>, first: Disk, disk: nat -> Disk, threshold: real)
    ensures threshold <= 0.0 || Below(first, threshold) ==> PlanPressure(held, first, disk, threshold) == []
    ensures !(threshold <= 0.0 || Below(first, threshold)) ==>
              var order := ByRatio(OldVersionCandidates(held));
              PlanPressure(held, first, disk, threshold) == order[..Needed(disk, threshold, |order|, 0)]
  {
  }

  // ---------------------------------------------------------------------------
  // Carrying out a plan
  // ---------------------------------------------------------------------------

  /** What Transmission lists, the names with a file in the watch directory, the removed history, and
      every removal so far. */
  datatype State = State(held: seq<Torrent>, watch: set<string>, removed: RemovedHistory, log: seq<Event>)

  /** Removing the torrents of a plan, their watch files, and recording it. */
  ghost function Carry(s: State, plan: seq<Torrent>, today: int, reason: Reason, ratioOf: Torrent -> int): State {
    State(Without(s.held, Ids(plan)), s.watch - SafeNames(plan), RecordAll(s.removed, plan, today, reason, ratioOf),
          s.log + Events(plan, today, reason))
  }

  /** No stagnant removal of a name within `window` days of an earlier removal of it, and the records
      are there that keep it so. */
  ghost predicate Sound(s: State, lastDay: int, window: int) {
    && DistinctIds(s.held) && DistinctNames(s.held)
    && LogOnRecord(s.log, s.removed, lastDay)
    && NoVerdictOnADeadCopy(s.log, window)
  }

  lemma {:induction false} CarryKeepsSound(s: State, lastDay: int, window: int, plan: seq<Torrent>, today: int,
                                           reason: Reason,
                        ratioOf: Torrent -> int)
    requires Sound(s, lastDay, window) && today >= lastDay && DrawnFrom(plan, OldVersionCandidates(s.held))
    requires reason == Stagnant ==> Late(plan, s.removed, today, window)
    ensures Sound(Carry(s, plan, today, reason, ratioOf), today, window)
    ensures CleanupStep(s.held, Carry(s, plan, today, reason, ratioOf).held)
  {
    hide OldVersionCandidates, LogOnRecord, NoVerdictOnADeadCopy, DistinctIds, DistinctNames;
    GoodPlan(s.held, plan);
    RemovingAPlanIsACleanupStep(s.held, plan);
    LogGrows(s.log, s.removed, lastDay, window, plan, today, reason, ratioOf);
  }

  lemma CarryNothing(s: State, today: int, reason: Reason, ratioOf: Torrent -> int)
    ensures Carry(s, [], today, reason, ratioOf) == s
  {
    WithoutNothing(s.held);
  }

  /** The effect of one pass of a removal loop. */
  ghost function CarryOne(s: State, t: Torrent, today: int, reason: Reason, ratio: int): State {
    State(Without(s.held, {t.id}), s.watch - SafeNames([t]), s.removed[t.name := Removal(today, reason, Some(ratio))],
          s.log + [Event(t.name, today, reason)])
  }

  lemma CarrySnoc(s: State, plan: seq<Torrent>, i: nat, today: int, reason: Reason, ratioOf: Torrent -> int)
    requires i < |plan|
    ensures Carry(s, plan[..i + 1], today, reason, ratioOf)
         == CarryOne(Carry(s, plan[..i], today, reason, ratioOf), plan[i], today, reason, ratioOf(plan[i]))
  {
    hide Without, RecordAll, Ids, SafeNames, Events;
    assert plan[..i + 1] == plan[..i] + [plan[i]];
    PlanSnoc(plan[..i], plan[i], today, reason);
    WithoutTwice(s.held, Ids(plan[..i]), {plan[i].id});
    RecordSnoc(s.removed, plan, i, today, reason, ratioOf);
    assert s.log + (Events(plan[..i], today, reason) + [Event(plan[i].name, today, reason)])
        == s.log + Events(plan[..i], today, reason) + [Event(plan[i].name, today, reason)];
  }

  lemma PressureIsDrawn(held: seq<Torrent>, first: Disk, disk: nat -> Disk, threshold: real)
    ensures DrawnFrom(PlanPressure(held, first, disk, threshold), OldVersionCandidates(held))
  {
    hide ByRatio, OldVersionCandidates;
    var plan := PlanPressure(held, first, disk, threshold);
    var candidates := OldVersionCandidates(held);
    ByRatioIsDrawn(candidates);
    if plan != [] {
      PrefixIsDrawn(ByRatio(candidates), candidates, |plan|);
    }
  }

  lemma PressureKeepsSound(s: State, lastDay: int, window: int, first: Disk, disk: nat -> Disk, threshold: real,
                           today: int)
    requires Sound(s, lastDay, window) && today >= lastDay
    ensures var after := Carry(s, PlanPressure(s.held, first, disk, threshold), today, DiskPressure, OwnRatio());
            Sound(after, today, window) && CleanupStep(s.held, after.held)
  {
    hide *;
    PressureIsDrawn(s.held, first, disk, threshold);
    CarryKeepsSound(s, lastDay, window, PlanPressure(s.held, first, disk, threshold), today, DiskPressure, OwnRatio());
  }

  // ---------------------------------------------------------------------------
  // The seeder
  // ---------------------------------------------------------------------------

  class Seeder {
    const window: int
    var held: seq<Torrent>
    var history: History
    var removed: RemovedHistory
    var watch: set<string>
    /** Every removal so far, oldest first, and the day of the latest run. */
    ghost var log: seq<Event>
    ghost var lastDay: int

    ghost function Books(): State
      reads this
    {
      State(held, watch, removed, log)
    }

    ghost predicate Valid()
      reads this
    {
      Sound(Books(), lastDay, window)
    }

    constructor (window: int, today: int)
      ensures Valid() && this.window == window && lastDay == today
      ensures Books() == State([], {}, map[], []) && history == map[]
    {
      this.window := window;
      held, history, removed, watch, log, lastDay := [], map[], map[], {}, [], today;
    }

    /** Between two steps Transmission may list anything else: torrents come, ratios grow. */
    method Transmission(listed: seq<Torrent>, files: set<string>)
      requires Valid() && DistinctIds(listed) && DistinctNames(listed)
      modifies this`held, this`watch
      ensures Valid() && held == listed && watch == files
    {
      held, watch := listed, files;
    }

    /** One pass of a removal loop; the history record is the caller's, who saves it at the end. */
    method RemoveTorrent(t: Torrent, today: int, reason: Reason)
      modifies this`held, this`watch, this`log
      ensures held == Without(old(held), {t.id})
      ensures watch == old(watch) - SafeNames([t])
      ensures log == old(log) + [Event(t.name, today, reason)]
    {
      held := Without(held, {t.id});
      if WatchDirectory.SafeName(t.name) {
        watch := watch - {t.name};
      }
      assert SafeNames([t]) == if WatchDirectory.SafeName(t.name) then {t.name} else {} by {
        assert [t][0] == t;
      }
      log := log + [Event(t.name, today, reason)];
    }

    /** The removal loop of the cleanup functions. */
    method RemoveAll(plan: seq<Torrent>, today: int, reason: Reason, ratioOf: Torrent -> int)
      modifies this`held, this`watch, this`removed, this`log
      ensures Books() == Carry(old(Books()), plan, today, reason, ratioOf)
    {
      var removedHistory := removed;
      CarryNothing(Books(), today, reason, ratioOf);
      hide Carry, Without, SafeNames;
      assert plan[..0] == [];
      for i := 0 to |plan|
        invariant State(held, watch, removedHistory, log) == Carry(old(Books()), plan[..i], today, reason, ratioOf)
      {
        var t := plan[i];
        CarrySnoc(old(Books()), plan, i, today, reason, ratioOf);
        RemoveTorrent(t, today, reason);
        removedHistory := removedHistory[t.name := Removal(today, reason, Some(ratioOf(t)))];
      }
      assert plan[..|plan|] == plan;
      removed := removedHistory;
    }

    /** `cleanup_old_versions`. */
    method CleanupOldVersions(today: int, skipRatioCheck: bool, minRatio: int)
      requires Valid() && today >= lastDay
      modifies this
      ensures Valid() && CleanupStep(old(held), held)
      ensures Books() == Carry(old(Books()), PlanCleanup(old(held), skipRatioCheck, minRatio), today, KeepOnlyLatest,
                               OwnRatio())
      ensures history == old(history) && lastDay == today
    {
      var plan, keep := PlanCleanupLists(held, skipRatioCheck, minRatio);
      SelectIsDrawn(OldVersionCandidates(held), EarnedEnough(skipRatioCheck, minRatio));
      CarryKeepsSound(Books(), lastDay, window, plan, today, KeepOnlyLatest, OwnRatio());
      hide Carry, Sound, PlanCleanup, OldVersionCandidates;
      RemoveAll(plan, today, KeepOnlyLatest, OwnRatio());
      lastDay := today;
    }

    /** `cleanup_stagnant_torrents`. */
    method CleanupStagnantTorrents(today: int, minDelta: int)
      requires Valid() && today >= lastDay && window >= 1
      modifies this
      ensures Valid() && CleanupStep(old(held), held)
      ensures history == UpdateHistory(old(history), CurrentRatios(old(held)), today, SAMPLE_INTERVAL, window,
                                       Dates(old(removed)))
      ensures Books() == Carry(old(Books()), PlanStagnation(old(held), history, today, window, minDelta), today,
                               Stagnant, ListedRatio(CurrentRatios(old(held))))
      ensures lastDay == today
    {
      var current := CurrentRatios(held);
      var updated := UpdateRatioHistory(history, current, today, SAMPLE_INTERVAL, window, Dates(removed));
      var plan, keep := PlanStagnationLists(held, updated, today, window, minDelta);
      SelectIsDrawn(OldVersionCandidates(held), Stagnates(updated, today, window, minDelta));
      VerdictsComeLate(held, history, removed, today, window, minDelta);
      CarryKeepsSound(Books(), lastDay, window, plan, today, Stagnant, ListedRatio(current));
      hide Carry, Sound, PlanStagnation, OldVersionCandidates, UpdateHistory, Dates, CurrentRatios, ListedRatio;
      RemoveAll(plan, today, Stagnant, ListedRatio(current));
      history, lastDay := updated, today;
    }

    /** The loop of `enforce_disk_usage_limit`: a fresh reading before every removal. */
    method RelievePressure(candidates: seq<Torrent>, today: int, threshold: real, disk: nat -> Disk)
      modifies this`held, this`watch, this`removed, this`log
      ensures Books() == Carry(old(Books()), candidates[..Needed(disk, threshold, |candidates|, 0)], today,
                               DiskPressure, OwnRatio())
    {
      var removedHistory := removed;
      CarryNothing(Books(), today, DiskPressure, OwnRatio());
      hide Carry, Without, SafeNames, Below;
      assert candidates[..0] == [];
      var n := 0;
      while n < |candidates|
        invariant n <= |candidates|
        invariant Needed(disk, threshold, |candidates|, n) == Needed(disk, threshold, |candidates|, 0)
        invariant State(held, watch, removedHistory, log)
               == Carry(old(Books()), candidates[..n], today, DiskPressure, OwnRatio())
      {
        if Below(disk(n), threshold) {
          break;
        }
        var t := candidates[n];
        CarrySnoc(old(Books()), candidates, n, today, DiskPressure, OwnRatio());
        RemoveTorrent(t, today, DiskPressure);
        removedHistory := removedHistory[t.name := Removal(today, DiskPressure, Some(t.ratio))];
        n := n + 1;
      }
      removed := removedHistory;
    }

    /** `enforce_disk_usage_limit`: `first` is the reading that decides, `disk(k)` the one taken before
        the k-th candidate. */
    method EnforceDiskUsageLimit(today: int, threshold: real, first: Disk, disk: nat -> Disk)
      requires Valid() && today >= lastDay
      modifies this
      ensures Valid() && CleanupStep(old(held), held)
      ensures Books() == Carry(old(Books()), PlanPressure(old(held), first, disk, threshold), today, DiskPressure,
                               OwnRatio())
      ensures history == old(history) && lastDay == today
    {
      PressureCases(held, first, disk, threshold);
      PressureKeepsSound(Books(), lastDay, window, first, disk, threshold, today);
      CarryNothing(Books(), today, DiskPressure, OwnRatio());
      hide *;
      lastDay := today;
      if threshold <= 0.0 || Below(first, threshold) {
        return;
      }
      var candidates := CollectOldVersions(held);
      candidates := ByRatio(candidates);
      RelievePressure(candidates, today, threshold, disk);
    }
  }
}
