/** The ratio gate over cleanups: the log and the saved history of a state, and what carrying out a plan
    does to the answers of `should_fetch_torrent`. */
module GateOverRuns {
  import Lex
  import opened Optional
  import opened TorrentNames
  import opened Candidates
  import opened RatioGate
  import opened RatioGateTheory
  import opened RatioHistory
  import opened Cleanup
  import CleanupTheory
  import WatchDirectory
  import RatioLog
  import RatioLogTheory

  // ---------------------------------------------------------------------------
  // The ratio log of what is held
  // ---------------------------------------------------------------------------

  function Seedings(held: seq<Torrent>): seq<RatioLog.Seeding> {
    seq(|held|, i requires 0 <= i < |held| => RatioLog.Seeding(held[i].name, held[i].ratio))
  }

  function Entries(ts: seq<RatioLog.Seeding>): seq<Live> {
    seq(|ts|, i requires 0 <= i < |ts| => Live(ts[i].name, ts[i].ratio))
  }

  /** The dict the next run reads out of the log printed while `held` was held. */
  function LogOf(held: seq<Torrent>): seq<Live> {
    Entries(RatioLogTheory.Logged(RatioLog.HighestFirst(Seedings(held))))
  }

  /** It is what `get_previous_ratios` gives: the same keys in the same order, the same ratios. */
  lemma {:induction false} LogIsWhatIsRead(earlier: seq<string>, held: seq<Torrent>, clock: RatioLog.Clock,
                                           later: seq<string>)
    requires DistinctNames(held) && RatioLogTheory.AllWellFormed(Seedings(held)) && RatioLogTheory.PlainStamps(clock)
    requires RatioLogTheory.Unmarked(later, RatioLog.START) && RatioLogTheory.Unmarked(later, RatioLog.END)
    ensures var block := RatioLog.Block(RatioLog.HighestFirst(Seedings(held)), clock);
            var segment := RatioLog.Segment(earlier + block + later);
            var names, ratios := RatioLog.ReadOrder(segment), RatioLog.Readings(segment);
            && |LogOf(held)| == |names|
            && forall k :: 0 <= k < |names| ==>
                 && LogOf(held)[k].name == names[k] && names[k] in ratios
                 && ratios[names[k]] == LogOf(held)[k].ratio as real / 1000.0
  {
    var ts := Seedings(held);
    RatioLogTheory.DistinctNamesComeBackExactly(earlier, ts, clock, later);
    RatioLogTheory.LoggedIs(RatioLog.HighestFirst(ts));
    RatioLogTheory.HighestFirstSorts(ts);
    RatioLogTheory.SameMembers(RatioLog.HighestFirst(ts), ts);
    var logged := RatioLogTheory.Logged(RatioLog.HighestFirst(ts));
    forall k | 0 <= k < |logged|
      ensures logged[k] in ts && logged[k].ratio >= 0
    {
      assert logged[k] in logged;
    }
    hide RatioLog.Segment, RatioLog.Block, RatioLog.HighestFirst, RatioLog.Readings, RatioLog.ReadOrder,
         RatioLogTheory.Logged;
  }

  /** The names the log lists, with their ratios. */
  function Listed(held: seq<Torrent>): map<string, int> {
    if held == [] then map[]
    else
      var before, t := Listed(held[..|held| - 1]), held[|held| - 1];
      if t.ratio >= 0 then before[t.name := t.ratio] else before
  }

  lemma {:induction false} ListedIs(held: seq<Torrent>)
    requires DistinctNames(held)
    ensures forall t :: t in held && t.ratio >= 0 ==> t.name in Listed(held) && Listed(held)[t.name] == t.ratio
    ensures forall n :: n in Listed(held) ==> exists t :: t in held && t.ratio >= 0 && t.name == n
  {
    if held != [] {
      var init, last := held[..|held| - 1], held[|held| - 1];
      ListedIs(init);
      assert held == init + [last];
      forall n | n in Listed(held)
        ensures exists t :: t in held && t.ratio >= 0 && t.name == n
      {
        if n in Listed(init) {
          var t :| t in init && t.ratio >= 0 && t.name == n;
          assert t in held;
        } else {
          assert last in held;
        }
      }
    }
  }

  lemma LoggedAre(held: seq<Torrent>)
    ensures var logged := RatioLogTheory.Logged(RatioLog.HighestFirst(Seedings(held)));
            && RatioLogTheory.Descending(logged)
            && (forall t :: t in held && t.ratio >= 0 ==> RatioLog.Seeding(t.name, t.ratio) in logged)
            && forall e :: e in logged ==>
                 exists t :: t in held && t.ratio >= 0 && t.name == e.name && t.ratio == e.ratio
  {
    var ts := Seedings(held);
    var sorted := RatioLog.HighestFirst(ts);
    RatioLogTheory.HighestFirstSorts(ts);
    RatioLogTheory.SameMembers(sorted, ts);
    RatioLogTheory.LoggedIs(sorted);
    SeedingsAre(held);
    hide *;
  }

  lemma EntriesAre(logged: seq<RatioLog.Seeding>, k: nat)
    requires k < |logged|
    ensures k < |Entries(logged)| && Entries(logged)[k] == Live(logged[k].name, logged[k].ratio)
    ensures logged[k].name in LiveNames(Entries(logged))
  {
    assert Entries(logged)[k].name == logged[k].name;
  }

  lemma {:induction false} LogLists(held: seq<Torrent>)
    requires DistinctNames(held)
    ensures Lists(LogOf(held), Listed(held))
  {
    hide *;
    var logged := RatioLogTheory.Logged(RatioLog.HighestFirst(Seedings(held)));
    LoggedAre(held);
    ListedIs(held);
    LogIsItsEntries(held);
    LoggedLists(held, logged, Listed(held));
  }

  lemma LogIsItsEntries(held: seq<Torrent>)
    ensures LogOf(held) == Entries(RatioLogTheory.Logged(RatioLog.HighestFirst(Seedings(held))))
  {
  }

  lemma {:induction false} LoggedLists(held: seq<Torrent>, logged: seq<RatioLog.Seeding>, listed: map<string, int>)
    requires RatioLogTheory.Descending(logged)
    requires forall t :: t in held && t.ratio >= 0 ==> RatioLog.Seeding(t.name, t.ratio) in logged
    requires forall e :: e in logged ==> exists t :: t in held && t.ratio >= 0 && t.name == e.name && t.ratio == e.ratio
    requires forall t :: t in held && t.ratio >= 0 ==> t.name in listed && listed[t.name] == t.ratio
    requires forall n :: n in listed ==> exists t :: t in held && t.ratio >= 0 && t.name == n
    ensures Lists(Entries(logged), listed)
  {
    hide Entries, LiveNames;
    forall k | 0 <= k < |logged|
      ensures k < |Entries(logged)| && Entries(logged)[k] == Live(logged[k].name, logged[k].ratio)
      ensures logged[k].name in listed && listed[logged[k].name] == logged[k].ratio
    {
      EntriesAre(logged, k);
      assert logged[k] in logged;
    }
    forall n | n in listed
      ensures n in LiveNames(Entries(logged))
    {
      var t :| t in held && t.ratio >= 0 && t.name == n;
      var k :| 0 <= k < |logged| && logged[k] == RatioLog.Seeding(t.name, t.ratio);
      EntriesAre(logged, k);
    }
    NamesOfEntries(logged, listed);
  }

  lemma NamesOfEntries(logged: seq<RatioLog.Seeding>, listed: map<string, int>)
    requires forall k :: 0 <= k < |logged| ==> logged[k].name in listed
    ensures |Entries(logged)| == |logged| && LiveNames(Entries(logged)) <= listed.Keys
  {
  }

  lemma SeedingsAre(held: seq<Torrent>)
    ensures forall t :: t in held ==> RatioLog.Seeding(t.name, t.ratio) in Seedings(held)
    ensures forall s :: s in Seedings(held) ==> exists t :: t in held && t.name == s.name && t.ratio == s.ratio
  {
    forall t | t in held
      ensures RatioLog.Seeding(t.name, t.ratio) in Seedings(held)
    {
      var k :| 0 <= k < |held| && held[k] == t;
      assert Seedings(held)[k] == RatioLog.Seeding(t.name, t.ratio);
    }
    forall s | s in Seedings(held)
      ensures exists t :: t in held && t.name == s.name && t.ratio == s.ratio
    {
      var k :| 0 <= k < |held| && Seedings(held)[k] == s;
      assert held[k] in held;
    }
  }

  // ---------------------------------------------------------------------------
  // The saved history
  // ---------------------------------------------------------------------------

  /** The removed history as the next run loads it: saved with its keys sorted. */
  ghost function Filed(history: RemovedHistory): (removed: seq<Gone>)
    ensures forall k :: 0 <= k < |removed| ==>
              removed[k].name in history && history[removed[k].name] == removed[k].record
    decreases |history|
  {
    if history == map[] then []
    else
      var n := First(history.Keys);
      [Gone(n, history[n])] + Filed(history - {n})
  }

  lemma {:induction false} FiledFiles(history: RemovedHistory)
    ensures Files(Filed(history), history)
    decreases |history|
  {
    if history != map[] {
      var n := First(history.Keys);
      FiledFiles(history - {n});
      FirstThenRest(Filed(history - {n}), history, n);
    }
  }

  lemma FirstThenRest(rest: seq<Gone>, history: RemovedHistory, n: string)
    requires IsFirst(n, history.Keys) && Files(rest, history - {n})
    ensures Files([Gone(n, history[n])] + rest, history)
  {
    hide NameLess;
    var removed := [Gone(n, history[n])] + rest;
    assert forall k :: 0 <= k < |rest| ==> removed[k + 1] == rest[k];
    forall m | m in history
      ensures exists k :: 0 <= k < |removed| && removed[k].name == m
    {
      if m == n {
        assert removed[0].name == m;
      } else {
        assert m in history - {n};
        var k :| 0 <= k < |rest| && rest[k].name == m;
        assert removed[k + 1].name == m;
      }
    }
    forall i, j | 0 <= i < j < |removed|
      ensures NameLess(removed[i].name, removed[j].name)
    {
      assert removed[j] == rest[j - 1];
      if i > 0 {
        assert removed[i] == rest[i - 1];
      }
    }
  }

  // ---------------------------------------------------------------------------
  // The gate of a state
  // ---------------------------------------------------------------------------

  /** The answer of the gate on the log of what is held and the saved history. */
  ghost predicate Gate(s: State, name: string, skipRatioCheck: bool) {
    ShouldFetch(name, LogOf(s.held), Filed(s.removed), skipRatioCheck)
  }

  function BooksOf(s: State): Books {
    Books(Listed(s.held), s.removed)
  }

  lemma GateIs(s: State, name: string, skipRatioCheck: bool)
    requires DistinctNames(s.held) && DistroOf(name).Some?
    ensures Gate(s, name, skipRatioCheck) <==> skipRatioCheck || Fetches(BooksOf(s), name)
  {
    hide *;
    LogLists(s.held);
    FiledFiles(s.removed);
    BooksAre(s);
    GateReadsTheBooks(LogOf(s.held), Filed(s.removed), BooksOf(s), name, skipRatioCheck);
    GateUnfolds(s, name, skipRatioCheck);
  }

  lemma BooksAre(s: State)
    ensures BooksOf(s).listed == Listed(s.held) && BooksOf(s).removed == s.removed
  {
  }

  lemma GateUnfolds(s: State, name: string, skipRatioCheck: bool)
    ensures Gate(s, name, skipRatioCheck) <==> ShouldFetch(name, LogOf(s.held), Filed(s.removed), skipRatioCheck)
  {
  }

  /** Every torrent of the plan is held. */
  predicate OfHeld(held: seq<Torrent>, plan: seq<Torrent>) {
    forall t :: t in plan ==> t in held
  }

  lemma {:induction false} ListedWithout(held: seq<Torrent>, plan: seq<Torrent>)
    requires DistinctIds(held) && DistinctNames(held) && OfHeld(held, plan)
    ensures Listed(Without(held, Ids(plan))) == Listed(held) - CleanupTheory.NamesOf(plan)
  {
    PlannedTorrents(held, plan);
    hide *;
    var left := Without(held, Ids(plan));
    WithoutIs(held, Ids(plan));
    WithoutNames(held, Ids(plan));
    forall n
      ensures n in Listed(left) <==> n in Listed(held) && n !in CleanupTheory.NamesOf(plan)
      ensures n in Listed(left) ==> Listed(left)[n] == Listed(held)[n]
    {
      ListedUnder(held, n);
      ListedUnder(left, n);
    }
  }

  /** Of distinct torrents the ids and the names of a plan pick the same. */
  lemma PlannedTorrents(held: seq<Torrent>, plan: seq<Torrent>)
    requires DistinctIds(held) && DistinctNames(held) && OfHeld(held, plan)
    ensures forall u :: u in held ==> (u.id in Ids(plan) <==> u.name in CleanupTheory.NamesOf(plan))
  {
    forall u | u in held
      ensures u.id in Ids(plan) <==> u.name in CleanupTheory.NamesOf(plan)
    {
      hide DistinctIds, DistinctNames;
      if u.id in Ids(plan) {
        var k :| 0 <= k < |plan| && plan[k].id == u.id;
        assert plan[k] in plan;
        SameNameSameTorrent(held, plan[k]);
      }
      if u.name in CleanupTheory.NamesOf(plan) {
        var k :| 0 <= k < |plan| && plan[k].name == u.name;
        assert plan[k] in plan;
        SameNameSameTorrent(held, plan[k]);
      }
    }
  }

  lemma ListedUnder(held: seq<Torrent>, n: string)
    requires DistinctNames(held)
    ensures n in Listed(held) <==> exists t :: t in held && t.ratio >= 0 && t.name == n
    ensures forall t :: t in held && t.ratio >= 0 && t.name == n ==> n in Listed(held) && Listed(held)[n] == t.ratio
  {
    ListedIs(held);
  }

  lemma SameNameSameTorrent(held: seq<Torrent>, t: Torrent)
    requires DistinctIds(held) && DistinctNames(held) && t in held
    ensures forall u :: u in held && (u.id == t.id || u.name == t.name) ==> u == t
  {
  }

  /** The records a plan writes. */
  function Records(plan: seq<Torrent>, today: int, reason: Reason, ratioOf: Torrent -> int): RemovedHistory {
    RecordAll(map[], plan, today, reason, ratioOf)
  }

  lemma {:induction false} RecordsMerge(removed: RemovedHistory, plan: seq<Torrent>, today: int, reason: Reason,
                                        ratioOf: Torrent -> int)
    ensures RecordAll(removed, plan, today, reason, ratioOf) == removed + Records(plan, today, reason, ratioOf)
  {
    if plan != [] {
      RecordsMerge(removed, plan[..|plan| - 1], today, reason, ratioOf);
    }
  }

  lemma {:induction false} RecordsAre(plan: seq<Torrent>, today: int, reason: Reason, ratioOf: Torrent -> int)
    ensures var records := Records(plan, today, reason, ratioOf);
            && records.Keys == CleanupTheory.NamesOf(plan) && Rated(records)
            && forall n :: n in records ==>
                 exists t :: t in plan && t.name == n && records[n] == Removal(today, reason, Some(ratioOf(t)))
  {
    if plan != [] {
      var init, last := plan[..|plan| - 1], plan[|plan| - 1];
      RecordsAre(init, today, reason, ratioOf);
      NamesSnoc(init, last);
      assert plan == init + [last];
      var before, records := Records(init, today, reason, ratioOf), Records(plan, today, reason, ratioOf);
      assert records == before[last.name := Removal(today, reason, Some(ratioOf(last)))];
      hide RecordAll, Records;
      forall n | n in records
        ensures exists t :: t in plan && t.name == n && records[n] == Removal(today, reason, Some(ratioOf(t)))
      {
        if n == last.name {
          assert last in plan;
        } else {
          var t :| t in init && t.name == n && before[n] == Removal(today, reason, Some(ratioOf(t)));
          assert t in plan;
        }
      }
    }
  }

  lemma NamesSnoc(init: seq<Torrent>, last: Torrent)
    ensures CleanupTheory.NamesOf(init + [last]) == CleanupTheory.NamesOf(init) + {last.name}
  {
    var all := init + [last];
    assert all[|init|] == last && forall k :: 0 <= k < |init| ==> all[k] == init[k];
    forall n | n in CleanupTheory.NamesOf(init) + {last.name}
      ensures n in CleanupTheory.NamesOf(all)
    {
      if n in CleanupTheory.NamesOf(init) {
        var k :| 0 <= k < |init| && init[k].name == n;
        assert all[k].name == n;
      }
    }
  }

  /** Carrying out a plan is its removals from the books, whether or not the log lists the torrents. */
  lemma {:induction false} CarryIsRemovals(s: State, plan: seq<Torrent>, today: int, reason: Reason,
                                           ratioOf: Torrent -> int)
    requires DistinctIds(s.held) && DistinctNames(s.held) && OfHeld(s.held, plan)
    ensures var after, records := Carry(s, plan, today, reason, ratioOf), Records(plan, today, reason, ratioOf);
            && DistinctIds(after.held) && DistinctNames(after.held) && Rated(records)
            && BooksOf(after) == RemoveAll(BooksOf(s), records)
  {
    RecordsAre(plan, today, reason, ratioOf);
    RecordsMerge(s.removed, plan, today, reason, ratioOf);
    ListedWithout(s.held, plan);
    WithoutIs(s.held, Ids(plan));
    WithoutNames(s.held, Ids(plan));
    hide Listed, Without, DistinctIds, DistinctNames, RecordAll, Records, Ids, Rated, CleanupTheory.NamesOf;
  }

  // ---------------------------------------------------------------------------
  // Exactly when cleanups move some gate
  // ---------------------------------------------------------------------------

  ghost predicate SameGate(s: State, after: State) {
    forall name, skipRatioCheck :: DistroOf(name).Some? ==>
      (Gate(after, name, skipRatioCheck) <==> Gate(s, name, skipRatioCheck))
  }

  lemma SameGateIs(s: State, after: State)
    requires DistinctNames(s.held) && DistinctNames(after.held)
    ensures SameGate(s, after) <==> forall name :: Fetches(BooksOf(after), name) <==> Fetches(BooksOf(s), name)
  {
    hide Gate, Fetches, BooksOf, DistroOf, Parse;
    forall name, skipRatioCheck | DistroOf(name).Some?
      ensures Gate(s, name, skipRatioCheck) <==> skipRatioCheck || Fetches(BooksOf(s), name)
      ensures Gate(after, name, skipRatioCheck) <==> skipRatioCheck || Fetches(BooksOf(after), name)
    {
      GateIs(s, name, skipRatioCheck);
      GateIs(after, name, skipRatioCheck);
    }
    forall name | DistroOf(name).None?
      ensures Fetches(BooksOf(s), name) && Fetches(BooksOf(after), name)
    {
      FetchesAnyOther(BooksOf(s), name);
      FetchesAnyOther(BooksOf(after), name);
    }
    forall name | SameGate(s, after)
      ensures Fetches(BooksOf(after), name) <==> Fetches(BooksOf(s), name)
    {
      if DistroOf(name).Some? {
        assert Gate(after, name, false) <==> Gate(s, name, false);
      }
    }
  }

  lemma FetchesAnyOther(b: Books, name: string)
    requires DistroOf(name).None?
    ensures Fetches(b, name)
  {
  }

  /** Carrying out any plan of held torrents, with whatever ratios they are held and recorded: no
      versioned candidate's gate moves if and only if, for every version some of them reads as, what will
      speak for it is at 1.0 or more just when the version after it would be fetched now. */
  lemma {:induction false} CleanupMovesAGateIff(s: State, plan: seq<Torrent>, today: int, reason: Reason,
                                                ratioOf: Torrent -> int)
    requires DistinctIds(s.held) && DistinctNames(s.held) && OfHeld(s.held, plan)
    ensures Rated(Records(plan, today, reason, ratioOf))
    ensures SameGate(s, Carry(s, plan, today, reason, ratioOf))
            <==> Unmoved(BooksOf(s), Records(plan, today, reason, ratioOf))
  {
    hide *;
    CarryIsRemovals(s, plan, today, reason, ratioOf);
    SameGateIs(s, Carry(s, plan, today, reason, ratioOf));
    RemovalsMoveAGateIff(BooksOf(s), Records(plan, today, reason, ratioOf));
  }

  /** One torrent. */
  lemma {:induction false} RemovingATorrentMovesAGateIff(s: State, t: Torrent, today: int, reason: Reason,
                                                         ratioOf: Torrent -> int, at: Parsed)
    requires DistinctIds(s.held) && DistinctNames(s.held) && t in s.held && Parse(t.name) == Some(at)
    ensures var records := map[t.name := Removal(today, reason, Some(ratioOf(t)))];
            && PlannedFor(records, at) == {t.name}
            && (SameGate(s, Carry(s, [t], today, reason, ratioOf))
                <==> (SpeakerAfter(BooksOf(s), records, at) >= FULL <==> Open(BooksOf(s), at.group, at.version + [0])))
  {
    hide *;
    CarryOfOne(s, t, today, reason, ratioOf);
    SameGateIs(s, Carry(s, [t], today, reason, ratioOf));
    RemovalMovesAGateIff(BooksOf(s), t.name, Removal(today, reason, Some(ratioOf(t))), at);
  }

  datatype Chore = Chore(plan: seq<Torrent>, today: int, reason: Reason, ratioOf: Torrent -> int)

  /** The state after several plans, one after the other. */
  ghost function CarryAll(s: State, chores: seq<Chore>): State
    decreases |chores|
  {
    if chores == [] then s
    else
      var c := chores[0];
      CarryAll(Carry(s, c.plan, c.today, c.reason, c.ratioOf), chores[1..])
  }

  /** All they write, a later record in place of an earlier one of the same name. */
  function AllRecords(chores: seq<Chore>): RemovedHistory
    decreases |chores|
  {
    if chores == [] then map[]
    else
      var c := chores[0];
      Records(c.plan, c.today, c.reason, c.ratioOf) + AllRecords(chores[1..])
  }

  /** Every plan is of torrents still held when its turn comes. */
  ghost predicate AllOfHeld(s: State, chores: seq<Chore>)
    decreases |chores|
  {
    chores == []
    || (var c := chores[0];
        OfHeld(s.held, c.plan) && AllOfHeld(Carry(s, c.plan, c.today, c.reason, c.ratioOf), chores[1..]))
  }

  lemma {:induction false} CarryAllIsRemovals(s: State, chores: seq<Chore>)
    requires DistinctIds(s.held) && DistinctNames(s.held) && AllOfHeld(s, chores)
    ensures Rated(AllRecords(chores))
    ensures var after := CarryAll(s, chores);
            DistinctNames(after.held) && BooksOf(after) == RemoveAll(BooksOf(s), AllRecords(chores))
    decreases |chores|
  {
    hide Carry, BooksOf, DistinctIds, DistinctNames, Records, OfHeld;
    if chores == [] {
      assert RemoveAll(BooksOf(s), map[]) == BooksOf(s);
    } else {
      var c := chores[0];
      var next := Carry(s, c.plan, c.today, c.reason, c.ratioOf);
      var records := Records(c.plan, c.today, c.reason, c.ratioOf);
      CarryIsRemovals(s, c.plan, c.today, c.reason, c.ratioOf);
      CarryAllIsRemovals(next, chores[1..]);
      RemovalsAddUp(BooksOf(s), records, AllRecords(chores[1..]));
    }
  }

  lemma RemovalsAddUp(b: Books, records: RemovedHistory, more: RemovedHistory)
    requires Rated(records) && Rated(more)
    ensures RemoveAll(RemoveAll(b, records), more) == RemoveAll(b, records + more) && Rated(records + more)
  {
  }

  /** The same for any sequence of plans: what one of them moves another one may move back. */
  lemma {:induction false} CleanupsMoveAGateIff(s: State, chores: seq<Chore>)
    requires DistinctIds(s.held) && DistinctNames(s.held) && AllOfHeld(s, chores)
    ensures Rated(AllRecords(chores))
    ensures SameGate(s, CarryAll(s, chores)) <==> Unmoved(BooksOf(s), AllRecords(chores))
  {
    hide *;
    CarryAllIsRemovals(s, chores);
    SameGateIs(s, CarryAll(s, chores));
    RemovalsMoveAGateIff(BooksOf(s), AllRecords(chores));
  }

  // ---------------------------------------------------------------------------
  // Fair plans move none
  // ---------------------------------------------------------------------------

  /** A plan of held torrents the log lists, each recorded with a ratio on its side of 1.0. */
  ghost predicate FairPlan(held: seq<Torrent>, plan: seq<Torrent>, ratioOf: Torrent -> int) {
    forall t :: t in plan ==> t in held && t.ratio >= 0 && (ratioOf(t) >= FULL <==> t.ratio >= FULL)
  }

  /** What the theorem needs of a state, and plans keep. */
  ghost predicate Tidy(s: State) {
    DistinctIds(s.held) && DistinctNames(s.held) && NoTwins(BooksOf(s))
  }

  lemma FairPlanIsFair(s: State, plan: seq<Torrent>, today: int, reason: Reason, ratioOf: Torrent -> int)
    requires DistinctNames(s.held) && FairPlan(s.held, plan, ratioOf)
    ensures OfHeld(s.held, plan) && Fair(BooksOf(s), Records(plan, today, reason, ratioOf))
  {
    RecordsAre(plan, today, reason, ratioOf);
    ListedIs(s.held);
    hide Records, Listed, CleanupTheory.NamesOf;
    var records := Records(plan, today, reason, ratioOf);
    forall n | n in records
      ensures n in Listed(s.held) && (records[n].ratio.value >= FULL <==> Listed(s.held)[n] >= FULL)
    {
      var t :| t in plan && t.name == n && records[n] == Removal(today, reason, Some(ratioOf(t)));
    }
  }

  /** Carrying out any plan of listed torrents, each recorded on its side of 1.0, leaves the gate of every
      versioned candidate where it was, if no two names on the books read as the same version. */
  lemma {:induction false} CleanupNeverMovesTheGate(s: State, plan: seq<Torrent>, today: int, reason: Reason,
                                                    ratioOf: Torrent -> int)
    requires Tidy(s) && FairPlan(s.held, plan, ratioOf)
    ensures var after := Carry(s, plan, today, reason, ratioOf); Tidy(after) && SameGate(s, after)
  {
    TidyIs(s);
    TidyIs(Carry(s, plan, today, reason, ratioOf));
    hide *;
    FairPlanIsFair(s, plan, today, reason, ratioOf);
    CarryIsRemovals(s, plan, today, reason, ratioOf);
    FairRemovalsMoveNoGate(BooksOf(s), Records(plan, today, reason, ratioOf));
    CleanupMovesAGateIff(s, plan, today, reason, ratioOf);
  }

  lemma SameGateAsItself(s: State)
    ensures SameGate(s, s)
  {
  }

  lemma SameGateChains(a: State, b: State, c: State)
    requires SameGate(a, b) && SameGate(b, c)
    ensures SameGate(a, c)
  {
    hide Gate, DistroOf;
    forall name, skipRatioCheck | DistroOf(name).Some?
      ensures Gate(c, name, skipRatioCheck) <==> Gate(a, name, skipRatioCheck)
    {
      assert Gate(b, name, skipRatioCheck) <==> Gate(a, name, skipRatioCheck);
    }
  }

  /** The run right after the cleanup still reads the log printed before it, beside the new history: its
      gates are where they were even with twins on the books. */
  lemma {:induction false} TheRunInBetween(s: State, plan: seq<Torrent>, today: int, reason: Reason,
                                           ratioOf: Torrent -> int, name: string, skipRatioCheck: bool)
    requires DistinctNames(s.held) && FairPlan(s.held, plan, ratioOf) && DistroOf(name).Some?
    ensures ShouldFetch(name, LogOf(s.held), Filed(Carry(s, plan, today, reason, ratioOf).removed), skipRatioCheck)
            <==> Gate(s, name, skipRatioCheck)
  {
    var removed := RecordAll(s.removed, plan, today, reason, ratioOf);
    var records := Records(plan, today, reason, ratioOf);
    assert Carry(s, plan, today, reason, ratioOf).removed == removed;
    FairPlanIsFair(s, plan, today, reason, ratioOf);
    RecordsMerge(s.removed, plan, today, reason, ratioOf);
    FairIsListed(BooksOf(s), records);
    var c := Books(Listed(s.held), removed);
    assert BooksOf(s) == Books(Listed(s.held), s.removed);
    hide *;
    GateIs(s, name, skipRatioCheck);
    LogLists(s.held);
    FiledFiles(removed);
    GateReadsTheBooks(LogOf(s.held), Filed(removed), c, name, skipRatioCheck);
    ListedRecordsAreIgnored(BooksOf(s), c, name);
  }

  lemma FairIsListed(b: Books, records: RemovedHistory)
    requires Fair(b, records)
    ensures forall n :: n in records ==> n in b.listed
  {
  }

  /** Every plan is of torrents still held and listed when its turn comes. */
  ghost predicate AllFair(s: State, chores: seq<Chore>)
    decreases |chores|
  {
    chores == []
    || (var c := chores[0];
        FairPlan(s.held, c.plan, c.ratioOf) && AllFair(Carry(s, c.plan, c.today, c.reason, c.ratioOf), chores[1..]))
  }

  /** Nor does any sequence of plans. */
  lemma {:induction false} CleanupsNeverMoveTheGate(s: State, chores: seq<Chore>)
    requires Tidy(s) && AllFair(s, chores)
    ensures Tidy(CarryAll(s, chores)) && SameGate(s, CarryAll(s, chores))
    decreases |chores|
  {
    hide Tidy, SameGate, Carry, FairPlan;
    if chores == [] {
      SameGateAsItself(s);
    } else {
      var c := chores[0];
      var next := Carry(s, c.plan, c.today, c.reason, c.ratioOf);
      CleanupNeverMovesTheGate(s, c.plan, c.today, c.reason, c.ratioOf);
      CleanupsNeverMoveTheGate(next, chores[1..]);
      SameGateChains(s, next, CarryAll(s, chores));
    }
  }

  // ---------------------------------------------------------------------------
  // The cleanup paths
  // ---------------------------------------------------------------------------

  lemma DrawnPlanIsFair(held: seq<Torrent>, plan: seq<Torrent>, ratioOf: Torrent -> int)
    requires DistinctIds(held) && DistinctNames(held) && DrawnFrom(plan, OldVersionCandidates(held))
    requires forall t :: t in plan ==> t.ratio >= 0
    requires forall t :: t in held ==> ratioOf(t) == t.ratio
    ensures FairPlan(held, plan, ratioOf)
  {
    hide OldVersionCandidates, DistinctIds, DistinctNames;
    GoodPlan(held, plan);
    SupersededAreHeld(held);
  }

  lemma {:induction false} ListedRatioIsOwn(held: seq<Torrent>)
    requires DistinctNames(held)
    ensures forall t :: t in held ==> ListedRatio(CurrentRatios(held))(t) == t.ratio
  {
    forall t | t in held
      ensures t.name in CurrentRatios(held) && CurrentRatios(held)[t.name] == t.ratio
    {
      CleanupTheory.CurrentIs(held, t);
    }
  }

  /** `cleanup_old_versions` with a floor that is not negative moves no gate, whatever else is held. */
  lemma {:induction false} RatioCleanupMovesNoGate(s: State, today: int, minRatio: int)
    requires Tidy(s) && minRatio >= 0
    ensures SameGate(s, Carry(s, PlanCleanup(s.held, false, minRatio), today, KeepOnlyLatest, OwnRatio()))
  {
    hide OldVersionCandidates, SameGate, Carry, NoTwins, DistinctIds, DistinctNames;
    var pick := EarnedEnough(false, minRatio);
    SelectIsDrawn(OldVersionCandidates(s.held), pick);
    SelectIs(OldVersionCandidates(s.held), pick);
    DrawnPlanIsFair(s.held, PlanCleanup(s.held, false, minRatio), OwnRatio());
    CleanupNeverMovesTheGate(s, PlanCleanup(s.held, false, minRatio), today, KeepOnlyLatest, OwnRatio());
  }

  lemma DrawnAreCandidates(plan: seq<Torrent>, candidates: seq<Torrent>)
    requires DrawnFrom(plan, candidates)
    ensures forall t :: t in plan ==> t in candidates
  {
    forall t | t in plan
      ensures t in candidates
    {
      assert t in multiset(plan);
      assert t in multiset(candidates);
    }
  }

  /** With no negative ratio among the candidates neither the stagnation cleanup nor the disk valve moves one. */
  lemma {:induction false} StagnationAndPressureMoveNoGate(s: State, history: History, today: int, window: int,
                                                           minDelta: int, first: Disk, disk: nat -> Disk,
                                                           threshold: real)
    requires Tidy(s) && forall t :: t in OldVersionCandidates(s.held) ==> t.ratio >= 0
    ensures SameGate(s, Carry(s, PlanStagnation(s.held, history, today, window, minDelta), today, Stagnant,
                              ListedRatio(CurrentRatios(s.held))))
    ensures SameGate(s, Carry(s, PlanPressure(s.held, first, disk, threshold), today, DiskPressure, OwnRatio()))
  {
    hide OldVersionCandidates, SameGate, Carry, NoTwins, DistinctIds, DistinctNames, PlanPressure, ListedRatio,
         Stagnates;
    var stagnant, pressed := PlanStagnation(s.held, history, today, window, minDelta),
                             PlanPressure(s.held, first, disk, threshold);
    SelectIsDrawn(OldVersionCandidates(s.held), Stagnates(history, today, window, minDelta));
    PressureIsDrawn(s.held, first, disk, threshold);
    DrawnAreCandidates(stagnant, OldVersionCandidates(s.held));
    DrawnAreCandidates(pressed, OldVersionCandidates(s.held));
    ListedRatioIsOwn(s.held);
    DrawnPlanIsFair(s.held, stagnant, ListedRatio(CurrentRatios(s.held)));
    DrawnPlanIsFair(s.held, pressed, OwnRatio());
    CleanupNeverMovesTheGate(s, stagnant, today, Stagnant, ListedRatio(CurrentRatios(s.held)));
    CleanupNeverMovesTheGate(s, pressed, today, DiskPressure, OwnRatio());
  }

  // ---------------------------------------------------------------------------
  // Removed versions that are offered again
  // ---------------------------------------------------------------------------

  /** What becomes of a name upstream lists and still hosts: `_fetch_latest` asks the gate, and
      `download_torrent` the watch directory. Neither asks whether the name was removed. */
  ghost predicate Downloads(ratios: seq<Live>, removed: RemovedHistory, watch: set<string>, name: string,
                            skipRatioCheck: bool) {
    ShouldFetch(name, ratios, Filed(removed), skipRatioCheck) && WatchDirectory.SafeName(name) && name !in watch
  }

  lemma PlannedLeavesTheWatch(s: State, plan: seq<Torrent>, today: int, reason: Reason, ratioOf: Torrent -> int,
                              t: Torrent)
    requires t in plan && WatchDirectory.SafeName(t.name)
    ensures t.name !in Carry(s, plan, today, reason, ratioOf).watch
  {
    var k :| 0 <= k < |plan| && plan[k] == t;
    hide Without, RecordAll, Events, WatchDirectory.SafeName;
    assert WatchDirectory.SafeName(plan[k].name) && plan[k].name in SafeNames(plan);
  }

  lemma GateIsOfTheOlder(held: seq<Torrent>, removed: RemovedHistory, name: string, at: Parsed, skipRatioCheck: bool)
    requires DistinctNames(held) && Parse(name) == Some(at)
    ensures ShouldFetch(name, LogOf(held), Filed(removed), skipRatioCheck)
            <==> skipRatioCheck
                 || Open(OlderOnly(Books(Listed(held), removed), at.group, at.version), at.group, at.version)
  {
    NotDevuan(name);
    var b := Books(Listed(held), removed);
    assert Fetches(b, name) <==> Open(b, at.group, at.version);
    hide *;
    LogLists(held);
    FiledFiles(removed);
    assert b.listed == Listed(held) && b.removed == removed;
    GateReadsTheBooks(LogOf(held), Filed(removed), b, name, skipRatioCheck);
    GateReadsOlderOnly(b, at.group, at.version);
  }

  /** A torrent that a cleanup removed, for whatever reason and with whatever ratio, is downloaded again
      if and only if its own gate is open: in the next run, which still reads the log from before the
      cleanup, and in the runs after that. That gate reads strictly older versions only, so never the
      record of its removal. */
  lemma {:induction false} RemovedComesBackIff(s: State, plan: seq<Torrent>, today: int, reason: Reason,
                                               ratioOf: Torrent -> int, t: Torrent, at: Parsed, skipRatioCheck: bool)
    requires DistinctIds(s.held) && DistinctNames(s.held) && OfHeld(s.held, plan) && t in plan
    requires WatchDirectory.SafeName(t.name) && Parse(t.name) == Some(at)
    ensures var after := Carry(s, plan, today, reason, ratioOf);
            var next, later := Books(Listed(s.held), after.removed), BooksOf(after);
            && (Downloads(LogOf(s.held), after.removed, after.watch, t.name, skipRatioCheck)
                <==> skipRatioCheck || Open(OlderOnly(next, at.group, at.version), at.group, at.version))
            && (Downloads(LogOf(after.held), after.removed, after.watch, t.name, skipRatioCheck)
                <==> skipRatioCheck || Open(OlderOnly(later, at.group, at.version), at.group, at.version))
            && t.name !in OlderOnly(next, at.group, at.version).removed
            && t.name !in OlderOnly(later, at.group, at.version).removed
  {
    var after := Carry(s, plan, today, reason, ratioOf);
    Lex.Trichotomy(at.version, at.version);
    BooksAre(after);
    assert !ReadsOlder(t.name, at.group, at.version);
    hide Parse, Carry, Listed, LogOf, Filed, ShouldFetch, Open, BooksOf, DistinctIds, DistinctNames, ReadsOlder,
         WatchDirectory.SafeName;
    CarryIsRemovals(s, plan, today, reason, ratioOf);
    PlannedLeavesTheWatch(s, plan, today, reason, ratioOf, t);
    GateIsOfTheOlder(s.held, after.removed, t.name, at, skipRatioCheck);
    GateIsOfTheOlder(after.held, after.removed, t.name, at, skipRatioCheck);
  }

  /** So the oldest version of an image that upstream lists is downloaded again in the very next run, or
      in a later one on the same books, whatever its own ratio was. */
  lemma {:induction false} TheOldestComesBack(s: State, plan: seq<Torrent>, today: int, reason: Reason,
                                              ratioOf: Torrent -> int, t: Torrent, at: Parsed, skipRatioCheck: bool)
    requires DistinctIds(s.held) && DistinctNames(s.held) && OfHeld(s.held, plan) && t in plan
    requires WatchDirectory.SafeName(t.name) && Parse(t.name) == Some(at)
    requires forall u :: u in s.held ==> !ReadsOlder(u.name, at.group, at.version)
    requires forall n :: n in s.removed ==> !ReadsOlder(n, at.group, at.version)
    ensures var after := Carry(s, plan, today, reason, ratioOf);
            && Downloads(LogOf(s.held), after.removed, after.watch, t.name, skipRatioCheck)
            && Downloads(LogOf(after.held), after.removed, after.watch, t.name, skipRatioCheck)
  {
    var after := Carry(s, plan, today, reason, ratioOf);
    var next, later := Books(Listed(s.held), after.removed), BooksOf(after);
    RecordsMerge(s.removed, plan, today, reason, ratioOf);
    RecordsAre(plan, today, reason, ratioOf);
    ListedIs(s.held);
    assert after.removed == s.removed + Records(plan, today, reason, ratioOf);
    hide Parse, Carry, Records, RecordAll, Listed, ReadsOlder, Open, Downloads, BooksOf, DistinctIds, DistinctNames,
         CleanupTheory.NamesOf, WatchDirectory.SafeName;
    CarryIsRemovals(s, plan, today, reason, ratioOf);
    BooksAre(s);
    forall n | n in Names(next)
      ensures !ReadsOlder(n, at.group, at.version)
    {
    }
    assert Names(later) <= Names(next);
    RemovedComesBackIff(s, plan, today, reason, ratioOf, t, at, skipRatioCheck);
    OldestIsOpen(next, at.group, at.version);
    OldestIsOpen(later, at.group, at.version);
    GateReadsOlderOnly(next, at.group, at.version);
    GateReadsOlderOnly(later, at.group, at.version);
  }

  // ---------------------------------------------------------------------------
  // States in which a cleanup does close a gate
  // ---------------------------------------------------------------------------

  lemma Placed(t: Torrent, group: Group, version: Version)
    requires Parse(t.name) == Some(Parsed(group, version))
    ensures Place(t).Some? && Place(t).value.family == Versioned(group) && Rank(t) == version
  {
    NotDevuan(t.name);
    hide Parse, DistroOf;
  }

  /** Of two versions of one image the older one is the only candidate. */
  lemma TwoHeld(t: Torrent, u: Torrent, f: Family, pick: Torrent -> bool)
    requires t.id != u.id && Place(t).Some? && Place(u).Some? && Place(t).value.family == Place(u).value.family == f
    requires Lex.Less(Rank(t), Rank(u)) && pick(t)
    ensures Select(OldVersionCandidates([t, u]), pick) == [t]
  {
    hide Place, Rank, OldVersionCandidates, Lex.Less;
    var held := [t, u];
    assert held[..1] == [t] && [t][..0] == [];
    assert Newest([t], f) == Some(t);
    assert Newest(held, f) == Some(u);
    forall x
      ensures x in OldVersionCandidates(held) <==> x == t
      ensures multiset(OldVersionCandidates(held))[x] <= 1
    {
      CandidatesAreTheSuperseded(held, x);
    }
    hide Newest;
    OnlyOne(OldVersionCandidates(held), t);
    assert [t][..0] == [];
  }

  lemma OnlyOne(ts: seq<Torrent>, t: Torrent)
    requires forall x :: (x in ts <==> x == t) && multiset(ts)[x] <= 1
    ensures ts == [t]
  {
    assert t in ts;
    assert ts[0] in ts;
    if |ts| > 1 {
      assert ts[1] in ts;
      OnceAtMost(ts, 0, 1);
    }
  }

  lemma RecordsOfOne(t: Torrent, today: int, reason: Reason, ratioOf: Torrent -> int)
    ensures Records([t], today, reason, ratioOf) == map[t.name := Removal(today, reason, Some(ratioOf(t)))]
  {
    var none: seq<Torrent>, nothing: RemovedHistory := [], map[];
    assert [t][..0] == none && RecordAll(nothing, none, today, reason, ratioOf) == nothing;
    assert RecordAll(nothing, [t], today, reason, ratioOf)
        == nothing[t.name := Removal(today, reason, Some(ratioOf(t)))];
  }

  lemma CarryOfOne(s: State, t: Torrent, today: int, reason: Reason, ratioOf: Torrent -> int)
    requires DistinctIds(s.held) && DistinctNames(s.held) && t in s.held
    ensures var after := Carry(s, [t], today, reason, ratioOf);
            && DistinctIds(after.held) && DistinctNames(after.held)
            && BooksOf(after) == Remove(BooksOf(s), t.name, Removal(today, reason, Some(ratioOf(t))))
  {
    RecordsOfOne(t, today, reason, ratioOf);
    hide Carry, Records, BooksOf, DistinctNames, DistinctIds;
    CarryIsRemovals(s, [t], today, reason, ratioOf);
  }

  /** Where one version only is on record, it decides the gate of every later one. */
  lemma GateOfTheNext(s: State, at: Parsed, next: string, version: Version)
    requires DistinctNames(s.held) && Parse(next) == Some(Parsed(at.group, version)) && Lex.Less(at.version, version)
    requires forall other: Parsed :: other != at ==> Speaker(BooksOf(s), other).None?
    ensures Gate(s, next, false) <==> Speaker(BooksOf(s), at).None? || Speaker(BooksOf(s), at).value >= FULL
  {
    NotDevuan(next);
    hide Parse, Speaker, DistroOf, Gate, BooksOf, Lex.Less;
    GateIs(s, next, false);
    OnlyRecord(BooksOf(s), at, version);
  }

  /** Two versions held that nobody has downloaded from yet: Transmission reports their ratio as -1, so
      the log lists neither. */
  function UnlistedState(older: string, newer: string): State {
    State([Torrent(1, older, -1000, None), Torrent(2, newer, -1000, None)], {}, map[], [])
  }

  /** The history `cleanup_stagnant_torrents` judges by, when on file there is one sample of the older
      version, taken `window` days ago while it was the only one held. */
  function JudgedBy(older: string, newer: string, today: int, window: int): History {
    var s := UnlistedState(older, newer);
    UpdateHistory(map[older := [Sample(today - window, -1000)]], CurrentRatios(s.held), today, SAMPLE_INTERVAL, window,
                  Dates(s.removed))
  }

  lemma UnlistedBooks(older: string, newer: string)
    requires older != newer
    ensures var s := UnlistedState(older, newer);
            DistinctIds(s.held) && DistinctNames(s.held) && BooksOf(s) == Books(map[], map[])
  {
    var held := UnlistedState(older, newer).held;
    assert held[..1] == [held[0]] && [held[0]][..0] == [];
    assert Listed([held[0]]) == map[];
  }

  lemma UnlistedPlan(older: string, newer: string, group: Group, v: Version, w: Version, today: int, window: int,
                     minDelta: int)
    requires Parse(older) == Some(Parsed(group, v)) && Parse(newer) == Some(Parsed(group, w)) && Lex.Less(v, w)
    requires older != newer && window >= 1 && minDelta > 0
    ensures var s := UnlistedState(older, newer);
            PlanStagnation(s.held, JudgedBy(older, newer, today, window), today, window, minDelta) == [s.held[0]]
  {
    var s := UnlistedState(older, newer);
    var t, u := s.held[0], s.held[1];
    assert s.held == [t, u] && t.name == older && u.name == newer && t.id != u.id && t.ratio == -1000;
    UnlistedStagnates(older, newer, today, window, minDelta);
    hide *;
    Placed(t, group, v);
    Placed(u, group, w);
    var pick := Stagnates(JudgedBy(older, newer, today, window), today, window, minDelta);
    TwoHeld(t, u, Versioned(group), pick);
    PlanStagnationIs(s.held, JudgedBy(older, newer, today, window), today, window, minDelta);
  }

  lemma PlanStagnationIs(held: seq<Torrent>, history: History, today: int, window: int, minDelta: int)
    ensures PlanStagnation(held, history, today, window, minDelta)
         == Select(OldVersionCandidates(held), Stagnates(history, today, window, minDelta))
  {
  }

  lemma UnlistedStagnates(older: string, newer: string, today: int, window: int, minDelta: int)
    requires older != newer && window >= 1 && minDelta > 0
    ensures var t := UnlistedState(older, newer).held[0];
            Stagnates(JudgedBy(older, newer, today, window), today, window, minDelta)(t)
  {
    var s := UnlistedState(older, newer);
    var history := map[older := [Sample(today - window, -1000)]];
    UnlistedBooks(older, newer);
    CleanupTheory.CurrentIs(s.held, s.held[0]);
    UpdatedAnchor(today, window);
    hide Anchor, Update, CurrentRatios, DistinctNames, DistinctIds, BooksOf;
    assert SamplesOf(JudgedBy(older, newer, today, window), older)
        == Update([Sample(today - window, -1000)], None, today, -1000, SAMPLE_INTERVAL, window);
  }

  lemma UpdatedAnchor(today: int, window: int)
    requires window >= 1
    ensures Anchor(Update([Sample(today - window, -1000)], None, today, -1000, SAMPLE_INTERVAL, window), today, window)
         == Some(Sample(today - window, -1000))
  {
    var samples := [Sample(today - window, -1000)];
    hide Update, Anchor, AllNewer, NoneNewer;
    var k, grown, j := UpdateShape(samples, None, today, -1000, SAMPLE_INTERVAL, window);
    assert samples[0..] == samples && grown[0] == samples[0];
    Cut(grown, j, today - (window + SAMPLE_INTERVAL) - 1, 0);
    assert grown[0..] == grown;
    AnchorIsTheOldest(grown, today, window, SAMPLE_INTERVAL);
  }

  /** Without any twins, for any two versions of one image: the stagnation cleanup removes the older one
      and records its ratio of -1, and the gate of every later version, open before, is closed. */
  lemma {:induction false} StagnationClosesAGate(older: string, newer: string, next: string, group: Group, v: Version,
                                                 w: Version, n: Version, today: int, window: int, minDelta: int)
    requires Parse(older) == Some(Parsed(group, v)) && Parse(newer) == Some(Parsed(group, w)) && Lex.Less(v, w)
    requires Parse(next) == Some(Parsed(group, n)) && Lex.Less(v, n) && window >= 1 && minDelta > 0
    ensures var s := UnlistedState(older, newer);
            var plan := PlanStagnation(s.held, JudgedBy(older, newer, today, window), today, window, minDelta);
            var after := Carry(s, plan, today, Stagnant, ListedRatio(CurrentRatios(s.held)));
            Tidy(s) && Tidy(after) && Gate(s, next, false) && !Gate(after, next, false)
  {
    Lex.Trichotomy(v, w);
    assert FULL == 1000;
    hide *;
    var s, at := UnlistedState(older, newer), Parsed(group, v);
    UnlistedBooks(older, newer);
    UnlistedPlan(older, newer, group, v, w, today, window, minDelta);
    UnlistedCarried(older, newer, today);
    RecordOfTheUnlisted(older, Removal(today, Stagnant, Some(-1000)), at);
    var after := Carry(s, [s.held[0]], today, Stagnant, ListedRatio(CurrentRatios(s.held)));
    TidyIs(s);
    TidyIs(after);
    GateOfTheNext(s, at, next, n);
    GateOfTheNext(after, at, next, n);
  }

  lemma UnlistedCarried(older: string, newer: string, today: int)
    requires older != newer
    ensures var s := UnlistedState(older, newer);
            && |s.held| == 2
            && var after := Carry(s, [s.held[0]], today, Stagnant, ListedRatio(CurrentRatios(s.held)));
            && DistinctIds(after.held) && DistinctNames(after.held)
            && BooksOf(after) == Remove(Books(map[], map[]), older, Removal(today, Stagnant, Some(-1000)))
  {
    FirstHeld(older, newer);
    hide *;
    var s := UnlistedState(older, newer);
    UnlistedBooks(older, newer);
    ListedRatioIsOwn(s.held);
    CarryOfOne(s, s.held[0], today, Stagnant, ListedRatio(CurrentRatios(s.held)));
  }

  lemma FirstHeld(older: string, newer: string)
    ensures var s := UnlistedState(older, newer);
            |s.held| == 2 && s.held[0] in s.held && s.held[0].name == older && s.held[0].ratio == -1000
  {
  }

  lemma TidyIs(s: State)
    ensures Tidy(s) <==> DistinctIds(s.held) && DistinctNames(s.held) && NoTwins(BooksOf(s))
  {
  }

  lemma RecordOfTheUnlisted(name: string, record: Removal, at: Parsed)
    requires Parse(name) == Some(at) && record.ratio == Some(-1000)
    ensures var b := Books(map[], map[]);
            var after := Remove(b, name, record);
            && NoTwins(b) && NoTwins(after)
            && (forall other :: Speaker(b, other).None?)
            && (forall other: Parsed :: other != at ==> Speaker(after, other).None?)
            && Speaker(after, at) == Some(-1000)
  {
    hide Parse;
    var b := Books(map[], map[]);
    var after, records := Remove(b, name, record), map[name := record];
    forall other
      ensures Speaker(b, other).None?
      ensures other != at ==> Speaker(after, other).None?
    {
      if other != at {
        assert PlannedFor(records, other) == {};
        RemovalsElsewhere(b, records, other);
      }
    }
    assert PlannedFor(records, at) == {name};
    RemovalsSpeak(b, records, at);
    FirstIs(name, {name});
    assert RemovedFor(b, at) + PlannedFor(records, at) == {name};
  }

  // ---------------------------------------------------------------------------
  // Twins
  // ---------------------------------------------------------------------------

  /** One of two twins is on the removed history with a ratio of 0.2, the other one is held at 1.5, and
      a newer version has just been added. */
  function TwinState(gone: string, twin: string, newer: string, day: int): State {
    State([Torrent(1, twin, 1500, None), Torrent(2, newer, -1000, None)], {},
          map[gone := Removal(day, Stagnant, Some(200))], [])
  }

  lemma TwinBooks(gone: string, twin: string, newer: string, day: int)
    requires twin != newer
    ensures var s := TwinState(gone, twin, newer, day);
            && DistinctIds(s.held) && DistinctNames(s.held) && |s.held| == 2 && s.held[0] in s.held
            && s.held[0].name == twin && OwnRatio()(s.held[0]) == 1500
            && BooksOf(s) == Books(map[twin := 1500], map[gone := Removal(day, Stagnant, Some(200))])
  {
    var held := TwinState(gone, twin, newer, day).held;
    assert held[..1] == [held[0]] && [held[0]][..0] == [];
    assert Listed([held[0]]) == map[twin := 1500];
  }

  lemma TwinPlan(gone: string, twin: string, newer: string, group: Group, v: Version, w: Version, day: int)
    requires Parse(twin) == Some(Parsed(group, v)) && Parse(newer) == Some(Parsed(group, w)) && Lex.Less(v, w)
    ensures var s := TwinState(gone, twin, newer, day); PlanCleanup(s.held, false, 1000) == [s.held[0]]
  {
    var s := TwinState(gone, twin, newer, day);
    var t, u := s.held[0], s.held[1];
    hide Parse, Lex.Less;
    Placed(t, group, v);
    Placed(u, group, w);
    hide OldVersionCandidates, Select, Place, Rank;
    assert s.held == [t, u];
    TwoHeld(t, u, Versioned(group), EarnedEnough(false, 1000));
  }

  lemma TwinRecords(gone: string, twin: string, record: Removal, at: Parsed, day: int)
    requires Parse(gone) == Parse(twin) == Some(at) && NameLess(gone, twin) && record.ratio.Some?
    ensures var b := Books(map[twin := 1500], map[gone := Removal(day, Stagnant, Some(200))]);
            var after := Remove(b, twin, record);
            && (forall other: Parsed :: other != at ==> Speaker(b, other).None? && Speaker(after, other).None?)
            && Speaker(b, at) == Some(1500) && Speaker(after, at) == Some(200)
  {
    hide Parse, NameLess;
    var b := Books(map[twin := 1500], map[gone := Removal(day, Stagnant, Some(200))]);
    var records := map[twin := record];
    NameTrichotomy(gone, twin);
    forall other: Parsed | other != at
      ensures Speaker(b, other).None? && Speaker(Remove(b, twin, record), other).None?
    {
      assert PlannedFor(records, other) == {};
      RemovalsElsewhere(b, records, other);
      assert ListedFor(b.listed, other) == map[] && RemovedFor(b, other) == {};
    }
    assert twin in ListedFor(b.listed, at);
    LeastOfOne(ListedFor(b.listed, at), twin);
    assert PlannedFor(records, at) == {twin} && gone !in records;
    RemovalsSpeak(b, records, at);
    assert ListedFor(b.listed - records.Keys, at) == map[];
    assert RemovedFor(b, at) + PlannedFor(records, at) == {gone, twin};
    FirstIs(gone, {gone, twin});
  }

  /** The cleanup by ratio removes the held twin at 1.5; from then on the one that comes first by name
      speaks for the version, with 0.2, and the gate of every later version is closed. */
  lemma {:induction false} TwinClosesAGate(gone: string, twin: string, newer: string, next: string, group: Group,
                                           v: Version, w: Version, n: Version, day: int, today: int)
    requires Parse(gone) == Parse(twin) == Some(Parsed(group, v)) && NameLess(gone, twin)
    requires Parse(newer) == Some(Parsed(group, w)) && Lex.Less(v, w)
    requires Parse(next) == Some(Parsed(group, n)) && Lex.Less(v, n)
    ensures var s := TwinState(gone, twin, newer, day);
            var after := Carry(s, PlanCleanup(s.held, false, 1000), today, KeepOnlyLatest, OwnRatio());
            Gate(s, next, false) && !Gate(after, next, false)
  {
    Lex.Trichotomy(v, w);
    assert FULL == 1000;
    hide *;
    var s, at := TwinState(gone, twin, newer, day), Parsed(group, v);
    TwinBooks(gone, twin, newer, day);
    TwinPlan(gone, twin, newer, group, v, w, day);
    CarryOfOne(s, s.held[0], today, KeepOnlyLatest, OwnRatio());
    TwinRecords(gone, twin, Removal(today, KeepOnlyLatest, Some(1500)), at, day);
    var after := Carry(s, [s.held[0]], today, KeepOnlyLatest, OwnRatio());
    GateOfTheNext(s, at, next, n);
    GateOfTheNext(after, at, next, n);
  }

  lemma TwinOrder()
    ensures NameLess(KaliName("24", "04"), KaliName("24", "4"))
  {
    var p := "kali-linux-24.";
    assert KaliName("24", "04") == p + "04-x" && KaliName("24", "4") == p + "4-x";
    assert Codes(p + "04-x") == Codes(p) + Codes("04-x") && Codes(p + "4-x") == Codes(p) + Codes("4-x");
    assert Codes("04-x")[0] < Codes("4-x")[0];
    hide Codes, KaliName;
    Lex.LessAfter(Codes(p), Codes("04-x"), Codes("4-x"));
  }

  /** There are such names: both failures happen, here to version 24.6 of one image. */
  lemma {:induction false} BothHappen(day: int, today: int, window: int, minDelta: int)
    requires window >= 1 && minDelta > 0
    ensures var s := UnlistedState(KaliName("24", "4"), KaliName("24", "5"));
            var history := JudgedBy(KaliName("24", "4"), KaliName("24", "5"), today, window);
            var plan := PlanStagnation(s.held, history, today, window, minDelta);
            && Gate(s, KaliName("24", "6"), false)
            && !Gate(Carry(s, plan, today, Stagnant, ListedRatio(CurrentRatios(s.held))), KaliName("24", "6"), false)
    ensures var s := TwinState(KaliName("24", "04"), KaliName("24", "4"), KaliName("24", "5"), day);
            var plan := PlanCleanup(s.held, false, 1000);
            && Gate(s, KaliName("24", "6"), false)
            && !Gate(Carry(s, plan, today, KeepOnlyLatest, OwnRatio()), KaliName("24", "6"), false)
  {
    Successive();
    hide *;
    SuccessiveNames();
    TwinNames();
    TwinOrder();
    var image := Group(Kali, "x");
    StagnationClosesAGate(KaliName("24", "4"), KaliName("24", "5"), KaliName("24", "6"), image, [24, 4], [24, 5],
                          [24, 6], today, window, minDelta);
    TwinClosesAGate(KaliName("24", "04"), KaliName("24", "4"), KaliName("24", "5"), KaliName("24", "6"), image, [24, 4],
                    [24, 5], [24, 6], day, today);
  }

  lemma Successive()
    ensures Lex.Less([24, 4], [24, 5]) && Lex.Less([24, 4], [24, 6])
  {
    assert [24, 4][1..] == [4] && [24, 5][1..] == [5] && [24, 6][1..] == [6];
  }
}
