/** The old-release check: which releases are evaluated, how often, and what is written. */
module OldReleases {
  import opened Optional
  import opened WatchDirectory

  datatype Scrape = Scrape(seeders: nat, leechers: nat)

  /** `has_unmet_demand`. */
  predicate HasUnmetDemand(scrape: Option<Scrape>, minLeechers: int, minRatio: real, allowZeroSeeders: bool) {
    && scrape.Some?
    && scrape.value.leechers >= minLeechers
    && if scrape.value.seeders == 0 then allowZeroSeeders
       else scrape.value.leechers as real >= minRatio * scrape.value.seeders as real
  }

  /** Demand is at least the floor, is never read into a swarm without seeders unless allowed, and
      does not vanish with more leechers or fewer seeders, the last seeder excepted. */
  lemma DemandIsMonotone(s: Scrape, t: Scrape, minLeechers: int, minRatio: real, allowZeroSeeders: bool)
    requires HasUnmetDemand(Some(s), minLeechers, minRatio, allowZeroSeeders)
    ensures s.leechers >= minLeechers && (s.seeders == 0 ==> allowZeroSeeders)
    ensures minRatio >= 0.0 && t.leechers >= s.leechers && (s.seeders == 0 || 0 < t.seeders)
              && t.seeders <= s.seeders ==>
              HasUnmetDemand(Some(t), minLeechers, minRatio, allowZeroSeeders)
  {
    if minRatio >= 0.0 && t.seeders <= s.seeders {
      ScaledKeepsOrder(minRatio, t.seeders as real, s.seeders as real);
    }
  }

  lemma ScaledKeepsOrder(r: real, a: real, b: real)
    requires r >= 0.0 && a <= b
    ensures r * a <= r * b
  {
  }

  /** The least number of leechers that counts as demand beside some seeders, for a ratio given as a
      fraction: the floor, or the ratio times the seeders, rounded up. */
  function LeastNeeded(seeders: nat, minLeechers: int, numerator: int, denominator: nat): int
    requires denominator > 0
  {
    var share := (numerator * seeders + denominator - 1) / denominator;
    if share > minLeechers then share else minLeechers
  }

  lemma RoundedUp(n: int, d: nat, k: int)
    requires d > 0
    ensures d * k >= n <==> k >= (n + d - 1) / d
  {
    var q := (n + d - 1) / d;
    assert d * q <= n + d - 1 < d * q + d;
    if k >= q {
      Times(d, q, k);
    } else {
      Times(d, k, q - 1);
      assert d * (q - 1) == d * q - d;
    }
  }

  lemma Times(d: nat, a: int, b: int)
    requires a <= b
    ensures d * a <= d * b
  {
  }

  lemma CrossMultiplied(leechers: nat, seeders: nat, numerator: int, denominator: nat)
    requires denominator > 0
    ensures leechers as real >= numerator as real / denominator as real * seeders as real
            <==> denominator * leechers >= numerator * seeders
  {
    var l, s, n, d := leechers as real, seeders as real, numerator as real, denominator as real;
    assert n / d * d == n;
    Quotients(l, n / d * s, d);
    assert n / d * s * d == n * s by {
      Regrouped(n / d, s, d);
    }
    assert l * d == (denominator * leechers) as real && n * s == (numerator * seeders) as real;
  }

  lemma Regrouped(a: real, b: real, c: real)
    ensures a * b * c == a * c * b
  {
  }

  lemma Quotients(a: real, b: real, d: real)
    requires d > 0.0
    ensures a >= b <==> a * d >= b * d
  {
    if a >= b {
      ScaledKeepsOrder(d, b, a);
    } else {
      StrictlyScaled(d, a, b);
    }
  }

  lemma StrictlyScaled(d: real, a: real, b: real)
    requires d > 0.0 && a < b
    ensures a * d < b * d
  {
  }

  /** Demand is there if and only if the scrape came through and shows the least number of leechers
      needed; in a swarm without seeders the floor decides, if such swarms are allowed at all. */
  lemma {:induction false} DemandIff(scrape: Option<Scrape>, minLeechers: int, numerator: int, denominator: nat,
                                     allowZeroSeeders: bool)
    requires denominator > 0
    ensures HasUnmetDemand(scrape, minLeechers, numerator as real / denominator as real, allowZeroSeeders) <==>
              && scrape.Some?
              && if scrape.value.seeders == 0 then allowZeroSeeders && scrape.value.leechers >= minLeechers
                 else scrape.value.leechers >= LeastNeeded(scrape.value.seeders, minLeechers, numerator, denominator)
  {
    if scrape.Some? {
      var s, l := scrape.value.seeders, scrape.value.leechers;
      CrossMultiplied(l, s, numerator, denominator);
      RoundedUp(numerator * s, denominator, l);
    }
  }

  datatype Demand = Demand(minLeechers: int, minRatio: real, allowZeroSeeders: bool)

  /** What the world answers when a release is evaluated: the scrape result, if any, and whether the
      watch file can be written. */
  datatype Answer = Answer(scrape: Option<Scrape>, writable: bool)

  datatype Record = Record(lastChecked: int, leechers: Option<nat>)

  type CheckState = map<string, Record>

  /** `should_recheck_old_release`. */
  predicate ShouldRecheck(name: string, checks: CheckState, today: int, interval: int) {
    name in checks ==> today - checks[name].lastChecked >= interval
  }

  datatype Outcome = Written | NoDemand | WriteFailed

  datatype Evaluation = Evaluation(name: string, day: int, outcome: Outcome)

  /** What one run changes: the check state, the names present in the watch directory, the counters,
      and the evaluations of all runs so far. */
  datatype Books = Books(checks: CheckState, present: set<string>, added: nat, skipped: nat, log: seq<Evaluation>)

  /** One run's settings; `removed` is empty when removed releases are not skipped. */
  datatype Run = Run(today: int, removed: set<string>, interval: int, demand: Demand)

  /** The loop body for one candidate; `world(k)` answers the k-th evaluation ever. */
  function Consider(b: Books, run: Run, name: string, world: nat -> Answer): Books {
    if !SafeName(name) then b.(skipped := b.skipped + 1)
    else if name in b.present then b
    else if name in run.removed || !ShouldRecheck(name, b.checks, run.today, run.interval)
    then b.(skipped := b.skipped + 1)
    else
      var answer := world(|b.log|);
      var d := run.demand;
      var leechers := if answer.scrape.Some? then Some(answer.scrape.value.leechers) else None;
      var checked := b.checks[name := Record(run.today, leechers)];
      if !HasUnmetDemand(answer.scrape, d.minLeechers, d.minRatio, d.allowZeroSeeders)
      then b.(checks := checked, skipped := b.skipped + 1, log := b.log + [Evaluation(name, run.today, NoDemand)])
      else if !answer.writable
      then b.(checks := b.checks - {name}, skipped := b.skipped + 1,
              log := b.log + [Evaluation(name, run.today, WriteFailed)])
      else b.(checks := checked, present := b.present + {name}, added := b.added + 1,
              log := b.log + [Evaluation(name, run.today, Written)])
  }

  function ConsiderAll(b: Books, run: Run, names: seq<string>, world: nat -> Answer): Books
    decreases |names|
  {
    if names == [] then b
    else Consider(ConsiderAll(b, run, names[..|names| - 1], world), run, names[|names| - 1], world)
  }

  /** `filter_low_demand`, for whatever names count as low-demand. */
  function Filtered(names: seq<string>, lowDemand: string -> bool, includeLowDemand: bool): seq<string> {
    if names == [] then []
    else
      var init, name := Filtered(names[..|names| - 1], lowDemand, includeLowDemand), names[|names| - 1];
      if includeLowDemand || !lowDemand(name) then init + [name] else init
  }

  /** The candidates of the selected distributions that have an old-release discovery, in order. */
  function AllCandidates(selected: seq<string>, discovery: map<string, seq<string>>, lowDemand: string -> bool,
                         includeLowDemand: bool): seq<string>
  {
    if selected == [] then []
    else
      var init, distro := AllCandidates(selected[..|selected| - 1], discovery, lowDemand, includeLowDemand),
                          selected[|selected| - 1];
      if distro in discovery then init + Filtered(discovery[distro], lowDemand, includeLowDemand) else init
  }

  // ---------------------------------------------------------------------------
  // The loops of `check_old_releases_for_demand`
  // ---------------------------------------------------------------------------

  class Checker {
    var checks: CheckState
    var present: set<string>
    /** Every evaluation so far, as the script logs it. */
    var log: seq<Evaluation>

    constructor ()
      ensures checks == map[] && present == {} && log == []
    {
      checks, present, log := map[], {}, [];
    }

    ghost function State(added: nat, skipped: nat): Books
      reads this
    {
      Books(checks, present, added, skipped, log)
    }

    method CheckCandidate(name: string, run: Run, world: nat -> Answer, added: nat, skipped: nat)
      returns (added': nat, skipped': nat)
      modifies this
      ensures State(added', skipped') == Consider(old(State(added, skipped)), run, name, world)
    {
      added', skipped' := added, skipped;
      if !SafeName(name) {
        skipped' := skipped + 1;
        return;
      }
      if name in present {
        return;
      }
      if name in run.removed {
        skipped' := skipped + 1;
        return;
      }
      if !ShouldRecheck(name, checks, run.today, run.interval) {
        skipped' := skipped + 1;
        return;
      }
      ghost var before := checks;
      var answer := world(|log|);
      var keep := HasUnmetDemand(answer.scrape, run.demand.minLeechers, run.demand.minRatio,
          run.demand.allowZeroSeeders);
      checks := checks[name := Record(run.today,
          if answer.scrape.Some? then Some(answer.scrape.value.leechers) else None)];
      if keep {
        if answer.writable {
          present := present + {name};
        } else {
          checks := checks - {name};
          assert checks == before - {name};
          log := log + [Evaluation(name, run.today, WriteFailed)];
          skipped' := skipped + 1;
          return;
        }
        log := log + [Evaluation(name, run.today, Written)];
        added' := added + 1;
      } else {
        log := log + [Evaluation(name, run.today, NoDemand)];
        skipped' := skipped + 1;
      }
    }

    method CheckOldReleasesForDemand(selected: seq<string>, discovery: map<string, seq<string>>,
                                     lowDemand: string -> bool, includeLowDemand: bool, run: Run, world: nat -> Answer)
      returns (added: nat, skipped: nat)
      modifies this
      ensures State(added, skipped)
           == ConsiderAll(old(State(0, 0)), run, AllCandidates(selected, discovery, lowDemand, includeLowDemand), world)
    {
      added, skipped := 0, 0;
      assert selected[..0] == [];
      for i := 0 to |selected|
        invariant State(added, skipped)
               == ConsiderAll(old(State(0, 0)), run,
                              AllCandidates(selected[..i], discovery, lowDemand, includeLowDemand), world)
      {
        assert selected[..i + 1][..i] == selected[..i];
        if selected[i] in discovery {
          ghost var before := AllCandidates(selected[..i], discovery, lowDemand, includeLowDemand);
          var candidates := Filtered(discovery[selected[i]], lowDemand, includeLowDemand);
          assert before + candidates == AllCandidates(selected[..i + 1], discovery, lowDemand, includeLowDemand);
          added, skipped := CheckEach(candidates, run, world, added, skipped, before, old(State(0, 0)));
        }
      }
      assert selected[..|selected|] == selected;
    }

    /** The loop over one distribution's candidates; `before` are the ones considered since `start`. */
    method CheckEach(candidates: seq<string>, run: Run, world: nat -> Answer, added: nat, skipped: nat,
                     ghost before: seq<string>, ghost start: Books)
      returns (added': nat, skipped': nat)
      requires State(added, skipped) == ConsiderAll(start, run, before, world)
      modifies this
      ensures State(added', skipped') == ConsiderAll(start, run, before + candidates, world)
    {
      added', skipped' := added, skipped;
      assert before + candidates[..0] == before;
      hide ConsiderAll, Consider;
      for j := 0 to |candidates|
        invariant State(added', skipped') == ConsiderAll(start, run, before + candidates[..j], world)
      {
        ConsiderSnoc(start, run, before, candidates, j, world);
        added', skipped' := CheckCandidate(candidates[j], run, world, added', skipped');
      }
      assert before + candidates[..|candidates|] == before + candidates;
    }
  }

  lemma ConsiderSnoc(b: Books, run: Run, before: seq<string>, names: seq<string>, j: nat, world: nat -> Answer)
    requires j < |names|
    ensures ConsiderAll(b, run, before + names[..j + 1], world)
         == Consider(ConsiderAll(b, run, before + names[..j], world), run, names[j], world)
  {
    var longer := before + names[..j + 1];
    assert longer[..|longer| - 1] == before + names[..j];
  }

  // ---------------------------------------------------------------------------
  // One run
  // ---------------------------------------------------------------------------

  function Count(names: seq<string>, counts: string -> bool): nat {
    if names == [] then 0
    else Count(names[..|names| - 1], counts) + if counts(names[|names| - 1]) then 1 else 0
  }

  /** How many candidates were already present when their turn came. */
  function AlreadyPresent(b: Books, run: Run, names: seq<string>, world: nat -> Answer): nat
    decreases |names|
  {
    if names == [] then 0
    else
      var init, name := names[..|names| - 1], names[|names| - 1];
      AlreadyPresent(b, run, init, world)
      + if SafeName(name) && name in ConsiderAll(b, run, init, world).present then 1 else 0
  }

  /** Every candidate is accounted for once: added, skipped or already present. */
  lemma {:induction false} CandidatesAreAccountedFor(b: Books, run: Run, names: seq<string>, world: nat -> Answer)
    ensures var after := ConsiderAll(b, run, names, world);
            after.added - b.added + (after.skipped - b.skipped) + AlreadyPresent(b, run, names, world) == |names|
    decreases |names|
  {
    hide SafeName, HasUnmetDemand, ShouldRecheck;
    if names != [] {
      CandidatesAreAccountedFor(b, run, names[..|names| - 1], world);
    }
  }

  /** The books when the k-th candidate's turn comes. */
  function BooksAt(b: Books, run: Run, names: seq<string>, k: nat, world: nat -> Answer): Books
    requires k <= |names|
  {
    ConsiderAll(b, run, names[..k], world)
  }

  /** Neither unsafe nor present nor on the removed history, and never checked or checked at least the
      recheck interval ago. */
  predicate Due(b: Books, run: Run, name: string) {
    && SafeName(name) && name !in b.present && name !in run.removed
    && (name !in b.checks || run.today - b.checks[name].lastChecked >= run.interval)
  }

  lemma OneStep(b: Books, run: Run, names: seq<string>, k: nat, world: nat -> Answer)
    requires k < |names|
    ensures BooksAt(b, run, names, k + 1, world) == Consider(BooksAt(b, run, names, k, world), run, names[k], world)
  {
    var longer := names[..k + 1];
    assert longer[..k] == names[..k];
  }

  /** At its turn a candidate is evaluated if and only if it is due. It is then added if and only if its
      scrape shows the demand asked for and the file can be written; and it is on file as checked today,
      with the leechers seen, unless the write failed. Otherwise nothing about it changes. */
  lemma {:induction false} CandidateIsAddedIff(b: Books, run: Run, names: seq<string>, k: nat, world: nat -> Answer,
                                               numerator: int, denominator: nat)
    requires k < |names| && denominator > 0 && run.demand.minRatio == numerator as real / denominator as real
    ensures var before, after, name := BooksAt(b, run, names, k, world), BooksAt(b, run, names, k + 1, world), names[k];
            var Answer(scrape, writable) := world(|before.log|);
            var demand := scrape.Some?
              && if scrape.value.seeders == 0
                 then run.demand.allowZeroSeeders && scrape.value.leechers >= run.demand.minLeechers
                 else scrape.value.leechers
                      >= LeastNeeded(scrape.value.seeders, run.demand.minLeechers, numerator, denominator);
            && (|after.log| > |before.log| <==> Due(before, run, name))
            && (name in after.present && name !in before.present <==> Due(before, run, name) && demand && writable)
            && after.added - before.added == (if Due(before, run, name) && demand && writable then 1 else 0)
            && after.present - {name} == before.present - {name}
            && (if Due(before, run, name) && demand && !writable then name !in after.checks
                else if Due(before, run, name)
                then name in after.checks && after.checks[name].lastChecked == run.today
                     && after.checks[name].leechers
                        == if scrape.Some? then Some(scrape.value.leechers) else None
                else after.checks == before.checks)
  {
    var before, name := BooksAt(b, run, names, k, world), names[k];
    var answer := world(|before.log|);
    OneStep(b, run, names, k, world);
    DemandIff(answer.scrape, run.demand.minLeechers, numerator, denominator, run.demand.allowZeroSeeders);
    hide BooksAt, HasUnmetDemand, LeastNeeded, SafeName, ConsiderAll;
  }

  /** A low-demand name is a candidate only if such are included; all other names of the selected
      distributions always are, and nothing else. */
  lemma {:induction false} CandidatesAre(selected: seq<string>, discovery: map<string, seq<string>>,
                                         lowDemand: string -> bool, includeLowDemand: bool, name: string)
    ensures name in AllCandidates(selected, discovery, lowDemand, includeLowDemand)
            <==> (includeLowDemand || !lowDemand(name))
                 && exists d :: d in selected && d in discovery && name in discovery[d]
  {
    if selected != [] {
      var init, last := selected[..|selected| - 1], selected[|selected| - 1];
      CandidatesAre(init, discovery, lowDemand, includeLowDemand, name);
      assert selected == init + [last];
      if last in discovery {
        FilteredAre(discovery[last], lowDemand, includeLowDemand, name);
      }
      hide Filtered;
    }
  }

  lemma {:induction false} FilteredAre(names: seq<string>, lowDemand: string -> bool, includeLowDemand: bool,
                                       name: string)
    ensures name in Filtered(names, lowDemand, includeLowDemand)
            <==> name in names && (includeLowDemand || !lowDemand(name))
  {
    if names != [] {
      FilteredAre(names[..|names| - 1], lowDemand, includeLowDemand, name);
      assert names == names[..|names| - 1] + [names[|names| - 1]];
    }
  }

  // ---------------------------------------------------------------------------
  // Many runs
  // ---------------------------------------------------------------------------

  /** A run and the candidates it came to. */
  datatype Pass = Pass(run: Run, names: seq<string>, present: set<string>)

  /** Between runs the watch directory may change in any way; the counters start afresh. */
  function Passes(passes: seq<Pass>, world: nat -> Answer): Books
    decreases |passes|
  {
    if passes == [] then Books(map[], {}, 0, 0, [])
    else
      var last := passes[|passes| - 1];
      var before := Passes(passes[..|passes| - 1], world);
      ConsiderAll(before.(present := last.present, added := 0, skipped := 0), last.run, last.names, world)
  }

  ghost predicate Apart(log: seq<Evaluation>, interval: int) {
    forall i, j :: 0 <= i < j < |log| && log[i].name == log[j].name && log[i].outcome != WriteFailed
                   ==> log[j].day - log[i].day >= interval
  }

  /** Each evaluation that did not end in a failed write is either on file, or so long ago that the
      next one cannot be too early. */
  ghost predicate Remembered(b: Books, interval: int, lastDay: int) {
    forall i :: 0 <= i < |b.log| ==>
      && b.log[i].day <= lastDay
      && (b.log[i].outcome != WriteFailed ==>
            || (b.log[i].name in b.checks && b.checks[b.log[i].name].lastChecked >= b.log[i].day)
            || lastDay >= b.log[i].day + interval)
  }

  ghost predicate Good(b: Books, interval: int, lastDay: int) {
    Apart(b.log, interval) && Remembered(b, interval, lastDay)
  }

  lemma Later(b: Books, interval: int, lastDay: int, today: int)
    requires Good(b, interval, lastDay) && lastDay <= today
    ensures Good(b, interval, today)
  {
  }

  lemma EvaluationKeepsGood(b: Books, interval: int, today: int, name: string, checks: CheckState, outcome: Outcome)
    requires Good(b, interval, today) && ShouldRecheck(name, b.checks, today, interval)
    requires forall n :: n in b.checks && n != name ==> n in checks && checks[n] == b.checks[n]
    requires if outcome == WriteFailed then name !in checks else name in checks && checks[name].lastChecked == today
    ensures Apart(b.log + [Evaluation(name, today, outcome)], interval)
    ensures Remembered(b.(checks := checks, log := b.log + [Evaluation(name, today, outcome)]), interval, today)
  {
    var log := b.log + [Evaluation(name, today, outcome)];
    forall i | 0 <= i < |b.log| && log[i].name == name && log[i].outcome != WriteFailed
      ensures today - log[i].day >= interval
    {
      assert log[i] == b.log[i];
    }
    assert forall i :: 0 <= i < |b.log| ==> log[i] == b.log[i];
  }

  lemma ConsiderKeepsGood(b: Books, run: Run, name: string, world: nat -> Answer)
    requires Good(b, run.interval, run.today)
    ensures Good(Consider(b, run, name, world), run.interval, run.today)
  {
    hide SafeName, HasUnmetDemand, Apart, ShouldRecheck;
    var c := Consider(b, run, name, world);
    if c.log != b.log {
      EvaluationKeepsGood(b, run.interval, run.today, name, c.checks, c.log[|b.log|].outcome);
      assert Good(b.(checks := c.checks, log := c.log), run.interval, run.today);
    }
  }

  lemma {:induction false} ConsiderAllKeepsGood(b: Books, run: Run, names: seq<string>, world: nat -> Answer)
    requires Good(b, run.interval, run.today)
    ensures Good(ConsiderAll(b, run, names, world), run.interval, run.today)
    decreases |names|
  {
    hide Good, Consider;
    if names != [] {
      ConsiderAllKeepsGood(b, run, names[..|names| - 1], world);
      ConsiderKeepsGood(ConsiderAll(b, run, names[..|names| - 1], world), run, names[|names| - 1], world);
    }
  }

  /** Dates never go back, and the interval is a fixed setting. */
  ghost predicate Orderly(passes: seq<Pass>, interval: int) {
    && (forall k :: 0 <= k < |passes| ==> passes[k].run.interval == interval)
    && (forall k :: 0 < k < |passes| ==> passes[k - 1].run.today <= passes[k].run.today)
  }

  /** Over any number of runs, two evaluations of one name are at least `interval` days apart, unless
      the earlier one ended in a failed write. */
  lemma {:induction false} EvaluationsAreApart(passes: seq<Pass>, interval: int, world: nat -> Answer)
    requires passes != [] && Orderly(passes, interval)
    ensures Apart(Passes(passes, world).log, interval)
    ensures Good(Passes(passes, world), interval, passes[|passes| - 1].run.today)
    decreases |passes|
  {
    var init, last := passes[..|passes| - 1], passes[|passes| - 1];
    var before := Passes(init, world);
    if init != [] {
      EvaluationsAreApart(init, interval, world);
      assert passes[|passes| - 2].run.today <= passes[|passes| - 1].run.today;
      Later(before, interval, init[|init| - 1].run.today, last.run.today);
    }
    var fromNow := before.(present := last.present, added := 0, skipped := 0);
    assert Good(fromNow, interval, last.run.today);
    ConsiderAllKeepsGood(fromNow, last.run, last.names, world);
  }

  // ---------------------------------------------------------------------------
  // Removed releases
  // ---------------------------------------------------------------------------

  /** A run only appends evaluations, none of a removed name, all of safe candidates, all of its day. */
  lemma {:induction false} RunEvaluatesNoRemovedName(b: Books, run: Run, names: seq<string>, world: nat -> Answer)
    ensures var after := ConsiderAll(b, run, names, world);
            && b.log <= after.log
            && forall i :: |b.log| <= i < |after.log| ==>
                 && after.log[i].name !in run.removed && after.log[i].day == run.today
                 && after.log[i].name in names && SafeName(after.log[i].name)
    decreases |names|
  {
    hide SafeName, HasUnmetDemand, ShouldRecheck;
    if names != [] {
      var init, name := names[..|names| - 1], names[|names| - 1];
      RunEvaluatesNoRemovedName(b, run, init, world);
      assert names == init + [name];
    }
  }

  lemma ConsiderWrites(b: Books, run: Run, name: string, world: nat -> Answer)
    ensures var c := Consider(b, run, name, world);
            if c.log == b.log then c.present == b.present && c.added == b.added
            else
              && |c.log| == |b.log| + 1 && c.log[..|b.log|] == b.log
              && c.present == b.present + (if c.log[|b.log|].outcome == Written then {c.log[|b.log|].name} else {})
              && c.added - b.added == |c.present| - |b.present|
  {
    hide SafeName, HasUnmetDemand, ShouldRecheck;
    var c := Consider(b, run, name, world);
    if c.log != b.log {
      var last := c.log[|c.log| - 1];
      assert c.log == b.log + [last] && last.name == name;
      assert name !in b.present;
    }
  }

  /** What a run adds to the watch directory are exactly the names it reports as written. */
  lemma {:induction false} RunWritesWhatItReports(b: Books, run: Run, names: seq<string>, world: nat -> Answer)
    ensures var after := ConsiderAll(b, run, names, world);
            && b.log <= after.log
            && after.present == b.present + WrittenNames(after.log[|b.log|..])
            && after.added - b.added == |after.present| - |b.present|
    decreases |names|
  {
    hide *;
    if names == [] {
      NothingWritten(b, run, world);
    } else {
      var init, name := names[..|names| - 1], names[|names| - 1];
      RunWritesWhatItReports(b, run, init, world);
      var before, after := ConsiderAll(b, run, init, world), ConsiderAll(b, run, names, world);
      ConsiderLast(b, run, names, world);
      ConsiderWrites(before, run, name, world);
      if after.log != before.log {
        LogSnoc(b.log, before.log, after.log);
      }
    }
  }

  lemma NothingWritten(b: Books, run: Run, world: nat -> Answer)
    ensures ConsiderAll(b, run, [], world) == b && WrittenNames(b.log[|b.log|..]) == {}
  {
  }

  lemma ConsiderLast(b: Books, run: Run, names: seq<string>, world: nat -> Answer)
    requires names != []
    ensures ConsiderAll(b, run, names, world)
         == Consider(ConsiderAll(b, run, names[..|names| - 1], world), run, names[|names| - 1], world)
  {
  }

  lemma LogSnoc(start: seq<Evaluation>, before: seq<Evaluation>, after: seq<Evaluation>)
    requires start <= before && |after| == |before| + 1 && after[..|before|] == before
    ensures start <= after && after[|start|..] == before[|start|..] + [after[|before|]]
    ensures WrittenNames(after[|start|..]) == WrittenNames(before[|start|..])
              + (if after[|before|].outcome == Written then {after[|before|].name} else {})
  {
    var tail := after[|start|..];
    assert tail == before[|start|..] + [after[|before|]];
    assert tail[..|tail| - 1] == before[|start|..];
  }

  function WrittenNames(log: seq<Evaluation>): set<string> {
    if log == [] then {}
    else WrittenNames(log[..|log| - 1]) + if log[|log| - 1].outcome == Written then {log[|log| - 1].name} else {}
  }

  /** The removed history only grows. */
  ghost predicate RemovedGrows(passes: seq<Pass>) {
    forall k, m :: 0 <= k <= m < |passes| ==> passes[k].run.removed <= passes[m].run.removed
  }

  /** A run leaves a removed name in the watch directory or out of it. */
  lemma {:induction false} RunLeavesRemovedNames(b: Books, run: Run, names: seq<string>, name: string,
                                                 world: nat -> Answer)
    requires name in run.removed
    ensures name in ConsiderAll(b, run, names, world).present <==> name in b.present
    decreases |names|
  {
    hide SafeName, HasUnmetDemand, ShouldRecheck;
    if names != [] {
      RunLeavesRemovedNames(b, run, names[..|names| - 1], name, world);
    }
  }

  /** Once a name is on the removed history that a run skips, neither that run nor any later one
      evaluates it or puts it into the watch directory: after the latest run it is there if and only
      if it was there before. */
  lemma {:induction false} RemovedReleasesStayOut(passes: seq<Pass>, k: nat, name: string, world: nat -> Answer)
    requires k < |passes| && RemovedGrows(passes) && name in passes[k].run.removed
    ensures var start, log := |Passes(passes[..k], world).log|, Passes(passes, world).log;
            forall i :: start <= i < |log| ==> log[i].name != name
    ensures name in Passes(passes, world).present <==> name in passes[|passes| - 1].present
    decreases |passes|
  {
    hide *;
    var init, last := passes[..|passes| - 1], passes[|passes| - 1];
    var before := Passes(init, world);
    var fromNow := before.(present := last.present, added := 0, skipped := 0);
    var start, log := |Passes(passes[..k], world).log|, Passes(passes, world).log;
    PassesSnoc(passes, world);
    RemovedSoFar(passes, k, name);
    RunEvaluatesNoRemovedName(fromNow, last.run, last.names, world);
    RunLeavesRemovedNames(fromNow, last.run, last.names, name, world);
    if k < |init| {
      assert init[k] == passes[k] && init[..k] == passes[..k];
      RemovedReleasesStayOut(init, k, name, world);
    } else {
      assert passes[..k] == init;
    }
    forall i | start <= i < |log|
      ensures log[i].name != name
    {
      if i < |before.log| {
        assert k < |init|;
        assert log[i] == before.log[i];
      } else {
        assert log[i].name !in last.run.removed;
      }
    }
  }

  lemma PassesSnoc(passes: seq<Pass>, world: nat -> Answer)
    requires passes != []
    ensures var last, before := passes[|passes| - 1], Passes(passes[..|passes| - 1], world);
            var fromNow := before.(present := last.present, added := 0, skipped := 0);
            Passes(passes, world) == ConsiderAll(fromNow, last.run, last.names, world)
  {
  }

  lemma RemovedSoFar(passes: seq<Pass>, k: nat, name: string)
    requires k < |passes| && RemovedGrows(passes) && name in passes[k].run.removed
    ensures RemovedGrows(passes[..|passes| - 1]) && name in passes[|passes| - 1].run.removed
  {
    assert passes[k].run.removed <= passes[|passes| - 1].run.removed;
  }
}
