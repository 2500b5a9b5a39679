/** The sampled ratio history: `update_ratio_history` and `_stagnation_anchor`. */
module RatioHistory {
  import opened Optional

  /** Dates are day numbers, ratios thousandths. */
  datatype Sample = Sample(date: int, ratio: int)

  type Samples = seq<Sample>
  type History = map<string, Samples>

  // ---------------------------------------------------------------------------
  // One torrent, one update
  // ---------------------------------------------------------------------------

  /** Samples that postdate the removal on record, if there is one. */
  function After(samples: Samples, removed: Option<int>): Samples {
    if removed.None? then samples else NewerThan(samples, removed.value)
  }

  function NewerThan(samples: Samples, date: int): Samples {
    if samples == [] then []
    else (if samples[0].date > date then [samples[0]] else []) + NewerThan(samples[1..], date)
  }

  /** Samples at most `maxAge` days old. */
  function NotOlderThan(samples: Samples, today: int, maxAge: int): Samples {
    NewerThan(samples, today - maxAge - 1)
  }

  function Sampled(samples: Samples, today: int, ratio: int, interval: int): Samples {
    if samples == [] || today - samples[|samples| - 1].date >= interval
    then samples + [Sample(today, ratio)]
    else samples
  }

  /** The loop body of `update_ratio_history`. */
  function Update(samples: Samples, removed: Option<int>, today: int, ratio: int, interval: int, window: int): Samples {
    NotOlderThan(Sampled(After(samples, removed), today, ratio, interval), today, window + interval)
  }

  function SamplesOf(history: History, name: string): Samples {
    if name in history then history[name] else []
  }

  function RemovedOn(removed: map<string, int>, name: string): Option<int> {
    if name in removed then Some(removed[name]) else None
  }

  /** The updated history: exactly the torrents reported now. */
  function UpdateHistory(history: History, current: map<string, int>, today: int, interval: int, window: int,
                         removed: map<string, int>): History {
    map name | name in current ::
      Update(SamplesOf(history, name), RemovedOn(removed, name), today, current[name], interval, window)
  }

  /** `update_ratio_history`: for every current torrent copy, filter, append, prune. */
  method UpdateRatioHistory(history: History, current: map<string, int>, today: int, interval: int, window: int,
                            removed: map<string, int>) returns (updated: History)
    ensures updated == UpdateHistory(history, current, today, interval, window, removed)
  {
    updated := map[];
    var names := current.Keys;
    while names != {}
      invariant names <= current.Keys && updated.Keys == current.Keys - names
      invariant forall name :: name in updated ==>
                  updated[name] == Update(SamplesOf(history, name), RemovedOn(removed, name), today, current[name],
                                          interval, window)
      decreases names
    {
      var name :| name in names;
      var samples := SamplesOf(history, name);
      if name in removed {
        samples := NewerThan(samples, removed[name]);
      }
      if samples == [] || today - samples[|samples| - 1].date >= interval {
        samples := samples + [Sample(today, current[name])];
      }
      samples := NotOlderThan(samples, today, window + interval);
      assert samples
          == Update(SamplesOf(history, name), RemovedOn(removed, name), today, current[name], interval, window);
      hide Update;
      updated, names := updated[name := samples], names - {name};
    }
  }

  /** The oldest of the samples that are at least `window` days old; of equal dates the first. */
  function Oldest(samples: Samples): Sample
    requires samples != []
  {
    if |samples| == 1 then samples[0]
    else
      var least := Oldest(samples[..|samples| - 1]);
      if samples[|samples| - 1].date < least.date then samples[|samples| - 1] else least
  }

  function OldEnough(samples: Samples, today: int, window: int): Samples {
    if samples == [] then []
    else (if today - samples[0].date >= window then [samples[0]] else []) + OldEnough(samples[1..], today, window)
  }

  /** `_stagnation_anchor`, with the date of the sample kept beside its ratio. */
  function Anchor(samples: Samples, today: int, window: int): Option<Sample> {
    var aged := OldEnough(samples, today, window);
    if aged == [] then None else Some(Oldest(aged))
  }

  // ---------------------------------------------------------------------------
  // Spacing
  // ---------------------------------------------------------------------------

  /** Strictly ascending dates, neighbours at least `interval` days apart. */
  ghost predicate Spaced(samples: Samples, interval: int) {
    forall k :: 0 < k < |samples| ==> samples[k].date - samples[k - 1].date >= interval
  }

  lemma {:induction false} SpacedAscends(samples: Samples, interval: int, a: nat, b: nat)
    requires Spaced(samples, interval) && interval >= 0 && a <= b < |samples|
    ensures samples[b].date - samples[a].date >= (b - a) * interval
    decreases b
  {
    if a < b {
      SpacedAscends(samples, interval, a, b - 1);
      assert (b - a) * interval == (b - 1 - a) * interval + interval;
    }
  }

  lemma OneSample(today: int, ratio: int, date: int)
    requires date < today
    ensures NewerThan([Sample(today, ratio)], date) == [Sample(today, ratio)]
  {
    assert [Sample(today, ratio)][1..] == [];
  }

  ghost predicate AllNewer(samples: Samples, date: int) {
    forall k :: 0 <= k < |samples| ==> samples[k].date > date
  }

  lemma {:induction false} NewerAppend(a: Samples, b: Samples, date: int)
    ensures NewerThan(a + b, date) == NewerThan(a, date) + NewerThan(b, date)
  {
    if a == [] {
      assert a + b == b;
    } else {
      var head := if a[0].date > date then [a[0]] else [];
      assert (a + b)[1..] == a[1..] + b;
      NewerAppend(a[1..], b, date);
      assert head + (NewerThan(a[1..], date) + NewerThan(b, date))
          == head + NewerThan(a[1..], date) + NewerThan(b, date);
    }
  }

  lemma {:induction false} NewerOfNewer(samples: Samples, date: int)
    requires AllNewer(samples, date)
    ensures NewerThan(samples, date) == samples
  {
    if samples != [] {
      NewerOfNewer(samples[1..], date);
      assert samples == [samples[0]] + samples[1..];
    }
  }

  /** Filtering by one date keeps what all samples have with respect to another. */
  lemma {:induction false} NewerKeeps(samples: Samples, date: int, other: int)
    requires AllNewer(samples, other)
    ensures AllNewer(NewerThan(samples, date), other)
  {
    if samples != [] {
      NewerKeeps(samples[1..], date, other);
    }
  }

  lemma {:induction false} NewerAreNewer(samples: Samples, date: int)
    ensures AllNewer(NewerThan(samples, date), date)
  {
    if samples != [] {
      NewerAreNewer(samples[1..], date);
    }
  }

  lemma {:induction false} LastIsKept(samples: Samples, date: int)
    requires samples != [] && samples[|samples| - 1].date > date
    ensures var kept := NewerThan(samples, date);
            kept != [] && kept[|kept| - 1] == samples[|samples| - 1]
  {
    var init, last := samples[..|samples| - 1], samples[|samples| - 1];
    NewerAppend(init, [last], date);
    assert samples == init + [last];
    OneSample(last.date, last.ratio, date);
  }

  ghost predicate NoneNewer(samples: Samples, date: int) {
    forall k :: 0 <= k < |samples| ==> samples[k].date <= date
  }

  lemma SpacedNewer(samples: Samples, date: int, interval: int)
    requires Spaced(samples, interval) && interval >= 1
    requires samples != [] ==> samples[0].date > date
    ensures AllNewer(samples, date)
  {
    forall i | 0 <= i < |samples|
      ensures samples[i].date > date
    {
      SpacedAscends(samples, interval, 0, i);
      MulPositive(i, interval);
    }
  }

  /** Of ascending samples the newer ones are a suffix. */
  lemma {:induction false} NewerIsSuffix(samples: Samples, date: int, interval: int) returns (k: nat)
    requires Spaced(samples, interval) && interval >= 1
    ensures k <= |samples| && NewerThan(samples, date) == samples[k..]
    ensures NoneNewer(samples[..k], date) && AllNewer(samples[k..], date)
  {
    if samples == [] || samples[0].date > date {
      k := 0;
      SpacedNewer(samples, date, interval);
      NewerOfNewer(samples, date);
      assert samples[0..] == samples;
    } else {
      SuffixSpaced(samples, interval, 1);
      hide Spaced, AllNewer, NoneNewer;
      var j := NewerIsSuffix(samples[1..], date, interval);
      k := j + 1;
      TailSplit(samples, j, date);
    }
  }

  lemma TailSplit(samples: Samples, j: nat, date: int)
    requires j < |samples| && samples[0].date <= date && NoneNewer(samples[1..][..j], date)
    ensures samples[1..][j..] == samples[j + 1..] && NoneNewer(samples[..j + 1], date)
  {
    assert samples[..j + 1] == [samples[0]] + samples[1..][..j];
  }

  /** Where ascending samples are cut by a date, position and age agree. */
  lemma Cut(samples: Samples, k: nat, date: int, i: nat)
    requires k <= |samples| && i < |samples|
    requires NoneNewer(samples[..k], date) && AllNewer(samples[k..], date)
    ensures i < k <==> samples[i].date <= date
  {
    if i < k {
      assert samples[..k][i] == samples[i];
    } else {
      assert samples[k..][i - k] == samples[i];
    }
  }

  lemma MulPositive(a: int, b: int)
    requires a >= 0 && b >= 0
    ensures a * b >= 0
  {
  }

  lemma SuffixSpaced(samples: Samples, interval: int, k: nat)
    requires Spaced(samples, interval) && k <= |samples|
    ensures Spaced(samples[k..], interval)
  {
  }

  lemma SnocSpaced(samples: Samples, interval: int, s: Sample)
    requires Spaced(samples, interval)
    requires samples != [] ==> s.date - samples[|samples| - 1].date >= interval
    ensures Spaced(samples + [s], interval)
  {
  }

  /** An update of spaced samples drops a prefix up to the removal, may append today, and drops another
      prefix of what is too old. */
  lemma UpdateShape(samples: Samples, removed: Option<int>, today: int, ratio: int, interval: int, window: int)
    returns (k: nat, grown: Samples, j: nat)
    requires Spaced(samples, interval) && interval >= 1
    ensures k <= |samples| && samples[k..] == After(samples, removed)
    ensures removed.None? ==> k == 0
    ensures removed.Some? ==> NoneNewer(samples[..k], removed.value) && AllNewer(samples[k..], removed.value)
    ensures grown == if k == |samples| || today - samples[|samples| - 1].date >= interval
                     then samples[k..] + [Sample(today, ratio)] else samples[k..]
    ensures Spaced(grown, interval)
    ensures j <= |grown| && grown[j..] == Update(samples, removed, today, ratio, interval, window)
    ensures Spaced(grown[j..], interval)
    ensures NoneNewer(grown[..j], today - (window + interval) - 1)
    ensures AllNewer(grown[j..], today - (window + interval) - 1)
  {
    hide NewerThan, Spaced, AllNewer, NoneNewer;
    if removed.Some? {
      k := NewerIsSuffix(samples, removed.value, interval);
    } else {
      k := 0;
      assert samples[0..] == samples;
    }
    SuffixSpaced(samples, interval, k);
    var kept := samples[k..];
    if kept == [] || today - kept[|kept| - 1].date >= interval {
      SnocSpaced(kept, interval, Sample(today, ratio));
    }
    grown := Sampled(kept, today, ratio, interval);
    j := NewerIsSuffix(grown, today - (window + interval) - 1, interval);
    SuffixSpaced(grown, interval, j);
  }

  // ---------------------------------------------------------------------------
  // Bounded history, whatever the clock does
  // ---------------------------------------------------------------------------

  ghost predicate Bounded(samples: Samples, interval: int, window: int)
    requires interval >= 1
  {
    Spaced(samples, interval) && |samples| <= window / interval + 2
  }

  lemma SpacedCount(samples: Samples, interval: int, window: int, today: int)
    requires interval >= 1 && window >= 0 && Spaced(samples, interval)
    requires samples != [] && samples[|samples| - 1].date == today && today - samples[0].date <= window + interval
    ensures |samples| <= window / interval + 2
  {
    var n := |samples| - 1;
    SpacedAscends(samples, interval, 0, n);
    assert n * interval <= window + interval;
    if n - 1 > window / interval {
      MulMonotone(window / interval + 1, n - 1, interval);
    }
  }

  lemma MulMonotone(a: int, b: int, c: int)
    requires a <= b && c >= 0
    ensures a * c <= b * c
  {
  }

  /** One update keeps the bound: on any date, after any removal, even with the clock set back. */
  lemma UpdateKeepsTheBound(samples: Samples, removed: Option<int>, today: int, ratio: int, interval: int, window: int)
    requires interval >= 1 && window >= 0 && Bounded(samples, interval, window)
    ensures Bounded(Update(samples, removed, today, ratio, interval, window), interval, window)
  {
    hide Update, Spaced, After;
    var k, grown, j := UpdateShape(samples, removed, today, ratio, interval, window);
    if |grown| > |samples| - k && j < |grown| {
      Cut(grown, j, today - (window + interval) - 1, j);
      SpacedCount(grown[j..], interval, window, today);
    }
    DivNonNegative(window, interval);
  }

  lemma DivNonNegative(a: int, b: int)
    requires a >= 0 && b >= 1
    ensures a / b >= 0
  {
  }

  /** One daily run as the history sees it. */
  datatype Report = Report(today: int, current: map<string, int>, removed: map<string, int>)

  function Runs(history: History, reports: seq<Report>, interval: int, window: int): History
    decreases |reports|
  {
    if reports == [] then history
    else
      var last := reports[|reports| - 1];
      UpdateHistory(Runs(history, reports[..|reports| - 1], interval, window),
                    last.current, last.today, interval, window, last.removed)
  }

  /** However many runs, on whatever dates, forward or backward: every torrent's samples stay spaced
      and at most window / interval + 2, and after a run only torrents it reported are kept. */
  lemma {:induction false} HistoryStaysBounded(reports: seq<Report>, interval: int, window: int)
    requires interval >= 1 && window >= 0
    ensures var h := Runs(map[], reports, interval, window);
            forall name :: name in h ==> Bounded(h[name], interval, window)
    ensures reports != [] ==> Runs(map[], reports, interval, window).Keys == reports[|reports| - 1].current.Keys
  {
    if reports != [] {
      var init, last := reports[..|reports| - 1], reports[|reports| - 1];
      HistoryStaysBounded(init, interval, window);
      var before, h := Runs(map[], init, interval, window), Runs(map[], reports, interval, window);
      forall name | name in h
        ensures Bounded(h[name], interval, window)
      {
        DivNonNegative(window, interval);
        UpdateKeepsTheBound(SamplesOf(before, name), RemovedOn(last.removed, name), last.today, last.current[name],
                            interval, window);
      }
    }
  }

  // ---------------------------------------------------------------------------
  // The anchor
  // ---------------------------------------------------------------------------

  lemma {:induction false} OldEnoughIsPrefix(samples: Samples, today: int, window: int, interval: int)
    requires Spaced(samples, interval) && interval >= 1
    ensures OldEnough(samples, today, window) <= samples
    ensures samples != [] && today - samples[0].date >= window ==> OldEnough(samples, today, window) != []
    ensures samples != [] && today - samples[0].date < window ==> OldEnough(samples, today, window) == []
  {
    if samples != [] {
      OldEnoughIsPrefix(samples[1..], today, window, interval);
      if today - samples[0].date < window && |samples| > 1 {
        assert samples[1..][0].date > samples[0].date;
      }
      if today - samples[0].date >= window {
        assert OldEnough(samples, today, window) == [samples[0]] + OldEnough(samples[1..], today, window);
        assert samples == [samples[0]] + samples[1..];
      }
    }
  }

  lemma {:induction false} OldestIsFirst(samples: Samples, interval: int)
    requires samples != [] && Spaced(samples, interval) && interval >= 1
    ensures Oldest(samples) == samples[0]
  {
    if |samples| > 1 {
      OldestIsFirst(samples[..|samples| - 1], interval);
      SpacedAscends(samples, interval, 0, |samples| - 1);
      MulPositive(|samples| - 1, interval);
    }
  }

  /** The anchor is the oldest sample, as soon as that one is `window` days old. */
  lemma AnchorIsTheOldest(samples: Samples, today: int, window: int, interval: int)
    requires Spaced(samples, interval) && interval >= 1
    ensures Anchor(samples, today, window)
         == if samples != [] && today - samples[0].date >= window then Some(samples[0]) else None
  {
    OldEnoughIsPrefix(samples, today, window, interval);
    var aged := OldEnough(samples, today, window);
    if aged != [] {
      assert forall k :: 0 <= k < |aged| ==> aged[k] == samples[k];
      OldestIsFirst(aged, interval);
    }
  }

  // ---------------------------------------------------------------------------
  // Coverage: pruning never starves the stagnation test
  // ---------------------------------------------------------------------------

  /** Neighbours at most one day further apart than the interval. */
  ghost predicate Dense(samples: Samples, interval: int) {
    forall k :: 0 < k < |samples| ==> samples[k].date - samples[k - 1].date <= interval + 1
  }

  lemma SnocDense(samples: Samples, interval: int, s: Sample)
    requires Dense(samples, interval)
    requires samples != [] ==> s.date - samples[|samples| - 1].date <= interval + 1
    ensures Dense(samples + [s], interval)
  {
  }

  lemma SuffixDense(samples: Samples, interval: int, k: nat)
    requires Dense(samples, interval) && k <= |samples|
    ensures Dense(samples[k..], interval)
    ensures 0 < k < |samples| ==> samples[k].date - samples[k - 1].date <= interval + 1
  {
  }

  /** What holds after an update for a torrent first sampled on day `first` and reported in every run since. */
  ghost predicate Covered(samples: Samples, first: int, today: int, interval: int, window: int) {
    && samples != [] && Spaced(samples, interval)
    && Dense(samples, interval)
    && first <= samples[0].date
    && 0 <= today - samples[|samples| - 1].date < interval
    && today - samples[0].date <= window + interval
    && (samples[0].date == first || today - samples[0].date >= window)
  }

  lemma FirstUpdateCovers(samples: Samples, removed: Option<int>, today: int, ratio: int, interval: int, window: int)
    requires interval >= 1 && window >= 0 && After(samples, removed) == []
    ensures Covered(Update(samples, removed, today, ratio, interval, window), today, today, interval, window)
  {
    OneSample(today, ratio, today - (window + interval) - 1);
    assert [] + [Sample(today, ratio)] == [Sample(today, ratio)];
  }

  /** The next run, at most two days later, with no removal on record since the first sample. */
  lemma NextUpdateCovers(samples: Samples, first: int, before: int, removed: Option<int>, today: int, ratio: int,
                         interval: int, window: int)
    requires interval >= 1 && window >= 0 && Covered(samples, first, before, interval, window)
    requires before <= today <= before + 2
    requires removed.Some? ==> removed.value < first
    ensures Covered(Update(samples, removed, today, ratio, interval, window), first, today, interval, window)
  {
    hide Update, Spaced, Dense, After, AllNewer, NoneNewer;
    var k, grown, j := UpdateShape(samples, removed, today, ratio, interval, window);
    if removed.Some? {
      Cut(samples, k, removed.value, 0);
    }
    assert samples[0..] == samples;
    if today - samples[|samples| - 1].date >= interval {
      SnocDense(samples, interval, Sample(today, ratio));
    }
    assert grown[0] == samples[0] && 0 <= today - grown[|grown| - 1].date < interval;
    PruneCovers(grown, first, today, interval, window, j);
  }

  /** Pruning what is too old keeps the newest sample, and a first survivor old enough to judge by. */
  lemma PruneCovers(grown: Samples, first: int, today: int, interval: int, window: int, j: nat)
    requires interval >= 1 && window >= 0 && grown != [] && Spaced(grown, interval) && Dense(grown, interval)
    requires first <= grown[0].date && 0 <= today - grown[|grown| - 1].date < interval
    requires grown[0].date == first || today - grown[0].date >= window
    requires j <= |grown| && NoneNewer(grown[..j], today - (window + interval) - 1)
    requires AllNewer(grown[j..], today - (window + interval) - 1)
    ensures Covered(grown[j..], first, today, interval, window)
  {
    hide Spaced, Dense, AllNewer, NoneNewer;
    var oldest, n := today - (window + interval) - 1, |grown| - 1;
    Cut(grown, j, oldest, n);
    Cut(grown, j, oldest, j);
    SuffixSpaced(grown, interval, j);
    SuffixDense(grown, interval, j);
    NoSampleBefore(grown, first, interval);
    if j > 0 {
      Cut(grown, j, oldest, j - 1);
    }
  }

  lemma NoSampleBefore(samples: Samples, first: int, interval: int)
    requires Spaced(samples, interval) && interval >= 1 && samples != [] && first <= samples[0].date
    ensures forall i :: 0 <= i < |samples| ==> first <= samples[i].date
  {
    forall i | 0 <= i < |samples|
      ensures first <= samples[i].date
    {
      SpacedAscends(samples, interval, 0, i);
      MulPositive(i, interval);
    }
  }

  /** A torrent reported in every run: the samples after the last one. */
  function Track(samples: Samples, runs: seq<Visit>, interval: int, window: int): Samples
    decreases |runs|
  {
    if runs == [] then samples
    else
      var last := runs[|runs| - 1];
      Update(Track(samples, runs[..|runs| - 1], interval, window), last.removed, last.today, last.ratio, interval,
          window)
  }

  /** One run's report of one torrent, and the removal on record for its name. */
  datatype Visit = Visit(today: int, ratio: int, removed: Option<int>)

  /** Tracking starts with no sample that counts; runs are at most `gap` days apart; the only removal
      on record predates the start. */
  ghost predicate Tracked(samples: Samples, runs: seq<Visit>, gap: int) {
    && runs != [] && After(samples, runs[0].removed) == []
    && (forall k :: 0 < k < |runs| ==> 0 <= runs[k].today - runs[k - 1].today <= gap)
    && (forall k :: 0 < k < |runs| && runs[k].removed.Some? ==> runs[k].removed.value < runs[0].today)
  }

  /** Runs at most two days apart: after every run the oldest retained sample is the first one ever
      taken, or it is at least `window` days old. */
  lemma {:induction false} CoverageOverRuns(samples: Samples, runs: seq<Visit>, interval: int, window: int)
    requires interval >= 1 && window >= 0 && Tracked(samples, runs, 2)
    ensures Covered(Track(samples, runs, interval, window), runs[0].today, runs[|runs| - 1].today, interval, window)
  {
    var init, last := runs[..|runs| - 1], runs[|runs| - 1];
    if |runs| == 1 {
      assert Track(samples, init, interval, window) == samples;
      FirstUpdateCovers(samples, last.removed, last.today, last.ratio, interval, window);
    } else {
      assert forall k :: 0 <= k < |init| ==> init[k] == runs[k];
      CoverageOverRuns(samples, init, interval, window);
      NextUpdateCovers(Track(samples, init, interval, window), runs[0].today, init[|init| - 1].today, last.removed,
                       last.today, last.ratio, interval, window);
    }
  }

  /** So a torrent is judged exactly from the day it has been tracked for `window` days, against a
      ratio between `window` and `window + interval` days old. */
  lemma TrackedLongEnoughIsJudged(samples: Samples, runs: seq<Visit>, interval: int, window: int)
    requires interval >= 1 && window >= 0 && Tracked(samples, runs, 2)
    ensures var today := runs[|runs| - 1].today;
            var anchor := Anchor(Track(samples, runs, interval, window), today, window);
            && (anchor.Some? <==> today - runs[0].today >= window)
            && (anchor.Some? ==> window <= today - anchor.value.date <= window + interval)
  {
    CoverageOverRuns(samples, runs, interval, window);
    AnchorIsTheOldest(Track(samples, runs, interval, window), runs[|runs| - 1].today, window, interval);
  }

  // ---------------------------------------------------------------------------
  // The whole history, and one torrent of it
  // ---------------------------------------------------------------------------

  /** The torrent is reported in every run. */
  ghost predicate Reported(reports: seq<Report>, name: string) {
    forall k :: 0 <= k < |reports| ==> name in reports[k].current
  }

  /** What the runs say of one torrent. */
  function Visits(reports: seq<Report>, name: string): (visits: seq<Visit>)
    requires Reported(reports, name)
    ensures |visits| == |reports|
  {
    seq(|reports|, k requires 0 <= k < |reports| =>
      Visit(reports[k].today, reports[k].current[name], RemovedOn(reports[k].removed, name)))
  }

  /** The whole history keeps for a torrent reported in every run what tracking it alone gives. */
  lemma {:induction false} RunsTrack(history: History, reports: seq<Report>, name: string, interval: int, window: int)
    requires Reported(reports, name)
    ensures SamplesOf(Runs(history, reports, interval, window), name)
         == Track(SamplesOf(history, name), Visits(reports, name), interval, window)
    decreases |reports|
  {
    hide Update;
    if reports != [] {
      var init, last := reports[..|reports| - 1], reports[|reports| - 1];
      RunsTrack(history, init, name, interval, window);
      assert Visits(reports, name)[..|init|] == Visits(init, name);
      assert last == reports[|reports| - 1] && name in last.current;
    }
  }

  /** So after any runs at most two days apart that report it, its samples in the saved history hold an
      anchor exactly from the day it has been tracked for the window. */
  lemma {:induction false} ReportedTorrentIsJudged(history: History, reports: seq<Report>, name: string, interval: int,
                                                   window: int)
    requires interval >= 1 && window >= 0 && Reported(reports, name)
    requires Tracked(SamplesOf(history, name), Visits(reports, name), 2)
    ensures reports != []
    ensures var today := reports[|reports| - 1].today;
            Anchor(SamplesOf(Runs(history, reports, interval, window), name), today, window).Some?
            <==> today - reports[0].today >= window
  {
    RunsTrack(history, reports, name, interval, window);
    TrackedLongEnoughIsJudged(SamplesOf(history, name), Visits(reports, name), interval, window);
    hide Anchor, Track, Runs;
  }

  // ---------------------------------------------------------------------------
  // What an anchor is, and what is sampled
  // ---------------------------------------------------------------------------

  /** The first sample of a day. */
  function FirstOn(samples: Samples, date: int): Option<Sample> {
    if samples == [] then None else if samples[0].date == date then Some(samples[0]) else FirstOn(samples[1..], date)
  }

  /** The oldest of the samples that are at least `window` days old, of equal dates the first. */
  ghost predicate OldestAged(samples: Samples, s: Sample, today: int, window: int) {
    && s in samples && today - s.date >= window
    && (forall u :: u in samples && today - u.date >= window ==> s.date <= u.date)
    && FirstOn(samples, s.date) == Some(s)
  }

  lemma {:induction false} AgedAre(samples: Samples, today: int, window: int)
    ensures forall s :: s in OldEnough(samples, today, window) <==> s in samples && today - s.date >= window
    ensures forall date :: today - date >= window ==>
              FirstOn(OldEnough(samples, today, window), date) == FirstOn(samples, date)
  {
    if samples != [] {
      AgedAre(samples[1..], today, window);
      assert samples == [samples[0]] + samples[1..];
      var aged, rest := OldEnough(samples, today, window), OldEnough(samples[1..], today, window);
      if today - samples[0].date >= window {
        assert aged == [samples[0]] + rest && aged[1..] == rest;
      } else {
        assert aged == rest;
      }
      hide OldEnough;
      forall date | today - date >= window
        ensures FirstOn(aged, date) == FirstOn(samples, date)
      {
      }
    }
  }

  lemma {:induction false} FirstOnSnoc(init: Samples, last: Sample, date: int)
    ensures FirstOn(init + [last], date)
         == if FirstOn(init, date).Some? then FirstOn(init, date) else if last.date == date then Some(last) else None
  {
    if init == [] {
      assert init + [last] == [last] && [last][1..] == [];
    } else {
      assert (init + [last])[1..] == init[1..] + [last];
      FirstOnSnoc(init[1..], last, date);
    }
  }

  lemma {:induction false} OldestIs(samples: Samples)
    requires samples != []
    ensures var s := Oldest(samples);
            && s in samples && (forall u :: u in samples ==> s.date <= u.date) && FirstOn(samples, s.date) == Some(s)
  {
    if |samples| > 1 {
      var init, last := samples[..|samples| - 1], samples[|samples| - 1];
      OldestIs(init);
      assert samples == init + [last];
      FirstOnSnoc(init, last, Oldest(samples).date);
      if last.date < Oldest(init).date {
        NoneOn(init, last.date);
      }
    }
  }

  lemma {:induction false} NoneOn(samples: Samples, date: int)
    requires forall u :: u in samples ==> u.date != date
    ensures FirstOn(samples, date).None?
  {
    if samples != [] {
      assert samples[0] in samples;
      NoneOn(samples[1..], date);
    }
  }

  /** The anchor of any samples, in whatever order: the oldest of those at least `window` days old, and
      none if and only if there is no such sample. */
  lemma {:induction false} AnchorIs(samples: Samples, today: int, window: int)
    ensures forall s :: Anchor(samples, today, window) == Some(s) <==> OldestAged(samples, s, today, window)
    ensures Anchor(samples, today, window).None? <==> forall s :: s in samples ==> today - s.date < window
  {
    var aged := OldEnough(samples, today, window);
    AgedAre(samples, today, window);
    hide Oldest, OldEnough;
    if aged != [] {
      OldestIs(aged);
      assert Oldest(aged) in aged;
      assert OldestAged(samples, Oldest(aged), today, window);
    } else {
      assert forall s :: s !in aged;
    }
  }

  /** Every sample is one of the start or what some run reported on its day. */
  lemma {:induction false} SamplesAreReports(samples: Samples, runs: seq<Visit>, interval: int, window: int, s: Sample)
    requires s in Track(samples, runs, interval, window)
    ensures s in samples || exists k :: 0 <= k < |runs| && runs[k].today == s.date && runs[k].ratio == s.ratio
    decreases |runs|
  {
    if runs != [] {
      var init, last := runs[..|runs| - 1], runs[|runs| - 1];
      UpdateTakesFrom(Track(samples, init, interval, window), last.removed, last.today, last.ratio, interval, window,
                      s);
      if s != Sample(last.today, last.ratio) {
        SamplesAreReports(samples, init, interval, window, s);
        if s !in samples {
          var k :| 0 <= k < |init| && init[k].today == s.date && init[k].ratio == s.ratio;
          assert runs[k] == init[k];
        }
      }
    }
  }

  /** Of a tracked torrent every sample is what some run reported on its day. */
  lemma {:induction false} TrackedSamplesAreReports(samples: Samples, runs: seq<Visit>, gap: int, interval: int,
                                                    window: int, s: Sample)
    requires Tracked(samples, runs, gap) && s in Track(samples, runs, interval, window)
    ensures exists k :: 0 <= k < |runs| && runs[k].today == s.date && runs[k].ratio == s.ratio
  {
    var first := runs[0];
    var start := Update(samples, first.removed, first.today, first.ratio, interval, window);
    OnlyTheFirstSample(samples, first, interval, window);
    TrackFromTheFirst(samples, runs, interval, window);
    hide *;
    SamplesAreReports(start, runs[1..], interval, window, s);
    if s !in start {
      var k :| 0 <= k < |runs[1..]| && runs[1..][k].today == s.date && runs[1..][k].ratio == s.ratio;
      assert runs[k + 1] == runs[1..][k];
    }
  }

  lemma OnlyTheFirstSample(samples: Samples, first: Visit, interval: int, window: int)
    requires After(samples, first.removed) == []
    ensures forall s :: s in Update(samples, first.removed, first.today, first.ratio, interval, window) ==>
              s == Sample(first.today, first.ratio)
  {
    var none: Samples, one := [], [Sample(first.today, first.ratio)];
    assert none + one == one;
    NewerAreIn(one, first.today - (window + interval) - 1);
    hide NewerThan;
  }

  lemma {:induction false} TrackFromTheFirst(samples: Samples, runs: seq<Visit>, interval: int, window: int)
    requires runs != []
    ensures Track(samples, runs, interval, window)
         == Track(Update(samples, runs[0].removed, runs[0].today, runs[0].ratio, interval, window), runs[1..], interval,
                  window)
    decreases |runs|
  {
    hide Update;
    var init, last := runs[..|runs| - 1], runs[|runs| - 1];
    if |runs| == 1 {
      assert runs[1..] == [] && init == [];
    } else {
      TrackFromTheFirst(samples, init, interval, window);
      assert runs[1..][..|runs| - 2] == init[1..] && runs[1..][|runs| - 2] == last;
    }
  }

  lemma UpdateTakesFrom(samples: Samples, removed: Option<int>, today: int, ratio: int, interval: int, window: int,
                        s: Sample)
    requires s in Update(samples, removed, today, ratio, interval, window)
    ensures s in samples || s == Sample(today, ratio)
  {
    var grown := Sampled(After(samples, removed), today, ratio, interval);
    NewerAreIn(grown, today - (window + interval) - 1);
    if removed.Some? {
      NewerAreIn(samples, removed.value);
    }
    hide NewerThan;
  }

  lemma {:induction false} NewerAreIn(samples: Samples, date: int)
    ensures forall s :: s in NewerThan(samples, date) ==> s in samples
  {
    if samples != [] {
      NewerAreIn(samples[1..], date);
    }
  }

  /** So over any runs at most two days apart that report it, a torrent tracked for the window has as its
      anchor what one of the runs between `window` and `window + interval` days ago reported; before that
      it has none. */
  lemma {:induction false} ReportedAnchor(history: History, reports: seq<Report>, name: string, interval: int,
                                          window: int)
    requires interval >= 1 && window >= 0 && Reported(reports, name)
    requires Tracked(SamplesOf(history, name), Visits(reports, name), 2)
    ensures reports != []
    ensures var today := reports[|reports| - 1].today;
            var anchor := Anchor(SamplesOf(Runs(history, reports, interval, window), name), today, window);
            if today - reports[0].today < window then anchor.None?
            else exists k :: 0 <= k < |reports| && window <= today - reports[k].today <= window + interval
                   && anchor == Some(Sample(reports[k].today, reports[k].current[name]))
  {
    var visits, start := Visits(reports, name), SamplesOf(history, name);
    assert visits != [];
    var today := reports[|reports| - 1].today;
    var samples := Track(start, visits, interval, window);
    RunsTrack(history, reports, name, interval, window);
    TrackedLongEnoughIsJudged(start, visits, interval, window);
    hide Track, Tracked, Runs, Anchor;
    if today - reports[0].today >= window {
      AnchorIs(samples, today, window);
      var anchor := Anchor(samples, today, window).value;
      assert anchor in samples;
      TrackedSamplesAreReports(start, visits, 2, interval, window, anchor);
      var k :| 0 <= k < |visits| && visits[k].today == anchor.date && visits[k].ratio == anchor.ratio;
      assert anchor == Sample(reports[k].today, reports[k].current[name]);
    }
  }

  // ---------------------------------------------------------------------------
  // Two days is the limit
  // ---------------------------------------------------------------------------

  /** A history of runs from day 0 to day `d`, and the samples it leads to. */
  ghost predicate Leads(runs: seq<Visit>, d: int, samples: Samples, interval: int, window: int) {
    && Tracked([], runs, 3) && runs[0].today == 0 && runs[|runs| - 1].today == d
    && Track([], runs, interval, window) == samples
  }

  lemma OneRun(interval: int, window: int) returns (runs: seq<Visit>)
    requires window >= 1 && interval >= 1
    ensures Leads(runs, 0, [Sample(0, 0)], interval, window)
  {
    var none: Samples := [];
    runs := [Visit(0, 0, None)];
    assert runs[..0] == [] && Track([], runs[..0], interval, window) == [];
    assert none + [Sample(0, 0)] == [Sample(0, 0)];
    OneSample(0, 0, -(window + interval) - 1);
  }

  lemma OneMoreRun(init: seq<Visit>, before: int, samples: Samples, d: int, interval: int, window: int)
    returns (runs: seq<Visit>)
    requires Leads(init, before, samples, interval, window) && before <= d <= before + 3
    ensures Leads(runs, d, Update(samples, None, d, 0, interval, window), interval, window)
  {
    hide Update;
    runs := init + [Visit(d, 0, None)];
    assert runs[..|init|] == init;
  }

  /** Daily runs up to day `d`, before the second sample is due. */
  lemma {:induction false} DailyStart(d: nat, interval: int, window: int) returns (runs: seq<Visit>)
    requires window >= 1 && d < interval
    ensures Leads(runs, d, [Sample(0, 0)], interval, window)
  {
    if d == 0 {
      runs := OneRun(interval, window);
    } else {
      hide Leads;
      var init := DailyStart(d - 1, interval, window);
      OneSample(0, 0, d - (window + interval) - 1);
      runs := OneMoreRun(init, d - 1, [Sample(0, 0)], d, interval, window);
    }
  }

  /** Day 0 and day interval + 2 are the two oldest samples. */
  ghost predicate SkippedAhead(samples: Samples, d: int, interval: int) {
    && |samples| >= 2 && Spaced(samples, interval) && samples[|samples| - 1].date <= d
    && samples[0].date == 0 && samples[1].date == interval + 2
  }

  /** Sampling on day `d` goes on from either stage. */
  lemma SkipOn(samples: Samples, d: int, interval: int, window: int) returns (grown: Samples, j: nat)
    requires window >= 1 && interval >= 1 && interval + 2 <= d <= window + interval + 1
    requires if d == interval + 2 then samples == [Sample(0, 0)] else SkippedAhead(samples, d - 1, interval)
    ensures SkippedAhead(grown, d, interval)
    ensures j == (if d == window + interval + 1 then 1 else 0)
    ensures Update(samples, None, d, 0, interval, window) == grown[j..] && Spaced(grown[j..], interval)
  {
    var k;
    hide Update, After, AllNewer, NoneNewer;
    EitherStageIsSpaced(samples, d, interval);
    k, grown, j := UpdateShape(samples, None, d, 0, interval, window);
    assert samples[0..] == samples;
    hide Spaced;
    SkipGrows(samples, grown, d, interval);
    var oldest := d - (window + interval) - 1;
    Cut(grown, j, oldest, 0);
    Cut(grown, j, oldest, 1);
  }

  lemma EitherStageIsSpaced(samples: Samples, d: int, interval: int)
    requires if d == interval + 2 then samples == [Sample(0, 0)] else SkippedAhead(samples, d - 1, interval)
    ensures Spaced(samples, interval)
  {
  }

  lemma SkipGrows(samples: Samples, grown: Samples, d: int, interval: int)
    requires interval >= 1
    requires if d == interval + 2 then samples == [Sample(0, 0)] else SkippedAhead(samples, d - 1, interval)
    requires grown == if d - samples[|samples| - 1].date >= interval then samples + [Sample(d, 0)] else samples
    requires Spaced(grown, interval)
    ensures SkippedAhead(grown, d, interval)
  {
    hide Spaced;
  }

  /** Then a three-day gap, and daily runs again. */
  lemma {:induction false} DailyAfterTheGap(d: nat, interval: int, window: int)
    returns (runs: seq<Visit>, samples: Samples)
    requires window >= 1 && interval >= 1 && interval + 2 <= d <= window + interval
    ensures Leads(runs, d, samples, interval, window) && SkippedAhead(samples, d, interval)
    decreases d, 1
  {
    hide Leads, Update;
    var init, before, last := StageBefore(d, interval, window);
    var grown, j := SkipOn(before, d, interval, window);
    assert grown[0..] == grown;
    samples := grown;
    runs := OneMoreRun(init, last, before, d, interval, window);
  }

  lemma {:induction false} StageBefore(d: nat, interval: int, window: int)
    returns (runs: seq<Visit>, samples: Samples, last: int)
    requires window >= 1 && interval >= 1 && interval + 2 <= d <= window + interval + 1
    ensures last == (if d == interval + 2 then interval - 1 else d - 1)
    ensures Leads(runs, last, samples, interval, window)
    ensures if d == interval + 2 then samples == [Sample(0, 0)] else SkippedAhead(samples, d - 1, interval)
    decreases d, 0
  {
    hide Leads;
    if d == interval + 2 {
      last, samples := interval - 1, [Sample(0, 0)];
      runs := DailyStart(interval - 1, interval, window);
    } else {
      last := d - 1;
      runs, samples := DailyAfterTheGap(d - 1, interval, window);
    }
  }

  /** With gaps of three days allowed, for every interval and every window of at least a day some run
      leaves a torrent that has been tracked for `window` days and more without an anchor. */
  lemma {:induction false} ThreeDayGapsStarve(interval: int, window: int) returns (runs: seq<Visit>)
    requires window >= 1 && interval >= 1
    ensures Tracked([], runs, 3) && runs[|runs| - 1].today - runs[0].today >= window
    ensures Anchor(Track([], runs, interval, window), runs[|runs| - 1].today, window).None?
  {
    hide Update, Track, Tracked, Anchor;
    var d := window + interval + 1;
    var init, before, last := StageBefore(d, interval, window);
    var grown, j := SkipOn(before, d, interval, window);
    runs := OneMoreRun(init, last, before, d, interval, window);
    AnchorIsTheOldest(grown[1..], d, window, interval);
  }

  /** What an update leaves of a torrent reported in every run, whatever the gaps: the newest sample is
      less than an interval old. */
  ghost predicate Fresh(samples: Samples, today: int, interval: int) {
    samples != [] && Spaced(samples, interval) && 0 <= today - samples[|samples| - 1].date < interval
  }

  lemma NextUpdateIsFresh(samples: Samples, before: int, removed: Option<int>, today: int, ratio: int, interval: int,
                          window: int)
    requires interval >= 1 && window >= 0 && Fresh(samples, before, interval) && before <= today
    ensures Fresh(Update(samples, removed, today, ratio, interval, window), today, interval)
  {
    hide Update, Spaced, After, AllNewer, NoneNewer;
    var k, grown, j := UpdateShape(samples, removed, today, ratio, interval, window);
    Cut(grown, j, today - (window + interval) - 1, |grown| - 1);
  }

  lemma {:induction false} TrackIsFresh(samples: Samples, runs: seq<Visit>, gap: int, interval: int, window: int)
    requires interval >= 1 && window >= 0 && Tracked(samples, runs, gap)
    ensures Fresh(Track(samples, runs, interval, window), runs[|runs| - 1].today, interval)
  {
    var init, last := runs[..|runs| - 1], runs[|runs| - 1];
    if |runs| == 1 {
      assert Track(samples, init, interval, window) == samples;
      FirstUpdateCovers(samples, last.removed, last.today, last.ratio, interval, window);
    } else {
      assert forall k :: 0 <= k < |init| ==> init[k] == runs[k];
      TrackIsFresh(samples, init, gap, interval, window);
      NextUpdateIsFresh(Track(samples, init, interval, window), init[|init| - 1].today, last.removed, last.today,
          last.ratio,
                        interval, window);
    }
  }

  /** Whoever has been tracked for `window` days has an anchor, in every history of runs at most `gap`
      days apart. */
  ghost predicate NeverStarves(gap: int, interval: int, window: int) {
    forall samples: Samples, runs: seq<Visit> ::
      Tracked(samples, runs, gap) && runs != [] && runs[|runs| - 1].today - runs[0].today >= window ==>
        Anchor(Track(samples, runs, interval, window), runs[|runs| - 1].today, window).Some?
  }

  lemma NarrowerGaps(samples: Samples, runs: seq<Visit>, gap: int, wider: int)
    requires Tracked(samples, runs, gap) && gap <= wider
    ensures Tracked(samples, runs, wider)
  {
  }

  lemma TrackedRuns(samples: Samples, runs: seq<Visit>, gap: int)
    requires Tracked(samples, runs, gap)
    ensures runs != []
  {
  }

  lemma FreshIsJudged(samples: Samples, today: int, interval: int)
    requires interval >= 1 && Fresh(samples, today, interval)
    ensures Anchor(samples, today, 0).Some?
  {
    SpacedAscends(samples, interval, 0, |samples| - 1);
    MulPositive(|samples| - 1, interval);
    AnchorIsTheOldest(samples, today, 0, interval);
  }

  /** Two days is the limit, for every interval and every window of at least a day; a window of 0 days
      never starves. */
  lemma {:induction false} NeverStarvesIff(gap: int, interval: int, window: int)
    requires interval >= 1 && window >= 0
    ensures NeverStarves(gap, interval, window) <==> gap <= 2 || window == 0
  {
    hide Tracked, Anchor, Track, Fresh;
    forall samples: Samples, runs: seq<Visit> | Tracked(samples, runs, gap) && (gap <= 2 || window == 0)
                                                && runs != [] && runs[|runs| - 1].today - runs[0].today >= window
      ensures Anchor(Track(samples, runs, interval, window), runs[|runs| - 1].today, window).Some?
    {
      if window == 0 {
        TrackIsFresh(samples, runs, gap, interval, window);
        FreshIsJudged(Track(samples, runs, interval, window), runs[|runs| - 1].today, interval);
      } else {
        NarrowerGaps(samples, runs, gap, 2);
        TrackedLongEnoughIsJudged(samples, runs, interval, window);
      }
    }
    if gap > 2 && window > 0 {
      var none: Samples := [];
      var runs := ThreeDayGapsStarve(interval, window);
      NarrowerGaps(none, runs, 3, gap);
      assert runs != [] by { TrackedRuns(none, runs, 3); }
      assert Anchor(Track(none, runs, interval, window), runs[|runs| - 1].today, window).None?;
      assert !NeverStarves(gap, interval, window);
    }
  }

  // ---------------------------------------------------------------------------
  // Repeating an update
  // ---------------------------------------------------------------------------

  /** What an update leaves passes the removal filter, but for today's own sample. */
  lemma LeftPasses(samples: Samples, removed: Option<int>, oldest: int)
    ensures var left := NewerThan(After(samples, removed), oldest);
            After(left, removed) == left && NewerThan(left, oldest) == left
  {
    var kept := After(samples, removed);
    hide NewerThan;
    NewerAreNewer(kept, oldest);
    NewerOfNewer(NewerThan(kept, oldest), oldest);
    if removed.Some? {
      NewerAreNewer(samples, removed.value);
      NewerKeeps(kept, oldest, removed.value);
      NewerOfNewer(NewerThan(kept, oldest), removed.value);
    }
  }

  lemma OldSample(s: Sample, date: int)
    requires s.date <= date
    ensures NewerThan([s], date) == []
  {
    assert [s][1..] == [];
  }

  lemma AfterAppend(left: Samples, s: Sample, removed: Option<int>)
    requires After(left, removed) == left
    ensures After(left + [s], removed) == if removed.Some? && s.date <= removed.value then left else left + [s]
  {
    if removed.Some? {
      NewerAppend(left, [s], removed.value);
      if s.date > removed.value {
        OneSample(s.date, s.ratio, removed.value);
      } else {
        OldSample(s, removed.value);
        assert left + [] == left;
      }
    }
  }

  lemma KeptAreNewer(samples: Samples, date: int)
    requires NewerThan(samples, date) != []
    ensures var kept := NewerThan(samples, date); kept[|kept| - 1].date > date
  {
    NewerAreNewer(samples, date);
  }

  /** A second update on the same day with the same ratio changes nothing. */
  lemma UpdateTwiceIsOnce(samples: Samples, removed: Option<int>, today: int, ratio: int, interval: int, window: int)
    requires interval >= 1 && window >= 0
    ensures var once := Update(samples, removed, today, ratio, interval, window);
            Update(once, removed, today, ratio, interval, window) == once
  {
    var kept := After(samples, removed);
    var oldest := today - (window + interval) - 1;
    var left := NewerThan(kept, oldest);
    var s := Sample(today, ratio);
    hide NewerThan;
    LeftPasses(samples, removed, oldest);
    if kept != [] && today - kept[|kept| - 1].date < interval {
      LastIsKept(kept, oldest);
      assert Update(samples, removed, today, ratio, interval, window) == left;
    } else {
      NewerAppend(kept, [s], oldest);
      OneSample(today, ratio, oldest);
      assert Update(samples, removed, today, ratio, interval, window) == left + [s];
      AfterAppend(left, s, removed);
      NewerAppend(left, [s], oldest);
      if removed.Some? && today <= removed.value {
        if kept != [] {
          KeptAreNewer(samples, removed.value);
          assert false;
        }
        NoSamples(oldest);
      }
    }
  }

  lemma NoSamples(date: int)
    ensures NewerThan([], date) == []
  {
  }

  // ---------------------------------------------------------------------------
  // A removed copy's samples are never held against its successor
  // ---------------------------------------------------------------------------

  ghost predicate NewerOrToday(samples: Samples, date: int, today: int) {
    forall k :: 0 <= k < |samples| ==> samples[k].date > date || samples[k].date == today
  }

  lemma {:induction false} FilterNewerOrToday(samples: Samples, cut: int, date: int, today: int)
    requires NewerOrToday(samples, date, today)
    ensures NewerOrToday(NewerThan(samples, cut), date, today)
  {
    if samples != [] {
      FilterNewerOrToday(samples[1..], cut, date, today);
    }
  }

  lemma {:induction false} OldEnoughAre(samples: Samples, today: int, window: int, date: int)
    requires window >= 1 && NewerOrToday(samples, date, today)
    ensures forall k :: 0 <= k < |OldEnough(samples, today, window)| ==>
              date < OldEnough(samples, today, window)[k].date <= today - window
  {
    if samples != [] {
      OldEnoughAre(samples[1..], today, window, date);
    }
  }

  lemma {:induction false} OldestIsOne(samples: Samples)
    requires samples != []
    ensures exists k :: 0 <= k < |samples| && samples[k] == Oldest(samples)
  {
    if |samples| == 1 {
      assert samples[0] == Oldest(samples);
    } else {
      var init := samples[..|samples| - 1];
      OldestIsOne(init);
      var k :| 0 <= k < |init| && init[k] == Oldest(init);
      assert samples[k] == init[k];
      assert samples[|samples| - 1] == Oldest(samples) || samples[k] == Oldest(samples);
    }
  }

  /** Whatever samples were on file, well spaced or not: after an update the anchor postdates the
      removal on record, so no verdict falls before `window` + 1 days after the removal. */
  lemma AnchorPostdatesRemoval(samples: Samples, removedOn: int, today: int, ratio: int, interval: int, window: int)
    requires window >= 1
    ensures var anchor := Anchor(Update(samples, Some(removedOn), today, ratio, interval, window), today, window);
            anchor.Some? ==> anchor.value.date > removedOn && today >= removedOn + window + 1
  {
    hide NewerThan, OldEnough, Oldest;
    NewerAreNewer(samples, removedOn);
    var grown := Sampled(After(samples, Some(removedOn)), today, ratio, interval);
    assert NewerOrToday(grown, removedOn, today);
    FilterNewerOrToday(grown, today - (window + interval) - 1, removedOn, today);
    var updated := Update(samples, Some(removedOn), today, ratio, interval, window);
    OldEnoughAre(updated, today, window, removedOn);
    if OldEnough(updated, today, window) != [] {
      OldestIsOne(OldEnough(updated, today, window));
    }
  }

  /** With a window of 0 days the sample taken on the day of the removal itself is an anchor. */
  lemma WindowZeroJudgesAtOnce(day: int, ratio: int, interval: int)
    requires interval >= 0
    ensures Anchor(Update([], Some(day), day, ratio, interval, 0), day, 0) == Some(Sample(day, ratio))
  {
    var none: Samples := [];
    var one := [Sample(day, ratio)];
    OneSample(day, ratio, day - interval - 1);
    assert After([], Some(day)) == none;
    assert Sampled(none, day, ratio, interval) == one;
    assert Update([], Some(day), day, ratio, interval, 0) == one;
    assert OldEnough(one, day, 0) == one by {
      assert one[1..] == none;
    }
  }
}
