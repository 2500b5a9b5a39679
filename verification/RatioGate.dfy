/** The ratio gate of `should_fetch_torrent`: a new version is fetched only when the version before
    it earned its keep, and removing versions must not change that answer. */
module RatioGate {
  import Lex
  import opened Optional
  import opened TorrentNames

  /** Ratios are thousandths: 1000 is a ratio of 1.0. */
  const FULL := 1000

  datatype Reason = Stagnant | KeepOnlyLatest | DiskPressure

  /** A removed-history record; records written before ratios were kept have none. */
  datatype Removal = Removal(date: int, reason: Reason, ratio: Option<int>)

  /** Python dicts in insertion order. */
  datatype Live = Live(name: string, ratio: int)
  datatype Gone = Gone(name: string, record: Removal)

  function LiveNames(ratios: seq<Live>): set<string> {
    set k | 0 <= k < |ratios| :: ratios[k].name
  }

  predicate HeldIn(ratios: seq<Live>, name: string) {
    name in LiveNames(ratios)
  }

  // ---------------------------------------------------------------------------
  // What is on record for a version
  // ---------------------------------------------------------------------------

  /** The last live entry that reads as this group and version. */
  function LiveRatio(ratios: seq<Live>, at: Parsed): Option<int> {
    if ratios == [] then None
    else
      var last := ratios[|ratios| - 1];
      if Parse(last.name) == Some(at) then Some(last.ratio) else LiveRatio(ratios[..|ratios| - 1], at)
  }

  predicate Counts(entry: Gone, ratios: seq<Live>, at: Parsed) {
    !HeldIn(ratios, entry.name) && entry.record.ratio.Some? && Parse(entry.name) == Some(at)
  }

  /** The first removed entry, not held under its own name and with a ratio, that reads so. */
  function GoneRatio(removed: seq<Gone>, ratios: seq<Live>, at: Parsed): Option<int> {
    if removed == [] then None
    else if Counts(removed[0], ratios, at) then removed[0].record.ratio
    else GoneRatio(removed[1..], ratios, at)
  }

  /** A live entry beats removed history, even when only the version tuple coincides. */
  function Recorded(ratios: seq<Live>, removed: seq<Gone>, at: Parsed): Option<int> {
    var live := LiveRatio(ratios, at);
    if live.Some? then live else GoneRatio(removed, ratios, at)
  }

  /** `v` is the greatest version on record that is strictly older than `version`. */
  ghost predicate IsPrevious(recorded: Parsed -> Option<int>, group: Group, version: Version, v: Version) {
    && recorded(Parsed(group, v)).Some? && Lex.Less(v, version)
    && forall u: Version :: recorded(Parsed(group, u)).Some? && Lex.Less(u, version) ==> u == v || Lex.Less(u, v)
  }

  /** The gate as a statement: whatever version comes right before, its ratio is at least 1.0. */
  ghost predicate GateOpen(recorded: Parsed -> Option<int>, group: Group, version: Version) {
    forall v: Version :: IsPrevious(recorded, group, version, v) ==> recorded(Parsed(group, v)).value >= FULL
  }

  /** The ratios of the other Devuan releases that are listed, and of those that are removed. */
  function DevuanListed(name: string, ratios: seq<Live>): set<int> {
    set k | 0 <= k < |ratios| && ratios[k].name != name && IsDevuan(ratios[k].name) :: ratios[k].ratio
  }

  function DevuanRemoved(name: string, removed: seq<Gone>): set<int> {
    set k | 0 <= k < |removed| && removed[k].name != name && IsDevuan(removed[k].name)
            && removed[k].record.ratio.Some? :: removed[k].record.ratio.value
  }

  /** The Devuan gate: any other release at 1.0 or more, removed ones counting only when none is held. */
  predicate DevuanOpen(name: string, ratios: seq<Live>, removed: seq<Gone>) {
    var listed := DevuanListed(name, ratios);
    var prior := if listed != {} then listed else DevuanRemoved(name, removed);
    HeldIn(ratios, name) || prior == {} || exists r :: r in prior && r >= FULL
  }

  ghost predicate ShouldFetch(name: string, ratios: seq<Live>, removed: seq<Gone>, skipRatioCheck: bool) {
    || skipRatioCheck
    || (if DistroOf(name).None? then IsDevuan(name) ==> DevuanOpen(name, ratios, removed)
        else
          Parse(name).Some? ==>
            GateOpen(at => Recorded(ratios, removed, at), Parse(name).value.group, Parse(name).value.version))
  }

  // ---------------------------------------------------------------------------
  // The loops of `should_fetch_torrent`
  // ---------------------------------------------------------------------------

  ghost predicate TableOf(table: map<Version, int>, recorded: Parsed -> Option<int>, group: Group) {
    forall v: Version :: (v in table <==> recorded(Parsed(group, v)).Some?)
                         && (v in table ==> recorded(Parsed(group, v)) == Some(table[v]))
  }

  lemma {:induction false} GoneRatioSnoc(removed: seq<Gone>, entry: Gone, ratios: seq<Live>, at: Parsed)
    ensures GoneRatio(removed + [entry], ratios, at)
         == if GoneRatio(removed, ratios, at).Some? then GoneRatio(removed, ratios, at)
            else if Counts(entry, ratios, at) then entry.record.ratio else None
  {
    if removed == [] {
      assert removed + [entry] == [entry];
      assert [entry][1..] == [];
    } else {
      assert (removed + [entry])[1..] == removed[1..] + [entry];
      GoneRatioSnoc(removed[1..], entry, ratios, at);
    }
  }

  method Greatest(versions: set<Version>) returns (m: Version)
    requires versions != {}
    ensures m in versions && forall u :: u in versions ==> u == m || Lex.Less(u, m)
  {
    m :| m in versions;
    var rest := versions - {m};
    while rest != {}
      invariant m in versions && rest <= versions
      invariant forall u :: u in versions && u !in rest ==> u == m || Lex.Less(u, m)
      decreases rest
    {
      var v: Version :| v in rest;
      Lex.Trichotomy(m, v);
      if Lex.Less(m, v) {
        forall u | u in versions && u !in rest - {v}
          ensures u == v || Lex.Less(u, v)
        {
          if u != v && u != m {
            Lex.Transitive(u, m, v);
          }
        }
        m := v;
      }
      rest := rest - {v};
    }
  }

  /** `should_fetch_torrent`: the two loops that fill `type_ratios`, then the greatest older version. */
  method ShouldFetchTorrent(name: string, ratios: seq<Live>, removed: seq<Gone>, skipRatioCheck: bool)
    returns (fetch: bool)
    ensures fetch <==> ShouldFetch(name, ratios, removed, skipRatioCheck)
  {
    if skipRatioCheck {
      return true;
    }
    if DistroOf(name).None? {
      return !IsDevuan(name) || DevuanOpen(name, ratios, removed);
    }
    if Parse(name).None? {
      return true;
    }
    var Parsed(group, version) := Parse(name).value;
    var table := TypeRatios(ratios, removed, group);
    var older := set v: Version | v in table && Lex.Less(v, version);
    if older == {} {
      assert forall v: Version :: Lex.Less(v, version) && v in table ==> v in older;
      return true;
    }
    var previous := Greatest(older);
    fetch := table[previous] >= FULL;
    assert forall u: Version :: u in table && Lex.Less(u, version) ==> u in older;
    ghost var recorded := (at: Parsed) => Recorded(ratios, removed, at);
    assert IsPrevious(recorded, group, version, previous);
    forall v: Version | IsPrevious(recorded, group, version, v)
      ensures v == previous
    {
      Lex.Trichotomy(v, previous);
    }
  }

  method TypeRatios(ratios: seq<Live>, removed: seq<Gone>, group: Group) returns (table: map<Version, int>)
    ensures TableOf(table, at => Recorded(ratios, removed, at), group)
  {
    table := map[];
    for i := 0 to |ratios|
      invariant TableOf(table, at => LiveRatio(ratios[..i], at), group)
    {
      assert ratios[..i + 1][..i] == ratios[..i] && ratios[..i + 1][i] == ratios[i];
      var parsed := Parse(ratios[i].name);
      if parsed.Some? && parsed.value.group == group {
        table := table[parsed.value.version := ratios[i].ratio];
      }
    }
    assert ratios[..|ratios|] == ratios;
    for i := 0 to |removed|
      invariant TableOf(table, at => Recorded(ratios, removed[..i], at), group)
    {
      var entry := removed[i];
      assert removed[..i + 1] == removed[..i] + [entry];
      forall at: Parsed
        ensures Recorded(ratios, removed[..i + 1], at)
             == if Recorded(ratios, removed[..i], at).Some? then Recorded(ratios, removed[..i], at)
                else if Counts(entry, ratios, at) then entry.record.ratio else None
      {
        GoneRatioSnoc(removed[..i], entry, ratios, at);
      }
      if !HeldIn(ratios, entry.name) && entry.record.ratio.Some? {
        var parsed := Parse(entry.name);
        if parsed.Some? && parsed.value.group == group && parsed.value.version !in table {
          table := table[parsed.value.version := entry.record.ratio.value];
        }
      }
    }
    assert removed[..|removed|] == removed;
  }
}
