/** What the ratio gate reads, and what removals do to it. */
module RatioGateTheory {
  import Lex
  import opened Optional
  import opened TorrentNames
  import opened RatioGate

  // ---------------------------------------------------------------------------
  // The order of names
  // ---------------------------------------------------------------------------

  function Codes(name: string): seq<int> {
    seq(|name|, i requires 0 <= i < |name| => name[i] as int)
  }

  /** Python's order of strings: by code points. */
  predicate NameLess(a: string, b: string) {
    Lex.Less(Codes(a), Codes(b))
  }

  lemma NameTrichotomy(a: string, b: string)
    ensures NameLess(a, b) || a == b || NameLess(b, a)
    ensures !(NameLess(a, b) && NameLess(b, a)) && !NameLess(a, a)
  {
    Lex.Trichotomy(Codes(a), Codes(b));
    Lex.Trichotomy(Codes(a), Codes(a));
    if Codes(a) == Codes(b) {
      assert |a| == |Codes(a)| == |b|;
      forall i | 0 <= i < |a|
        ensures a[i] == b[i]
      {
        assert Codes(a)[i] == Codes(b)[i];
      }
    }
  }

  ghost predicate IsFirst(n: string, names: set<string>) {
    n in names && forall m :: m in names ==> m == n || NameLess(n, m)
  }

  lemma {:induction false} FirstExists(names: set<string>)
    requires names != {}
    ensures exists n :: IsFirst(n, names)
  {
    hide NameLess;
    var n :| n in names;
    var rest := names - {n};
    assert forall m :: m in names ==> m == n || m in rest;
    if rest == {} {
      assert IsFirst(n, names);
    } else {
      FirstExists(rest);
      var m :| IsFirst(m, rest);
      NameTrichotomy(n, m);
      if NameLess(n, m) {
        forall k | k in names && k != n
          ensures NameLess(n, k)
        {
          if k != m {
            NameTransitive(n, m, k);
          }
        }
        assert IsFirst(n, names);
      } else {
        assert IsFirst(m, names);
      }
    }
  }

  lemma NameTransitive(a: string, b: string, c: string)
    requires NameLess(a, b) && NameLess(b, c)
    ensures NameLess(a, c)
  {
    Lex.Transitive(Codes(a), Codes(b), Codes(c));
  }

  ghost function First(names: set<string>): (n: string)
    requires names != {}
    ensures IsFirst(n, names)
  {
    FirstExists(names);
    var n :| IsFirst(n, names);
    n
  }

  lemma FirstIs(n: string, names: set<string>)
    requires IsFirst(n, names)
    ensures names != {} && First(names) == n
  {
    NameTrichotomy(n, First(names));
  }

  ghost predicate IsLeast(r: int, ratios: map<string, int>) {
    (exists n :: n in ratios && ratios[n] == r) && forall n :: n in ratios ==> r <= ratios[n]
  }

  lemma {:induction false} LeastExists(ratios: map<string, int>)
    requires ratios != map[]
    ensures exists r :: IsLeast(r, ratios)
  {
    var n :| n in ratios;
    var rest := ratios - {n};
    assert forall m :: m in ratios ==> m == n || m in rest;
    if rest == map[] {
      assert IsLeast(ratios[n], ratios);
    } else {
      LeastExists(rest);
      var r :| IsLeast(r, rest);
      var m :| m in rest && rest[m] == r;
      assert IsLeast(if ratios[n] <= r then ratios[n] else ratios[m], ratios);
    }
  }

  ghost function Least(ratios: map<string, int>): (r: int)
    requires ratios != map[]
    ensures IsLeast(r, ratios)
  {
    LeastExists(ratios);
    var r :| IsLeast(r, ratios);
    r
  }

  lemma LeastOfOne(ratios: map<string, int>, n: string)
    requires n in ratios && forall m :: m in ratios ==> m == n
    ensures ratios != map[] && Least(ratios) == ratios[n]
  {
  }

  // ---------------------------------------------------------------------------
  // The record that speaks for a version
  // ---------------------------------------------------------------------------

  /** The names the ratio log lists, with their ratios, and the removed history. */
  datatype Books = Books(listed: map<string, int>, removed: map<string, Removal>)

  /** The listed names that read as this group and version, with their ratios. */
  ghost function ListedFor(listed: map<string, int>, at: Parsed): map<string, int> {
    map n | n in listed && Parse(n) == Some(at) :: listed[n]
  }

  /** The removed names, not listed themselves and with a ratio, that read so. */
  ghost function RemovedFor(b: Books, at: Parsed): set<string> {
    set n | n in b.removed && n !in b.listed && b.removed[n].ratio.Some? && Parse(n) == Some(at)
  }

  /** The least ratio among the listed names that read so; if none does, the ratio of the first by
      name of the removed ones. */
  ghost function Speaker(b: Books, at: Parsed): Option<int> {
    var listed, removed := ListedFor(b.listed, at), RemovedFor(b, at);
    if listed != map[] then Some(Least(listed)) else if removed != {} then b.removed[First(removed)].ratio else None
  }

  // ---------------------------------------------------------------------------
  // The lists `should_fetch_torrent` reads it from
  // ---------------------------------------------------------------------------

  /** The dict that comes out of the ratio log: highest ratio first. */
  ghost predicate Lists(ratios: seq<Live>, listed: map<string, int>) {
    && LiveNames(ratios) == listed.Keys
    && (forall k :: 0 <= k < |ratios| ==> listed[ratios[k].name] == ratios[k].ratio)
    && (forall i, j :: 0 <= i < j < |ratios| ==> ratios[i].ratio >= ratios[j].ratio)
  }

  /** The dict that comes out of the saved history: in order of names. */
  ghost predicate Files(removed: seq<Gone>, history: map<string, Removal>) {
    && (forall k :: 0 <= k < |removed| ==> removed[k].name in history && history[removed[k].name] == removed[k].record)
    && (forall n :: n in history ==> exists k :: 0 <= k < |removed| && removed[k].name == n)
    && (forall i, j :: 0 <= i < j < |removed| ==> NameLess(removed[i].name, removed[j].name))
  }

  lemma {:induction false} LiveRatioIsTheLast(ratios: seq<Live>, at: Parsed) returns (k: nat)
    ensures LiveRatio(ratios, at).None? ==> forall i :: 0 <= i < |ratios| ==> Parse(ratios[i].name) != Some(at)
    ensures LiveRatio(ratios, at).Some? ==>
              && k < |ratios| && Parse(ratios[k].name) == Some(at) && LiveRatio(ratios, at) == Some(ratios[k].ratio)
              && forall i :: k < i < |ratios| ==> Parse(ratios[i].name) != Some(at)
  {
    hide Parse;
    k := 0;
    if ratios != [] {
      if Parse(ratios[|ratios| - 1].name) == Some(at) {
        k := |ratios| - 1;
      } else {
        k := LiveRatioIsTheLast(ratios[..|ratios| - 1], at);
      }
    }
  }

  lemma {:induction false} GoneRatioIsTheFirst(removed: seq<Gone>, ratios: seq<Live>, at: Parsed) returns (k: nat)
    ensures GoneRatio(removed, ratios, at).None? ==> forall i :: 0 <= i < |removed| ==> !Counts(removed[i], ratios, at)
    ensures GoneRatio(removed, ratios, at).Some? ==>
              && k < |removed| && Counts(removed[k], ratios, at)
              && GoneRatio(removed, ratios, at) == removed[k].record.ratio
              && forall i :: 0 <= i < k ==> !Counts(removed[i], ratios, at)
  {
    hide Counts;
    k := 0;
    if removed != [] && !Counts(removed[0], ratios, at) {
      var j := GoneRatioIsTheFirst(removed[1..], ratios, at);
      k := j + 1;
    } else if removed != [] {
      CountsHasRatio(removed[0], ratios, at);
    }
  }

  lemma CountsHasRatio(entry: Gone, ratios: seq<Live>, at: Parsed)
    requires Counts(entry, ratios, at)
    ensures entry.record.ratio.Some?
  {
  }

  lemma LiveRatioIsTheLeast(ratios: seq<Live>, listed: map<string, int>, at: Parsed)
    requires Lists(ratios, listed)
    ensures LiveRatio(ratios, at)
         == if ListedFor(listed, at) == map[] then None else Some(Least(ListedFor(listed, at)))
  {
    hide Parse, LiveRatio;
    var k := LiveRatioIsTheLast(ratios, at);
    var all := ListedFor(listed, at);
    if LiveRatio(ratios, at).Some? {
      assert ratios[k].name in LiveNames(ratios);
      assert ratios[k].name in all;
      forall n | n in all
        ensures ratios[k].ratio <= all[n]
      {
        assert n in LiveNames(ratios);
      }
    } else {
      forall n | n in listed
        ensures Parse(n) != Some(at)
      {
        assert n in LiveNames(ratios);
      }
    }
  }

  lemma GoneRatioIsOfTheFirstName(removed: seq<Gone>, ratios: seq<Live>, b: Books, at: Parsed)
    requires Lists(ratios, b.listed) && Files(removed, b.removed)
    ensures var names := RemovedFor(b, at);
            GoneRatio(removed, ratios, at) == if names == {} then None else b.removed[First(names)].ratio
  {
    hide Parse, GoneRatio, NameLess;
    var k := GoneRatioIsTheFirst(removed, ratios, at);
    var names := RemovedFor(b, at);
    forall n | n in names
      ensures exists i :: 0 <= i < |removed| && removed[i].name == n && Counts(removed[i], ratios, at)
    {
      var i :| 0 <= i < |removed| && removed[i].name == n;
      assert Counts(removed[i], ratios, at);
    }
    if GoneRatio(removed, ratios, at).Some? {
      var first := removed[k].name;
      assert first in names;
      forall n | n in names
        ensures n == first || NameLess(first, n)
      {
        var i :| 0 <= i < |removed| && removed[i].name == n && Counts(removed[i], ratios, at);
        assert i >= k;
      }
      FirstIs(first, names);
    }
  }

  /** What the two loops of the gate find for a version is the record that speaks for it. */
  lemma {:induction false} RecordedIsTheSpeaker(ratios: seq<Live>, removed: seq<Gone>, b: Books, at: Parsed)
    requires Lists(ratios, b.listed) && Files(removed, b.removed)
    ensures Recorded(ratios, removed, at) == Speaker(b, at)
  {
    hide Lists, Files, ListedFor, RemovedFor, LiveRatio, GoneRatio, First, Least;
    LiveRatioIsTheLeast(ratios, b.listed, at);
    GoneRatioIsOfTheFirstName(removed, ratios, b, at);
  }

  ghost predicate Open(b: Books, group: Group, version: Version) {
    GateOpen(at => Speaker(b, at), group, version)
  }

  /** The gate's answer for a candidate name. */
  ghost predicate Fetches(b: Books, name: string) {
    Parse(name).Some? ==> Open(b, Parse(name).value.group, Parse(name).value.version)
  }

  /** Two records that agree in what they cover and on which side of 1.0 each ratio lies. */
  ghost predicate SameSides(f: Parsed -> Option<int>, g: Parsed -> Option<int>) {
    forall at: Parsed :: SameSide(f(at), g(at))
  }

  predicate SameSide(r: Option<int>, s: Option<int>) {
    (r.Some? <==> s.Some?) && (r.Some? ==> (r.value >= FULL <==> s.value >= FULL))
  }

  lemma SameSidesSameGate(f: Parsed -> Option<int>, g: Parsed -> Option<int>, group: Group, version: Version)
    requires SameSides(f, g)
    ensures GateOpen(f, group, version) <==> GateOpen(g, group, version)
  {
    forall v: Version
      ensures IsPrevious(f, group, version, v) <==> IsPrevious(g, group, version, v)
      ensures SameSide(f(Parsed(group, v)), g(Parsed(group, v)))
    {
      assert forall u: Version :: SameSide(f(Parsed(group, u)), g(Parsed(group, u)));
    }
  }

  /** `should_fetch_torrent` answers by the books its two dicts were made from. */
  lemma {:induction false} GateReadsTheBooks(ratios: seq<Live>, removed: seq<Gone>, b: Books, name: string,
                                             skipRatioCheck: bool)
    requires Lists(ratios, b.listed) && Files(removed, b.removed) && DistroOf(name).Some?
    ensures ShouldFetch(name, ratios, removed, skipRatioCheck) <==> skipRatioCheck || Fetches(b, name)
  {
    hide Parse, DistroOf, Recorded, Speaker, Lists, Files, GateOpen;
    var f, g := (at: Parsed) => Recorded(ratios, removed, at), (at: Parsed) => Speaker(b, at);
    forall at: Parsed
      ensures SameSide(f(at), g(at))
    {
      RecordedIsTheSpeaker(ratios, removed, b, at);
    }
    if Parse(name).Some? {
      SameSidesSameGate(f, g, Parse(name).value.group, Parse(name).value.version);
    }
  }

  // ---------------------------------------------------------------------------
  // Removals
  // ---------------------------------------------------------------------------

  /** Removals as the gate gets to see them: the names are listed no longer, and on the removed history
      with what `record_removal` wrote. A name held with a negative ratio was not listed before either. */
  function RemoveAll(b: Books, records: map<string, Removal>): Books {
    Books(b.listed - records.Keys, b.removed + records)
  }

  function Remove(b: Books, name: string, record: Removal): Books {
    RemoveAll(b, map[name := record])
  }

  /** The removed names that read as this group and version. */
  ghost function PlannedFor(records: map<string, Removal>, at: Parsed): set<string> {
    set n | n in records && Parse(n) == Some(at)
  }

  /** `record_removal` always writes a ratio. */
  predicate Rated(records: map<string, Removal>) {
    forall n :: n in records ==> records[n].ratio.Some?
  }

  /** What will speak for a version some removed name reads as, told beforehand: the least ratio among
      the listed names that are left and read so; if there are none, the ratio of the first by name
      among the names removed before and those removed now that read so. */
  ghost function SpeakerAfter(b: Books, records: map<string, Removal>, at: Parsed): int
    requires Rated(records) && PlannedFor(records, at) != {}
  {
    var left, removed := ListedFor(b.listed - records.Keys, at), RemovedFor(b, at) + PlannedFor(records, at);
    if left != map[] then Least(left)
    else
      var first := First(removed);
      assert first in removed;
      if first in records then records[first].ratio.value else b.removed[first].ratio.value
  }

  lemma {:induction false} RemovalsSpeak(b: Books, records: map<string, Removal>, at: Parsed)
    requires Rated(records) && PlannedFor(records, at) != {}
    ensures Speaker(RemoveAll(b, records), at) == Some(SpeakerAfter(b, records, at))
  {
    hide Parse, Least, First;
    var after := RemoveAll(b, records);
    if ListedFor(after.listed, at) == map[] {
      RemovedByNow(b, records, at);
      assert First(RemovedFor(after, at)) in RemovedFor(after, at);
    }
  }

  lemma RemovedByNow(b: Books, records: map<string, Removal>, at: Parsed)
    requires Rated(records) && ListedFor(b.listed - records.Keys, at) == map[]
    ensures RemovedFor(RemoveAll(b, records), at) == RemovedFor(b, at) + PlannedFor(records, at)
  {
    hide Parse;
    var after := RemoveAll(b, records);
    forall n
      ensures n in RemovedFor(after, at) <==> n in RemovedFor(b, at) + PlannedFor(records, at)
    {
      if n in b.listed && n !in records {
        assert n in ListedFor(b.listed - records.Keys, at) <==> Parse(n) == Some(at);
      }
    }
  }

  /** Removals touch the record of no version that no removed name reads as. */
  lemma {:induction false} RemovalsElsewhere(b: Books, records: map<string, Removal>, at: Parsed)
    requires PlannedFor(records, at) == {}
    ensures Speaker(RemoveAll(b, records), at) == Speaker(b, at)
  {
    hide Parse, Least, First;
    var after := RemoveAll(b, records);
    forall n | n in records
      ensures Parse(n) != Some(at)
    {
      assert n in PlannedFor(records, at) <==> Parse(n) == Some(at);
    }
    assert ListedFor(after.listed, at) == ListedFor(b.listed, at);
    assert RemovedFor(after, at) == RemovedFor(b, at);
    if RemovedFor(b, at) != {} {
      assert First(RemovedFor(b, at)) in RemovedFor(b, at);
    }
  }

  /** Records of listed names are not looked at. */
  lemma {:induction false} ListedRecordsAreIgnored(b: Books, c: Books, candidate: string)
    requires c.listed == b.listed
    requires forall n :: n !in b.listed ==>
               (n in c.removed <==> n in b.removed) && (n in b.removed ==> c.removed[n] == b.removed[n])
    ensures Fetches(c, candidate) <==> Fetches(b, candidate)
  {
    hide Parse, Least, First, GateOpen;
    var f, g := (at: Parsed) => Speaker(b, at), (at: Parsed) => Speaker(c, at);
    forall at: Parsed
      ensures SameSide(f(at), g(at))
    {
      assert RemovedFor(c, at) == RemovedFor(b, at);
      if RemovedFor(b, at) != {} {
        assert First(RemovedFor(b, at)) in RemovedFor(b, at);
      }
    }
    if Parse(candidate).Some? {
      SameSidesSameGate(f, g, Parse(candidate).value.group, Parse(candidate).value.version);
    }
  }

  // ---------------------------------------------------------------------------
  // The version right before
  // ---------------------------------------------------------------------------

  lemma {:induction false} NothingBetween(v: Version, u: Version)
    ensures Lex.Less(u, v + [0]) <==> u == v || Lex.Less(u, v)
  {
    if v == [] {
      assert v + [0] == [0];
    } else if u != [] && u[0] == v[0] {
      assert (v + [0])[1..] == v[1..] + [0];
      NothingBetween(v[1..], u[1..]);
      assert u == [u[0]] + u[1..] && v == [v[0]] + v[1..];
    } else {
      assert (v + [0])[0] == v[0];
    }
  }

  /** A gate asks the version right before, and there is only one such. */
  lemma PreviousDecides(f: Parsed -> Option<int>, group: Group, version: Version, v: Version)
    requires IsPrevious(f, group, version, v)
    ensures GateOpen(f, group, version) <==> f(Parsed(group, v)).value >= FULL
  {
    forall u: Version | IsPrevious(f, group, version, u)
      ensures u == v
    {
      Lex.Trichotomy(u, v);
    }
  }

  /** The version right after a recorded one is gated on that one alone. */
  lemma {:induction false} GateOfTheSuccessor(f: Parsed -> Option<int>, group: Group, v: Version)
    requires f(Parsed(group, v)).Some?
    ensures GateOpen(f, group, v + [0]) <==> f(Parsed(group, v)).value >= FULL
  {
    forall u: Version
      ensures Lex.Less(u, v + [0]) <==> u == v || Lex.Less(u, v)
    {
      NothingBetween(v, u);
    }
    assert IsPrevious(f, group, v + [0], v);
    PreviousDecides(f, group, v + [0], v);
  }

  /** Where `g` has at least the versions on record that `f` has, and `v` right before `version`, the
      gates of `version` and of the version after `v` are the same for `f`. */
  lemma SameGateBelow(f: Parsed -> Option<int>, g: Parsed -> Option<int>, group: Group, version: Version, v: Version)
    requires IsPrevious(g, group, version, v) && forall at: Parsed :: f(at).Some? ==> g(at).Some?
    ensures GateOpen(f, group, version) <==> GateOpen(f, group, v + [0])
  {
    forall u: Version | f(Parsed(group, u)).Some?
      ensures Lex.Less(u, version) <==> Lex.Less(u, v + [0])
    {
      NothingBetween(v, u);
      assert g(Parsed(group, u)).Some?;
      if Lex.Less(u, v) {
        Lex.Transitive(u, v, version);
      }
    }
    forall u: Version
      ensures IsPrevious(f, group, version, u) <==> IsPrevious(f, group, v + [0], u)
    {
    }
  }

  function Names(b: Books): set<string> {
    b.listed.Keys + b.removed.Keys
  }

  lemma SpeakerHasAName(b: Books, at: Parsed)
    requires Speaker(b, at).Some?
    ensures exists n :: n in Names(b) && Parse(n) == Some(at)
  {
    hide Parse, Least, First;
    if ListedFor(b.listed, at) != map[] {
      var n :| n in ListedFor(b.listed, at);
      assert n in Names(b);
    } else {
      var n :| n in RemovedFor(b, at);
      assert n in Names(b);
    }
  }

  /** On record for the group and older than `version`. */
  ghost predicate OlderOnRecord(b: Books, group: Group, version: Version, u: Version) {
    Speaker(b, Parsed(group, u)).Some? && Lex.Less(u, version)
  }

  lemma {:induction false} GreatestAmong(names: set<string>, b: Books, group: Group, version: Version)
    returns (best: Option<Version>)
    ensures best.Some? ==> OlderOnRecord(b, group, version, best.value)
    ensures forall n, u: Version ::
              n in names && Parse(n) == Some(Parsed(group, u)) && OlderOnRecord(b, group, version, u) ==>
                best.Some? && (u == best.value || Lex.Less(u, best.value))
  {
    hide Parse, Speaker, Lex.Less, OlderOnRecord;
    best := None;
    if names != {} {
      var n :| n in names;
      best := GreatestAmong(names - {n}, b, group, version);
      if Parse(n).Some? && Parse(n).value.group == group && OlderOnRecord(b, group, version, Parse(n).value.version) {
        var v: Version := Parse(n).value.version;
        if best.None? {
          best := Some(v);
        } else {
          Lex.Trichotomy(best.value, v);
          if Lex.Less(best.value, v) {
            LessBeforeThat(best.value, v);
            best := Some(v);
          }
        }
      }
    }
  }

  lemma LessBeforeThat(a: Version, b: Version)
    requires Lex.Less(a, b)
    ensures forall u: Version :: Lex.Less(u, a) ==> Lex.Less(u, b)
  {
    forall u: Version | Lex.Less(u, a)
      ensures Lex.Less(u, b)
    {
      Lex.Transitive(u, a, b);
    }
  }

  /** Of the versions on record the greatest older one, if there is one. */
  lemma PreviousExists(b: Books, group: Group, version: Version) returns (v: Option<Version>)
    ensures v.Some? ==> IsPrevious(at => Speaker(b, at), group, version, v.value)
    ensures v.None? ==> forall u: Version :: !OlderOnRecord(b, group, version, u)
  {
    hide Parse, Speaker, Lex.Less;
    v := GreatestAmong(Names(b), b, group, version);
    forall u: Version | OlderOnRecord(b, group, version, u)
      ensures v.Some? && (u == v.value || Lex.Less(u, v.value))
    {
      SpeakerHasAName(b, Parsed(group, u));
    }
  }

  // ---------------------------------------------------------------------------
  // Exactly when removals move some gate
  // ---------------------------------------------------------------------------

  /** For every version some removed name reads as: what will speak for it is at 1.0 or more just when
      the version after it would be fetched now. */
  ghost predicate Unmoved(b: Books, records: map<string, Removal>)
    requires Rated(records)
  {
    forall at: Parsed :: PlannedFor(records, at) != {} ==>
      (SpeakerAfter(b, records, at) >= FULL <==> Open(b, at.group, at.version + [0]))
  }

  lemma NextGateAfterRemovals(b: Books, records: map<string, Removal>, at: Parsed)
    requires Rated(records) && PlannedFor(records, at) != {}
    ensures Open(RemoveAll(b, records), at.group, at.version + [0]) <==> SpeakerAfter(b, records, at) >= FULL
  {
    hide Parse, Speaker, SpeakerAfter, GateOpen, PlannedFor;
    var after := RemoveAll(b, records);
    assert at == Parsed(at.group, at.version);
    RemovalsSpeak(b, records, at);
    GateOfTheSuccessor((at: Parsed) => Speaker(after, at), at.group, at.version);
  }

  lemma UnmovedGate(b: Books, records: map<string, Removal>, group: Group, version: Version)
    requires Rated(records) && Unmoved(b, records)
    ensures Open(RemoveAll(b, records), group, version) <==> Open(b, group, version)
  {
    hide Parse, Speaker, SpeakerAfter, GateOpen, PlannedFor, RemoveAll, IsPrevious;
    var after := RemoveAll(b, records);
    var f, g := (at: Parsed) => Speaker(b, at), (at: Parsed) => Speaker(after, at);
    forall at: Parsed
      ensures PlannedFor(records, at) == {} ==> g(at) == f(at)
      ensures PlannedFor(records, at) != {} ==> g(at) == Some(SpeakerAfter(b, records, at))
    {
      if PlannedFor(records, at) == {} {
        RemovalsElsewhere(b, records, at);
      } else {
        RemovalsSpeak(b, records, at);
      }
    }
    var v := PreviousExists(after, group, version);
    if v.None? {
      forall u: Version | f(Parsed(group, u)).Some? || g(Parsed(group, u)).Some?
        ensures !Lex.Less(u, version)
      {
        assert !OlderOnRecord(after, group, version, u);
        assert f(Parsed(group, u)).Some? ==> g(Parsed(group, u)).Some?;
      }
      NoneOlder(f, group, version);
      NoneOlder(g, group, version);
    } else {
      var at := Parsed(group, v.value);
      PreviousDecides(g, group, version, v.value);
      SameGateBelow(f, g, group, version, v.value);
      OnRecordIs(g, group, version, v.value);
      if PlannedFor(records, at) == {} {
        GateOfTheSuccessor(f, group, v.value);
      }
    }
  }

  lemma NoneOlder(f: Parsed -> Option<int>, group: Group, version: Version)
    requires forall u: Version :: f(Parsed(group, u)).Some? ==> !Lex.Less(u, version)
    ensures GateOpen(f, group, version)
  {
  }

  lemma OnRecordIs(f: Parsed -> Option<int>, group: Group, version: Version, v: Version)
    requires IsPrevious(f, group, version, v)
    ensures f(Parsed(group, v)).Some?
  {
  }

  /** Any removals at once, of names listed or not, with twins or not, with whatever ratios: no
      candidate's gate moves if and only if they are unmoved in that sense, which is told from the books
      before. */
  lemma {:induction false} RemovalsMoveAGateIff(b: Books, records: map<string, Removal>)
    requires Rated(records)
    ensures (forall candidate :: Fetches(RemoveAll(b, records), candidate) <==> Fetches(b, candidate))
            <==> Unmoved(b, records)
  {
    hide Parse, SpeakerAfter, Open, PlannedFor, RemoveAll;
    var after := RemoveAll(b, records);
    if Unmoved(b, records) {
      forall candidate
        ensures Fetches(after, candidate) <==> Fetches(b, candidate)
      {
        if Parse(candidate).Some? {
          UnmovedGate(b, records, Parse(candidate).value.group, Parse(candidate).value.version);
        }
      }
    } else {
      var at: Parsed :| PlannedFor(records, at) != {}
                        && !(SpeakerAfter(b, records, at) >= FULL <==> Open(b, at.group, at.version + [0]));
      var name := SomePlanned(records, at);
      var candidate := NextName(name, at);
      NextGateAfterRemovals(b, records, at);
      assert Fetches(after, candidate) <==> Open(after, at.group, at.version + [0]);
      assert Fetches(b, candidate) <==> Open(b, at.group, at.version + [0]);
    }
  }

  lemma SomePlanned(records: map<string, Removal>, at: Parsed) returns (name: string)
    requires PlannedFor(records, at) != {}
    ensures name in records && Parse(name) == Some(at)
  {
    name :| name in PlannedFor(records, at);
  }

  /** One removal. */
  lemma {:induction false} RemovalMovesAGateIff(b: Books, name: string, record: Removal, at: Parsed)
    requires Parse(name) == Some(at) && record.ratio.Some?
    ensures PlannedFor(map[name := record], at) == {name}
    ensures (forall candidate :: Fetches(Remove(b, name, record), candidate) <==> Fetches(b, candidate))
            <==> (SpeakerAfter(b, map[name := record], at) >= FULL <==> Open(b, at.group, at.version + [0]))
  {
    hide Parse, SpeakerAfter, Open, RemoveAll;
    var records := map[name := record];
    assert PlannedFor(records, at) == {name};
    forall other: Parsed
      ensures PlannedFor(records, other) != {} ==> other == at
    {
    }
    hide PlannedFor, Fetches;
    RemovalsMoveAGateIff(b, records);
  }

  /** Names that do not read as a version move nothing. */
  lemma {:induction false} UnreadableNamesMoveNoGate(b: Books, records: map<string, Removal>, candidate: string)
    requires forall n :: n in records ==> Parse(n).None?
    ensures Fetches(RemoveAll(b, records), candidate) <==> Fetches(b, candidate)
  {
    hide Parse, Speaker, GateOpen, RemoveAll;
    var after := RemoveAll(b, records);
    var f, g := (at: Parsed) => Speaker(b, at), (at: Parsed) => Speaker(after, at);
    forall at: Parsed
      ensures SameSide(f(at), g(at))
    {
      assert PlannedFor(records, at) == {};
      RemovalsElsewhere(b, records, at);
    }
    if Parse(candidate).Some? {
      SameSidesSameGate(f, g, Parse(candidate).value.group, Parse(candidate).value.version);
    }
  }

  // ---------------------------------------------------------------------------
  // Without twins fair removals move nothing
  // ---------------------------------------------------------------------------

  /** No two names on the books read as the same version of the same image. */
  ghost predicate NoTwins(b: Books) {
    forall m, n :: m in Names(b) && n in Names(b) && Parse(m).Some? && Parse(m) == Parse(n) ==> m == n
  }

  /** Listed names, each removed with a ratio on its side of 1.0. */
  predicate Fair(b: Books, records: map<string, Removal>) {
    && Rated(records)
    && forall n :: n in records ==> n in b.listed && (records[n].ratio.value >= FULL <==> b.listed[n] >= FULL)
  }

  lemma FairRemovalsAreUnmoved(b: Books, records: map<string, Removal>, at: Parsed)
    requires NoTwins(b) && Fair(b, records) && PlannedFor(records, at) != {}
    ensures SpeakerAfter(b, records, at) >= FULL <==> Open(b, at.group, at.version + [0])
  {
    hide Parse, GateOpen;
    var name := SomePlanned(records, at);
    assert name in Names(b);
    assert forall n :: n in Names(b) && Parse(n) == Some(at) ==> n == name;
    assert ListedFor(b.listed, at) == map[name := b.listed[name]];
    assert ListedFor(b.listed - records.Keys, at) == map[];
    assert RemovedFor(b, at) + PlannedFor(records, at) == {name};
    LeastOfOne(ListedFor(b.listed, at), name);
    FirstIs(name, {name});
    assert at == Parsed(at.group, at.version);
    hide ListedFor, RemovedFor, PlannedFor;
    GateOfTheSuccessor((at: Parsed) => Speaker(b, at), at.group, at.version);
  }

  lemma {:induction false} FairRemovalsMoveNoGate(b: Books, records: map<string, Removal>)
    requires NoTwins(b) && Fair(b, records)
    ensures NoTwins(RemoveAll(b, records)) && Unmoved(b, records)
    ensures forall candidate :: Fetches(RemoveAll(b, records), candidate) <==> Fetches(b, candidate)
  {
    assert Names(RemoveAll(b, records)) == Names(b);
    hide Parse, Speaker, SpeakerAfter, Open, PlannedFor, Fetches;
    forall at: Parsed | PlannedFor(records, at) != {}
      ensures SpeakerAfter(b, records, at) >= FULL <==> Open(b, at.group, at.version + [0])
    {
      FairRemovalsAreUnmoved(b, records, at);
    }
    RemovalsMoveAGateIff(b, records);
  }

  // ---------------------------------------------------------------------------
  // What a gate reads
  // ---------------------------------------------------------------------------

  predicate ReadsOlder(name: string, group: Group, version: Version) {
    Parse(name).Some? && Parse(name).value.group == group && Lex.Less(Parse(name).value.version, version)
  }

  /** The books without anything but the strictly older versions of one image. */
  function OlderOnly(b: Books, group: Group, version: Version): Books {
    Books(map n | n in b.listed && ReadsOlder(n, group, version) :: b.listed[n],
          map n | n in b.removed && ReadsOlder(n, group, version) :: b.removed[n])
  }

  lemma OlderSpeaksTheSame(b: Books, group: Group, version: Version, u: Version)
    requires Lex.Less(u, version)
    ensures Speaker(OlderOnly(b, group, version), Parsed(group, u)) == Speaker(b, Parsed(group, u))
  {
    hide Parse, Least, First, Lex.Less;
    var c, at := OlderOnly(b, group, version), Parsed(group, u);
    assert ListedFor(c.listed, at) == ListedFor(b.listed, at);
    assert RemovedFor(c, at) == RemovedFor(b, at);
    if RemovedFor(b, at) != {} {
      assert First(RemovedFor(b, at)) in RemovedFor(c, at);
    }
  }

  /** A gate reads no record but those of strictly older versions of its image: not the candidate's own. */
  lemma {:induction false} GateReadsOlderOnly(b: Books, group: Group, version: Version)
    ensures Open(OlderOnly(b, group, version), group, version) <==> Open(b, group, version)
  {
    hide Speaker, OlderOnly, Lex.Less;
    var c := OlderOnly(b, group, version);
    var f, g := (at: Parsed) => Speaker(b, at), (at: Parsed) => Speaker(c, at);
    forall u: Version | Lex.Less(u, version)
      ensures f(Parsed(group, u)) == g(Parsed(group, u))
    {
      OlderSpeaksTheSame(b, group, version, u);
    }
    forall v: Version
      ensures IsPrevious(f, group, version, v) <==> IsPrevious(g, group, version, v)
    {
    }
  }

  /** Nothing older on the books: the gate is open. */
  lemma {:induction false} OldestIsOpen(b: Books, group: Group, version: Version)
    requires forall n :: n in Names(b) ==> !ReadsOlder(n, group, version)
    ensures Open(b, group, version)
  {
    hide Parse, Speaker, Lex.Less;
    forall u: Version | Speaker(b, Parsed(group, u)).Some?
      ensures !Lex.Less(u, version)
    {
      SpeakerHasAName(b, Parsed(group, u));
    }
    NoneOlder(at => Speaker(b, at), group, version);
  }

  // ---------------------------------------------------------------------------
  // The gate in ratios
  // ---------------------------------------------------------------------------

  /** On record, strictly older, and no other such version is greater. */
  ghost predicate GreatestOlder(b: Books, at: Parsed, v: Version) {
    && Speaker(b, Parsed(at.group, v)).Some? && Lex.Less(v, at.version)
    && forall u: Version :: Speaker(b, Parsed(at.group, u)).Some? && Lex.Less(u, at.version) ==>
         u == v || Lex.Less(u, v)
  }

  /** The gate in the unit the log shows: open without the check, for names of no image and for versions
      that do not read; otherwise open if and only if no strictly older version is on record, or the ratio
      of the greatest one is 1.0 or more. */
  lemma {:induction false} GateInRatios(ratios: seq<Live>, removed: seq<Gone>, b: Books, name: string,
                                        skipRatioCheck: bool)
    requires Lists(ratios, b.listed) && Files(removed, b.removed) && !IsDevuan(name)
    ensures ShouldFetch(name, ratios, removed, skipRatioCheck) <==>
              || skipRatioCheck
              || Parse(name).None?
              || (forall u: Version :: Lex.Less(u, Parse(name).value.version) ==>
                    Speaker(b, Parsed(Parse(name).value.group, u)).None?)
              || exists v: Version :: GreatestOlder(b, Parse(name).value, v)
                   && Speaker(b, Parsed(Parse(name).value.group, v)).value as real / 1000.0 >= 1.0
  {
    if Parse(name).Some? {
      var at := Parse(name).value;
      NotDevuan(name);
      assert FULL == 1000;
      hide Parse, Speaker, Lex.Less, ShouldFetch, DistroOf, FULL;
      GateReadsTheBooks(ratios, removed, b, name, skipRatioCheck);
      OpenInRatios(b, at);
    } else {
      hide Parse;
    }
  }

  lemma OpenInRatios(b: Books, at: Parsed)
    ensures Open(b, at.group, at.version) <==>
              || (forall u: Version :: Lex.Less(u, at.version) ==> Speaker(b, Parsed(at.group, u)).None?)
              || exists v: Version :: GreatestOlder(b, at, v)
                   && Speaker(b, Parsed(at.group, v)).value as real / 1000.0 >= 1.0
  {
    hide Parse, Speaker, Lex.Less;
    var f := (at: Parsed) => Speaker(b, at);
    forall v: Version
      ensures GreatestOlder(b, at, v) <==> IsPrevious(f, at.group, at.version, v)
    {
    }
    var best := PreviousExists(b, at.group, at.version);
    if best.None? {
      forall u: Version | Lex.Less(u, at.version)
        ensures Speaker(b, Parsed(at.group, u)).None?
      {
        assert !OlderOnRecord(b, at.group, at.version, u);
      }
    } else {
      PreviousDecides(f, at.group, at.version, best.value);
      var r := Speaker(b, Parsed(at.group, best.value)).value;
      assert r as real / 1000.0 >= 1.0 <==> r >= 1000;
      forall v: Version | GreatestOlder(b, at, v)
        ensures v == best.value
      {
        Lex.Trichotomy(v, best.value);
        assert IsPrevious(f, at.group, at.version, v);
      }
      assert GreatestOlder(b, at, best.value);
    }
  }

  /** The Devuan gate in the same unit: open for a release that is listed itself; else decided by the
      other listed releases, if there are any, else by the removed ones with a ratio; open if there are
      none of these either, or one of those that decide has a ratio of 1.0 or more. */
  lemma {:induction false} DevuanGateInRatios(ratios: seq<Live>, removed: seq<Gone>, name: string)
    requires IsDevuan(name)
    ensures ShouldFetch(name, ratios, removed, false) <==>
              || (exists k :: 0 <= k < |ratios| && ratios[k].name == name)
              || if exists k :: 0 <= k < |ratios| && ratios[k].name != name && IsDevuan(ratios[k].name)
                 then exists k :: 0 <= k < |ratios| && ratios[k].name != name && IsDevuan(ratios[k].name)
                                  && ratios[k].ratio as real / 1000.0 >= 1.0
                 else
                   || (forall k :: 0 <= k < |removed| && removed[k].name != name && IsDevuan(removed[k].name) ==>
                         removed[k].record.ratio.None?)
                   || exists k :: 0 <= k < |removed| && removed[k].name != name && IsDevuan(removed[k].name)
                                  && removed[k].record.ratio.Some?
                                  && removed[k].record.ratio.value as real / 1000.0 >= 1.0
  {
    DevuanHasNoDistro(name);
    DevuanListedIs(name, ratios);
    DevuanRemovedIs(name, removed);
    hide IsDevuan, DistroOf, DevuanListed, DevuanRemoved;
    assert HeldIn(ratios, name) <==> exists k :: 0 <= k < |ratios| && ratios[k].name == name;
  }

  predicate AtLeastOne(ratio: int) {
    ratio as real / 1000.0 >= 1.0
  }

  lemma AtLeastOneIs(ratio: int)
    ensures AtLeastOne(ratio) <==> ratio >= FULL
  {
  }

  lemma DevuanListedIs(name: string, ratios: seq<Live>)
    ensures var listed := DevuanListed(name, ratios);
            && (listed != {} <==> exists k :: 0 <= k < |ratios| && ratios[k].name != name && IsDevuan(ratios[k].name))
            && ((exists r :: r in listed && r >= FULL) <==>
                  exists k :: 0 <= k < |ratios| && ratios[k].name != name && IsDevuan(ratios[k].name)
                              && ratios[k].ratio as real / 1000.0 >= 1.0)
  {
    hide IsDevuan;
    var listed := DevuanListed(name, ratios);
    if k :| 0 <= k < |ratios| && ratios[k].name != name && IsDevuan(ratios[k].name) {
      assert ratios[k].ratio in listed;
    }
    if k :| 0 <= k < |ratios| && ratios[k].name != name && IsDevuan(ratios[k].name)
            && ratios[k].ratio as real / 1000.0 >= 1.0 {
      AtLeastOneIs(ratios[k].ratio);
      assert ratios[k].ratio in listed;
    }
    if r: int :| r in listed && r >= FULL {
      AtLeastOneIs(r);
    }
  }

  lemma DevuanRemovedIs(name: string, removed: seq<Gone>)
    ensures var gone := DevuanRemoved(name, removed);
            && (gone == {} <==>
                forall k :: 0 <= k < |removed| && removed[k].name != name && IsDevuan(removed[k].name) ==>
                                  removed[k].record.ratio.None?)
            && ((exists r :: r in gone && r >= FULL) <==>
                  exists k :: 0 <= k < |removed| && removed[k].name != name && IsDevuan(removed[k].name)
                              && removed[k].record.ratio.Some?
                              && removed[k].record.ratio.value as real / 1000.0 >= 1.0)
  {
    hide IsDevuan;
    var gone := DevuanRemoved(name, removed);
    if k :| 0 <= k < |removed| && removed[k].name != name && IsDevuan(removed[k].name)
            && removed[k].record.ratio.Some? {
      assert removed[k].record.ratio.value in gone;
    }
    if k :| 0 <= k < |removed| && removed[k].name != name && IsDevuan(removed[k].name)
            && removed[k].record.ratio.Some? && removed[k].record.ratio.value as real / 1000.0 >= 1.0 {
      AtLeastOneIs(removed[k].record.ratio.value);
      assert removed[k].record.ratio.value in gone;
    }
    if r: int :| r in gone && r >= FULL {
      AtLeastOneIs(r);
    }
  }

  // ---------------------------------------------------------------------------
  // Twins
  // ---------------------------------------------------------------------------

  lemma LeastOfFewer(ratios: map<string, int>, name: string)
    requires ratios - {name} != map[]
    ensures ratios != map[] && Least(ratios) <= Least(ratios - {name})
  {
    var fewer := ratios - {name};
    var n :| n in fewer && fewer[n] == Least(fewer);
    assert n in ratios && ratios[n] == fewer[n];
  }

  /** Removing a name while another listed one reads as the same version never closes a gate. */
  lemma {:induction false} ListedTwinsOnlyOpen(b: Books, name: string, record: Removal, at: Parsed, candidate: string)
    requires Parse(name) == Some(at) && record.ratio.Some? && ListedFor(b.listed - {name}, at) != map[]
    ensures Fetches(b, candidate) ==> Fetches(Remove(b, name, record), candidate)
  {
    hide Parse, Least, GateOpen;
    var after := Remove(b, name, record);
    var records := map[name := record];
    assert records.Keys == {name} && after.listed == b.listed - {name};
    assert ListedFor(b.listed - {name}, at) == ListedFor(b.listed, at) - {name};
    LeastOfFewer(ListedFor(b.listed, at), name);
    var f, g := (at: Parsed) => Speaker(b, at), (at: Parsed) => Speaker(after, at);
    assert f(at).Some? && g(at).Some? && f(at).value <= g(at).value;
    forall other: Parsed | other != at
      ensures f(other) == g(other)
    {
      assert PlannedFor(records, other) == {};
      RemovalsElsewhere(b, records, other);
    }
    hide Speaker, ListedFor;
    if Parse(candidate).Some? {
      HigherOnlyOpens(f, g, Parse(candidate).value.group, Parse(candidate).value.version);
    }
  }

  lemma HigherOnlyOpens(f: Parsed -> Option<int>, g: Parsed -> Option<int>, group: Group, version: Version)
    requires forall at: Parsed :: (f(at).Some? <==> g(at).Some?) && (f(at).Some? ==> f(at).value <= g(at).value)
    ensures GateOpen(f, group, version) ==> GateOpen(g, group, version)
  {
    forall v: Version
      ensures IsPrevious(f, group, version, v) <==> IsPrevious(g, group, version, v)
      ensures f(Parsed(group, v)).Some? ==> f(Parsed(group, v)).value <= g(Parsed(group, v)).value
    {
      assert forall u: Version :: f(Parsed(group, u)).Some? <==> g(Parsed(group, u)).Some?;
    }
  }

  /** Where one version only is on record, it decides all later ones. */
  lemma OnlyRecord(b: Books, at: Parsed, version: Version)
    requires Lex.Less(at.version, version) && forall other: Parsed :: other != at ==> Speaker(b, other).None?
    ensures Open(b, at.group, version) <==> Speaker(b, at).None? || Speaker(b, at).value >= FULL
  {
    hide Speaker;
    var f := (at: Parsed) => Speaker(b, at);
    assert at == Parsed(at.group, at.version);
    forall v: Version
      ensures IsPrevious(f, at.group, version, v) <==> f(at).Some? && v == at.version
    {
      if v != at.version {
        assert f(Parsed(at.group, v)).None?;
      } else {
        assert forall u: Version :: f(Parsed(at.group, u)).Some? ==> u == v;
      }
    }
  }
}
