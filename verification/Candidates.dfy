/** `_old_version_candidates`: which held torrents are superseded. */
module Candidates {
  import Lex
  import opened Optional
  import opened TorrentNames

  /** A torrent as Transmission lists it; the ratio is in thousandths. */
  datatype Torrent = Torrent(id: nat, name: string, ratio: int, added: Option<int>)

  /** Devuan releases form one group of their own. */
  datatype Family = Versioned(group: Group) | Devuan

  /** The rank orders a family: the version tuple, or for Devuan the date added. */
  datatype Entry = Entry(rank: seq<int>, torrent: Torrent)

  datatype Placed = Placed(family: Family, rank: seq<int>)

  /** `_devuan_sort_key`. */
  function DevuanSortKey(t: Torrent): int {
    if t.added.None? then 0 else t.added.value
  }

  /** Where a torrent belongs; None for names of no family and for versions that do not parse. */
  function Place(t: Torrent): Option<Placed> {
    if IsDevuan(t.name) then Some(Placed(Devuan, [DevuanSortKey(t)]))
    else
      match Parse(t.name)
      case None => None
      case Some(p) => Some(Placed(Versioned(p.group), p.version))
  }

  predicate InFamily(t: Torrent, f: Family) {
    Place(t).Some? && Place(t).value.family == f
  }

  predicate DistinctIds(ts: seq<Torrent>) {
    forall a, b :: 0 <= a < b < |ts| ==> ts[a].id != ts[b].id
  }

  // ---------------------------------------------------------------------------
  // What the newest and the superseded members are
  // ---------------------------------------------------------------------------

  /** The newest member of a family: of several with the highest rank, the one listed first. */
  function Newest(ts: seq<Torrent>, f: Family): Option<Torrent> {
    if ts == [] then None
    else
      var t, best := ts[|ts| - 1], Newest(ts[..|ts| - 1], f);
      if InFamily(t, f) && (best.None? || Lex.Less(Rank(best.value), Rank(t))) then Some(t) else best
  }

  function Rank(t: Torrent): seq<int> {
    if Place(t).Some? then Place(t).value.rank else []
  }

  /** Held, placed in a family, and not that family's newest. */
  predicate Superseded(ts: seq<Torrent>, t: Torrent) {
    t in ts && Place(t).Some? && Newest(ts, Place(t).value.family) != Some(t)
  }

  /** The member at `i` outranks every earlier member, and no later one outranks it. */
  ghost predicate FirstHighest(ts: seq<Torrent>, f: Family, i: nat) {
    && i < |ts| && InFamily(ts[i], f)
    && (forall k :: 0 <= k < i && InFamily(ts[k], f) ==> Lex.Less(Rank(ts[k]), Rank(ts[i])))
    && (forall k :: i <= k < |ts| && InFamily(ts[k], f) ==> !Lex.Less(Rank(ts[i]), Rank(ts[k])))
  }

  lemma FirstHighestSnoc(init: seq<Torrent>, t: Torrent, f: Family, i: nat)
    requires FirstHighest(init, f, i)
    ensures var ts := init + [t];
            if InFamily(t, f) && Lex.Less(Rank(init[i]), Rank(t)) then FirstHighest(ts, f, |init|)
            else FirstHighest(ts, f, i)
  {
    hide InFamily, Rank, Lex.Less;
    var ts := init + [t];
    assert forall k :: 0 <= k < |init| ==> ts[k] == init[k];
    if InFamily(t, f) && Lex.Less(Rank(init[i]), Rank(t)) {
      forall k | 0 <= k < |init| && InFamily(ts[k], f)
        ensures Lex.Less(Rank(ts[k]), Rank(t))
      {
        Lex.Trichotomy(Rank(init[k]), Rank(init[i]));
        if Rank(init[k]) != Rank(init[i]) {
          Lex.Transitive(Rank(init[k]), Rank(init[i]), Rank(t));
        }
      }
      Lex.Trichotomy(Rank(t), Rank(t));
    }
  }

  ghost predicate IsFirstHighest(ts: seq<Torrent>, f: Family, i: nat, t: Torrent) {
    FirstHighest(ts, f, i) && ts[i] == t
  }

  lemma {:induction false} NewestIsMember(ts: seq<Torrent>, f: Family)
    ensures Newest(ts, f).Some? ==> Newest(ts, f).value in ts && InFamily(Newest(ts, f).value, f)
  {
    if ts != [] {
      NewestIsMember(ts[..|ts| - 1], f);
    }
  }

  /** `Newest` means what it says: the first-listed member with the highest rank, if there is any member. */
  lemma {:induction false} NewestIsFirstHighest(ts: seq<Torrent>, f: Family)
    ensures Newest(ts, f).None? <==> forall k :: 0 <= k < |ts| ==> !InFamily(ts[k], f)
    ensures Newest(ts, f).Some? ==> exists i: nat :: IsFirstHighest(ts, f, i, Newest(ts, f).value)
  {
    hide InFamily, Rank, Lex.Less, FirstHighest;
    if ts != [] {
      var init, t := ts[..|ts| - 1], ts[|ts| - 1];
      assert ts == init + [t];
      assert forall k :: 0 <= k < |init| ==> ts[k] == init[k];
      NewestIsFirstHighest(init, f);
      var best := Newest(init, f);
      if best.Some? {
        var i: nat :| IsFirstHighest(init, f, i, best.value);
        FirstHighestIsMember(init, f, i);
        FirstHighestSnoc(init, t, f, i);
        assert InFamily(ts[i], f);
        var j := if InFamily(t, f) && Lex.Less(Rank(init[i]), Rank(t)) then |init| else i;
        assert IsFirstHighest(ts, f, j, Newest(ts, f).value);
      } else if InFamily(t, f) {
        OnlyMember(ts, f);
        assert IsFirstHighest(ts, f, |init|, t);
      }
    }
  }

  lemma FirstHighestIsMember(ts: seq<Torrent>, f: Family, i: nat)
    requires FirstHighest(ts, f, i)
    ensures i < |ts| && InFamily(ts[i], f)
  {
  }

  lemma OnlyMember(ts: seq<Torrent>, f: Family)
    requires ts != [] && InFamily(ts[|ts| - 1], f)
    requires forall k :: 0 <= k < |ts| - 1 ==> !InFamily(ts[k], f)
    ensures FirstHighest(ts, f, |ts| - 1)
  {
    hide Rank;
    Lex.Trichotomy(Rank(ts[|ts| - 1]), Rank(ts[|ts| - 1]));
  }

  /** No member outranks the newest. */
  lemma {:induction false} NewestIsHighest(ts: seq<Torrent>, f: Family, t: Torrent)
    requires t in ts && InFamily(t, f)
    ensures Newest(ts, f).Some? && !Lex.Less(Rank(Newest(ts, f).value), Rank(t))
  {
    hide InFamily, Rank, Lex.Less;
    var init, last := ts[..|ts| - 1], ts[|ts| - 1];
    Lex.Trichotomy(Rank(t), Rank(t));
    if t in init {
      NewestIsHighest(init, f, t);
      var best := Newest(init, f).value;
      Lex.Trichotomy(Rank(best), Rank(t));
      if Lex.Less(Rank(best), Rank(last)) && Lex.Less(Rank(last), Rank(t)) {
        Lex.Transitive(Rank(best), Rank(last), Rank(t));
      }
    }
  }

  // ---------------------------------------------------------------------------
  // The function as written: group, sort each group, keep all but the first
  // ---------------------------------------------------------------------------

  /** The families in order of first appearance: the keys of `groups`. */
  function Families(ts: seq<Torrent>): seq<Family> {
    if ts == [] then []
    else
      var fs, place := Families(ts[..|ts| - 1]), Place(ts[|ts| - 1]);
      if place.None? || place.value.family in fs then fs else fs + [place.value.family]
  }

  /** The entries of one family in listing order. */
  function Members(ts: seq<Torrent>, f: Family): seq<Entry> {
    if ts == [] then []
    else
      var es, t := Members(ts[..|ts| - 1], f), ts[|ts| - 1];
      if InFamily(t, f) then es + [Entry(Rank(t), t)] else es
  }

  function InsertDescending(es: seq<Entry>, e: Entry): seq<Entry> {
    if es == [] || Lex.Less(es[0].rank, e.rank) then [e] + es else [es[0]] + InsertDescending(es[1..], e)
  }

  /** `entries.sort(key=..., reverse=True)`: descending, equal ranks in their original order. */
  function SortDescending(es: seq<Entry>): seq<Entry> {
    if es == [] then [] else InsertDescending(SortDescending(es[..|es| - 1]), es[|es| - 1])
  }

  function Torrents(es: seq<Entry>): seq<Torrent> {
    seq(|es|, k requires 0 <= k < |es| => es[k].torrent)
  }

  /** All but the highest of one family. */
  function OlderMembers(ts: seq<Torrent>, f: Family): seq<Torrent> {
    var es := Members(ts, f);
    if |es| < 2 then [] else Torrents(SortDescending(es)[1..])
  }

  function OlderOf(ts: seq<Torrent>, fs: seq<Family>): seq<Torrent> {
    if fs == [] then [] else OlderOf(ts, fs[..|fs| - 1]) + OlderMembers(ts, fs[|fs| - 1])
  }

  function OldVersionCandidates(ts: seq<Torrent>): seq<Torrent> {
    OlderOf(ts, Families(ts))
  }

  /** The loops of `_old_version_candidates`, with the insertion-ordered dict as keys and a map. */
  method CollectOldVersions(torrents: seq<Torrent>) returns (candidates: seq<Torrent>)
    ensures candidates == OldVersionCandidates(torrents)
  {
    var families: seq<Family> := [];
    var groups: map<Family, seq<Entry>> := map[];
    for i := 0 to |torrents|
      invariant families == Families(torrents[..i])
      invariant forall f :: f in groups <==> f in families
      invariant forall f :: (if f in groups then groups[f] else []) == Members(torrents[..i], f)
    {
      var t := torrents[i];
      assert torrents[..i + 1][..i] == torrents[..i];
      var place := Place(t);
      if place.None? {
        continue;
      }
      var f := place.value.family;
      if f !in groups {
        families := families + [f];
        groups := groups[f := []];
      }
      groups := groups[f := groups[f] + [Entry(place.value.rank, t)]];
    }
    assert torrents[..|torrents|] == torrents;
    candidates := [];
    for i := 0 to |families|
      invariant candidates == OlderOf(torrents, families[..i])
    {
      assert families[..i + 1][..i] == families[..i];
      assert families[i] in families;
      var entries := groups[families[i]];
      assert entries == Members(torrents, families[i]);
      if |entries| < 2 {
        continue;
      }
      entries := SortDescending(entries);
      SortLength(groups[families[i]]);
      candidates := candidates + Torrents(entries[1..]);
    }
    assert families[..|families|] == families;
  }

  // ---------------------------------------------------------------------------
  // The sort
  // ---------------------------------------------------------------------------

  lemma {:induction false} InsertLength(es: seq<Entry>, e: Entry)
    ensures |InsertDescending(es, e)| == |es| + 1
    ensures multiset(InsertDescending(es, e)) == multiset(es) + multiset{e}
  {
    hide Lex.Less;
    if es != [] && !Lex.Less(es[0].rank, e.rank) {
      InsertLength(es[1..], e);
      assert es == [es[0]] + es[1..];
    }
  }

  lemma {:induction false} SortLength(es: seq<Entry>)
    ensures |SortDescending(es)| == |es|
    ensures multiset(SortDescending(es)) == multiset(es)
  {
    hide InsertDescending;
    if es != [] {
      SortLength(es[..|es| - 1]);
      InsertLength(SortDescending(es[..|es| - 1]), es[|es| - 1]);
      assert es == es[..|es| - 1] + [es[|es| - 1]];
    }
  }

  predicate Descending(es: seq<Entry>) {
    forall a, b :: 0 <= a < b < |es| ==> !Lex.Less(es[a].rank, es[b].rank)
  }

  /** The entries of one rank, in order. */
  function WithRank(es: seq<Entry>, rank: seq<int>): seq<Entry> {
    if es == [] then [] else (if es[0].rank == rank then [es[0]] else []) + WithRank(es[1..], rank)
  }

  lemma {:induction false} InsertKeepsOrder(es: seq<Entry>, e: Entry)
    requires Descending(es)
    ensures Descending(InsertDescending(es, e))
  {
    hide Lex.Less;
    var r := InsertDescending(es, e);
    if es == [] || Lex.Less(es[0].rank, e.rank) {
      AboveAll(es, e);
      assert forall b :: 0 < b < |r| ==> r[b] == es[b - 1];
    } else {
      InsertKeepsOrder(es[1..], e);
      var rest := InsertDescending(es[1..], e);
      assert forall b :: 0 < b < |r| ==> r[b] == rest[b - 1];
      InsertLength(es[1..], e);
      forall b | 0 <= b < |rest|
        ensures !Lex.Less(es[0].rank, rest[b].rank)
      {
        assert rest[b] in multiset(rest);
        assert rest[b] == e || rest[b] in multiset(es[1..]);
      }
    }
  }

  lemma AboveAll(es: seq<Entry>, e: Entry)
    requires Descending(es) && (es != [] ==> Lex.Less(es[0].rank, e.rank))
    ensures forall b :: 0 <= b < |es| ==> !Lex.Less(e.rank, es[b].rank) && es[b].rank != e.rank
  {
    hide Lex.Less;
    forall b | 0 <= b < |es|
      ensures !Lex.Less(e.rank, es[b].rank) && es[b].rank != e.rank
    {
      Lex.Trichotomy(es[0].rank, e.rank);
      if Lex.Less(e.rank, es[b].rank) {
        Lex.Transitive(es[0].rank, e.rank, es[b].rank);
      }
    }
  }

  lemma {:induction false} InsertIsStable(es: seq<Entry>, e: Entry, rank: seq<int>)
    requires Descending(es)
    ensures WithRank(InsertDescending(es, e), rank) == WithRank(es, rank) + if e.rank == rank then [e] else []
  {
    hide Lex.Less;
    var r := InsertDescending(es, e);
    if es == [] || Lex.Less(es[0].rank, e.rank) {
      assert r[1..] == es;
      AboveAll(es, e);
      if e.rank == rank {
        NoneWithRank(es, rank);
      }
    } else {
      assert r[1..] == InsertDescending(es[1..], e);
      InsertIsStable(es[1..], e, rank);
    }
  }

  lemma {:induction false} NoneWithRank(es: seq<Entry>, rank: seq<int>)
    requires forall b :: 0 <= b < |es| ==> es[b].rank != rank
    ensures WithRank(es, rank) == []
  {
    if es != [] {
      NoneWithRank(es[1..], rank);
    }
  }

  lemma {:induction false} WithRankSnoc(es: seq<Entry>, e: Entry, rank: seq<int>)
    ensures WithRank(es + [e], rank) == WithRank(es, rank) + if e.rank == rank then [e] else []
  {
    if es == [] {
      assert es + [e] == [e] && [e][1..] == [];
    } else {
      var tail := if e.rank == rank then [e] else [];
      assert (es + [e])[1..] == es[1..] + [e];
      WithRankSnoc(es[1..], e, rank);
      var head := if es[0].rank == rank then [es[0]] else [];
      assert head + (WithRank(es[1..], rank) + tail) == head + WithRank(es[1..], rank) + tail;
    }
  }

  /** The sort is descending and stable: within each rank the entries keep their order. */
  lemma {:induction false} SortIsStable(es: seq<Entry>, rank: seq<int>)
    ensures Descending(SortDescending(es))
    ensures WithRank(SortDescending(es), rank) == WithRank(es, rank)
  {
    if es != [] {
      var init, e := es[..|es| - 1], es[|es| - 1];
      SortIsStable(init, rank);
      InsertIsStable(SortDescending(init), e, rank);
      InsertKeepsOrder(SortDescending(init), e);
      WithRankSnoc(init, e, rank);
      assert es == init + [e];
    }
  }

  // ---------------------------------------------------------------------------
  // The candidates are exactly the superseded members
  // ---------------------------------------------------------------------------

  /** What the sort puts first is the newest member. */
  lemma {:induction false} FirstIsNewest(ts: seq<Torrent>, f: Family)
    ensures Members(ts, f) == [] <==> Newest(ts, f).None?
    ensures Members(ts, f) != [] ==>
              && |SortDescending(Members(ts, f))| > 0
              && SortDescending(Members(ts, f))[0] == Entry(Rank(Newest(ts, f).value), Newest(ts, f).value)
  {
    hide InFamily, Rank, Lex.Less;
    if ts != [] {
      var init, t := ts[..|ts| - 1], ts[|ts| - 1];
      FirstIsNewest(init, f);
      if InFamily(t, f) {
        var es := Members(init, f);
        assert (es + [Entry(Rank(t), t)])[..|es|] == es;
        assert Members(ts, f) == es + [Entry(Rank(t), t)];
      }
    }
  }

  lemma {:induction false} MembersAre(ts: seq<Torrent>, f: Family, e: Entry)
    ensures multiset(Members(ts, f))[e]
         == if e.rank == Rank(e.torrent) && InFamily(e.torrent, f) then multiset(ts)[e.torrent] else 0
  {
    hide InFamily, Rank;
    if ts != [] {
      var init, t := ts[..|ts| - 1], ts[|ts| - 1];
      MembersAre(init, f, e);
      assert ts == init + [t];
    }
  }

  lemma {:induction false} TorrentsCount(es: seq<Entry>, t: Torrent)
    requires forall e :: e in es ==> e.rank == Rank(e.torrent)
    ensures multiset(Torrents(es))[t] == multiset(es)[Entry(Rank(t), t)]
  {
    hide Rank;
    if es != [] {
      TorrentsCount(es[1..], t);
      assert es == [es[0]] + es[1..];
      assert Torrents(es) == [es[0].torrent] + Torrents(es[1..]);
    }
  }

  lemma {:induction false} OnceEach(ts: seq<Torrent>, t: Torrent)
    requires DistinctIds(ts)
    ensures multiset(ts)[t] <= 1
  {
    if ts != [] {
      var init := ts[..|ts| - 1];
      OnceEach(init, t);
      assert ts == init + [ts[|ts| - 1]];
      if t == ts[|ts| - 1] {
        assert t !in init;
      }
    }
  }

  /** One family: every member but the newest, each as often as it is listed. */
  lemma OlderMembersCount(ts: seq<Torrent>, f: Family, t: Torrent)
    ensures multiset(OlderMembers(ts, f))[t] + (if InFamily(t, f) && Newest(ts, f) == Some(t) then 1 else 0)
         == if InFamily(t, f) then multiset(ts)[t] else 0
  {
    var es := Members(ts, f);
    var sorted := SortDescending(es);
    hide InFamily, Rank, Newest, SortDescending, Members;
    FirstIsNewest(ts, f);
    SortLength(es);
    MembersAre(ts, f, Entry(Rank(t), t));
    if es != [] {
      assert sorted == [sorted[0]] + sorted[1..];
      forall e | e in sorted[1..]
        ensures e.rank == Rank(e.torrent)
      {
        MembersAre(ts, f, e);
        assert e in multiset(sorted);
      }
      TorrentsCount(sorted[1..], t);
      assert |es| < 2 ==> sorted[1..] == [];
      var e := Entry(Rank(t), t);
      assert multiset(sorted)[e] == multiset([sorted[0]])[e] + multiset(sorted[1..])[e];
      MembersAre(ts, f, sorted[0]);
      assert sorted[0] in multiset(sorted);
    }
  }

  lemma {:induction false} OlderOfCount(ts: seq<Torrent>, fs: seq<Family>, t: Torrent)
    requires forall a, b :: 0 <= a < b < |fs| ==> fs[a] != fs[b]
    ensures multiset(OlderOf(ts, fs))[t]
         == if Place(t).Some? && Place(t).value.family in fs
            then multiset(OlderMembers(ts, Place(t).value.family))[t] else 0
  {
    hide OlderMembers, Place, Newest;
    if fs != [] {
      var init, f := fs[..|fs| - 1], fs[|fs| - 1];
      OlderOfCount(ts, init, t);
      OlderMembersCount(ts, f, t);
      assert fs == init + [f];
    }
  }

  lemma {:induction false} FamiliesAre(ts: seq<Torrent>)
    ensures forall a, b :: 0 <= a < b < |Families(ts)| ==> Families(ts)[a] != Families(ts)[b]
    ensures forall k :: 0 <= k < |ts| && Place(ts[k]).Some? ==> Place(ts[k]).value.family in Families(ts)
  {
    hide Place;
    if ts != [] {
      var init := ts[..|ts| - 1];
      FamiliesAre(init);
      forall k | 0 <= k < |ts| && Place(ts[k]).Some?
        ensures Place(ts[k]).value.family in Families(ts)
      {
        if k < |init| {
          assert ts[k] == init[k];
        }
      }
    }
  }

  /** The candidates are exactly the superseded torrents, each once. */
  lemma CandidatesAreTheSuperseded(ts: seq<Torrent>, t: Torrent)
    requires DistinctIds(ts)
    ensures t in OldVersionCandidates(ts) <==> Superseded(ts, t)
    ensures multiset(OldVersionCandidates(ts))[t] <= 1
  {
    hide Place, OlderMembers, Newest, OlderOf;
    FamiliesAre(ts);
    OlderOfCount(ts, Families(ts), t);
    OnceEach(ts, t);
    if Place(t).Some? {
      var f := Place(t).value.family;
      OlderMembersCount(ts, f, t);
      if t in ts {
        assert t in multiset(ts);
        var k :| 0 <= k < |ts| && ts[k] == t;
      }
    }
    assert t in OldVersionCandidates(ts) <==> t in multiset(OldVersionCandidates(ts));
  }

  // ---------------------------------------------------------------------------
  // Removing candidates
  // ---------------------------------------------------------------------------

  /** The torrents left after removing ids; Transmission's listing keeps its order. */
  function Without(ts: seq<Torrent>, ids: set<nat>): seq<Torrent> {
    if ts == [] then []
    else
      var init, t := Without(ts[..|ts| - 1], ids), ts[|ts| - 1];
      if t.id in ids then init else init + [t]
  }

  lemma {:induction false} WithoutIs(ts: seq<Torrent>, ids: set<nat>)
    requires DistinctIds(ts)
    ensures forall t :: t in Without(ts, ids) <==> t in ts && t.id !in ids
    ensures DistinctIds(Without(ts, ids))
  {
    if ts != [] {
      var init, t := ts[..|ts| - 1], ts[|ts| - 1];
      WithoutIs(init, ids);
      assert ts == init + [t];
      var left := Without(init, ids);
      forall k | 0 <= k < |left|
        ensures left[k].id != t.id
      {
        assert left[k] in init;
      }
    }
  }

  lemma {:induction false} WithoutIsPart(ts: seq<Torrent>, ids: set<nat>)
    ensures forall t :: t in Without(ts, ids) ==> t in ts
  {
    if ts != [] {
      WithoutIsPart(ts[..|ts| - 1], ids);
    }
  }

  /** Whoever outranks the newest of `ts` outranks the newest of any part of it. */
  lemma NewestOvertaken(ts: seq<Torrent>, ids: set<nat>, f: Family, t: Torrent)
    requires Newest(ts, f).Some? && Lex.Less(Rank(Newest(ts, f).value), Rank(t))
    ensures var left := Newest(Without(ts, ids), f); left.Some? ==> Lex.Less(Rank(left.value), Rank(t))
  {
    hide InFamily, Rank, Lex.Less, Newest, Without;
    var left := Newest(Without(ts, ids), f);
    if left.Some? {
      NewestIsMember(Without(ts, ids), f);
      WithoutIsPart(ts, ids);
      NewestIsHighest(ts, f, left.value);
      var best := Newest(ts, f).value;
      Lex.Trichotomy(Rank(left.value), Rank(best));
      if Rank(left.value) != Rank(best) {
        Lex.Transitive(Rank(left.value), Rank(best), Rank(t));
      }
    }
  }

  /** Removing anything but the newest of a family leaves it the newest. */
  lemma {:induction false} NewestSurvives(ts: seq<Torrent>, ids: set<nat>, f: Family)
    requires Newest(ts, f).Some? ==> Newest(ts, f).value.id !in ids
    ensures Newest(Without(ts, ids), f) == Newest(ts, f)
    decreases |ts|
  {
    hide InFamily, Rank, Lex.Less;
    if ts != [] {
      var init, t := ts[..|ts| - 1], ts[|ts| - 1];
      var best := Newest(init, f);
      if best.Some? && best.value.id in ids {
        NewestOvertaken(init, ids, f, t);
      } else {
        NewestSurvives(init, ids, f);
      }
      assert (Without(init, ids) + [t])[..|Without(init, ids)|] == Without(init, ids);
    }
  }

  ghost predicate OnlySuperseded(ts: seq<Torrent>, ids: set<nat>) {
    forall t :: t in ts && t.id in ids ==> Superseded(ts, t)
  }

  /** Removing superseded torrents and nothing else: every family keeps its newest member, and the
      superseded ones left are the former ones minus the removed. */
  lemma {:induction false} RemovalLeavesTheRest(ts: seq<Torrent>, ids: set<nat>)
    requires DistinctIds(ts) && OnlySuperseded(ts, ids)
    ensures DistinctIds(Without(ts, ids))
    ensures forall f :: Newest(Without(ts, ids), f) == Newest(ts, f)
    ensures forall t :: Superseded(Without(ts, ids), t) <==> Superseded(ts, t) && t.id !in ids
  {
    hide Place, Newest, Without, Rank;
    WithoutIs(ts, ids);
    forall f
      ensures Newest(Without(ts, ids), f) == Newest(ts, f)
    {
      var newest := Newest(ts, f);
      if newest.Some? && newest.value.id in ids {
        NewestIsMember(ts, f);
        assert false;
      }
      NewestSurvives(ts, ids, f);
    }
  }

  /** A run of cleanups, each removing superseded torrents of what the one before it left. */
  ghost predicate CleanupRun(states: seq<seq<Torrent>>) {
    && states != [] && DistinctIds(states[0])
    && forall k :: 0 <= k < |states| - 1 ==> CleanupStep(states[k], states[k + 1])
  }

  ghost predicate CleanupStep(before: seq<Torrent>, after: seq<Torrent>) {
    exists ids: set<nat> :: OnlySuperseded(before, ids) && after == Without(before, ids)
  }

  /** After any run of any cleanups every family still has the newest member it started with, and
      only torrents superseded at the start are gone. */
  lemma {:induction false} NewestSurvivesEveryRun(states: seq<seq<Torrent>>)
    requires CleanupRun(states)
    ensures var first, last := states[0], states[|states| - 1];
            && DistinctIds(last)
            && (forall f :: Newest(last, f) == Newest(first, f))
            && (forall t :: t in last ==> t in first)
            && (forall t :: t in first && t !in last ==> Superseded(first, t))
  {
    hide Place, Newest, Without;
    if |states| > 1 {
      var init := states[..|states| - 1];
      forall k | 0 <= k < |init| - 1
        ensures CleanupStep(init[k], init[k + 1])
      {
        assert CleanupStep(states[k], states[k + 1]);
      }
      NewestSurvivesEveryRun(init);
      var before, after := states[|states| - 2], states[|states| - 1];
      assert CleanupStep(states[|states| - 2], states[|states| - 2 + 1]);
      var ids: set<nat> :| OnlySuperseded(before, ids) && after == Without(before, ids);
      RemovalLeavesTheRest(before, ids);
      WithoutIs(before, ids);
      forall t | t in states[0] && t !in after
        ensures Superseded(states[0], t)
      {
        if t in before {
          assert Superseded(before, t);
        }
      }
    }
  }

  /** Between cleanups torrents arrive, ratios change, and a restart of Transmission numbers them anew;
      whatever was held is held on. */
  ghost predicate Arrival(before: seq<Torrent>, after: seq<Torrent>) {
    DistinctIds(after) && forall t :: t in before ==> HeldOn(t, after)
  }

  ghost predicate HeldOn(t: Torrent, after: seq<Torrent>) {
    exists u :: u in after && u.name == t.name && u.added == t.added
  }

  /** A family's newest member is at least as new as it was; in particular there is one. */
  ghost predicate NoOlder(before: seq<Torrent>, after: seq<Torrent>, f: Family) {
    Newest(before, f).Some? ==>
      Newest(after, f).Some? && !Lex.Less(Rank(Newest(after, f).value), Rank(Newest(before, f).value))
  }

  lemma SamePlace(t: Torrent, u: Torrent)
    requires u.name == t.name && u.added == t.added
    ensures Place(u).Some? <==> Place(t).Some?
    ensures Place(t).Some? ==>
              Place(u).value.family == Place(t).value.family && Place(u).value.rank == Place(t).value.rank
    ensures Rank(u) == Rank(t) && forall f :: InFamily(u, f) <==> InFamily(t, f)
  {
  }

  lemma ArrivalIsNoOlder(before: seq<Torrent>, after: seq<Torrent>, f: Family)
    requires Arrival(before, after)
    ensures NoOlder(before, after, f)
  {
    hide Place, Newest, Rank, InFamily, Lex.Less;
    if Newest(before, f).Some? {
      NewestIsMember(before, f);
      var t := Newest(before, f).value;
      var u :| u in after && u.name == t.name && u.added == t.added;
      SamePlace(t, u);
      NewestIsHighest(after, f, u);
    }
  }

  lemma CleanupIsNoOlder(before: seq<Torrent>, after: seq<Torrent>, f: Family)
    requires DistinctIds(before) && CleanupStep(before, after)
    ensures DistinctIds(after) && NoOlder(before, after, f)
  {
    hide Place, Newest, Rank, InFamily;
    var ids: set<nat> :| OnlySuperseded(before, ids) && after == Without(before, ids);
    RemovalLeavesTheRest(before, ids);
    if Newest(before, f).Some? {
      Lex.Trichotomy(Rank(Newest(before, f).value), Rank(Newest(before, f).value));
    }
  }

  lemma NoOlderChains(a: seq<Torrent>, b: seq<Torrent>, c: seq<Torrent>, f: Family)
    requires NoOlder(a, b, f) && NoOlder(b, c, f)
    ensures NoOlder(a, c, f)
  {
    hide Newest, Rank, Lex.Less;
    if Newest(a, f).Some? {
      var r, s, t := Rank(Newest(a, f).value), Rank(Newest(b, f).value), Rank(Newest(c, f).value);
      Lex.Trichotomy(s, t);
      Lex.Trichotomy(r, s);
      if Lex.Less(t, r) {
        if Lex.Less(r, s) {
          Lex.Transitive(t, r, s);
        }
      }
    }
  }

  /** Cleanups and arrivals in any order. */
  ghost predicate History(states: seq<seq<Torrent>>) {
    && states != [] && DistinctIds(states[0])
    && forall k :: 0 <= k < |states| - 1 ==> CleanupStep(states[k], states[k + 1]) || Arrival(states[k], states[k + 1])
  }

  /** Over any history of cleanups and arrivals no family vanishes and no newest member is ever replaced
      by an older one. */
  lemma {:induction false} FamiliesNeverAge(states: seq<seq<Torrent>>, f: Family)
    requires History(states)
    ensures DistinctIds(states[|states| - 1]) && NoOlder(states[0], states[|states| - 1], f)
  {
    hide NoOlder, DistinctIds, CleanupStep, Arrival;
    if |states| == 1 {
      SameIsNoOlder(states[0], f);
    } else {
      var init := states[..|states| - 1];
      var before, after := states[|states| - 2], states[|states| - 1];
      assert CleanupStep(states[|states| - 2], states[|states| - 2 + 1])
             || Arrival(states[|states| - 2], states[|states| - 2 + 1]);
      forall k | 0 <= k < |init| - 1
        ensures CleanupStep(init[k], init[k + 1]) || Arrival(init[k], init[k + 1])
      {
        assert CleanupStep(states[k], states[k + 1]) || Arrival(states[k], states[k + 1]);
      }
      FamiliesNeverAge(init, f);
      StepIsNoOlder(before, after, f);
      NoOlderChains(states[0], before, after, f);
    }
  }

  lemma SameIsNoOlder(ts: seq<Torrent>, f: Family)
    ensures NoOlder(ts, ts, f)
  {
    if Newest(ts, f).Some? {
      Lex.Trichotomy(Rank(Newest(ts, f).value), Rank(Newest(ts, f).value));
    }
  }

  lemma StepIsNoOlder(before: seq<Torrent>, after: seq<Torrent>, f: Family)
    requires DistinctIds(before) && (CleanupStep(before, after) || Arrival(before, after))
    ensures DistinctIds(after) && NoOlder(before, after, f)
  {
    if CleanupStep(before, after) {
      CleanupIsNoOlder(before, after, f);
    } else {
      ArrivalIsNoOlder(before, after, f);
    }
  }

  // ---------------------------------------------------------------------------
  // What is kept, in dates and versions
  // ---------------------------------------------------------------------------

  /** When a torrent was added; one without a date counts as added first of all. */
  function AddedOn(t: Torrent): int {
    match t.added
    case None => 0
    case Some(date) => date
  }

  lemma SingleLess(a: int, b: int)
    ensures Lex.Less([a], [b]) <==> a < b
  {
    assert [a][1..] == [] && [b][1..] == [];
  }

  lemma DevuanIsPlaced(t: Torrent)
    requires IsDevuan(t.name)
    ensures InFamily(t, Devuan) && Rank(t) == [AddedOn(t)] && Place(t).Some? && Place(t).value.family == Devuan
  {
    hide IsDevuan, Parse;
  }

  lemma OnlyDevuanIsDevuan(t: Torrent)
    ensures InFamily(t, Devuan) <==> IsDevuan(t.name)
  {
    hide IsDevuan, Parse;
  }

  lemma ImageIsPlaced(t: Torrent, group: Group)
    ensures InFamily(t, Versioned(group)) <==> Parse(t.name).Some? && Parse(t.name).value.group == group
    ensures InFamily(t, Versioned(group)) ==>
              Rank(t) == Parse(t.name).value.version && Place(t).Some? && Place(t).value.family == Versioned(group)
  {
    if Parse(t.name).Some? {
      NotDevuan(t.name);
    }
    hide IsDevuan, Parse;
  }

  lemma {:induction false} OthersAreCandidates(ts: seq<Torrent>, f: Family, t: Torrent)
    requires DistinctIds(ts) && t in ts && InFamily(t, f)
    ensures Newest(ts, f).Some?
    ensures var kept := Newest(ts, f).value;
            && kept in ts && InFamily(kept, f) && kept !in OldVersionCandidates(ts)
            && (t != kept ==> t in OldVersionCandidates(ts)) && !Lex.Less(Rank(kept), Rank(t))
  {
    hide Rank, OldVersionCandidates, Lex.Less, Place;
    NewestIsMember(ts, f);
    NewestIsHighest(ts, f, t);
    InItsFamily(t, f);
    InItsFamily(Newest(ts, f).value, f);
    CandidatesAreTheSuperseded(ts, t);
    CandidatesAreTheSuperseded(ts, Newest(ts, f).value);
  }

  lemma InItsFamily(t: Torrent, f: Family)
    requires InFamily(t, f)
    ensures Place(t).Some? && Place(t).value.family == f
  {
  }

  /** Of the Devuan releases held one is kept, all others are candidates, and none of these was added
      later than it. */
  lemma {:induction false} TheLatestDevuanIsKept(ts: seq<Torrent>, t: Torrent)
    requires DistinctIds(ts) && t in ts && IsDevuan(t.name)
    ensures exists kept :: kept in ts && IsDevuan(kept.name) && kept !in OldVersionCandidates(ts)
              && forall u :: u in ts && IsDevuan(u.name) && u != kept ==>
                   u in OldVersionCandidates(ts) && AddedOn(u) <= AddedOn(kept)
  {
    hide IsDevuan, OldVersionCandidates, Rank, Lex.Less, Newest, InFamily, Place;
    DevuanIsPlaced(t);
    OthersAreCandidates(ts, Devuan, t);
    var kept := Newest(ts, Devuan).value;
    OnlyDevuanIsDevuan(kept);
    DevuanIsPlaced(kept);
    forall u | u in ts && IsDevuan(u.name) && u != kept
      ensures u in OldVersionCandidates(ts) && AddedOn(u) <= AddedOn(kept)
    {
      DevuanIsPlaced(u);
      OthersAreCandidates(ts, Devuan, u);
      SingleLess(AddedOn(kept), AddedOn(u));
    }
  }

  /** Of the held versions of one image one is kept, all others are candidates, and none of these is a
      greater version. */
  lemma {:induction false} TheGreatestVersionIsKept(ts: seq<Torrent>, t: Torrent)
    requires DistinctIds(ts) && t in ts && Parse(t.name).Some?
    ensures exists kept :: kept in ts && Parse(kept.name).Some? && kept !in OldVersionCandidates(ts)
              && Parse(kept.name).value.group == Parse(t.name).value.group
              && forall u :: u in ts && Parse(u.name).Some? && Parse(u.name).value.group == Parse(t.name).value.group
                             && u != kept ==>
                   && u in OldVersionCandidates(ts)
                   && !Lex.Less(Parse(kept.name).value.version, Parse(u.name).value.version)
  {
    hide Parse, OldVersionCandidates, Rank, Lex.Less, Newest, InFamily, Place;
    var group := Parse(t.name).value.group;
    ImageIsPlaced(t, group);
    OthersAreCandidates(ts, Versioned(group), t);
    var kept := Newest(ts, Versioned(group)).value;
    ImageIsPlaced(kept, group);
    forall u | u in ts && Parse(u.name).Some? && Parse(u.name).value.group == group && u != kept
      ensures u in OldVersionCandidates(ts)
      ensures !Lex.Less(Parse(kept.name).value.version, Parse(u.name).value.version)
    {
      ImageIsPlaced(u, group);
      OthersAreCandidates(ts, Versioned(group), u);
    }
  }

  /** Nothing else is ever a candidate. */
  lemma {:induction false} OtherNamesAreKept(ts: seq<Torrent>, t: Torrent)
    requires DistinctIds(ts) && !IsDevuan(t.name) && Parse(t.name).None?
    ensures t !in OldVersionCandidates(ts)
  {
    hide IsDevuan, Parse, OldVersionCandidates, Newest;
    CandidatesAreTheSuperseded(ts, t);
  }
}
