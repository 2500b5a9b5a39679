/** What is printed to the ratio log is what is read back. */
module RatioLogTheory {
  import opened Optional
  import opened Pattern
  import opened Strings
  import opened RatioLog
  import Decimal

  // ---------------------------------------------------------------------------
  // Names and stamps
  // ---------------------------------------------------------------------------

  /** Non-empty, on one line, without blank edges. */
  ghost predicate Trim(name: string) {
    && name != "" && !In(name[0], Space) && !In(name[|name| - 1], Space)
    && forall k :: 0 <= k < |name| ==> name[k] != '\n' && name[k] != '\r'
  }

  /** Somewhere in the name an arrow between blanks is followed by a number with a decimal point. */
  ghost predicate InnerEntry(name: string) {
    exists cut :: cut != [] && cut[0] > 0 && Fits(ENTRY[3..], name, cut[0], cut)
  }

  /** A name the log can carry. */
  ghost predicate WellFormed(name: string) {
    Trim(name) && !InnerEntry(name) && !Contains("[ratio] " + name, START) && !Contains("[ratio] " + name, END)
  }

  lemma ArrowOfCut(name: string, cut: seq<nat>)
    requires cut != [] && Fits(ENTRY[3..], name, cut[0], cut)
    ensures |cut| == 7 && cut[1] < |name| && name[cut[1]] == ARROW
  {
    assert Takes(ENTRY[3..][1], name, cut[1], cut[1 + 1]);
    assert name[cut[1]] == name[cut[1]..cut[2]][0];
  }

  /** A name without an arrow has no entry in it. */
  lemma NoArrowNoInnerEntry(name: string)
    requires forall k :: 0 <= k < |name| ==> name[k] != ARROW
    ensures !InnerEntry(name)
  {
    if cut :| cut != [] && cut[0] > 0 && Fits(ENTRY[3..], name, cut[0], cut) {
      ArrowOfCut(name, cut);
      assert false;
    }
  }

  /** Digits of any script count. */
  lemma {:induction false} ForeignDigitsAreAnEntry()
    ensures InnerEntry("a \U{2192} \U{0663}.\U{0663} b")
  {
    var name := "a \U{2192} \U{0663}.\U{0663} b";
    var cut: seq<nat> := [1, 2, 3, 4, 5, 6, 7];
    assert name[1..2] == " " && name[2..3] == [ARROW] && name[3..4] == " ";
    assert name[4..5] == "\U{0663}" && name[5..6] == "." && name[6..7] == "\U{0663}";
    assert Fits(ENTRY[3..], name, cut[0], cut);
  }

  ghost predicate AllWellFormed(ts: seq<Seeding>) {
    forall k :: 0 <= k < |ts| ==> WellFormed(ts[k].name)
  }

  ghost predicate Plain(stamp: string) {
    forall k :: 0 <= k < |stamp| ==> stamp[k] != '['
  }

  ghost predicate PlainStamps(clock: Clock) {
    forall k: nat :: Plain(Stamp(clock, k))
  }

  // ---------------------------------------------------------------------------
  // One line
  // ---------------------------------------------------------------------------

  /** The shape of a printed entry: prefix at `b`, name up to `e`, padding up to the arrow at `q`. */
  ghost predicate Shaped(s: string, b: nat, e: nat, q: nat) {
    && b + 8 < e < q && q + 2 < |s|
    && (forall k :: 0 <= k < b ==> s[k] != '[')
    && s[b..b + 7] == "[ratio]" && s[b + 7] == ' '
    && !In(s[b + 8], Space) && !In(s[e - 1], Space)
    && (forall k :: b <= k < b + 8 ==> s[k] != ARROW)
    && (forall k :: b + 8 <= k < e ==> s[k] != '\n')
    && (forall k :: e <= k < q ==> s[k] == ' ')
    && s[q] == ARROW && s[q + 1] == ' '
    && (forall k :: q < k < |s| ==> s[k] != ARROW)
  }

  lemma FixedHasNoArrow(ratio: int)
    ensures |Fixed(ratio)| > 4 && forall k :: 0 <= k < |Fixed(ratio)| ==> Fixed(ratio)[k] != ARROW
    ensures if ratio < 0 then Fixed(ratio)[0] == '-' else In(Fixed(ratio)[0], Digit)
  {
  }

  /** Where the parts of a text are. */
  lemma Parts(p: string, n: string, d: string, t: string) returns (s: string)
    ensures s == p + n + d + t && |s| == |p| + |n| + |d| + |t|
    ensures s[|p|..|p| + |n|] == n
    ensures forall k :: 0 <= k < |p| ==> s[k] == p[k]
    ensures forall k :: |p| <= k < |p| + |n| ==> s[k] == n[k - |p|]
    ensures forall k :: |p| + |n| <= k < |p| + |n| + |d| ==> s[k] == d[k - |p| - |n|]
    ensures forall k :: |p| + |n| + |d| <= k < |s| ==> s[k] == t[k - |p| - |n| - |d|]
    ensures forall m: nat :: m <= |t| ==> s[|p| + |n| + |d| + m..] == t[m..]
  {
    s := p + n + d + t;
  }

  function Tail(ratio: int): string {
    " " + [ARROW] + " " + Fixed(ratio)
  }

  lemma TailShape(ratio: int)
    ensures var tail := Tail(ratio);
            && |tail| > 3 && tail[0] == ' ' && tail[1] == ARROW && tail[2] == ' ' && tail[3..] == Fixed(ratio)
            && forall k :: 2 <= k < |tail| ==> tail[k] != ARROW
  {
    FixedHasNoArrow(ratio);
    hide Fixed;
  }

  lemma MessageParts(stamp: string, t: Seeding)
    ensures stamp + Message(t) == (stamp + "[ratio] ") + t.name + Blanks(50 - |t.name|) + Tail(t.ratio)
  {
    hide Fixed, Blanks;
    var head, end := "[ratio] " + t.name + Blanks(50 - |t.name|), " " + [ARROW] + " " + Fixed(t.ratio);
    assert Message(t) == head + end;
  }

  lemma MessageShape(stamp: string, t: Seeding) returns (e: nat, q: nat)
    requires Plain(stamp) && Trim(t.name)
    ensures Shaped(stamp + Message(t), |stamp|, e, q)
    ensures (stamp + Message(t))[|stamp| + 8..e] == t.name && (stamp + Message(t))[q + 2..] == Fixed(t.ratio)
  {
    TailShape(t.ratio);
    MessageParts(stamp, t);
    hide *;
    var pad := Blanks(50 - |t.name|);
    var head := Parts(stamp, "[ratio] ", [], []);
    assert head == stamp + "[ratio] ";
    var s := Parts(head, t.name, pad, Tail(t.ratio));
    e := |stamp| + 8 + |t.name|;
    q := e + |pad| + 1;
    assert s[|stamp|..|stamp| + 8] == "[ratio] ";
    ShapeFrom(s, stamp, t.name, pad, Tail(t.ratio), e, q);
  }

  lemma ShapeFrom(s: string, stamp: string, name: string, pad: string, tail: string, e: nat, q: nat)
    requires Plain(stamp) && Trim(name) && |tail| > 3
    requires forall k :: 0 <= k < |pad| ==> pad[k] == ' '
    requires tail[0] == ' ' && tail[1] == ARROW && tail[2] == ' ' && forall k :: 2 <= k < |tail| ==> tail[k] != ARROW
    requires e == |stamp| + 8 + |name| && q == e + |pad| + 1 && |s| == e + |pad| + |tail|
    requires forall k :: 0 <= k < |stamp| ==> s[k] == stamp[k]
    requires s[|stamp|..|stamp| + 8] == "[ratio] "
    requires forall k :: |stamp| + 8 <= k < e ==> s[k] == name[k - |stamp| - 8]
    requires forall k :: e <= k < e + |pad| ==> s[k] == pad[k - e]
    requires forall k :: e + |pad| <= k < |s| ==> s[k] == tail[k - e - |pad|]
    ensures Shaped(s, |stamp|, e, q)
  {
    hide In, Contains, START, END;
    var b := |stamp|;
    var prefix := s[b..b + 8];
    assert s[b..b + 7] == prefix[..7] == "[ratio]";
    forall k | b <= k < b + 8
      ensures s[k] == prefix[k - b] && s[k] != ARROW && s[k] != '\n'
    {
    }
    assert s[b + 7] == prefix[7] == ' ';
  }

  lemma ClassAt(s: string, i: nat, j: nat, of: Class)
    requires i <= j <= |s| && AllIn(s[i..j], of)
    ensures forall k :: i <= k < j ==> In(s[k], of)
  {
    forall k | i <= k < j
      ensures In(s[k], of)
    {
      assert s[k] == s[i..j][k - i];
    }
  }

  /** However a printed entry is cut, its arrow is the printed one or one in the name. */
  lemma CutsOfAnEntry(s: string, b: nat, e: nat, q: nat, at: seq<nat>)
    requires Shaped(s, b, e, q) && at != [] && Fits(ENTRY, s, at[0], at)
    ensures |at| == 10 && at[0] >= b && (at[4] == q || at[4] < e)
    ensures at[0] == b ==> at[2] == b + 8
    ensures at[4] == q && !In(s[q + 2], Space) ==> at[6] == q + 2 && In(s[q + 2], Digit)
    ensures at[4] == q && at[0] == b ==> e <= at[3] < q
    ensures at[4] < e ==> at[9] <= e && b + 8 < at[3]
  {
    EntryPieces(s, at);
    hide Fits, AllIn, ENTRY;
    assert s[at[0]] == s[at[0]..at[1]][0] == '[';
    assert s[at[4]] == ARROW;
    ClassAt(s, at[1], at[2], Space);
    ClassAt(s, at[3], at[4], Space);
    ClassAt(s, at[5], at[6], Space);
    ClassAt(s, at[6], at[7], Digit);
    ClassAt(s, at[8], at[9], Digit);
    if at[4] < e {
      NumberEndsInTheName(s, e, q, at[5], at[6], at[7], at[9]);
    }
  }

  /** Blanks, digits, a point and digits that begin before the padding end there. */
  lemma NumberEndsInTheName(s: string, e: nat, q: nat, i: nat, j: nat, point: nat, end: nat)
    requires i <= e < q < |s| && i < j < point && point + 1 < end <= |s| && s[q] == ARROW
    requires forall k :: e <= k < q ==> s[k] == ' '
    requires forall k :: i <= k < j ==> In(s[k], Space)
    requires forall k :: j <= k < point ==> In(s[k], Digit)
    requires s[point] == '.' && forall k :: point + 1 <= k < end ==> In(s[k], Digit)
    ensures end <= e
  {
    assert !In(s[q], Space) && !In(s[q], Digit) && s[e] == ' ' && !In(s[e], Digit);
    assert In(s[j], Digit);
    hide In;
    assert j < e;
    assert point < e;
  }

  /** A cut with its arrow in the name shows an entry in the name. */
  lemma CutInTheName(s: string, b: nat, e: nat, q: nat, at: seq<nat>)
    requires Shaped(s, b, e, q) && |at| == 10 && Fits(ENTRY, s, at[0], at) && at[4] < e
    ensures InnerEntry(s[b + 8..e])
  {
    CutsOfAnEntry(s, b, e, q, at);
    EntryPieces(s, at);
    FitsSuffix(ENTRY, s, at[0], at, 3);
    hide *;
    var o, name := b + 8, s[b + 8..e];
    var cut: seq<nat> := [at[3] - o, at[4] - o, at[5] - o, at[6] - o, at[7] - o, at[8] - o, at[9] - o];
    AllShifted(cut, at[3..], o);
    FitsInside(ENTRY[3..], name, s, o, cut);
    InnerEntryAt(name, cut);
  }

  lemma AllShifted(cut: seq<nat>, stops: seq<nat>, o: nat)
    requires |cut| == |stops| && forall k :: 0 <= k < |cut| ==> stops[k] == cut[k] + o
    ensures Shifted(cut, o) == stops
  {
  }

  lemma InnerEntryAt(name: string, cut: seq<nat>)
    requires cut != [] && cut[0] > 0 && Fits(ENTRY[3..], name, cut[0], cut)
    ensures InnerEntry(name)
  {
  }

  /** An entry in the name is a way to cut the line. */
  lemma InnerCut(s: string, b: nat, e: nat, q: nat) returns (at: seq<nat>)
    requires Shaped(s, b, e, q) && InnerEntry(s[b + 8..e])
    ensures |at| == 10 && Fits(ENTRY, s, b, at) && at[3] < e
  {
    var o, name := b + 8, s[b + 8..e];
    var cut :| cut != [] && cut[0] > 0 && Fits(ENTRY[3..], name, cut[0], cut);
    ArrowOfCut(name, cut);
    CutIsInside(ENTRY[3..], name, cut);
    FitsInside(ENTRY[3..], name, s, o, cut);
    FirstThree(s, b, e, q, o + cut[0]);
    hide *;
    var rest := Shifted(cut, o);
    assert rest[0] == o + cut[0];
    FitsCons(Lazy(Any), ENTRY[3..], s, o, o + cut[0], rest);
    FitsCons(Greedy(Space), [Lazy(Any)] + ENTRY[3..], s, b + 7, o, [o] + rest);
    FitsCons(Literal("[ratio]"), [Greedy(Space)] + ([Lazy(Any)] + ENTRY[3..]), s, b, b + 7, [b + 7] + ([o] + rest));
    EntryIs();
    at := [b] + ([b + 7] + ([o] + rest));
  }

  lemma EntryIs()
    ensures ENTRY == [Literal("[ratio]")] + ([Greedy(Space)] + ([Lazy(Any)] + ENTRY[3..])) && |ENTRY| == 9
  {
  }

  lemma CutIsInside(items: Items, s: string, cut: seq<nat>)
    requires |items| > 0 && cut != [] && Fits(items, s, cut[0], cut)
    ensures forall k :: 0 <= k < |cut| ==> cut[k] <= |s|
    ensures cut[0] < |s| || items[0].Literal?
  {
    forall k | 0 <= k < |cut|
      ensures cut[k] <= |s|
    {
      if k < |items| {
        assert Takes(items[k], s, cut[k], cut[k + 1]);
      } else {
        assert Takes(items[k - 1], s, cut[k - 1], cut[k - 1 + 1]);
      }
    }
    assert Takes(items[0], s, cut[0], cut[0 + 1]);
  }

  lemma FirstThree(s: string, b: nat, e: nat, q: nat, i: nat)
    requires Shaped(s, b, e, q) && b + 8 < i <= e
    ensures Takes(Literal("[ratio]"), s, b, b + 7) && Takes(Greedy(Space), s, b + 7, b + 8)
    ensures Takes(Lazy(Any), s, b + 8, i)
  {
    assert s[b + 7..b + 8] == [' '];
  }

  /** A negative ratio is not read at all, unless the name holds an entry. */
  lemma NegativeIsNotRead(s: string, b: nat, e: nat, q: nat)
    requires Shaped(s, b, e, q) && s[q + 2] == '-' && !InnerEntry(s[b + 8..e])
    ensures ReadLine(s).None?
  {
    SearchIsLeftmost(ENTRY, s, 0);
    if Search(ENTRY, s, 0).Some? {
      var at := Search(ENTRY, s, 0).value;
      NoCutIfNegative(s, b, e, q, at);
      assert false;
    }
  }

  lemma NoCutIfNegative(s: string, b: nat, e: nat, q: nat, at: seq<nat>)
    requires Shaped(s, b, e, q) && s[q + 2] == '-' && !InnerEntry(s[b + 8..e])
    ensures at == [] || !Fits(ENTRY, s, at[0], at)
  {
    if at != [] && Fits(ENTRY, s, at[0], at) {
      CutsOfAnEntry(s, b, e, q, at);
      if at[4] < e {
        CutInTheName(s, b, e, q, at);
      }
      assert false;
    }
  }

  lemma {:induction false} StripLeftShortens(s: string)
    ensures |StripLeft(s)| <= |s|
  {
    if s != "" && IsBlank(s[0]) {
      StripLeftShortens(s[1..]);
    }
  }

  lemma {:induction false} StripRightShortens(s: string)
    ensures |StripRight(s)| <= |s|
  {
    if s != "" && IsBlank(s[|s| - 1]) {
      StripRightShortens(s[..|s| - 1]);
    }
  }

  lemma StripShortens(s: string)
    ensures |Strip(s)| <= |s|
  {
    StripLeftShortens(s);
    StripRightShortens(StripLeft(s));
  }

  /** If the name holds an entry, the lazy part of the pattern ends at that entry or before. */
  lemma PreferredEndsEarly(s: string, b: nat, e: nat, found: seq<nat>, at: seq<nat>)
    requires Fits(ENTRY, s, b, found) && Fits(ENTRY, s, b, at) && |found| == 10 && |at| == 10
    requires found[1] == at[1] && found[2] == at[2] && at[3] < e
    requires found == at || Preferred(ENTRY, found, at)
    ensures found[3] < e
  {
    if found != at {
      hide Fits;
      var k :| 0 <= k < |ENTRY| && found[..k + 1] == at[..k + 1] && Better(ENTRY[k], found[k + 1], at[k + 1]);
      assert k >= 2;
      if k > 2 {
        assert found[3] == found[..k + 1][3] == at[..k + 1][3] == at[3];
      }
    }
  }

  /** A name that holds an entry is not read back, whatever the ratio. */
  lemma InnerEntryIsMisread(s: string, b: nat, e: nat, q: nat)
    requires Shaped(s, b, e, q) && InnerEntry(s[b + 8..e])
    ensures ReadLine(s).Some? && ReadLine(s).value.name != s[b + 8..e]
  {
    var at := InnerCut(s, b, e, q);
    SearchIsLeftmost(ENTRY, s, 0);
    var found := Search(ENTRY, s, 0).value;
    CutsOfAnEntry(s, b, e, q, found);
    CutsOfAnEntry(s, b, e, q, at);
    MatchIsPreferred(ENTRY, s, b, at);
    EntryPieces(s, found);
    EntryPieces(s, at);
    PreferredEndsEarly(s, b, e, found, at);
    StripShortens(s[b + 8..found[3]]);
    hide Fits, Match, Search, Shaped, InnerEntry, Strip, Preferred;
  }

  /** The cut one expects. */
  lemma TheCut(s: string, b: nat, e: nat, q: nat, point: nat)
    requires Shaped(s, b, e, q) && q + 2 < point < |s| - 1
    requires AllIn(s[q + 2..point], Digit) && s[point] == '.' && AllIn(s[point + 1..], Digit)
    ensures Fits(ENTRY, s, b, [b, b + 7, b + 8, e, q, q + 1, q + 2, point, point + 1, |s|])
  {
    var at: seq<nat> := [b, b + 7, b + 8, e, q, q + 1, q + 2, point, point + 1, |s|];
    assert s[q..q + 1] == [ARROW] && s[point..point + 1] == ".";
    assert s[point + 1..] == s[point + 1..|s|];
    forall k | 0 <= k < |ENTRY|
      ensures Takes(ENTRY[k], s, at[k], at[k + 1])
    {
    }
  }

  lemma {:induction false} StripPadding(name: string, padded: string)
    requires name != "" && !IsBlank(name[0]) && !IsBlank(name[|name| - 1])
    requires name <= padded && forall k :: |name| <= k < |padded| ==> padded[k] == ' '
    ensures StripLeft(padded) == padded && StripRight(padded) == name
    decreases |padded|
  {
    assert padded[0] == name[0];
    if |padded| == |name| {
      assert padded == name;
    } else {
      var less := padded[..|padded| - 1];
      assert name <= less;
      StripPadding(name, less);
    }
  }

  /** Where the search finds a non-negative entry. */
  lemma EntryIsFound(s: string, b: nat, e: nat, q: nat, point: nat)
    requires Shaped(s, b, e, q) && q + 2 < point < |s| - 1
    requires AllIn(s[q + 2..point], Digit) && s[point] == '.' && AllIn(s[point + 1..], Digit)
    requires !InnerEntry(s[b + 8..e])
    ensures var found := Search(ENTRY, s, 0);
            && found.Some? && |found.value| == 10 && Fits(ENTRY, s, found.value[0], found.value)
            && found.value[2] == b + 8 && e <= found.value[3] < q
            && found.value[6] == q + 2 && found.value[7] == point && found.value[8] == point + 1
            && found.value[9] == |s|
  {
    TheCut(s, b, e, q, point);
    SearchIsLeftmost(ENTRY, s, 0);
    var at := Search(ENTRY, s, 0).value;
    CutsOfAnEntry(s, b, e, q, at);
    LastGreedyTakesAll(ENTRY, s, at[0]);
    hide Match, Search;
    CutOutsideTheName(s, b, e, q, point, at);
  }

  lemma CutOutsideTheName(s: string, b: nat, e: nat, q: nat, point: nat, at: seq<nat>)
    requires Shaped(s, b, e, q) && q + 2 < point < |s| - 1 && !InnerEntry(s[b + 8..e])
    requires AllIn(s[q + 2..point], Digit) && s[point] == '.' && AllIn(s[point + 1..], Digit)
    requires |at| == 10 && Fits(ENTRY, s, at[0], at) && at[0] <= b && (at[9] < |s| ==> !In(s[at[9]], Digit))
    ensures at[2] == b + 8 && e <= at[3] < q && at[6] == q + 2 && at[7] == point && at[8] == point + 1 && at[9] == |s|
  {
    CutsOfAnEntry(s, b, e, q, at);
    EntryPieces(s, at);
    hide Fits;
    if at[4] < e {
      CutInTheName(s, b, e, q, at);
      assert false;
    } else {
      ClassAt(s, q + 2, point, Digit);
      ClassAt(s, at[6], at[7], Digit);
      ClassAt(s, point + 1, |s|, Digit);
      assert In(s[q + 2], Digit);
    }
  }

  lemma DigitsOfText(ds: seq<Decimal.digit>)
    ensures DigitsOf(Text(ds)) == ds
  {
  }

  lemma ThreeDigits(n: nat)
    ensures Decimal.ValueOf([n / 10 / 10 % 10, n / 10 % 10, n % 10]) == n % 1000
  {
    var a, b, c: Decimal.digit := n / 10 / 10 % 10, n / 10 % 10, n % 10;
    var abc: seq<Decimal.digit>, ab: seq<Decimal.digit> := [a, b, c], [a, b];
    assert abc[..2] == ab && ab[..1] == [a] && [a][..0] == [];
    assert Decimal.ValueOf([a]) == a;
    assert Decimal.ValueOf(ab) == 10 * a + b;
    assert Decimal.ValueOf(abc) == 10 * (10 * a + b) + c;
    hide *;
    LowDigits(n, n / 10, n / 10 / 10, n / 10 / 10 / 10, a, b, c);
  }

  lemma LowDigits(n: nat, tens: nat, hundreds: nat, thousands: nat, a: nat, b: nat, c: nat)
    requires n == 10 * tens + c && tens == 10 * hundreds + b && hundreds == 10 * thousands + a
    requires a < 10 && b < 10 && c < 10
    ensures n % 1000 == 10 * (10 * a + b) + c
  {
    RemainderIs(n, thousands, 10 * (10 * a + b) + c);
  }

  lemma RemainderIs(n: int, thousands: int, r: int)
    requires n == 1000 * thousands + r && 0 <= r < 1000
    ensures n % 1000 == r
  {
    assert n - r == 1000 * thousands;
    assert (n - r) % 1000 == 0;
  }

  lemma Pointed(whole: string, decimals: string)
    requires whole != "" && decimals != ""
    ensures var text := "" + whole + "." + decimals;
            && 0 < |whole| < |text| - 1 && text[|whole|] == '.'
            && text[..|whole|] == whole && text[|whole| + 1..] == decimals
  {
  }

  lemma FloatOfText(n: nat, whole: seq<Decimal.digit>, decimals: seq<Decimal.digit>)
    requires |decimals| == 3 && n == 1000 * Decimal.ValueOf(whole) + Decimal.ValueOf(decimals)
    ensures Float(Text(whole), Text(decimals)) == n as real / 1000.0
  {
    hide Decimal.ValueOf, DigitsOf, Text, Power10;
    DigitsOfText(whole);
    DigitsOfText(decimals);
    ThreeDecimals();
    Thousandths(n, Decimal.ValueOf(whole), Decimal.ValueOf(decimals));
  }

  lemma ThreeDecimals()
    ensures Power10(3) == 1000.0
  {
    assert Power10(0) == 1.0;
    assert Power10(1) == 10.0;
    assert Power10(2) == 100.0;
  }

  lemma Thousandths(n: nat, whole: nat, part: nat)
    requires n == 1000 * whole + part
    ensures whole as real + part as real / 1000.0 == n as real / 1000.0
  {
    assert n as real == 1000.0 * whole as real + part as real;
  }

  /** The printed number reads as the number. */
  lemma FixedReads(ratio: nat) returns (point: nat)
    ensures var text := Fixed(ratio);
            && 0 < point < |text| - 1 && text[point] == '.'
            && AllIn(text[..point], Digit) && AllIn(text[point + 1..], Digit)
            && Float(text[..point], text[point + 1..]) == ratio as real / 1000.0
  {
    hide Decimal.Digits, Text, Float, AllIn;
    var whole := Decimal.Digits(ratio / 1000);
    var ds: seq<Decimal.digit> := [ratio / 10 / 10 % 10, ratio / 10 % 10, ratio % 10];
    point := |whole|;
    Pointed(Text(whole), Text(ds));
    ThreeDigits(ratio);
    assert ratio == 1000 * (ratio / 1000) + ratio % 1000;
    FloatOfText(ratio, whole, ds);
    assert Fixed(ratio) == "" + Text(whole) + "." + Text(ds);
  }

  ghost predicate ReadsBack(line: string, t: Seeding) {
    ReadLine(line) == if t.ratio >= 0 then Some(Reading(t.name, t.ratio as real / 1000.0)) else None
  }

  /** A printed line reads as its name and ratio, with a negative ratio as nothing, if and only if
      there is no entry within the name. */
  lemma LineReadsBackIff(stamp: string, t: Seeding)
    requires Plain(stamp) && Trim(t.name)
    ensures ReadsBack(stamp + Message(t), t) <==> !InnerEntry(t.name)
  {
    var e, q := MessageShape(stamp, t);
    hide *;
    ShapedLineReadsBackIff(stamp + Message(t), |stamp|, e, q, t);
  }

  lemma ShapedLineReadsBackIff(line: string, b: nat, e: nat, q: nat, t: Seeding)
    requires Shaped(line, b, e, q) && line[q + 2..] == Fixed(t.ratio) && line[b + 8..e] == t.name
    ensures ReadsBack(line, t) <==> !InnerEntry(t.name)
  {
    hide ReadLine, Shaped, InnerEntry, Fixed;
    if InnerEntry(t.name) {
      InnerEntryIsMisread(line, b, e, q);
    } else if t.ratio < 0 {
      NegativeLine(line, b, e, q, t);
    } else {
      NonNegativeLine(line, b, e, q, t);
    }
  }

  lemma LineReadsBack(stamp: string, t: Seeding)
    requires Plain(stamp) && WellFormed(t.name)
    ensures ReadLine(stamp + Message(t))
         == if t.ratio >= 0 then Some(Reading(t.name, t.ratio as real / 1000.0)) else None
  {
    LineReadsBackIff(stamp, t);
  }

  lemma NegativeLine(s: string, b: nat, e: nat, q: nat, t: Seeding)
    requires t.ratio < 0 && Shaped(s, b, e, q) && s[q + 2..] == Fixed(t.ratio) && !InnerEntry(s[b + 8..e])
    ensures ReadLine(s).None?
  {
    FixedHasNoArrow(t.ratio);
    assert q + 2 < |s|;
    hide *;
    assert s[q + 2] == s[q + 2..][0];
    NegativeIsNotRead(s, b, e, q);
  }

  lemma NonNegativeLine(s: string, b: nat, e: nat, q: nat, t: Seeding)
    requires t.ratio >= 0 && Shaped(s, b, e, q) && s[q + 2..] == Fixed(t.ratio) && s[b + 8..e] == t.name
    requires !InnerEntry(t.name)
    ensures ReadLine(s) == Some(Reading(t.name, t.ratio as real / 1000.0))
  {
    hide *;
    Bounds(s, b, e, q);
    var point := FixedReads(t.ratio);
    SliceOf(s, q + 2, Fixed(t.ratio), point);
    EntryReads(s, b, e, q, q + 2 + point, t);
  }

  lemma Bounds(s: string, b: nat, e: nat, q: nat)
    requires Shaped(s, b, e, q)
    ensures b + 8 < e < q && q + 2 < |s|
  {
  }

  lemma SliceOf(s: string, o: nat, rest: string, point: nat)
    requires o <= |s| && s[o..] == rest && point < |rest|
    ensures o + |rest| == |s| && s[o..o + point] == rest[..point] && s[o + point + 1..] == rest[point + 1..]
    ensures s[o + point] == rest[point]
  {
  }

  lemma EntryReads(s: string, b: nat, e: nat, q: nat, point: nat, t: Seeding)
    requires Shaped(s, b, e, q) && q + 2 < point < |s| - 1 && s[b + 8..e] == t.name && !InnerEntry(t.name)
    requires AllIn(s[q + 2..point], Digit) && s[point] == '.' && AllIn(s[point + 1..], Digit)
    requires Float(s[q + 2..point], s[point + 1..]) == t.ratio as real / 1000.0
    ensures ReadLine(s) == Some(Reading(t.name, t.ratio as real / 1000.0))
  {
    hide *;
    Bounds(s, b, e, q);
    EntryIsFound(s, b, e, q, point);
    var at := Search(ENTRY, s, 0).value;
    NameOf(s, b, e, q, at[3], t.name);
    assert s[point + 1..|s|] == s[point + 1..];
    FoundReads(s, at);
  }

  lemma FoundReads(s: string, at: seq<nat>)
    requires |at| == 10 && Search(ENTRY, s, 0) == Some(at) && at[2] <= at[3] <= |s| && at[6] <= at[7] <= |s|
    requires at[8] <= at[9] <= |s| && AllIn(s[at[6]..at[7]], Digit) && AllIn(s[at[8]..at[9]], Digit)
    ensures ReadLine(s) == Some(Reading(Strip(s[at[2]..at[3]]), Float(s[at[6]..at[7]], s[at[8]..at[9]])))
  {
  }

  lemma NameOf(s: string, b: nat, e: nat, q: nat, end: nat, name: string)
    requires Shaped(s, b, e, q) && s[b + 8..e] == name && e <= end < q
    ensures Strip(s[b + 8..end]) == name
  {
    var padded := s[b + 8..end];
    assert padded[..|name|] == name;
    assert name[0] == s[b + 8] && name[|name| - 1] == s[e - 1];
    StripPadding(name, padded);
  }

  // ---------------------------------------------------------------------------
  // The latest segment
  // ---------------------------------------------------------------------------

  lemma StampHasNoMarker(stamp: string, message: string, marker: string, at: nat)
    requires Plain(stamp) && marker != "" && marker[0] == '['
    requires at <= |stamp + message| && At(stamp + message, at, marker)
    ensures at >= |stamp| && At(message, at - |stamp|, marker)
  {
    var line := stamp + message;
    assert line[at] == line[at..at + |marker|][0] == '[';
    assert line[at..at + |marker|] == message[at - |stamp|..at - |stamp| + |marker|];
  }

  /** A marker in a printed entry would be in its name. */
  lemma EntryIsNoMarker(stamp: string, t: Seeding, marker: string)
    requires Plain(stamp) && WellFormed(t.name) && (marker == START || marker == END)
    ensures !Contains(stamp + Message(t), marker)
  {
    if Contains(stamp + Message(t), marker) {
      var at: nat :| at <= |stamp + Message(t)| && At(stamp + Message(t), at, marker);
      StampHasNoMarker(stamp, Message(t), marker, at);
      MarkerIsInTheName(t, marker, at - |stamp|);
      assert false;
    }
  }

  lemma MarkerIsInTheName(t: Seeding, marker: string, at: nat)
    requires (marker == START || marker == END) && At(Message(t), at, marker)
    ensures Contains("[ratio] " + t.name, marker)
  {
    var head, tail := "[ratio] " + t.name, Blanks(50 - |t.name|) + Tail(t.ratio);
    HeadAndTail(t, head, tail);
    NoLetters(t);
    var last := at + |marker| - 1;
    assert marker[|marker| - 1] == 'T' || marker[|marker| - 1] == 'D';
    hide Message, Tail, Fixed, Blanks, START, END;
    LiesInTheHead(head, tail, marker, at);
  }

  lemma HeadAndTail(t: Seeding, head: string, tail: string)
    requires head == "[ratio] " + t.name && tail == Blanks(50 - |t.name|) + Tail(t.ratio)
    ensures Message(t) == head + tail
  {
    MessageParts("", t);
    hide *;
    assert "" + Message(t) == Message(t) && "" + "[ratio] " == "[ratio] ";
  }

  lemma LiesInTheHead(head: string, tail: string, marker: string, at: nat)
    requires marker != "" && At(head + tail, at, marker)
    requires marker[|marker| - 1] == 'T' || marker[|marker| - 1] == 'D'
    requires forall m :: 0 <= m < |tail| ==> tail[m] != 'T' && tail[m] != 'D'
    ensures Contains(head, marker)
  {
    var line, last := head + tail, at + |marker| - 1;
    assert line[last] == line[at..at + |marker|][|marker| - 1];
    InTheHead(head, tail, last);
    assert head[at..at + |marker|] == line[at..at + |marker|];
    assert At(head, at, marker);
  }

  lemma InTheHead(head: string, tail: string, k: nat)
    requires k < |head + tail| && forall m :: 0 <= m < |tail| ==> tail[m] != 'T' && tail[m] != 'D'
    requires (head + tail)[k] == 'T' || (head + tail)[k] == 'D'
    ensures k < |head|
  {
  }

  lemma NoLetters(t: Seeding)
    ensures var tail := Blanks(50 - |t.name|) + Tail(t.ratio);
            forall k :: 0 <= k < |tail| ==> tail[k] != 'T' && tail[k] != 'D'
  {
    var number := Fixed(t.ratio);
    assert forall k :: 0 <= k < |number| ==> number[k] != 'T' && number[k] != 'D';
    hide Fixed;
  }

  lemma MarkerIsMarked(stamp: string, marker: string)
    ensures Contains(stamp + marker, marker)
  {
    assert At(stamp + marker, |stamp|, marker);
  }

  lemma EndIsNoStart(stamp: string)
    requires Plain(stamp)
    ensures !Contains(stamp + END, START)
  {
    if at: nat :| at <= |stamp + END| && At(stamp + END, at, START) {
      StampHasNoMarker(stamp, END, START, at);
      assert false;
    }
  }

  ghost predicate Unmarked(lines: seq<string>, marker: string) {
    forall k :: 0 <= k < |lines| ==> !Contains(lines[k], marker)
  }

  lemma {:induction false} NoneMarked(lines: seq<string>, marker: string)
    requires Unmarked(lines, marker)
    ensures Marked(lines, marker) == []
  {
    if lines != [] {
      NoneMarked(lines[..|lines| - 1], marker);
    }
  }

  lemma {:induction false} LastMarked(before: seq<string>, line: string, after: seq<string>, marker: string)
    requires Contains(line, marker) && Unmarked(after, marker)
    ensures var found := Marked(before + [line] + after, marker);
            found != [] && found[|found| - 1] == |before|
    decreases |after|
  {
    var all := before + [line] + after;
    if after == [] {
      assert all[..|all| - 1] == before;
    } else {
      var init := after[..|after| - 1];
      assert all[..|all| - 1] == before + [line] + init;
      LastMarked(before, line, init, marker);
    }
  }

  /** Whatever came before, the latest segment is what was printed between the markers. */
  lemma SegmentIs(earlier: seq<string>, start: string, entries: seq<string>, end: string, later: seq<string>)
    requires Contains(start, START) && Contains(end, END) && !Contains(end, START)
    requires Unmarked(entries, START) && Unmarked(later, START) && Unmarked(later, END)
    ensures Segment(earlier + [start] + (entries + [end] + later)) == entries
  {
    var rest := entries + [end] + later;
    hide Contains, START, END;
    LastMarked(earlier, start, rest, START);
    LastMarked(entries, end, later, END);
    assert (earlier + [start] + rest)[|earlier| + 1..] == rest;
    assert rest[..|entries|] == entries;
  }

  /** Without an end marker it is all there is of it. */
  lemma UnfinishedSegmentIs(earlier: seq<string>, start: string, entries: seq<string>)
    requires Contains(start, START) && Unmarked(entries, START) && Unmarked(entries, END)
    ensures Segment(earlier + [start] + entries) == entries
  {
    hide Contains, START, END;
    LastMarked(earlier, start, entries, START);
    NoneMarked(entries, END);
    assert (earlier + [start] + entries)[|earlier| + 1..] == entries;
  }

  // ---------------------------------------------------------------------------
  // Sorting
  // ---------------------------------------------------------------------------

  ghost predicate Descending(ts: seq<Seeding>) {
    forall i, j :: 0 <= i < j < |ts| ==> ts[i].ratio >= ts[j].ratio
  }

  lemma {:induction false} InsertPermutes(ts: seq<Seeding>, t: Seeding)
    ensures multiset(Insert(ts, t)) == multiset(ts + [t])
  {
    if ts != [] && ts[|ts| - 1].ratio < t.ratio {
      var init, last := ts[..|ts| - 1], ts[|ts| - 1];
      InsertPermutes(init, t);
      assert ts == init + [last];
    }
  }

  lemma {:induction false} InsertDescends(ts: seq<Seeding>, t: Seeding)
    requires Descending(ts)
    ensures Descending(Insert(ts, t))
    ensures forall s :: s in Insert(ts, t) ==> s in ts || s == t
  {
    if ts != [] && ts[|ts| - 1].ratio < t.ratio {
      var init, last := ts[..|ts| - 1], ts[|ts| - 1];
      InsertDescends(init, t);
      forall k | 0 <= k < |Insert(init, t)|
        ensures Insert(init, t)[k].ratio >= last.ratio
      {
        assert Insert(init, t)[k] in Insert(init, t);
      }
    }
  }

  /** Nothing lost, nothing added, highest first. */
  lemma {:induction false} HighestFirstSorts(ts: seq<Seeding>)
    ensures Descending(HighestFirst(ts)) && multiset(HighestFirst(ts)) == multiset(ts)
  {
    if ts != [] {
      var init, last := ts[..|ts| - 1], ts[|ts| - 1];
      HighestFirstSorts(init);
      InsertPermutes(HighestFirst(init), last);
      InsertDescends(HighestFirst(init), last);
      assert ts == init + [last];
    }
  }

  // ---------------------------------------------------------------------------
  // The round trip
  // ---------------------------------------------------------------------------

  /** What the torrents printed amount to: of each name with a non-negative ratio the least such. */
  ghost predicate ReadBack(ratios: map<string, real>, ts: seq<Seeding>) {
    && (forall t :: t in ts && t.ratio >= 0 ==> t.name in ratios && ratios[t.name] <= t.ratio as real / 1000.0)
    && (forall name :: name in ratios ==>
          exists t :: t in ts && t.name == name && t.ratio >= 0 && ratios[name] == t.ratio as real / 1000.0)
  }

  lemma OneMoreRead(ratios: map<string, real>, init: seq<Seeding>, t: Seeding)
    requires ReadBack(ratios, init) && t.ratio >= 0 && forall s :: s in init ==> s.ratio >= t.ratio
    ensures ReadBack(ratios[t.name := t.ratio as real / 1000.0], init + [t])
  {
    var ts := init + [t];
    var longer := ratios[t.name := t.ratio as real / 1000.0];
    forall s | s in ts && s.ratio >= 0
      ensures s.name in longer && longer[s.name] <= s.ratio as real / 1000.0
    {
      assert s in init || s == t;
    }
    forall name | name in longer
      ensures exists s :: s in ts && s.name == name && s.ratio >= 0 && longer[name] == s.ratio as real / 1000.0
    {
      if name == t.name {
        assert t in ts;
      } else {
        var s :| s in init && s.name == name && s.ratio >= 0 && ratios[name] == s.ratio as real / 1000.0;
        assert s in ts;
      }
    }
  }

  lemma {:induction false} EntriesReadBack(ts: seq<Seeding>, clock: Clock, first: nat)
    requires Descending(ts) && AllWellFormed(ts) && PlainStamps(clock)
    ensures ReadBack(Readings(Lines(ts, clock, first)), ts)
    decreases |ts|
  {
    hide *;
    NothingReadBack(clock, first);
    if ts != [] {
      var init, last := ts[..|ts| - 1], ts[|ts| - 1];
      AllButTheLast(ts, clock);
      EntriesReadBack(init, clock, first);
      LineReadsBack(Stamp(clock, first + |init|), last);
      LastReading(ts, clock, first);
      if last.ratio >= 0 {
        OneMoreRead(Readings(Lines(init, clock, first)), init, last);
      } else {
        NothingMoreRead(Readings(Lines(init, clock, first)), init, last);
      }
    }
  }

  lemma NothingReadBack(clock: Clock, first: nat)
    ensures ReadBack(Readings(Lines([], clock, first)), [])
  {
  }

  lemma NothingMoreRead(ratios: map<string, real>, init: seq<Seeding>, t: Seeding)
    requires ReadBack(ratios, init) && t.ratio < 0
    ensures ReadBack(ratios, init + [t])
  {
    forall name | name in ratios
      ensures exists s :: s in init + [t] && s.name == name && s.ratio >= 0 && ratios[name] == s.ratio as real / 1000.0
    {
      var s :| s in init && s.name == name && s.ratio >= 0 && ratios[name] == s.ratio as real / 1000.0;
      assert s in init + [t];
    }
  }

  lemma {:induction false} AllButTheLast(ts: seq<Seeding>, clock: Clock)
    requires ts != [] && Descending(ts) && AllWellFormed(ts) && PlainStamps(clock)
    ensures var init, last := ts[..|ts| - 1], ts[|ts| - 1];
            && ts == init + [last] && Descending(init) && AllWellFormed(init) && WellFormed(last.name)
            && (forall s :: s in init ==> s.ratio >= last.ratio) && forall k: nat :: Plain(Stamp(clock, k))
  {
  }

  /** Reading a printed list is reading its last line after the others. */
  lemma LastReading(ts: seq<Seeding>, clock: Clock, first: nat)
    requires ts != []
    ensures var init, last := ts[..|ts| - 1], ts[|ts| - 1];
            var read := Readings(Lines(init, clock, first));
            var entry := ReadLine(Stamp(clock, first + |init|) + Message(last));
            Readings(Lines(ts, clock, first))
            == if entry.Some? then read[entry.value.name := entry.value.ratio] else read
  {
    hide Message, ReadLine, Stamp;
    assert Lines(ts, clock, first)[..|ts| - 1] == Lines(ts[..|ts| - 1], clock, first);
  }

  lemma {:induction false} EntriesAreUnmarked(ts: seq<Seeding>, clock: Clock)
    requires AllWellFormed(ts) && PlainStamps(clock)
    ensures Unmarked(Lines(ts, clock, 1), START) && Unmarked(Lines(ts, clock, 1), END)
  {
    forall k | 0 <= k < |ts|
      ensures !Contains(Lines(ts, clock, 1)[k], START) && !Contains(Lines(ts, clock, 1)[k], END)
    {
      EntryIsNoMarker(Stamp(clock, 1 + k), ts[k], START);
      EntryIsNoMarker(Stamp(clock, 1 + k), ts[k], END);
    }
  }

  lemma {:induction false} SortedIsWellFormed(ts: seq<Seeding>)
    requires AllWellFormed(ts)
    ensures Descending(HighestFirst(ts)) && AllWellFormed(HighestFirst(ts))
    ensures forall t :: t in HighestFirst(ts) <==> t in ts
  {
    HighestFirstSorts(ts);
    var sorted := HighestFirst(ts);
    SameMembers(sorted, ts);
    hide HighestFirst, WellFormed;
    assert forall k :: 0 <= k < |sorted| ==> sorted[k] in ts;
  }

  lemma SameMembers(a: seq<Seeding>, b: seq<Seeding>)
    requires multiset(a) == multiset(b)
    ensures forall t :: t in a <==> t in b
  {
    forall t
      ensures t in a <==> t in b
    {
      assert t in a <==> t in multiset(a);
    }
  }

  /** After any earlier content, and with any unmarked lines after it, a printed segment reads as
      the names with a non-negative ratio, each with its least. */
  lemma {:induction false} RatioLogRoundTrip(earlier: seq<string>, ts: seq<Seeding>, clock: Clock, later: seq<string>)
    requires AllWellFormed(ts) && PlainStamps(clock) && Unmarked(later, START) && Unmarked(later, END)
    ensures ReadBack(Readings(Segment(earlier + Block(HighestFirst(ts), clock) + later)), ts)
  {
    hide *;
    SortedIsWellFormed(ts);
    SegmentOfBlock(earlier, HighestFirst(ts), clock, later);
    EntriesReadBack(HighestFirst(ts), clock, 1);
    SameTorrents(Readings(Lines(HighestFirst(ts), clock, 1)), HighestFirst(ts), ts);
  }

  lemma {:induction false} SegmentOfBlock(earlier: seq<string>, ts: seq<Seeding>, clock: Clock, later: seq<string>)
    requires AllWellFormed(ts) && PlainStamps(clock) && Unmarked(later, START) && Unmarked(later, END)
    ensures Segment(earlier + Block(ts, clock) + later) == Lines(ts, clock, 1)
  {
    var start, entries, end := Stamp(clock, 0) + START, Lines(ts, clock, 1), Stamp(clock, |ts| + 1) + END;
    assert Block(ts, clock) == [start] + entries + [end];
    MarkerIsMarked(Stamp(clock, 0), START);
    MarkerIsMarked(Stamp(clock, |ts| + 1), END);
    EndIsNoStart(Stamp(clock, |ts| + 1));
    EntriesAreUnmarked(ts, clock);
    hide *;
    SegmentIs(earlier, start, entries, end, later);
    assert earlier + ([start] + entries + [end]) + later == earlier + [start] + (entries + [end] + later);
  }

  lemma {:induction false} SameTorrents(ratios: map<string, real>, sorted: seq<Seeding>, ts: seq<Seeding>)
    requires ReadBack(ratios, sorted) && forall t :: t in sorted <==> t in ts
    ensures ReadBack(ratios, ts)
  {
  }

  ghost predicate DistinctlyNamed(ts: seq<Seeding>) {
    forall i, j :: 0 <= i < j < |ts| ==> ts[i].name != ts[j].name
  }

  /** What of a list the log can give back: the ratios that are not negative. */
  function Logged(ts: seq<Seeding>): seq<Seeding> {
    if ts == [] then []
    else Logged(ts[..|ts| - 1]) + if ts[|ts| - 1].ratio >= 0 then [ts[|ts| - 1]] else []
  }

  function NamesIn(ts: seq<Seeding>): seq<string> {
    seq(|ts|, i requires 0 <= i < |ts| => ts[i].name)
  }

  lemma {:induction false} LoggedIs(ts: seq<Seeding>)
    ensures forall t :: t in Logged(ts) <==> t in ts && t.ratio >= 0
    ensures Descending(ts) ==> Descending(Logged(ts))
    ensures forall n :: n in NamesIn(Logged(ts)) ==> exists t :: t in ts && t.ratio >= 0 && t.name == n
  {
    if ts != [] {
      var init, last := ts[..|ts| - 1], ts[|ts| - 1];
      LoggedIs(init);
      assert ts == init + [last];
      var all := Logged(ts);
      forall k | 0 <= k < |Logged(init)|
        ensures Logged(init)[k] in init
      {
      }
      forall n | n in NamesIn(all)
        ensures exists t :: t in ts && t.ratio >= 0 && t.name == n
      {
        var k :| 0 <= k < |all| && all[k].name == n;
        assert all[k] in all;
      }
    }
  }

  lemma {:induction false} OrderReadsBack(ts: seq<Seeding>, clock: Clock, first: nat)
    requires DistinctlyNamed(ts) && AllWellFormed(ts) && PlainStamps(clock)
    ensures ReadOrder(Lines(ts, clock, first)) == NamesIn(Logged(ts))
    decreases |ts|
  {
    hide *;
    if ts == [] {
      NothingInOrder(clock, first);
    } else {
      var init, last := ts[..|ts| - 1], ts[|ts| - 1];
      AllButTheLastDistinct(ts, clock);
      OrderReadsBack(init, clock, first);
      LineReadsBack(Stamp(clock, first + |init|), last);
      LastInOrder(ts, clock, first);
      LoggedLast(ts);
    }
  }

  lemma NothingInOrder(clock: Clock, first: nat)
    ensures ReadOrder(Lines([], clock, first)) == NamesIn(Logged([]))
  {
  }

  lemma AllButTheLastDistinct(ts: seq<Seeding>, clock: Clock)
    requires ts != [] && DistinctlyNamed(ts) && AllWellFormed(ts) && PlainStamps(clock)
    ensures var init := ts[..|ts| - 1]; DistinctlyNamed(init) && AllWellFormed(init) && WellFormed(ts[|ts| - 1].name)
    ensures forall k: nat :: Plain(Stamp(clock, k))
    ensures forall t :: t in ts[..|ts| - 1] ==> t.name != ts[|ts| - 1].name
  {
    hide WellFormed, Plain;
  }

  lemma LoggedLast(ts: seq<Seeding>)
    requires ts != [] && forall t :: t in ts[..|ts| - 1] ==> t.name != ts[|ts| - 1].name
    ensures var before, last := NamesIn(Logged(ts[..|ts| - 1])), ts[|ts| - 1];
            last.name !in before && NamesIn(Logged(ts)) == if last.ratio >= 0 then before + [last.name] else before
  {
    var init, last := ts[..|ts| - 1], ts[|ts| - 1];
    NotLogged(init, last.name);
    NamesSnoc(Logged(init), last);
    hide NamesIn;
    assert Logged(ts) == Logged(init) + if last.ratio >= 0 then [last] else [];
  }

  lemma NamesSnoc(ts: seq<Seeding>, t: Seeding)
    ensures NamesIn(ts + [t]) == NamesIn(ts) + [t.name]
  {
  }

  lemma NotLogged(ts: seq<Seeding>, n: string)
    requires forall t :: t in ts ==> t.name != n
    ensures n !in NamesIn(Logged(ts))
  {
    LoggedIs(ts);
    hide Logged, NamesIn;
  }

  lemma LastInOrder(ts: seq<Seeding>, clock: Clock, first: nat)
    requires ts != []
    ensures var init, last := ts[..|ts| - 1], ts[|ts| - 1];
            var read := ReadOrder(Lines(init, clock, first));
            var entry := ReadLine(Stamp(clock, first + |init|) + Message(last));
            ReadOrder(Lines(ts, clock, first))
            == if entry.Some? && entry.value.name !in read then read + [entry.value.name] else read
  {
    hide Message, ReadLine, Stamp;
    assert Lines(ts, clock, first)[..|ts| - 1] == Lines(ts[..|ts| - 1], clock, first);
  }

  lemma {:induction false} SortingKeepsNamesDistinct(ts: seq<Seeding>)
    requires DistinctlyNamed(ts)
    ensures DistinctlyNamed(HighestFirst(ts))
  {
    if ts != [] {
      var init, last := ts[..|ts| - 1], ts[|ts| - 1];
      SortingKeepsNamesDistinct(init);
      HighestFirstSorts(init);
      SameMembers(HighestFirst(init), init);
      forall t | t in HighestFirst(init)
        ensures t.name != last.name
      {
      }
      InsertKeepsNamesDistinct(HighestFirst(init), last);
    }
  }

  lemma {:induction false} InsertKeepsNamesDistinct(ts: seq<Seeding>, t: Seeding)
    requires DistinctlyNamed(ts) && forall s :: s in ts ==> s.name != t.name
    ensures DistinctlyNamed(Insert(ts, t)) && forall s :: s in Insert(ts, t) ==> s in ts || s == t
  {
    if ts != [] && ts[|ts| - 1].ratio < t.ratio {
      var init, last := ts[..|ts| - 1], ts[|ts| - 1];
      InsertKeepsNamesDistinct(init, t);
      var inserted := Insert(init, t);
      assert last in ts;
      forall k | 0 <= k < |inserted|
        ensures inserted[k].name != last.name
      {
        assert inserted[k] in inserted;
      }
    }
  }

  /** Distinct names come back exactly, but for negative ratios: with their ratios, and with the keys in
      the order printed, highest ratio first. */
  lemma {:induction false} DistinctNamesComeBackExactly(earlier: seq<string>, ts: seq<Seeding>, clock: Clock,
                                                        later: seq<string>)
    requires AllWellFormed(ts) && PlainStamps(clock) && Unmarked(later, START) && Unmarked(later, END)
    requires DistinctlyNamed(ts)
    ensures var segment := Segment(earlier + Block(HighestFirst(ts), clock) + later);
            && Readings(segment).Keys == (set t | t in ts && t.ratio >= 0 :: t.name)
            && (forall t :: t in ts && t.ratio >= 0 ==> Readings(segment)[t.name] == t.ratio as real / 1000.0)
            && ReadOrder(segment) == NamesIn(Logged(HighestFirst(ts)))
  {
    RatioLogRoundTrip(earlier, ts, clock, later);
    OrderComesBack(earlier, ts, clock, later);
    hide Segment, Block, HighestFirst, Readings, ReadOrder, NamesIn, Logged, AllWellFormed;
  }

  lemma {:induction false} OrderComesBack(earlier: seq<string>, ts: seq<Seeding>, clock: Clock, later: seq<string>)
    requires AllWellFormed(ts) && PlainStamps(clock) && Unmarked(later, START) && Unmarked(later, END)
    requires DistinctlyNamed(ts)
    ensures ReadOrder(Segment(earlier + Block(HighestFirst(ts), clock) + later)) == NamesIn(Logged(HighestFirst(ts)))
  {
    hide *;
    SortedIsWellFormed(ts);
    SortingKeepsNamesDistinct(ts);
    SegmentOfBlock(earlier, HighestFirst(ts), clock, later);
    OrderReadsBack(HighestFirst(ts), clock, 1);
  }

  /** A run cut off while printing leaves the entries it had printed. */
  lemma {:induction false} CutOffRunReadsSoFar(earlier: seq<string>, ts: seq<Seeding>, n: nat, clock: Clock)
    requires AllWellFormed(ts) && PlainStamps(clock) && n <= |HighestFirst(ts)|
    ensures ReadBack(Readings(Segment(earlier + Begin(HighestFirst(ts)[..n], clock))), HighestFirst(ts)[..n])
  {
    SortedIsWellFormed(ts);
    var sorted := HighestFirst(ts)[..n];
    PrefixIsSorted(HighestFirst(ts), n);
    hide *;
    SegmentOfBegin(earlier, sorted, clock);
    EntriesReadBack(sorted, clock, 1);
  }

  lemma {:induction false} PrefixIsSorted(ts: seq<Seeding>, n: nat)
    requires n <= |ts| && Descending(ts) && AllWellFormed(ts)
    ensures Descending(ts[..n]) && AllWellFormed(ts[..n])
  {
  }

  lemma {:induction false} SegmentOfBegin(earlier: seq<string>, ts: seq<Seeding>, clock: Clock)
    requires AllWellFormed(ts) && PlainStamps(clock)
    ensures Segment(earlier + Begin(ts, clock)) == Lines(ts, clock, 1)
  {
    var start, entries := Stamp(clock, 0) + START, Lines(ts, clock, 1);
    assert Begin(ts, clock) == [start] + entries;
    MarkerIsMarked(Stamp(clock, 0), START);
    EntriesAreUnmarked(ts, clock);
    hide *;
    UnfinishedSegmentIs(earlier, start, entries);
    assert earlier + ([start] + entries) == earlier + [start] + entries;
  }

  // ---------------------------------------------------------------------------
  // The text of the log
  // ---------------------------------------------------------------------------

  /** What goes to the file are the messages that begin with "[ratio]". */
  lemma {:induction false} RatioLinesAre(message: string)
    ensures IsRatioLine(message) <==> |message| >= 7 && message[..7] == "[ratio]"
  {
  }

  /** A segment is marked by the lines that hold "[ratio] RATIOS START" and "[ratio] RATIOS END". */
  lemma {:induction false} MarkedIff(lines: seq<string>, k: nat)
    ensures k in Marked(lines, START) <==> k < |lines| && Contains(lines[k], "[ratio] RATIOS START")
    ensures k in Marked(lines, END) <==> k < |lines| && Contains(lines[k], "[ratio] RATIOS END")
  {
    assert START == "[ratio] RATIOS START" && END == "[ratio] RATIOS END";
    hide Contains, START, END;
    if lines != [] {
      var init := lines[..|lines| - 1];
      MarkedIff(init, k);
      assert k < |init| ==> init[k] == lines[k];
    }
  }

  /** A line lists the name behind "[ratio] ", the arrow in one column for all names up to 50 characters,
      and the ratio with three decimals. */
  lemma {:induction false} MessageLayout(t: Seeding)
    ensures var m := Message(t);
            && |m| >= 8 + |t.name| && m[..8] == "[ratio] " && m[8..8 + |t.name|] == t.name
            && (|t.name| <= 50 ==> |m| > 60 && m[58..61] == [' ', '\U{2192}', ' '])
            && |m| > 4 && m[|m| - 4] == '.' && forall k :: |m| - 3 <= k < |m| ==> '0' <= m[k] <= '9'
  {
    hide *;
    NameAndArrow(t);
    ThreeDecimalPlaces(t);
  }

  lemma MessageIs(t: Seeding)
    ensures Message(t) == "[ratio] " + t.name + Blanks(50 - |t.name|) + Tail(t.ratio)
  {
    hide Fixed, Blanks;
    var head := "[ratio] " + t.name + Blanks(50 - |t.name|);
    assert Message(t) == head + (" " + [ARROW] + " " + Fixed(t.ratio));
  }

  lemma NameAndArrow(t: Seeding)
    ensures var m := Message(t);
            && |m| >= 8 + |t.name| && m[..8] == "[ratio] " && m[8..8 + |t.name|] == t.name
            && (|t.name| <= 50 ==> |m| > 60 && m[58..61] == [' ', '\U{2192}', ' '])
  {
    TailShape(t.ratio);
    MessageIs(t);
    PadFills(t.name);
    assert ARROW == '\U{2192}';
    hide *;
    LayoutOf(Message(t), "[ratio] ", t.name, Blanks(50 - |t.name|), Tail(t.ratio));
  }

  lemma ThreeDecimalPlaces(t: Seeding)
    ensures var m := Message(t);
            |m| > 4 && m[|m| - 4] == '.' && forall k :: |m| - 3 <= k < |m| ==> '0' <= m[k] <= '9'
  {
    FixedEndsInThousandths(t.ratio);
    TailShape(t.ratio);
    MessageIs(t);
    PadFills(t.name);
    hide *;
    LayoutOf(Message(t), "[ratio] ", t.name, Blanks(50 - |t.name|), Tail(t.ratio));
    TailLength(t.ratio);
    LastOf(Message(t), Tail(t.ratio), Fixed(t.ratio));
  }

  lemma TailLength(ratio: int)
    ensures |Tail(ratio)| == |Fixed(ratio)| + 3
  {
  }

  lemma LayoutOf(m: string, head: string, name: string, pad: string, tail: string)
    requires m == head + name + pad + tail && |head| == 8 && |tail| > 3
    requires |name| <= 50 ==> |pad| == 50 - |name|
    ensures |m| >= 8 + |name| + |tail| && m[..8] == head && m[8..8 + |name|] == name
    ensures |name| <= 50 ==> |m| > 60 && m[58..61] == [tail[0], tail[1], tail[2]]
    ensures forall k :: |m| - |tail| <= k < |m| ==> m[k] == tail[k - (|m| - |tail|)]
  {
    var parts := Parts(head, name, pad, tail);
  }

  lemma PadFills(name: string)
    ensures |name| <= 50 ==> |Blanks(50 - |name|)| == 50 - |name|
  {
  }

  lemma LastOf(m: string, tail: string, number: string)
    requires |number| > 4 && |tail| == |number| + 3 && tail[3..] == number && |tail| <= |m|
    requires forall k :: |m| - |tail| <= k < |m| ==> m[k] == tail[k - (|m| - |tail|)]
    ensures m[|m| - 4] == number[|number| - 4]
    ensures forall k :: |m| - 3 <= k < |m| ==> m[k] == number[k - (|m| - |number|)]
  {
    assert forall k :: 3 <= k < |tail| ==> tail[k] == tail[3..][k - 3];
  }

  lemma FixedEndsInThousandths(ratio: int)
    ensures var f := Fixed(ratio);
            |f| > 4 && f[|f| - 4] == '.' && forall k :: |f| - 3 <= k < |f| ==> '0' <= f[k] <= '9'
  {
    var n: nat := if ratio < 0 then -ratio else ratio;
    var last := Text([n / 10 / 10 % 10, n / 10 % 10, n % 10]);
    var f := Fixed(ratio);
    assert f[|f| - 3..] == last && f[|f| - 4] == '.';
    assert forall k :: |f| - 3 <= k < |f| ==> f[k] == last[k - (|f| - 3)];
  }

  function WithRatio(ts: seq<Seeding>, ratio: int): seq<Seeding> {
    if ts == [] then []
    else WithRatio(ts[..|ts| - 1], ratio) + if ts[|ts| - 1].ratio == ratio then [ts[|ts| - 1]] else []
  }

  lemma {:induction false} InsertIsStable(ts: seq<Seeding>, t: Seeding, ratio: int)
    ensures WithRatio(Insert(ts, t), ratio) == WithRatio(ts, ratio) + if t.ratio == ratio then [t] else []
  {
    if ts == [] || ts[|ts| - 1].ratio >= t.ratio {
      assert (ts + [t])[..|ts|] == ts;
    } else {
      var init, last := ts[..|ts| - 1], ts[|ts| - 1];
      InsertIsStable(init, t, ratio);
      assert (Insert(init, t) + [last])[..|Insert(init, t)|] == Insert(init, t);
    }
  }

  /** Equal ratios are printed in the order reported. */
  lemma {:induction false} EqualRatiosStayInOrder(ts: seq<Seeding>, ratio: int)
    ensures WithRatio(HighestFirst(ts), ratio) == WithRatio(ts, ratio)
  {
    if ts != [] {
      EqualRatiosStayInOrder(ts[..|ts| - 1], ratio);
      InsertIsStable(HighestFirst(ts[..|ts| - 1]), ts[|ts| - 1], ratio);
    }
  }

  ghost function Times(x: real, y: real): real {
    x * y
  }

  lemma {:induction false} ValueOfBoth(a: seq<Decimal.digit>, b: seq<Decimal.digit>)
    ensures Decimal.ValueOf(a + b) as real
         == Times(Decimal.ValueOf(a) as real, Power10(|b|)) + Decimal.ValueOf(b) as real
  {
    hide Times;
    if b == [] {
      assert a + b == a;
      OneDigitMore(Decimal.ValueOf(a) as real, 1.0);
    } else {
      var init := b[..|b| - 1];
      assert (a + b)[..|a + b| - 1] == a + init;
      ValueOfBoth(a, init);
      OneDigitMore(Decimal.ValueOf(a) as real, Power10(|init|));
    }
  }

  lemma OneDigitMore(n: real, p: real)
    ensures Times(n, 10.0 * p) == 10.0 * Times(n, p) && Times(n, 1.0) == n
  {
  }

  /** However many decimals: the number read is all the digits as one integer, over the power of ten that
      the number of decimals gives. */
  lemma {:induction false} FloatIs(whole: string, decimals: string)
    requires AllIn(whole, Digit) && AllIn(decimals, Digit)
    ensures Times(Float(whole, decimals), Power10(|decimals|))
         == Decimal.ValueOf(DigitsOf(whole) + DigitsOf(decimals)) as real
  {
    hide AllIn, Times, Decimal.ValueOf, Power10;
    ValueOfBoth(DigitsOf(whole), DigitsOf(decimals));
    Quotient(Float(whole, decimals), Decimal.ValueOf(DigitsOf(whole)) as real,
             Decimal.ValueOf(DigitsOf(decimals)) as real, Power10(|decimals|));
  }

  lemma Quotient(f: real, n: real, d: real, p: real)
    requires p >= 1.0 && f == n + d / p
    ensures Times(f, p) == Times(n, p) + d
  {
    assert d / p * p == d;
    assert (n + d / p) * p == n * p + d;
  }

  /** A name read from a line holds no line break, and no blank at either end. */
  lemma {:induction false} NamesAreOfOneLine(line: string)
    requires ReadLine(line).Some?
    ensures var name := ReadLine(line).value.name;
            '\n' !in name && (name != "" ==> !IsBlank(name[0]) && !IsBlank(name[|name| - 1]))
  {
    hide IsBlank, Strip, Float, Fits;
    SearchIsLeftmost(ENTRY, line, 0);
    var at := Search(ENTRY, line, 0).value;
    EntryPieces(line, at);
    var piece := line[at[2]..at[3]];
    var left, right := StripTakesTheBlanks(piece);
    assert '\n' !in piece;
  }
}
