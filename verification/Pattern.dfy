/** The part of Python's regular expressions the ratio log is read with: literals, and one or more
    characters of a class, greedy or lazy, with backtracking. */
module Pattern {
  import opened Optional
  import opened Strings

  datatype Class = Space | Digit | Any

  /** `\s`, `\d` and `.` of a text pattern. */
  predicate In(c: char, of: Class) {
    match of
    case Space => IsBlank(c)
    case Digit => IsDigit(c)
    case Any => c != '\n'
  }

  datatype Item = Literal(text: string) | Greedy(of: Class) | Lazy(of: Class)

  type Items = seq<Item>

  predicate AllIn(s: string, of: Class) {
    forall k :: 0 <= k < |s| ==> In(s[k], of)
  }

  /** One item taking `s[i..j]`. */
  ghost predicate Takes(item: Item, s: string, i: nat, j: nat) {
    && i <= j <= |s|
    && match item
       case Literal(text) => s[i..j] == text
       case Greedy(of) => i < j && AllIn(s[i..j], of)
       case Lazy(of) => i < j && AllIn(s[i..j], of)
  }

  /** `stops` cuts a stretch of `s` from `i` on into one piece for each item. */
  ghost predicate Fits(items: Items, s: string, i: nat, stops: seq<nat>) {
    && |stops| == |items| + 1 && stops[0] == i
    && forall k :: 0 <= k < |items| ==> Takes(items[k], s, stops[k], stops[k + 1])
  }

  /** How many characters from `i` on are of the class. */
  function Run(s: string, i: nat, of: Class): (n: nat)
    requires i <= |s|
    ensures i + n <= |s| && AllIn(s[i..i + n], of)
    ensures i + n < |s| ==> !In(s[i + n], of)
    decreases |s| - i
  {
    if i < |s| && In(s[i], of) then
      assert forall n :: i + 1 <= n <= |s| ==> s[i..n] == [s[i]] + s[i + 1..n];
      1 + Run(s, i + 1, of)
    else 0
  }

  /** The first match at `i` in backtracking order, as the positions between its pieces. */
  function Match(items: Items, s: string, i: nat): Option<seq<nat>>
    requires i <= |s|
    decreases |items|, 0
  {
    if items == [] then Some([i])
    else
      match items[0]
      case Literal(text) =>
        if i + |text| <= |s| && s[i..i + |text|] == text
        then After(i, Match(items[1..], s, i + |text|)) else None
      case Greedy(of) => LongestFirst(items[1..], s, i, Run(s, i, of))
      case Lazy(of) => ShortestFirst(items[1..], s, i, 1, Run(s, i, of))
  }

  function After(i: nat, rest: Option<seq<nat>>): Option<seq<nat>> {
    if rest.Some? then Some([i] + rest.value) else None
  }

  function LongestFirst(rest: Items, s: string, i: nat, n: nat): Option<seq<nat>>
    requires i + n <= |s|
    decreases |rest|, n
  {
    if n == 0 then None
    else
      var found := Match(rest, s, i + n);
      if found.Some? then After(i, found) else LongestFirst(rest, s, i, n - 1)
  }

  function ShortestFirst(rest: Items, s: string, i: nat, n: nat, most: nat): Option<seq<nat>>
    requires 1 <= n && i + most <= |s|
    decreases |rest|, most + 1 - n
  {
    if n > most then None
    else
      var found := Match(rest, s, i + n);
      if found.Some? then After(i, found) else ShortestFirst(rest, s, i, n + 1, most)
  }

  /** `re.search`: the first position that has a match. */
  function Search(items: Items, s: string, i: nat): Option<seq<nat>>
    requires i <= |s|
    decreases |s| - i
  {
    var found := Match(items, s, i);
    if found.Some? || i == |s| then found else Search(items, s, i + 1)
  }

  // ---------------------------------------------------------------------------
  // What is found is a cut of the text, and if there is a cut, one is found
  // ---------------------------------------------------------------------------

  lemma FitsCons(item: Item, rest: Items, s: string, i: nat, j: nat, stops: seq<nat>)
    requires Takes(item, s, i, j) && Fits(rest, s, j, stops)
    ensures Fits([item] + rest, s, i, [i] + stops)
  {
    var items, longer := [item] + rest, [i] + stops;
    forall k | 0 <= k < |items|
      ensures Takes(items[k], s, longer[k], longer[k + 1])
    {
      if k > 0 {
        assert items[k] == rest[k - 1] && longer[k] == stops[k - 1] && longer[k + 1] == stops[k];
      }
    }
  }

  lemma {:induction false} Longest(rest: Items, s: string, i: nat, n: nat) returns (m: nat)
    requires i + n <= |s|
    ensures if LongestFirst(rest, s, i, n).None? then forall j :: i < j <= i + n ==> Match(rest, s, j).None?
            else 1 <= m <= n && Match(rest, s, i + m).Some?
                 && LongestFirst(rest, s, i, n) == After(i, Match(rest, s, i + m))
                 && forall j :: i + m < j <= i + n ==> Match(rest, s, j).None?
    decreases n
  {
    hide Match;
    m := n;
    if n > 0 && Match(rest, s, i + n).None? {
      m := Longest(rest, s, i, n - 1);
    }
  }

  lemma {:induction false} Shortest(rest: Items, s: string, i: nat, n: nat, most: nat) returns (m: nat)
    requires 1 <= n && i + most <= |s|
    ensures if ShortestFirst(rest, s, i, n, most).None?
            then forall j :: i + n <= j <= i + most ==> Match(rest, s, j).None?
            else n <= m <= most && Match(rest, s, i + m).Some?
                 && ShortestFirst(rest, s, i, n, most) == After(i, Match(rest, s, i + m))
                 && forall j :: i + n <= j < i + m ==> Match(rest, s, j).None?
    decreases most + 1 - n
  {
    hide Match;
    m := n;
    if n <= most && Match(rest, s, i + n).None? {
      m := Shortest(rest, s, i, n + 1, most);
    }
  }

  lemma RunTakes(s: string, i: nat, of: Class, n: nat)
    requires i <= |s|
    ensures 1 <= n <= Run(s, i, of) <==> i < i + n <= |s| && AllIn(s[i..i + n], of)
  {
    var most := Run(s, i, of);
    hide Run, In;
    if i + n <= |s| {
      var taken, all := s[i..i + n], s[i..i + most];
      assert forall k :: 0 <= k < n ==> taken[k] == s[i + k];
      assert forall k :: 0 <= k < most ==> all[k] == s[i + k];
      if n <= most {
        assert forall k :: 0 <= k < n ==> taken[k] == all[k];
      } else {
        assert taken[most] == s[i + most];
      }
    }
  }

  /** What a match does with its first item. */
  lemma FirstPiece(items: Items, s: string, i: nat) returns (j: nat)
    requires i <= |s| && items != [] && Match(items, s, i).Some?
    ensures Takes(items[0], s, i, j) && Match(items[1..], s, j).Some?
    ensures Match(items, s, i) == After(i, Match(items[1..], s, j))
    ensures items[0].Greedy? && items[1..] == [] && j < |s| ==> !In(s[j], items[0].of)
  {
    hide In;
    var rest := items[1..];
    match items[0]
    case Literal(text) =>
      j := i + |text|;
    case Greedy(of) =>
      var m := Longest(rest, s, i, Run(s, i, of));
      RunTakes(s, i, of, m);
      j := i + m;
    case Lazy(of) =>
      var m := Shortest(rest, s, i, 1, Run(s, i, of));
      RunTakes(s, i, of, m);
      j := i + m;
  }

  /** A match is a cut of the text. */
  lemma {:induction false} MatchesFit(items: Items, s: string, i: nat)
    requires i <= |s|
    ensures Match(items, s, i).Some? ==> Fits(items, s, i, Match(items, s, i).value)
    decreases |items|
  {
    if items == [] {
    } else if Match(items, s, i).Some? {
      hide Match;
      var rest := items[1..];
      var j := FirstPiece(items, s, i);
      MatchesFit(rest, s, j);
      FitsCons(items[0], rest, s, i, j, Match(rest, s, j).value);
      assert [items[0]] + rest == items;
    }
  }

  lemma StartsWhereItShould(items: Items, s: string, i: nat)
    requires i <= |s| && Match(items, s, i).Some?
    ensures |Match(items, s, i).value| > 0 && Match(items, s, i).value[0] == i
  {
    MatchesFit(items, s, i);
  }

  /** Any other end the first item could have, with the rest matching after it, it likes less. */
  lemma FirstPieceIsBest(items: Items, s: string, i: nat, other: nat)
    requires i <= |s| && items != [] && Takes(items[0], s, i, other) && Match(items[1..], s, other).Some?
    ensures Match(items, s, i).Some? && |Match(items, s, i).value| > 1
    ensures other == Match(items, s, i).value[1] || Better(items[0], Match(items, s, i).value[1], other)
  {
    var rest := items[1..];
    match items[0]
    case Literal(text) =>
      StartsWhereItShould(rest, s, i + |text|);
    case Greedy(of) =>
      LongestIsLongest(rest, s, i, of, other);
    case Lazy(of) =>
      ShortestIsShortest(rest, s, i, of, other);
  }

  lemma LongestIsLongest(rest: Items, s: string, i: nat, of: Class, other: nat)
    requires i <= |s| && Takes(Greedy(of), s, i, other) && Match(rest, s, other).Some?
    ensures var found := LongestFirst(rest, s, i, Run(s, i, of));
            found.Some? && |found.value| > 1 && other <= found.value[1]
  {
    RunTakes(s, i, of, other - i);
    hide Match, Run, AllIn, LongestFirst;
    var m := Longest(rest, s, i, Run(s, i, of));
    StartsWhereItShould(rest, s, i + m);
  }

  lemma ShortestIsShortest(rest: Items, s: string, i: nat, of: Class, other: nat)
    requires i <= |s| && Takes(Lazy(of), s, i, other) && Match(rest, s, other).Some?
    ensures var found := ShortestFirst(rest, s, i, 1, Run(s, i, of));
            found.Some? && |found.value| > 1 && found.value[1] <= other
  {
    RunTakes(s, i, of, other - i);
    hide Match, Run, AllIn, ShortestFirst;
    var m := Shortest(rest, s, i, 1, Run(s, i, of));
    StartsWhereItShould(rest, s, i + m);
  }

  /** A greedy item would rather end at `j` than at `other`: the later the better. */
  predicate Better(item: Item, j: nat, other: nat) {
    match item
    case Literal(_) => false
    case Greedy(_) => j > other
    case Lazy(_) => j < other
  }

  /** Where two cuts first differ, the item there would rather have the first. */
  ghost predicate Preferred(items: Items, stops: seq<nat>, other: seq<nat>)
    requires |stops| == |items| + 1 && |other| == |items| + 1
  {
    exists k :: 0 <= k < |items| && stops[..k + 1] == other[..k + 1] && Better(items[k], stops[k + 1], other[k + 1])
  }

  /** Of all cuts of the text a match is the one each item prefers, the first item first. */
  lemma {:induction false} MatchIsPreferred(items: Items, s: string, i: nat, other: seq<nat>)
    requires i <= |s| && Fits(items, s, i, other)
    ensures Match(items, s, i).Some? && Fits(items, s, i, Match(items, s, i).value)
    ensures other == Match(items, s, i).value || Preferred(items, Match(items, s, i).value, other)
    decreases |items|
  {
    MatchesFit(items, s, i);
    FittingIsMatched(items, s, i, other);
    hide *;
    if items == [] {
      NothingToCut(s, i, other);
    } else {
      var found, rest := Match(items, s, i).value, items[1..];
      FitsRest(items, s, i, other);
      FittingIsMatched(rest, s, other[1], other[1..]);
      FirstPieceIsBest(items, s, i, other[1]);
      FitsRest(items, s, i, found);
      if other[1] == found[1] {
        var j := FirstPiece(items, s, i);
        SameRest(items, s, i, j);
        MatchIsPreferred(rest, s, j, other[1..]);
        PreferredLater(items, found, other);
      } else {
        PreferredFirst(items, found, other);
      }
    }
  }

  lemma NothingToCut(s: string, i: nat, other: seq<nat>)
    requires i <= |s| && Fits([], s, i, other)
    ensures Match([], s, i) == Some(other)
  {
    assert other == [i];
  }

  lemma SameRest(items: Items, s: string, i: nat, j: nat)
    requires i <= |s| && items != [] && Match(items, s, i).Some? && j <= |s| && Match(items[1..], s, j).Some?
    requires Match(items, s, i) == After(i, Match(items[1..], s, j))
    ensures var found := Match(items, s, i).value;
            |found| > 1 && found[1] == j && Match(items[1..], s, j).value == found[1..]
  {
    StartsWhereItShould(items[1..], s, j);
  }

  lemma PreferredFirst(items: Items, found: seq<nat>, other: seq<nat>)
    requires items != [] && |found| == |items| + 1 && |other| == |items| + 1
    requires found[0] == other[0] && Better(items[0], found[1], other[1])
    ensures Preferred(items, found, other)
  {
    assert found[..0 + 1] == other[..0 + 1] && Better(items[0], found[0 + 1], other[0 + 1]);
  }

  lemma PreferredLater(items: Items, found: seq<nat>, other: seq<nat>)
    requires items != [] && |found| == |items| + 1 && |other| == |items| + 1 && found[0] == other[0]
    requires other[1..] == found[1..] || Preferred(items[1..], found[1..], other[1..])
    ensures other == found || Preferred(items, found, other)
  {
    var rest, later, others := items[1..], found[1..], other[1..];
    assert found == [found[0]] + later && other == [found[0]] + others;
    if later != others {
      var k :| 0 <= k < |rest| && later[..k + 1] == others[..k + 1] && Better(rest[k], later[k + 1], others[k + 1]);
      assert found[..k + 2] == [found[0]] + later[..k + 1] && other[..k + 2] == [found[0]] + others[..k + 1];
      assert Better(items[k + 1], found[k + 1 + 1], other[k + 1 + 1]);
    }
  }

  /** Where the text can be cut, a match is found. */
  lemma {:induction false} FittingIsMatched(items: Items, s: string, i: nat, stops: seq<nat>)
    requires i <= |s| && Fits(items, s, i, stops)
    ensures Match(items, s, i).Some?
    decreases |items|
  {
    if items != [] {
      FitsRest(items, s, i, stops);
      FittingIsMatched(items[1..], s, stops[1], stops[1..]);
      Reached(items, s, i, stops[1]);
    }
  }

  lemma FitsRest(items: Items, s: string, i: nat, stops: seq<nat>)
    requires Fits(items, s, i, stops) && items != []
    ensures Takes(items[0], s, i, stops[1]) && Fits(items[1..], s, stops[1], stops[1..])
  {
    assert Takes(items[0], s, stops[0], stops[1]);
    forall k | 0 <= k < |items[1..]|
      ensures Takes(items[1..][k], s, stops[1..][k], stops[1..][k + 1])
    {
      assert Takes(items[k + 1], s, stops[k + 1], stops[k + 2]);
    }
  }

  lemma Reached(items: Items, s: string, i: nat, j: nat)
    requires i <= |s| && items != [] && Takes(items[0], s, i, j) && Match(items[1..], s, j).Some?
    ensures Match(items, s, i).Some?
  {
    hide In;
    var rest := items[1..];
    match items[0]
    case Literal(text) =>
    case Greedy(of) =>
      RunTakes(s, i, of, j - i);
      var m := Longest(rest, s, i, Run(s, i, of));
    case Lazy(of) =>
      RunTakes(s, i, of, j - i);
      var m := Shortest(rest, s, i, 1, Run(s, i, of));
  }

  /** The engine is its declarative form: it matches at `i` iff the text can be cut there. */
  lemma MatchesIffItFits(items: Items, s: string, i: nat)
    requires i <= |s|
    ensures Match(items, s, i).Some? <==> exists stops :: Fits(items, s, i, stops)
  {
    MatchesFit(items, s, i);
    if stops :| Fits(items, s, i, stops) {
      FittingIsMatched(items, s, i, stops);
    }
  }

  /** A greedy item at the end of the pattern takes all it can. */
  lemma {:induction false} LastGreedyTakesAll(items: Items, s: string, i: nat)
    requires i <= |s| && items != [] && items[|items| - 1].Greedy? && Match(items, s, i).Some?
    ensures var stops := Match(items, s, i).value;
            |stops| == |items| + 1 && stops[|items|] <= |s|
            && (stops[|items|] < |s| ==> !In(s[stops[|items|]], items[|items| - 1].of))
    decreases |items|
  {
    var rest := items[1..];
    var j := FirstPiece(items, s, i);
    if rest != [] {
      assert rest[|rest| - 1] == items[|items| - 1];
      hide Match;
      LastGreedyTakesAll(rest, s, j);
    } else {
      assert Match(rest, s, j) == Some([j]);
    }
  }

  /** A search stops at the first position where the text can be cut. */
  lemma {:induction false} SearchIsLeftmost(items: Items, s: string, i: nat)
    requires i <= |s|
    ensures match Search(items, s, i)
            case None => forall j, stops :: i <= j <= |s| ==> !Fits(items, s, j, stops)
            case Some(found) =>
              && |found| == |items| + 1 && i <= found[0] <= |s| && Fits(items, s, found[0], found)
              && Some(found) == Match(items, s, found[0])
              && forall j, stops :: i <= j < found[0] ==> !Fits(items, s, j, stops)
    decreases |s| - i
  {
    MatchesIffItFits(items, s, i);
    MatchesFit(items, s, i);
    if Match(items, s, i).None? && i < |s| {
      SearchIsLeftmost(items, s, i + 1);
    }
  }

  // ---------------------------------------------------------------------------
  // Cuts of a part of the text
  // ---------------------------------------------------------------------------

  lemma FitsSuffix(items: Items, s: string, i: nat, stops: seq<nat>, n: nat)
    requires Fits(items, s, i, stops) && n <= |items|
    ensures Fits(items[n..], s, stops[n], stops[n..])
  {
    forall k | 0 <= k < |items| - n
      ensures Takes(items[n..][k], s, stops[n..][k], stops[n..][k + 1])
    {
      assert Takes(items[n + k], s, stops[n + k], stops[n + k + 1]);
    }
  }

  function Shifted(stops: seq<nat>, offset: nat): (r: seq<nat>)
    ensures |r| == |stops|
  {
    seq(|stops|, k requires 0 <= k < |stops| => stops[k] + offset)
  }

  /** Cutting a part of a text is cutting the text there. */
  lemma FitsInside(items: Items, part: string, s: string, o: nat, stops: seq<nat>)
    requires o + |part| <= |s| && s[o..o + |part|] == part
    requires |stops| == |items| + 1 && forall k :: 0 <= k < |stops| ==> stops[k] <= |part|
    ensures Fits(items, part, stops[0], stops) <==> Fits(items, s, o + stops[0], Shifted(stops, o))
  {
    var moved := Shifted(stops, o);
    forall k | 0 <= k < |items|
      ensures Takes(items[k], part, stops[k], stops[k + 1]) <==> Takes(items[k], s, moved[k], moved[k + 1])
    {
      TakesInside(items[k], part, s, o, stops[k], stops[k + 1]);
    }
  }

  lemma TakesInside(item: Item, part: string, s: string, o: nat, i: nat, j: nat)
    requires o + |part| <= |s| && s[o..o + |part|] == part && i <= |part| && j <= |part|
    ensures Takes(item, part, i, j) <==> Takes(item, s, o + i, o + j)
  {
    if i <= j {
      var a, b := s[o + i..o + j], part[i..j];
      forall k | 0 <= k < |a|
        ensures a[k] == b[k]
      {
        assert s[o..o + |part|][i + k] == s[o + (i + k)];
      }
      assert a == b;
    }
  }
}
