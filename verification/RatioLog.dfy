/** The ratio log: what one run prints and the next one reads back. */
module RatioLog {
  import opened Optional
  import opened Pattern
  import opened Strings
  import Decimal

  /** A torrent as reported for the log, the ratio in thousandths. */
  datatype Seeding = Seeding(name: string, ratio: int)

  datatype Reading = Reading(name: string, ratio: real)

  const ARROW: char := '\U{2192}'
  const START := "[ratio] RATIOS START"
  const END := "[ratio] RATIOS END"

  // ---------------------------------------------------------------------------
  // Printing
  // ---------------------------------------------------------------------------

  function Text(ds: seq<Decimal.digit>): (text: string)
    ensures |text| == |ds| && AllIn(text, Digit)
  {
    seq(|ds|, i requires 0 <= i < |ds| => '0' + ds[i] as char)
  }

  /** `%.3f`. */
  function Fixed(ratio: int): string {
    var n: nat := if ratio < 0 then -ratio else ratio;
    (if ratio < 0 then "-" else "")
    + Text(Decimal.Digits(n / 1000)) + "." + Text([n / 10 / 10 % 10, n / 10 % 10, n % 10])
  }

  function Blanks(n: int): (s: string)
    ensures forall k :: 0 <= k < |s| ==> s[k] == ' '
  {
    seq(if n > 0 then n else 0, i => ' ')
  }

  function Message(t: Seeding): string {
    "[ratio] " + t.name + Blanks(50 - |t.name|) + " " + [ARROW] + " " + Fixed(t.ratio)
  }

  /** `RatioOnlyFilter`. */
  predicate IsRatioLine(message: string) {
    "[ratio]" <= message
  }

  /** Highest ratio first, equal ratios in the order reported. */
  function HighestFirst(ts: seq<Seeding>): seq<Seeding> {
    if ts == [] then [] else Insert(HighestFirst(ts[..|ts| - 1]), ts[|ts| - 1])
  }

  function Insert(ts: seq<Seeding>, t: Seeding): seq<Seeding> {
    if ts == [] || ts[|ts| - 1].ratio >= t.ratio then ts + [t]
    else Insert(ts[..|ts| - 1], t) + [ts[|ts| - 1]]
  }

  /** What the formatter puts before the k-th message: time and level. */
  type Clock = nat -> string

  function Stamp(clock: Clock, k: nat): string {
    clock(k)
  }

  /** The log lines of `ts` from the `first`-th on. */
  function Lines(ts: seq<Seeding>, clock: Clock, first: nat): (lines: seq<string>)
    ensures |lines| == |ts|
  {
    seq(|ts|, i requires 0 <= i < |ts| => Stamp(clock, first + i) + Message(ts[i]))
  }

  /** A segment so far, without its end marker. */
  function Begin(ts: seq<Seeding>, clock: Clock): seq<string> {
    [Stamp(clock, 0) + START] + Lines(ts, clock, 1)
  }

  function Block(ts: seq<Seeding>, clock: Clock): seq<string> {
    Begin(ts, clock) + [Stamp(clock, |ts| + 1) + END]
  }

  // ---------------------------------------------------------------------------
  // Reading
  // ---------------------------------------------------------------------------

  predicate At(line: string, i: nat, marker: string) {
    i + |marker| <= |line| && line[i..i + |marker|] == marker
  }

  predicate Contains(line: string, marker: string) {
    exists i: nat :: i <= |line| && At(line, i, marker)
  }

  /** The numbers of the lines with the marker. */
  function Marked(lines: seq<string>, marker: string): (found: seq<nat>)
    ensures forall k :: 0 <= k < |found| ==> found[k] < |lines|
  {
    if lines == [] then []
    else Marked(lines[..|lines| - 1], marker)
         + if Contains(lines[|lines| - 1], marker) then [|lines| - 1] else []
  }

  /** The latest segment; without an end marker, what there is of it. */
  function Segment(lines: seq<string>): seq<string> {
    var starts := Marked(lines, START);
    if starts == [] then lines
    else
      var rest := lines[starts[|starts| - 1] + 1..];
      var ends := Marked(rest, END);
      if ends == [] then rest else rest[..ends[|ends| - 1]]
  }

  /** `\[ratio\]\s+(.+?)\s+→\s+(\d+\.\d+)` */
  const ENTRY: Items := [Literal("[ratio]"), Greedy(Space), Lazy(Any), Greedy(Space), Literal([ARROW]), Greedy(Space),
                         Greedy(Digit), Literal("."), Greedy(Digit)]

  function DigitsOf(text: string): (ds: seq<Decimal.digit>)
    requires AllIn(text, Digit)
    ensures |ds| == |text|
  {
    seq(|text|, i requires 0 <= i < |text| => DigitValue(text[i]))
  }

  function Power10(n: nat): (p: real)
    ensures p >= 1.0
  {
    if n == 0 then 1.0 else 10.0 * Power10(n - 1)
  }

  /** `float` of digits, a point and digits. */
  function Float(whole: string, decimals: string): real
    requires AllIn(whole, Digit) && AllIn(decimals, Digit)
  {
    Decimal.ValueOf(DigitsOf(whole)) as real + Decimal.ValueOf(DigitsOf(decimals)) as real / Power10(|decimals|)
  }

  function ReadLine(line: string): Option<Reading> {
    var found := Search(ENTRY, line, 0);
    if found.None? then None
    else
      SearchIsLeftmost(ENTRY, line, 0);
      var at := found.value;
      EntryPieces(line, at);
      Some(Reading(Strip(line[at[2]..at[3]]), Float(line[at[6]..at[7]], line[at[8]..at[9]])))
  }

  /** The pieces of an entry, one by one. */
  lemma EntryPieces(line: string, at: seq<nat>)
    requires at != [] && Fits(ENTRY, line, at[0], at)
    ensures |at| == 10 && at[0] + 7 == at[1] < at[2] < at[3] < at[4] && at[4] + 1 == at[5] < at[6] < at[7]
    ensures at[7] + 1 == at[8] < at[9] <= |line|
    ensures line[at[0]..at[1]] == "[ratio]" && AllIn(line[at[1]..at[2]], Space) && AllIn(line[at[2]..at[3]], Any)
    ensures AllIn(line[at[3]..at[4]], Space) && line[at[4]] == ARROW && AllIn(line[at[5]..at[6]], Space)
    ensures AllIn(line[at[6]..at[7]], Digit) && line[at[7]] == '.' && AllIn(line[at[8]..at[9]], Digit)
  {
    hide AllIn;
    assert Takes(ENTRY[0], line, at[0], at[0 + 1]);
    assert Takes(ENTRY[1], line, at[1], at[1 + 1]);
    assert Takes(ENTRY[2], line, at[2], at[2 + 1]);
    assert Takes(ENTRY[3], line, at[3], at[3 + 1]);
    assert Takes(ENTRY[4], line, at[4], at[4 + 1]);
    assert Takes(ENTRY[5], line, at[5], at[5 + 1]);
    assert Takes(ENTRY[6], line, at[6], at[6 + 1]);
    assert Takes(ENTRY[7], line, at[7], at[7 + 1]);
    assert Takes(ENTRY[8], line, at[8], at[8 + 1]);
    assert line[at[4]..at[5]][0] == ARROW;
    assert line[at[7]..at[8]][0] == '.';
  }

  /** The entries of the lines, of one name the last. */
  function Readings(lines: seq<string>): map<string, real> {
    if lines == [] then map[]
    else
      var before, entry := Readings(lines[..|lines| - 1]), ReadLine(lines[|lines| - 1]);
      if entry.Some? then before[entry.value.name := entry.value.ratio] else before
  }

  /** The keys of that dict, in the order in which each was first entered. */
  function ReadOrder(lines: seq<string>): seq<string> {
    if lines == [] then []
    else
      var before, entry := ReadOrder(lines[..|lines| - 1]), ReadLine(lines[|lines| - 1]);
      if entry.Some? && entry.value.name !in before then before + [entry.value.name] else before
  }

  // ---------------------------------------------------------------------------
  // The file
  // ---------------------------------------------------------------------------

  /** The ratio log file and its handler, which truncates the file when it writes its first line. */
  class LogFile {
    var lines: seq<string>
    var writing: bool

    /** A handler on the file an earlier run left. */
    constructor (left: seq<string>)
      ensures lines == left && !writing
    {
      lines, writing := left, false;
    }

    method Info(stamp: string, message: string)
      modifies this
      ensures IsRatioLine(message) ==> lines == (if old(writing) then old(lines) else []) + [stamp + message] && writing
      ensures !IsRatioLine(message) ==> lines == old(lines) && writing == old(writing)
    {
      if IsRatioLine(message) {
        if !writing {
          lines, writing := [], true;
        }
        lines := lines + [stamp + message];
      }
    }

    /** The printing loop of `log_seed_ratios_via_http`. */
    method LogSeedRatios(torrents: seq<Seeding>, clock: Clock)
      modifies this
      ensures lines == (if old(writing) then old(lines) else []) + Block(HighestFirst(torrents), clock) && writing
    {
      var sorted := HighestFirst(torrents);
      ghost var kept := if writing then lines else [];
      MarkersAreForTheRatioLog();
      hide *;
      hide START, END;
      Begun(sorted, clock);
      Info(Stamp(clock, 0), START);
      for i := 0 to |sorted|
        invariant writing
        invariant lines == kept + Begin(sorted[..i], clock)
      {
        BegunFurther(sorted, clock, i);
        MessageIsForTheRatioLog(sorted[i]);
        Info(Stamp(clock, 1 + i), Message(sorted[i]));
      }
      assert sorted[..|sorted|] == sorted;
      Info(Stamp(clock, |sorted| + 1), END);
      BeginThenEnd(sorted, clock);
      Info(Stamp(clock, |sorted| + 2), "");
    }

    /** `get_previous_ratios`; the dict as its keys in order and a map. */
    method GetPreviousRatios() returns (names: seq<string>, ratios: map<string, real>)
      ensures ratios == Readings(Segment(lines)) && names == ReadOrder(Segment(lines))
    {
      var latest := LatestSegment(lines);
      names, ratios := [], map[];
      for i := 0 to |latest|
        invariant ratios == Readings(latest[..i]) && names == ReadOrder(latest[..i])
        invariant forall n :: n in names <==> n in ratios
      {
        assert latest[..i + 1][..i] == latest[..i];
        hide ReadLine;
        var entry := ReadLine(latest[i]);
        if entry.Some? {
          if entry.value.name !in ratios {
            names := names + [entry.value.name];
          }
          ratios := ratios[entry.value.name := entry.value.ratio];
        }
      }
      assert latest[..|latest|] == latest;
    }
  }

  lemma MessageIsForTheRatioLog(t: Seeding)
    ensures IsRatioLine(Message(t))
  {
  }

  /** The marker is for the ratio log, the empty line after the segment is not. */
  lemma MarkersAreForTheRatioLog()
    ensures IsRatioLine(START) && IsRatioLine(END) && !IsRatioLine("")
  {
  }

  lemma Begun(ts: seq<Seeding>, clock: Clock)
    ensures Begin(ts[..0], clock) == [Stamp(clock, 0) + START]
  {
  }

  lemma BegunFurther(ts: seq<Seeding>, clock: Clock, i: nat)
    requires i < |ts|
    ensures Begin(ts[..i + 1], clock) == Begin(ts[..i], clock) + [Stamp(clock, 1 + i) + Message(ts[i])]
  {
    assert Lines(ts[..i + 1], clock, 1) == Lines(ts[..i], clock, 1) + [Stamp(clock, 1 + i) + Message(ts[i])];
  }

  lemma BeginThenEnd(ts: seq<Seeding>, clock: Clock)
    ensures Block(ts, clock) == Begin(ts, clock) + [Stamp(clock, |ts| + 1) + END]
  {
  }

  method LatestSegment(lines: seq<string>) returns (latest: seq<string>)
    ensures latest == Segment(lines)
  {
    latest := lines;
    var starts := FindMarked(latest, START);
    if starts != [] {
      latest := latest[starts[|starts| - 1] + 1..];
      var ends := FindMarked(latest, END);
      if ends != [] {
        latest := latest[..ends[|ends| - 1]];
      }
    }
  }

  method FindMarked(lines: seq<string>, marker: string) returns (found: seq<nat>)
    ensures found == Marked(lines, marker)
  {
    found := [];
    for i := 0 to |lines|
      invariant found == Marked(lines[..i], marker)
    {
      assert lines[..i + 1][..i] == lines[..i];
      if Contains(lines[i], marker) {
        found := found + [i];
      }
    }
    assert lines[..|lines|] == lines;
  }
}
