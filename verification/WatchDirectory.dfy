/** The watch directory as a state machine: the fetch script writes and removes files one system call
    at a time and may be killed between any two, while transmission-daemon renames what it has loaded. */
module WatchDirectory {

  type Data = seq<int>

  /** `_safe_watch_path`: usable as a single file name. */
  predicate SafeName(name: string) {
    name != "" && name != "." && name != ".." && '/' !in name && '\\' !in name
  }

  /** The three files a name can have: the one being written, the one the daemon watches for, and the
      one it has loaded. */
  datatype Path = Part(name: string) | Watched(name: string) | Added(name: string)

  function FileName(p: Path): string {
    match p
    case Part(n) => "." + n + ".torrent.part"
    case Watched(n) => n + ".torrent"
    case Added(n) => n + ".torrent.added"
  }

  lemma LastChars(p: Path)
    ensures |FileName(p)| >= 8
    ensures var f := FileName(p);
            && f[|f| - 1] == (if p.Added? then 'd' else 't')
            && f[|f| - 4] == (if p.Added? then 'd' else if p.Part? then 'p' else 'r')
  {
  }

  /** No two of these files share a name, so they can be told apart by kind and torrent name. */
  lemma PathsDoNotCollide(p: Path, q: Path)
    requires FileName(p) == FileName(q)
    ensures p == q
  {
    LastChars(p);
    LastChars(q);
    var f := FileName(p);
    match p
    case Part(n) =>
      assert f[1..|f| - 13] == n && f[1..|f| - 13] == q.name;
    case Watched(n) =>
      assert f[..|f| - 8] == n && f[..|f| - 8] == q.name;
    case Added(n) =>
      assert f[..|f| - 14] == n && f[..|f| - 14] == q.name;
  }

  // ---------------------------------------------------------------------------
  // States and steps
  // ---------------------------------------------------------------------------

  type Files = map<Path, Data>

  /** Where the script is: between operations, or before the named system call of one. */
  datatype Control =
    | Idle
    | StatWatched(name: string, data: Data)
    | StatAdded(name: string, data: Data)
    | Fetching(name: string, data: Data)
    | OpenPart(name: string, data: Data)
    | Writing(name: string, data: Data, done: nat)
    | Replace(name: string, data: Data)
    | DropPart(name: string)
    | RemoveWatched(name: string)
    | RemoveAdded(name: string, clean: bool)

  /** `asked` holds every (name, data) a write was started for; per name, `writes` and `removals` count
      completed writes and successful removals, `lost` the files another one was put in place of. */
  datatype State = State(files: Files, at: Control, asked: set<(string, Data)>,
                         writes: multiset<string>, removals: multiset<string>, lost: multiset<string>)

  datatype Step =
    | StartWrite(name: string, data: Data)
    | StartRemove(name: string)
    | Advance
    | WriteUpTo(count: nat)
    | Fail
    | Kill
    | Rename(name: string)

  predicate Present(files: Files, name: string) {
    Watched(name) in files || Added(name) in files
  }

  /** How many files the name has that the daemon can see. */
  function Count(files: Files, name: string): nat {
    (if Watched(name) in files then 1 else 0) + if Added(name) in files then 1 else 0
  }

  /** The daemon renames a file it has loaded, over an older one if there is one. */
  function Renamed(files: Files, name: string): Files {
    if Watched(name) in files then (files - {Watched(name)})[Added(name) := files[Watched(name)]] else files
  }

  predicate Enabled(s: State, step: Step) {
    match step
    case StartWrite(n, _) => s.at.Idle? && SafeName(n)
    case StartRemove(n) => s.at.Idle? && SafeName(n)
    case Advance => !s.at.Idle? && (s.at.Writing? ==> s.at.done == |s.at.data|)
    case WriteUpTo(count) => s.at.Writing? && s.at.done < count <= |s.at.data|
    case Fail => !s.at.Idle?
    case Kill => true
    case Rename(_) => true
  }

  /** The system call the script is at, successfully. */
  function Succeed(s: State): State
    requires Enabled(s, Advance)
  {
    match s.at
    case Idle => s
    case StatWatched(n, d) => if Watched(n) in s.files then s.(at := Idle) else s.(at := StatAdded(n, d))
    case StatAdded(n, d) => if Added(n) in s.files then s.(at := Idle) else s.(at := Fetching(n, d))
    case Fetching(n, d) => s.(at := OpenPart(n, d))
    case OpenPart(n, d) => s.(files := s.files[Part(n) := []], at := Writing(n, d, 0))
    case Writing(n, d, _) => s.(at := Replace(n, d))
    case Replace(n, d) =>
      if Part(n) in s.files
      then s.(files := (s.files - {Part(n)})[Watched(n) := s.files[Part(n)]], at := Idle,
          writes := s.writes + multiset{n},
              lost := s.lost + if Watched(n) in s.files then multiset{n} else multiset{})
      else s.(at := DropPart(n))
    case DropPart(n) => s.(files := s.files - {Part(n)}, at := Idle)
    case RemoveWatched(n) =>
      if Watched(n) in s.files
      then s.(files := s.files - {Watched(n)}, at := RemoveAdded(n, true), removals := s.removals + multiset{n})
      else s.(at := RemoveAdded(n, true))
    case RemoveAdded(n, _) =>
      if Added(n) in s.files
      then s.(files := s.files - {Added(n)}, at := Idle, removals := s.removals + multiset{n})
      else s.(at := Idle)
  }

  /** The call fails: a look that fails says that no file is there, as `os.path.exists` does; a failed
      download or a release with no demand ends the operation before the write begins; a write is
      abandoned and its part file dropped; a removal goes on. */
  function Failed(s: State): Control {
    match s.at
    case Idle => Idle
    case StatWatched(n, d) => StatAdded(n, d)
    case StatAdded(n, d) => Fetching(n, d)
    case Fetching(_, _) => Idle
    case OpenPart(n, _) => DropPart(n)
    case Writing(n, _, _) => DropPart(n)
    case Replace(n, _) => DropPart(n)
    case DropPart(_) => Idle
    case RemoveWatched(n) => RemoveAdded(n, false)
    case RemoveAdded(_, _) => Idle
  }

  function Apply(s: State, step: Step): State
    requires Enabled(s, step)
  {
    match step
    case StartWrite(n, d) => s.(at := StatWatched(n, d), asked := s.asked + {(n, d)})
    case StartRemove(n) => s.(at := RemoveWatched(n))
    case Advance => Succeed(s)
    case WriteUpTo(count) => s.(files := s.files[Part(s.at.name) := s.at.data[..count]], at := s.at.(done := count))
    case Fail => s.(at := Failed(s))
    case Kill => s.(at := Idle)
    case Rename(n) =>
      s.(files := Renamed(s.files, n),
         lost := s.lost + if Watched(n) in s.files && Added(n) in s.files then multiset{n} else multiset{})
  }

  /** A behaviour: any interleaving of script steps, failures, kills and daemon renames. */
  ghost predicate Behaviour(states: seq<State>, steps: seq<Step>) {
    Runs(states, steps) && Init(states[0])
  }

  ghost predicate Runs(states: seq<State>, steps: seq<Step>) {
    && |states| == |steps| + 1
    && forall k :: 0 <= k < |steps| ==> Enabled(states[k], steps[k]) && states[k + 1] == Apply(states[k], steps[k])
  }

  /** An empty watch directory, but for part files a killed run may have left. */
  ghost predicate Init(s: State) {
    && s.at.Idle? && s.asked == {} && s.writes == multiset{} && s.removals == multiset{} && s.lost == multiset{}
    && forall n :: !Present(s.files, n)
  }

  // ---------------------------------------------------------------------------
  // The invariant
  // ---------------------------------------------------------------------------

  /** Whatever the daemon could pick up is data some write was asked for, all of it. */
  ghost predicate Complete(s: State) {
    forall n ::
      && (Watched(n) in s.files ==> (n, s.files[Watched(n)]) in s.asked)
      && (Added(n) in s.files ==> (n, s.files[Added(n)]) in s.asked)
  }

  /** Completed writes are removals, files put out of place, and the files that are there. */
  ghost predicate Balanced(s: State) {
    forall n :: s.writes[n] == s.removals[n] + s.lost[n] + Count(s.files, n)
  }

  /** What the script may rely on at each point. */
  ghost predicate ControlFacts(s: State) {
    match s.at
    case Idle => true
    case StatWatched(n, d) => (n, d) in s.asked
    case StatAdded(n, d) => (n, d) in s.asked
    case Fetching(n, d) => (n, d) in s.asked
    case OpenPart(n, d) => (n, d) in s.asked
    case Writing(n, d, done) =>
      (n, d) in s.asked && done <= |d| && Part(n) in s.files && s.files[Part(n)] == d[..done]
    case Replace(n, d) => (n, d) in s.asked && Part(n) in s.files && s.files[Part(n)] == d
    case DropPart(_) => true
    case RemoveWatched(_) => true
    case RemoveAdded(n, clean) => clean ==> Watched(n) !in s.files
  }

  ghost predicate Inv(s: State) {
    Complete(s) && Balanced(s) && ControlFacts(s)
  }

  /** Steps that touch one name's files leave the others' alone. */
  ghost predicate OthersKept(s: State, t: State, n: string) {
    forall m :: m != n ==> Count(t.files, m) == Count(s.files, m)
                           && s.writes[m] == t.writes[m] && s.removals[m] == t.removals[m] && s.lost[m] == t.lost[m]
  }

  lemma BalancedAgain(s: State, t: State, n: string)
    requires Balanced(s) && OthersKept(s, t, n)
    requires t.writes[n] == t.removals[n] + t.lost[n] + Count(t.files, n)
    ensures Balanced(t)
  {
    hide Count;
    forall m
      ensures t.writes[m] == t.removals[m] + t.lost[m] + Count(t.files, m)
    {
      if m != n {
        assert Count(t.files, m) == Count(s.files, m);
      }
    }
  }

  lemma ReplaceKeepsInv(s: State)
    requires Inv(s) && s.at.Replace?
    ensures Inv(Succeed(s))
  {
    var n, t := s.at.name, Succeed(s);
    assert OthersKept(s, t, n);
    assert s.writes[n] == s.removals[n] + s.lost[n] + Count(s.files, n);
    BalancedAgain(s, t, n);
    hide Balanced, OthersKept;
    assert Complete(t);
  }

  /** One of the script's removals. */
  lemma RemovalBalances(s: State, t: State, p: Path, n: string)
    requires Balanced(s) && (p == Watched(n) || p == Added(n)) && p in s.files
    requires t.files == s.files - {p} && t.writes == s.writes && t.lost == s.lost
    requires t.removals == s.removals + multiset{n}
    ensures Balanced(t)
  {
    assert OthersKept(s, t, n);
    assert s.writes[n] == s.removals[n] + s.lost[n] + Count(s.files, n);
    BalancedAgain(s, t, n);
  }

  lemma RemoveKeepsInv(s: State)
    requires Inv(s) && (s.at.RemoveWatched? || s.at.RemoveAdded?)
    ensures Inv(Succeed(s))
  {
    var n, t := s.at.name, Succeed(s);
    var p := if s.at.RemoveWatched? then Watched(n) else Added(n);
    if p in s.files {
      RemovalBalances(s, t, p, n);
    } else {
      assert t.files == s.files;
    }
    hide Balanced;
    assert Complete(t);
  }

  lemma RenameBalances(s: State, n: string)
    requires Balanced(s)
    ensures Balanced(Apply(s, Rename(n)))
  {
    var t := Apply(s, Rename(n));
    assert OthersKept(s, t, n);
    assert s.writes[n] == s.removals[n] + s.lost[n] + Count(s.files, n);
    BalancedAgain(s, t, n);
  }

  lemma RenameKeepsInv(s: State, n: string)
    requires Inv(s)
    ensures Inv(Apply(s, Rename(n)))
  {
    RenameBalances(s, n);
    hide Balanced;
    assert Complete(Apply(s, Rename(n)));
  }

  lemma PartKeepsInv(s: State)
    requires Inv(s) && (s.at.OpenPart? || s.at.DropPart?)
    ensures Inv(Succeed(s))
  {
    assert forall m :: Count(Succeed(s).files, m) == Count(s.files, m);
  }

  lemma SucceedKeepsInv(s: State)
    requires Inv(s) && Enabled(s, Advance)
    ensures Inv(Succeed(s))
  {
    if s.at.Replace? {
      ReplaceKeepsInv(s);
    } else if s.at.RemoveWatched? || s.at.RemoveAdded? {
      RemoveKeepsInv(s);
    } else if s.at.OpenPart? || s.at.DropPart? {
      PartKeepsInv(s);
    } else if s.at.Writing? {
      assert s.at.data[..s.at.done] == s.at.data;
    }
  }

  /** Every step keeps the invariant, a failed look at a file that is there included. */
  lemma {:induction false} StepKeepsInv(s: State, step: Step)
    requires Inv(s) && Enabled(s, step)
    ensures Inv(Apply(s, step))
  {
    match step
    case Advance => SucceedKeepsInv(s);
    case Rename(n) => RenameKeepsInv(s, n);
    case WriteUpTo(_) => assert forall m :: Count(Apply(s, step).files, m) == Count(s.files, m);
    case _ =>
  }

  lemma StepOf(states: seq<State>, steps: seq<Step>, k: nat)
    requires Behaviour(states, steps) && k < |steps|
    ensures |states| == |steps| + 1 && Enabled(states[k], steps[k]) && states[k + 1] == Apply(states[k], steps[k])
  {
  }

  lemma InitKeepsInv(s: State)
    requires Init(s)
    ensures Inv(s)
  {
    forall n
      ensures Watched(n) !in s.files && Added(n) !in s.files
    {
      assert !Present(s.files, n);
    }
  }

  lemma {:induction false} InvHolds(states: seq<State>, steps: seq<Step>, k: nat)
    requires Behaviour(states, steps) && k < |states|
    ensures Inv(states[k])
    decreases k
  {
    if k == 0 {
      InitKeepsInv(states[0]);
    } else {
      InvHolds(states, steps, k - 1);
      StepOf(states, steps, k - 1);
      hide Inv, Behaviour, Apply;
      StepKeepsInv(states[k - 1], steps[k - 1]);
    }
  }

  /** At every moment of every behaviour, each watched or loaded file holds the whole data of a write
      asked for under its name: never a part of it. */
  lemma {:induction false} NoPartialWatchFile(states: seq<State>, steps: seq<Step>, k: nat, name: string)
    requires Behaviour(states, steps) && k < |states|
    ensures var s := states[k];
            && (Watched(name) in s.files ==> (name, s.files[Watched(name)]) in s.asked)
            && (Added(name) in s.files ==> (name, s.files[Added(name)]) in s.asked)
  {
    InvHolds(states, steps, k);
  }

  /** At every moment of every behaviour, per name: completed writes are successful removals, files
      another one was put in place of, and the files that are there. */
  lemma {:induction false} WritesAreAccountedFor(states: seq<State>, steps: seq<Step>, k: nat, name: string)
    requires Behaviour(states, steps) && k < |states|
    ensures var s := states[k]; s.writes[name] == s.removals[name] + s.lost[name] + Count(s.files, name)
  {
    InvHolds(states, steps, k);
  }

  // ---------------------------------------------------------------------------
  // One file per name, exactly as long as no write hides a file
  // ---------------------------------------------------------------------------

  /** Completed writes are removals plus the file that is there. */
  ghost predicate Conserved(s: State) {
    forall n :: s.writes[n] == s.removals[n] + if Present(s.files, n) then 1 else 0
  }

  ghost predicate OneFilePerName(s: State) {
    forall n :: Count(s.files, n) <= 1
  }

  ghost predicate NothingLost(s: State) {
    OneFilePerName(s) && forall n :: s.lost[n] == 0
  }

  /** A write is put in place while the name has a file. */
  predicate Overwrites(s: State, step: Step) {
    step.Advance? && s.at.Replace? && Present(s.files, s.at.name)
  }

  lemma StepLosesNothing(s: State, step: Step)
    requires Inv(s) && Enabled(s, step) && NothingLost(s) && !Overwrites(s, step)
    ensures NothingLost(Apply(s, step))
  {
    forall n
      ensures Count(Apply(s, step).files, n) <= 1 && Apply(s, step).lost[n] == 0
    {
      assert Count(s.files, n) <= 1 && s.lost[n] == 0;
      if step.Rename? {
        assert Count(s.files, step.name) <= 1;
      }
    }
  }

  lemma NothingLostConserves(s: State)
    requires Inv(s)
    ensures NothingLost(s) ==> Conserved(s)
  {
  }

  lemma OverwritingBreaksConservation(s: State, step: Step)
    requires Inv(s) && Enabled(s, step) && Overwrites(s, step)
    ensures !Conserved(s) || !Conserved(Apply(s, step))
  {
    var n, t := s.at.name, Apply(s, step);
    assert s.writes[n] == s.removals[n] + s.lost[n] + Count(s.files, n);
    assert Present(s.files, n) && Present(t.files, n) && t.writes[n] == s.writes[n] + 1
           && t.removals[n] == s.removals[n];
  }

  lemma {:induction false} NothingIsLost(states: seq<State>, steps: seq<Step>, k: nat)
    requires Behaviour(states, steps) && k < |states|
    requires forall i :: 0 <= i < |steps| ==> !Overwrites(states[i], steps[i])
    ensures NothingLost(states[k])
    decreases k
  {
    if k == 0 {
      InitKeepsInv(states[0]);
    } else {
      hide *;
      NothingIsLost(states, steps, k - 1);
      InvHolds(states, steps, k - 1);
      StepOf(states, steps, k - 1);
      StepLosesNothing(states[k - 1], steps[k - 1]);
    }
  }

  /** Writes are removals plus the file that is there, throughout a behaviour, if and only if no write
      is put in place while the name has a file; then no name ever has two. */
  lemma {:induction false} WritesAreConservedIff(states: seq<State>, steps: seq<Step>)
    requires Behaviour(states, steps)
    ensures (forall k :: 0 <= k < |states| ==> Conserved(states[k]))
            <==> (forall i :: 0 <= i < |steps| ==> !Overwrites(states[i], steps[i]))
    ensures (forall i :: 0 <= i < |steps| ==> !Overwrites(states[i], steps[i])) ==>
              forall k :: 0 <= k < |states| ==> OneFilePerName(states[k])
  {
    hide Inv, Conserved, OneFilePerName, Init, Overwrites;
    if forall i :: 0 <= i < |steps| ==> !Overwrites(states[i], steps[i]) {
      forall k | 0 <= k < |states|
        ensures Conserved(states[k]) && OneFilePerName(states[k])
      {
        InvHolds(states, steps, k);
        NothingIsLost(states, steps, k);
        NothingLostConserves(states[k]);
      }
    } else {
      var i :| 0 <= i < |steps| && Overwrites(states[i], steps[i]);
      InvHolds(states, steps, i);
      OverwritingBreaksConservation(states[i], steps[i]);
      assert states[i + 1] == Apply(states[i], steps[i]);
    }
  }

  // ---------------------------------------------------------------------------
  // Only a failed look can make a write hide a file
  // ---------------------------------------------------------------------------

  /** A look at a file that is there fails. */
  predicate Blind(s: State, step: Step) {
    step.Fail? && ((s.at.StatWatched? && Watched(s.at.name) in s.files)
                   || (s.at.StatAdded? && Added(s.at.name) in s.files))
  }

  /** What the looks have established by each point. */
  ghost predicate Sighted(s: State) {
    match s.at
    case StatAdded(n, _) => Watched(n) !in s.files
    case Fetching(n, _) => !Present(s.files, n)
    case OpenPart(n, _) => !Present(s.files, n)
    case Writing(n, _, _) => !Present(s.files, n)
    case Replace(n, _) => !Present(s.files, n)
    case _ => true
  }

  lemma StepKeepsSighted(s: State, step: Step)
    requires Enabled(s, step) && Sighted(s) && !Blind(s, step)
    ensures Sighted(Apply(s, step))
  {
  }

  lemma {:induction false} SightedHolds(states: seq<State>, steps: seq<Step>, k: nat)
    requires Behaviour(states, steps) && k < |states|
    requires forall i :: 0 <= i < |steps| ==> !Blind(states[i], steps[i])
    ensures Sighted(states[k])
    decreases k
  {
    if k > 0 {
      SightedHolds(states, steps, k - 1);
      StepOf(states, steps, k - 1);
      hide Sighted, Blind, Behaviour, Apply;
      StepKeepsSighted(states[k - 1], steps[k - 1]);
    }
  }

  /** Whatever the daemon renames, whatever else fails and whenever the script is killed: if no look
      fails on a file that is there, writes are removals plus the file that is there. */
  lemma {:induction false} WritesAreConserved(states: seq<State>, steps: seq<Step>, k: nat, name: string)
    requires Behaviour(states, steps) && k < |states|
    requires forall i :: 0 <= i < |steps| ==> !Blind(states[i], steps[i])
    ensures var s := states[k];
            && s.writes[name] == s.removals[name] + (if Present(s.files, name) then 1 else 0)
            && !(Watched(name) in s.files && Added(name) in s.files)
  {
    forall i | 0 <= i < |steps|
      ensures !Overwrites(states[i], steps[i])
    {
      SightedHolds(states, steps, i);
    }
    WritesAreConservedIff(states, steps);
    assert Conserved(states[k]) && OneFilePerName(states[k]);
    assert Count(states[k].files, name) <= 1;
  }

  /** Carrying a download through to the end. */
  lemma WriteGoesThrough(s: State, n: string, d: Data) returns (states: seq<State>, steps: seq<Step>)
    requires s.at == Fetching(n, d) && d != []
    ensures Runs(states, steps) && |states| > 0 && states[0] == s
    ensures var t := states[|states| - 1];
            && t.at == Idle && t.removals == s.removals && t.writes == s.writes + multiset{n}
            && t.files.Keys == s.files.Keys - {Part(n)} + {Watched(n)}
  {
    var s1 := s.(at := OpenPart(n, d));
    var s2 := s1.(files := s1.files[Part(n) := []], at := Writing(n, d, 0));
    var s3 := s2.(files := s2.files[Part(n) := d], at := Writing(n, d, |d|));
    var s4 := s3.(at := Replace(n, d));
    Writes(s, s1, s2, s3, s4, n, d);
    var s5 := Replaced(s4, n, d);
    hide *;
    states, steps := [s, s1, s2, s3, s4, s5], [Advance, Advance, WriteUpTo(|d|), Advance, Advance];
    FiveSteps(states, steps);
  }

  lemma Writes(s: State, s1: State, s2: State, s3: State, s4: State, n: string, d: Data)
    requires s.at == Fetching(n, d) && d != []
    requires s1 == s.(at := OpenPart(n, d)) && s2 == s1.(files := s1.files[Part(n) := []], at := Writing(n, d, 0))
    requires s3 == s2.(files := s2.files[Part(n) := d], at := Writing(n, d, |d|)) && s4 == s3.(at := Replace(n, d))
    ensures Enabled(s, Advance) && s1 == Apply(s, Advance)
    ensures Enabled(s1, Advance) && s2 == Apply(s1, Advance)
    ensures Enabled(s2, WriteUpTo(|d|)) && s3 == Apply(s2, WriteUpTo(|d|))
    ensures Enabled(s3, Advance) && s4 == Apply(s3, Advance)
  {
    assert d[..|d|] == d;
  }

  lemma Replaced(s: State, n: string, d: Data) returns (t: State)
    requires s.at == Replace(n, d) && Part(n) in s.files
    ensures Enabled(s, Advance) && t == Apply(s, Advance)
    ensures t.at == Idle && t.removals == s.removals && t.writes == s.writes + multiset{n}
    ensures t.files.Keys == s.files.Keys - {Part(n)} + {Watched(n)}
  {
    t := Succeed(s);
  }

  lemma FiveSteps(states: seq<State>, steps: seq<Step>)
    requires |states| == 6 && |steps| == 5
    requires Enabled(states[0], steps[0]) && states[1] == Apply(states[0], steps[0])
    requires Enabled(states[1], steps[1]) && states[2] == Apply(states[1], steps[1])
    requires Enabled(states[2], steps[2]) && states[3] == Apply(states[2], steps[2])
    requires Enabled(states[3], steps[3]) && states[4] == Apply(states[3], steps[3])
    requires Enabled(states[4], steps[4]) && states[5] == Apply(states[4], steps[4])
    ensures Runs(states, steps)
  {
    hide Enabled, Apply;
  }

  lemma RunsOn(states: seq<State>, steps: seq<Step>, more: seq<State>, moreSteps: seq<Step>)
    requires Runs(states, steps) && Runs(more, moreSteps) && states[|states| - 1] == more[0]
    ensures Runs(states + more[1..], steps + moreSteps)
  {
    var all, allSteps := states + more[1..], steps + moreSteps;
    forall k | 0 <= k < |allSteps|
      ensures Enabled(all[k], allSteps[k]) && all[k + 1] == Apply(all[k], allSteps[k])
    {
      if k >= |steps| {
        assert all[k] == more[k - |steps|] && all[k + 1] == more[k - |steps| + 1];
      } else {
        assert all[k] == states[k] && all[k + 1] == states[k + 1];
      }
    }
  }

  /** The other half: two runs, and in the second the look at the file of the first one fails. There are
      two writes, no removal, and one file. */
  lemma {:induction false} FailedLookHidesAFile(n: string, d: Data) returns (states: seq<State>, steps: seq<Step>)
    requires SafeName(n) && d != []
    ensures Behaviour(states, steps)
    ensures var s := states[|states| - 1];
            s.writes[n] == 2 && s.removals[n] == 0 && Count(s.files, n) == 1 && !Conserved(s)
  {
    var s0 := State(map[], Idle, {}, multiset{}, multiset{}, multiset{});
    var first, firstSteps := OneWrite(s0, n, d, Advance);
    var t0 := first[|first| - 1];
    var second, secondSteps := OneWrite(t0, n, d, Fail);
    assert Init(s0);
    hide Runs, Apply, Succeed;
    RunsOn(first, firstSteps, second, secondSteps);
    states, steps := first + second[1..], firstSteps + secondSteps;
    assert states[|states| - 1] == second[|second| - 1];
  }

  /** One run that ends with a write although there may be a file, for lack of a look that says so. */
  lemma OneWrite(s: State, n: string, d: Data, look: Step) returns (states: seq<State>, steps: seq<Step>)
    requires s.at == Idle && SafeName(n) && d != [] && Added(n) !in s.files
    requires if Watched(n) in s.files then look == Fail else look == Advance
    ensures Runs(states, steps) && |states| > 0 && states[0] == s
    ensures var t := states[|states| - 1];
            && t.at == Idle && t.removals == s.removals && t.writes == s.writes + multiset{n}
            && t.files.Keys == s.files.Keys - {Part(n)} + {Watched(n)}
  {
    var s1 := s.(at := StatWatched(n, d), asked := s.asked + {(n, d)});
    var s2 := s1.(at := StatAdded(n, d));
    var s3 := s1.(at := Fetching(n, d));
    assert s1 == Apply(s, StartWrite(n, d)) && s2 == Apply(s1, look) && s3 == Apply(s2, Advance);
    var rest, restSteps := WriteGoesThrough(s3, n, d);
    RunsOn([s, s1, s2, s3], [StartWrite(n, d), look, Advance], rest, restSteps);
    hide Runs, Apply, Succeed;
    states, steps := [s, s1, s2, s3] + rest[1..], [StartWrite(n, d), look, Advance] + restSteps;
    assert states[|states| - 1] == rest[|rest| - 1];
  }

  // ---------------------------------------------------------------------------
  // What one operation does
  // ---------------------------------------------------------------------------

  /** From `i` to `j` nothing fails and nothing is killed, and only at `j` the script is idle again. */
  ghost predicate Undisturbed(states: seq<State>, steps: seq<Step>, i: nat, j: nat) {
    && Behaviour(states, steps) && i < j <= |steps|
    && forall k :: i < k < j ==> !states[k].at.Idle? && !steps[k].Fail? && !steps[k].Kill?
  }

  lemma UndisturbedStep(states: seq<State>, steps: seq<Step>, i: nat, j: nat, k: nat)
    requires Undisturbed(states, steps, i, j) && i <= k < j
    ensures |states| == |steps| + 1 && j <= |steps|
    ensures Enabled(states[k], steps[k]) && states[k + 1] == Apply(states[k], steps[k])
    ensures i < k ==> !states[k].at.Idle? && !steps[k].Fail? && !steps[k].Kill?
  {
    StepOf(states, steps, k);
  }

  /** How far a removal has come. */
  ghost predicate RemovalPhase(s: State, n: string) {
    match s.at
    case RemoveWatched(m) => m == n
    case RemoveAdded(m, _) => m == n && Watched(n) !in s.files
    case Idle => !Present(s.files, n)
    case _ => false
  }

  lemma RemovalStarts(s: State, n: string)
    requires Enabled(s, StartRemove(n))
    ensures RemovalPhase(Apply(s, StartRemove(n)), n) && Apply(s, StartRemove(n)).writes == s.writes
  {
  }

  lemma RemovalGoesOn(s: State, step: Step, n: string)
    requires RemovalPhase(s, n) && !s.at.Idle? && Enabled(s, step) && !step.Fail? && !step.Kill?
    ensures RemovalPhase(Apply(s, step), n) && Apply(s, step).writes == s.writes
  {
  }

  lemma {:induction false} RemovalProceeds(states: seq<State>, steps: seq<Step>, i: nat, j: nat, k: nat, n: string)
    requires Undisturbed(states, steps, i, j) && steps[i] == StartRemove(n) && i < k <= j
    ensures RemovalPhase(states[k], n) && states[k].writes == states[i].writes
    decreases k
  {
    hide *;
    UndisturbedStep(states, steps, i, j, k - 1);
    if k == i + 1 {
      RemovalStarts(states[i], n);
    } else {
      RemovalProceeds(states, steps, i, j, k - 1, n);
      RemovalGoesOn(states[k - 1], steps[k - 1], n);
    }
  }

  /** A removal that is not disturbed leaves neither file of the name, whatever the daemon renames
      meanwhile, and all files that were there are removals now, but for one lost to a rename. */
  lemma {:induction false} RemovalRemoves(states: seq<State>, steps: seq<Step>, i: nat, j: nat, n: string)
    requires Undisturbed(states, steps, i, j) && steps[i] == StartRemove(n) && states[j].at.Idle?
    ensures var s, t := states[i], states[j];
            && Watched(n) !in t.files && Added(n) !in t.files
            && t.removals[n] + t.lost[n] == s.removals[n] + s.lost[n] + Count(s.files, n)
  {
    RemovalProceeds(states, steps, i, j, j, n);
    InvHolds(states, steps, i);
    InvHolds(states, steps, j);
    hide Behaviour, Undisturbed, Complete, ControlFacts;
    assert states[i].writes[n] == states[j].writes[n];
  }

  /** The script is looking for the two files of a name. */
  predicate Looking(s: State) { s.at.StatWatched? || s.at.StatAdded? }

  /** How far the two looks have come, when there is a file or when there is none. */
  ghost predicate LookPhase(s: State, n: string, d: Data, present: bool) {
    && (Present(s.files, n) <==> present)
    && match s.at
       case StatWatched(m, e) => m == n && e == d
       case StatAdded(m, e) => m == n && e == d && Watched(n) !in s.files
       case Fetching(m, e) => m == n && e == d && !present
       case Idle => present
       case _ => false
  }

  lemma LookStarts(s: State, n: string, d: Data)
    requires Enabled(s, StartWrite(n, d))
    ensures LookPhase(Apply(s, StartWrite(n, d)), n, d, Present(s.files, n))
    ensures Apply(s, StartWrite(n, d)).writes == s.writes
  {
  }

  lemma LookGoesOn(s: State, step: Step, n: string, d: Data, present: bool)
    requires LookPhase(s, n, d, present) && Looking(s) && Enabled(s, step) && !step.Fail? && !step.Kill?
    ensures LookPhase(Apply(s, step), n, d, present) && Apply(s, step).writes == s.writes
  {
  }

  lemma {:induction false} LookProceeds(states: seq<State>, steps: seq<Step>, i: nat, k: nat, n: string, d: Data)
    requires Behaviour(states, steps) && i < k <= |steps| && steps[i] == StartWrite(n, d)
    requires forall m :: i < m < k ==> Looking(states[m]) && !steps[m].Fail? && !steps[m].Kill?
    ensures LookPhase(states[k], n, d, Present(states[i].files, n)) && states[k].writes == states[i].writes
    decreases k
  {
    StepOf(states, steps, k - 1);
    hide *;
    if k == i + 1 {
      LookStarts(states[i], n, d);
    } else {
      LookProceeds(states, steps, i, k - 1, n, d);
      LookGoesOn(states[k - 1], steps[k - 1], n, d, Present(states[i].files, n));
    }
  }

  /** Two looks that do not fail end the operation if and only if the name had a file, loaded or not, when
      they began, and go on to the download otherwise, whatever the daemon renames meanwhile. */
  lemma {:induction false} LooksAreExact(states: seq<State>, steps: seq<Step>, i: nat, j: nat, n: string, d: Data)
    requires Behaviour(states, steps) && i < j <= |steps| && steps[i] == StartWrite(n, d) && !Looking(states[j])
    requires forall m :: i < m < j ==> Looking(states[m]) && !steps[m].Fail? && !steps[m].Kill?
    ensures states[j].at == if Present(states[i].files, n) then Idle else Fetching(n, d)
    ensures Present(states[j].files, n) <==> Present(states[i].files, n)
    ensures states[j].writes == states[i].writes
  {
    LookProceeds(states, steps, i, j, n, d);
  }

  /** How far a write has come. */
  ghost predicate WritePhase(s: State, n: string, d: Data, before: nat) {
    match s.at
    case Fetching(m, e) => m == n && e == d && s.writes[n] == before
    case OpenPart(m, e) => m == n && e == d && s.writes[n] == before
    case Writing(m, e, done) =>
      m == n && e == d && done <= |d| && Part(n) in s.files && s.files[Part(n)] == d[..done] && s.writes[n] == before
    case Replace(m, e) => m == n && e == d && Part(n) in s.files && s.files[Part(n)] == d && s.writes[n] == before
    case Idle => Watched(n) in s.files && s.files[Watched(n)] == d && Part(n) !in s.files && s.writes[n] == before + 1
    case _ => false
  }

  lemma WriteStarts(s: State, n: string, d: Data)
    requires s.at == Fetching(n, d)
    ensures WritePhase(s, n, d, s.writes[n])
  {
  }

  lemma WriteGoesOn(s: State, step: Step, n: string, d: Data, before: nat)
    requires WritePhase(s, n, d, before) && !s.at.Idle? && Enabled(s, step) && !step.Fail? && !step.Kill?
    ensures WritePhase(Apply(s, step), n, d, before)
  {
    if s.at.Writing? {
      assert s.at.data[..|d|] == d;
    }
  }

  lemma {:induction false} WriteProceeds(states: seq<State>, steps: seq<Step>, i: nat, j: nat, k: nat, n: string,
                                         d: Data)
    requires Undisturbed(states, steps, i, j) && i <= k <= j < |states| && states[i].at == Fetching(n, d)
    requires !steps[i].Fail? && !steps[i].Kill?
    ensures WritePhase(states[k], n, d, states[i].writes[n])
    decreases k
  {
    hide *;
    if k == i {
      WriteStarts(states[i], n, d);
    } else {
      UndisturbedStep(states, steps, i, j, k - 1);
      WriteProceeds(states, steps, i, j, k - 1, n, d);
      WriteGoesOn(states[k - 1], steps[k - 1], n, d, states[i].writes[n]);
    }
  }

  /** A download that is not disturbed ends with the whole data under the watched name, no part file, and
      one more completed write. */
  lemma {:induction false} WriteArrives(states: seq<State>, steps: seq<Step>, i: nat, j: nat, n: string, d: Data)
    requires Undisturbed(states, steps, i, j) && states[i].at == Fetching(n, d) && states[j].at.Idle?
    requires !steps[i].Fail? && !steps[i].Kill?
    ensures var t := states[j];
            && Watched(n) in t.files && t.files[Watched(n)] == d && Part(n) !in t.files
            && t.writes[n] == states[i].writes[n] + 1
  {
    WriteProceeds(states, steps, i, j, j, n, d);
  }

  /** A write is under way, or its part file is being dropped, or it is over without one. */
  ghost predicate PartPhase(s: State, n: string) {
    match s.at
    case OpenPart(m, _) => m == n
    case Writing(m, _, _) => m == n
    case Replace(m, _) => m == n
    case DropPart(m) => m == n
    case Idle => Part(n) !in s.files
    case _ => false
  }

  lemma PartGoesOn(s: State, step: Step, n: string)
    requires PartPhase(s, n) && !s.at.Idle? && Enabled(s, step) && !step.Kill? && !(step.Fail? && s.at.DropPart?)
    ensures PartPhase(Apply(s, step), n)
  {
  }

  /** From `i` on, before `j`, the script is not idle, nothing is killed and no part file fails to go. */
  ghost predicate PartCanGo(states: seq<State>, steps: seq<Step>, i: nat, j: nat) {
    && Behaviour(states, steps) && i <= j <= |steps|
    && forall k :: i <= k < j ==>
         !states[k].at.Idle? && !steps[k].Kill? && !(steps[k].Fail? && states[k].at.DropPart?)
  }

  lemma PartStep(states: seq<State>, steps: seq<Step>, i: nat, j: nat)
    requires PartCanGo(states, steps, i, j)
    ensures |states| == |steps| + 1 && j <= |steps|
    ensures i < j ==>
              && PartCanGo(states, steps, i, j - 1)
              && Enabled(states[j - 1], steps[j - 1]) && states[j] == Apply(states[j - 1], steps[j - 1])
              && !states[j - 1].at.Idle? && !steps[j - 1].Kill? && !(steps[j - 1].Fail? && states[j - 1].at.DropPart?)
  {
    if i < j {
      StepOf(states, steps, j - 1);
    }
  }

  lemma {:induction false} PartProceeds(states: seq<State>, steps: seq<Step>, i: nat, j: nat, n: string)
    requires PartCanGo(states, steps, i, j) && i < |states| && PartPhase(states[i], n)
    ensures j < |states| && PartPhase(states[j], n)
    decreases j
  {
    hide *;
    PartStep(states, steps, i, j);
    if i < j {
      PartProceeds(states, steps, i, j - 1, n);
      PartGoesOn(states[j - 1], steps[j - 1], n);
    } else {
      PartCanGoOrder(states, steps, i, j);
    }
  }

  lemma PartCanGoOrder(states: seq<State>, steps: seq<Step>, i: nat, j: nat)
    requires PartCanGo(states, steps, i, j)
    ensures i <= j
  {
  }

  /** Whatever else fails: a write that is not killed and can drop its part file leaves none. */
  lemma {:induction false} NoPartIsLeft(states: seq<State>, steps: seq<Step>, i: nat, j: nat, n: string)
    requires PartCanGo(states, steps, i, j) && states[j].at.Idle?
    requires states[i].at.OpenPart? && states[i].at.name == n
    ensures Part(n) !in states[j].files
  {
    assert PartPhase(states[i], n);
    PartProceeds(states, steps, i, j, n);
    PartIsOver(states[j], n);
  }

  lemma PartIsOver(s: State, n: string)
    requires PartPhase(s, n)
    ensures s.at.Idle? ==> Part(n) !in s.files
  {
  }

  /** A look that fails goes on as one that finds nothing. */
  lemma {:induction false} FailedLookIsAbsence(s: State)
    requires s.at.StatWatched? || s.at.StatAdded?
    ensures var p := if s.at.StatWatched? then Watched(s.at.name) else Added(s.at.name);
            Enabled(s, Fail) && Apply(s, Fail) == Apply(s.(files := s.files - {p}), Advance).(files := s.files)
  {
    var p := if s.at.StatWatched? then Watched(s.at.name) else Added(s.at.name);
    assert p !in s.files - {p};
  }

  /** A download that fails ends the operation and changes nothing in the directory. */
  lemma FailedDownloadWritesNothing(s: State)
    requires s.at.Fetching?
    ensures Enabled(s, Fail) && Apply(s, Fail) == s.(at := Idle)
  {
  }

  /** If the watched file cannot be removed, the loaded one still is. */
  lemma {:induction false} LoadedFileGoesAnyway(s: State, n: string)
    requires s.at == RemoveWatched(n)
    ensures Enabled(s, Fail) && Enabled(Apply(s, Fail), Advance)
    ensures var t := Apply(Apply(s, Fail), Advance);
            t.at == Idle && Added(n) !in t.files && (Watched(n) in t.files <==> Watched(n) in s.files)
  {
  }

  predicate EndsIn(text: string, ending: string) {
    |text| >= |ending| && text[|text| - |ending|..] == ending
  }

  /** The daemon picks up what ends in ".torrent": of the three files of a name the watched one only. The
      loaded one has that name and ".added" behind it, the part file is hidden. */
  lemma {:induction false} OnlyWatchedFilesAreSeen(p: Path)
    ensures EndsIn(FileName(p), ".torrent") <==> p.Watched?
    ensures p.Added? ==> FileName(p) == FileName(Watched(p.name)) + ".added"
    ensures p.Part? ==> FileName(p) == "." + FileName(Watched(p.name)) + ".part"
  {
    var f := FileName(p);
    LastChars(p);
    assert ".torrent"[7] == 't' && ".torrent"[4] == 'r';
    if EndsIn(f, ".torrent") {
      var tail := f[|f| - 8..];
      assert tail[7] == f[|f| - 1] && tail[4] == f[|f| - 4];
    }
    match p
    case Watched(n) => assert f[|f| - 8..] == ".torrent";
    case Added(n) => assert n + ".torrent.added" == n + ".torrent" + ".added";
    case Part(n) => assert "." + n + ".torrent.part" == "." + (n + ".torrent") + ".part";
  }

  /** A safe name is one step down from the directory and stays there: neither separator cuts it, and it is
      neither empty nor one of the two dot entries. */
  lemma {:induction false} SafeNamesStayInside(name: string)
    ensures SafeName(name) <==>
              && (forall k :: 0 <= k < |name| ==> name[k] != '/' && name[k] != '\\')
              && name != [] && name != ['.'] && name != ['.', '.']
  {
  }

  // ---------------------------------------------------------------------------
  // The order of the two checks, and of the two removals
  /** The script never works on an unsafe name, and none it started from gets a file the daemon sees. */
  lemma {:induction false} UnsafeNamesGetNoFile(states: seq<State>, steps: seq<Step>, k: nat, name: string)
    requires Behaviour(states, steps) && k < |states| && !SafeName(name)
    ensures !Present(states[k].files, name)
    ensures !states[k].at.Idle? ==> states[k].at.name != name
  {
    if k > 0 {
      UnsafeNamesGetNoFile(states, steps, k - 1, name);
      StepOf(states, steps, k - 1);
      hide Behaviour, SafeName;
      StaysAway(states[k - 1], steps[k - 1], name);
    }
  }

  lemma StaysAway(s: State, step: Step, name: string)
    requires Enabled(s, step) && !SafeName(name)
    requires !Present(s.files, name) && (!s.at.Idle? ==> s.at.name != name)
    ensures var t := Apply(s, step); !Present(t.files, name) && (!t.at.Idle? ==> t.at.name != name)
  {
    match step
    case Advance => TouchesOneName(s, name);
    case StartWrite(n, _) => assert n != name;
    case StartRemove(n) => assert n != name;
    case _ => hide SafeName;
  }

  lemma TouchesOneName(s: State, name: string)
    requires Enabled(s, Advance) && s.at.name != name
    ensures var t := Succeed(s);
            (Present(t.files, name) <==> Present(s.files, name)) && (!t.at.Idle? ==> t.at.name == s.at.name)
  {
    match s.at
    case Replace(_, _) => ReplacesOneName(s, name);
    case RemoveWatched(_) => RemovesOneName(s, name);
    case RemoveAdded(_, _) => RemovesOneName(s, name);
    case _ =>
  }

  lemma ReplacesOneName(s: State, name: string)
    requires Enabled(s, Advance) && s.at.Replace? && s.at.name != name
    ensures var t := Succeed(s);
            (Present(t.files, name) <==> Present(s.files, name)) && (!t.at.Idle? ==> t.at.name == s.at.name)
  {
  }

  lemma RemovesOneName(s: State, name: string)
    requires Enabled(s, Advance) && (s.at.RemoveWatched? || s.at.RemoveAdded?) && s.at.name != name
    ensures var t := Succeed(s);
            (Present(t.files, name) <==> Present(s.files, name)) && (!t.at.Idle? ==> t.at.name == s.at.name)
  {
  }

  // ---------------------------------------------------------------------------

  function RenamedAll(files: Files, names: seq<string>): Files
    decreases |names|
  {
    if names == [] then files else RenamedAll(Renamed(files, names[0]), names[1..])
  }

  lemma {:induction false} RenamesKeepPresence(files: Files, names: seq<string>, name: string)
    ensures Present(RenamedAll(files, names), name) <==> Present(files, name)
    ensures Added(name) in files ==> Added(name) in RenamedAll(files, names)
    ensures Watched(name) !in files ==> Watched(name) !in RenamedAll(files, names)
    decreases |names|
  {
    if names != [] {
      RenamesKeepPresence(Renamed(files, names[0]), names[1..], name);
    }
  }

  /** `_watch_file_present`, the daemon renaming before, between and after the two checks. */
  function WatchFilePresent(files: Files, name: string, before: seq<string>, between: seq<string>): bool {
    var first := RenamedAll(files, before);
    Watched(name) in first || Added(name) in RenamedAll(first, between)
  }

  /** The check never misses a file and never invents one, whatever the daemon renames meanwhile. */
  lemma PresenceCheckIsExact(files: Files, name: string, before: seq<string>, between: seq<string>)
    ensures WatchFilePresent(files, name, before, between) <==> Present(files, name)
  {
    var first := RenamedAll(files, before);
    RenamesKeepPresence(files, before, name);
    RenamesKeepPresence(first, between, name);
  }

  /** In the other order the check misses exactly the files renamed between the two looks. */
  lemma ReversedCheckMisses(files: Files, name: string)
    requires Watched(name) in files && Added(name) !in files
    ensures Present(files, name)
    ensures !(Added(name) in files || Watched(name) in RenamedAll(files, [name]))
  {
    assert [name][1..] == [];
    assert RenamedAll(files, [name]) == RenamedAll(Renamed(files, name), []);
  }

  /** `_remove_watch_file` without an OSError leaves neither file, whatever the daemon renames meanwhile. */
  lemma RemovalLeavesNeither(files: Files, name: string, before: seq<string>, between: seq<string>, after: seq<string>)
    ensures var one := RenamedAll(files, before) - {Watched(name)};
            var two := RenamedAll(one, between) - {Added(name)};
            !Present(RenamedAll(two, after), name)
  {
    var one := RenamedAll(files, before) - {Watched(name)};
    RenamesKeepPresence(one, between, name);
    var two := RenamedAll(one, between) - {Added(name)};
    RenamesKeepPresence(two, after, name);
  }

  /** In the other order a rename between the two removals saves the file. */
  lemma ReversedRemovalLeavesAFile(files: Files, name: string)
    requires Watched(name) in files
    ensures Present(RenamedAll(files - {Added(name)}, [name]) - {Watched(name)}, name)
  {
    assert [name][1..] == [];
    var one := files - {Added(name)};
    assert RenamedAll(one, [name]) == RenamedAll(Renamed(one, name), []);
  }
}
