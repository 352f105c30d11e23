/** Numbers over whole runs: calls one after another with prunes between them, and calls that interleave. */
module UploadNumbering {
  import opened Wrappers
  import opened Strings
  import opened Uploads
  import opened UploadLaws

  // ---------------------------------------------------------------- one call after another

  /** What may happen to the uploads: a numbered upload, a prune, or a file appearing in some other way. */
  datatype Event =
    | Assign(dir: string, suffix: string, info: Info)
    | Prune(walk: seq<Place>, protect: set<Place>, stuck: set<Place>)
    | Appear(place: Place, info: Info)

  ghost predicate Possible(tree: UploadTree, e: Event) {
    match e
    case Assign(_, suffix, _) => IsSuffix(suffix)
    case Prune(walk, _, _) => ListsFiles(walk, tree)
    case Appear(_, _) => true
  }

  /** The number the allocator hands out when nothing else happens meanwhile. */
  ghost function NumberFor(tree: UploadTree, dir: string, suffix: string): Option<nat> {
    FirstFree(tree, dir, suffix, Highest(tree.NamesIn(dir)), 0)
  }

  ghost function After(tree: UploadTree, e: Event): UploadTree
    requires Possible(tree, e)
  {
    match e
    case Assign(dir, suffix, info) =>
      var n := NumberFor(tree, dir, suffix);
      if n.Some? then Assigned(tree, dir, n.value, suffix, info) else tree
    case Prune(walk, protect, stuck) => Pruned(tree, walk, protect, stuck)
    case Appear(place, info) => tree.(files := tree.files[place := info])
  }

  ghost predicate PossibleRun(tree: UploadTree, run: seq<Event>)
    decreases |run|
  {
    |run| == 0 || (Possible(tree, run[0]) && PossibleRun(After(tree, run[0]), run[1..]))
  }

  ghost function AfterRun(tree: UploadTree, run: seq<Event>): UploadTree
    requires PossibleRun(tree, run)
    decreases |run|
  {
    if |run| == 0 then tree else AfterRun(After(tree, run[0]), run[1..])
  }

  /** Alone in its directory the allocator hands out the greatest number plus one, at its first try. */
  lemma FirstTrySucceeds(tree: UploadTree, dir: string, suffix: string)
    requires IsSuffix(suffix)
    ensures NumberFor(tree, dir, suffix) == Some(Highest(tree.NamesIn(dir)) + 1)
  {
    var h := Highest(tree.NamesIn(dir));
    NumberOfName(h + 1, suffix);
    hide NumberOf, NumberedName, Highest, UploadTree.NamesIn;
    NameIsIn(tree, dir, NumberedName(h + 1, suffix));
  }

  lemma NamesAfterAssign(tree: UploadTree, dir: string, n: nat, suffix: string, info: Info, d: string)
    ensures Assigned(tree, dir, n, suffix, info).NamesIn(d)
         == tree.NamesIn(d) + if d == dir then {NumberedName(n, suffix)} else {}
  {
    hide NumberedName;
  }

  lemma NamesAfterAppear(tree: UploadTree, p: Place, info: Info, d: string)
    ensures tree.(files := tree.files[p := info]).NamesIn(d) == tree.NamesIn(d) + if d == p.dir then {p.name} else {}
  {
  }

  /** No event lowers the highest number of a directory, and handing out a number raises it to that number. */
  lemma StepRaisesHighest(tree: UploadTree, e: Event, dir: string)
    requires Possible(tree, e)
    ensures Highest(tree.NamesIn(dir)) <= Highest(After(tree, e).NamesIn(dir))
    ensures e.Assign? && e.dir == dir ==> Highest(After(tree, e).NamesIn(dir)) == Highest(tree.NamesIn(dir)) + 1
  {
    hide NumberOf, NumberedName, Highest, UploadTree.NamesIn, Pruned, ListsFiles, NumberFor;
    match e
    case Assign(d, suffix, info) =>
      FirstTrySucceeds(tree, d, suffix);
      var n := Highest(tree.NamesIn(d)) + 1;
      NamesAfterAssign(tree, d, n, suffix, info, dir);
      HighestGrows(tree.NamesIn(dir), After(tree, e).NamesIn(dir));
      if d == dir {
        NumberOfName(n, suffix);
        HighestIsUnique(n, After(tree, e).NamesIn(dir));
      }
    case Prune(walk, protect, stuck) =>
      PruneKeepsHighest(tree, walk, protect, stuck, dir);
    case Appear(p, info) =>
      NamesAfterAppear(tree, p, info, dir);
      HighestGrows(tree.NamesIn(dir), After(tree, e).NamesIn(dir));
  }

  lemma {:induction false} RunRaisesHighest(tree: UploadTree, run: seq<Event>, dir: string)
    requires PossibleRun(tree, run)
    ensures Highest(tree.NamesIn(dir)) <= Highest(AfterRun(tree, run).NamesIn(dir))
    decreases |run|
  {
    hide Possible, Highest, UploadTree.NamesIn, After;
    if |run| > 0 {
      StepRaisesHighest(tree, run[0], dir);
      RunRaisesHighest(After(tree, run[0]), run[1..], dir);
    }
  }

  /** Whatever uploads and prunes lie between two numbered uploads to a directory, the later number is greater. */
  lemma NumbersIncrease(tree: UploadTree, first: Event, between: seq<Event>, second: Event)
    requires first.Assign? && second.Assign? && first.dir == second.dir && IsSuffix(second.suffix)
    requires Possible(tree, first) && PossibleRun(After(tree, first), between)
    ensures NumberFor(tree, first.dir, first.suffix).Some?
    ensures NumberFor(AfterRun(After(tree, first), between), second.dir, second.suffix).Some?
    ensures NumberFor(tree, first.dir, first.suffix).value
          < NumberFor(AfterRun(After(tree, first), between), second.dir, second.suffix).value
  {
    FirstTrySucceeds(tree, first.dir, first.suffix);
    StepRaisesHighest(tree, first, first.dir);
    RunRaisesHighest(After(tree, first), between, first.dir);
    FirstTrySucceeds(AfterRun(After(tree, first), between), second.dir, second.suffix);
  }

  // ---------------------------------------------------------------- calls that interleave

  /** Where a call is: not started, trying names above the number it read, done, or out of tries. `seen` is what the
      directory held when it was read. */
  datatype Phase =
    | Waiting
    | Trying(base: nat, attempt: nat, seen: set<string>)
    | Named(number: nat, seen: set<string>)
    | GaveUp

  datatype Call = Call(suffix: string, phase: Phase)

  /** One directory and the calls that upload to it, with the names they have created. */
  datatype System = System(names: set<string>, calls: seq<Call>, made: seq<string>)

  datatype Step = Read(call: nat) | Try(call: nat) | Other(name: string)

  function CallName(c: Call): string
    requires c.phase.Named?
  {
    NumberedName(c.phase.number, c.suffix)
  }

  /** `highest_upload_number` reads the directory; each try is one `O_EXCL` open; other names may appear at any time. */
  ghost function Take(s: System, step: Step): System {
    match step
    case Other(name) => s.(names := s.names + {name})
    case Read(i) =>
      if i < |s.calls| && s.calls[i].phase.Waiting?
      then s.(calls := s.calls[i := s.calls[i].(phase := Trying(Highest(s.names), 0, s.names))]) else s
    case Try(i) =>
      if i < |s.calls| && s.calls[i].phase.Trying? then
        var Call(suffix, Trying(base, attempt, seen)) := s.calls[i];
        var name := NumberedName(base + 1 + attempt, suffix);
        if attempt >= MAX_TRIES then s.(calls := s.calls[i := Call(suffix, GaveUp)])
        else if name in s.names then s.(calls := s.calls[i := Call(suffix, Trying(base, attempt + 1, seen))])
        else System(s.names + {name}, s.calls[i := Call(suffix, Named(base + 1 + attempt, seen))], s.made + [name])
      else s
  }

  ghost function TakeAll(s: System, steps: seq<Step>): System {
    if |steps| == 0 then s else Take(TakeAll(s, steps[..|steps| - 1]), steps[|steps| - 1])
  }

  ghost predicate Starts(s: System) {
    s.made == [] && forall c :: c in s.calls ==> c.phase.Waiting? && IsSuffix(c.suffix)
  }

  /** What holds of the system at any time: the names given out are distinct, were free, and their numbers exceed
      every number the call had seen. */
  ghost predicate Safe(s: System, initial: set<string>) {
    && initial <= s.names
    && (forall c :: c in s.calls ==> CallSafe(s, initial, c))
    && (forall i, j :: 0 <= i < j < |s.calls| && s.calls[i].phase.Named? && s.calls[j].phase.Named? ==>
          CallName(s.calls[i]) != CallName(s.calls[j]))
    && (forall i, j :: 0 <= i < j < |s.made| ==> s.made[i] != s.made[j])
    && (forall name :: name in s.made ==> name in s.names && name !in initial)
  }

  ghost predicate CallSafe(s: System, initial: set<string>, c: Call) {
    && IsSuffix(c.suffix)
    && (c.phase.Trying? ==> initial <= c.phase.seen <= s.names && IsHighest(c.phase.base, c.phase.seen))
    && (c.phase.Named? ==>
          && CallName(c) in s.made
          && initial <= c.phase.seen
          && NumberOf(CallName(c)) == Some(c.phase.number)
          && forall name :: name in c.phase.seen && NumberOf(name).Some? ==> NumberOf(name).value < c.phase.number)
  }

  lemma ReplaceCall(s: System, t: System, initial: set<string>, i: nat)
    requires Safe(s, initial) && i < |s.calls| && |t.calls| == |s.calls|
    requires s.names <= t.names && s.made <= t.made
    requires forall j :: 0 <= j < |s.calls| && j != i ==> t.calls[j] == s.calls[j]
    requires CallSafe(t, initial, t.calls[i])
    ensures forall c :: c in t.calls ==> CallSafe(t, initial, c)
  {
    hide NumberOf, NumberedName, IsSuffix, IsHighest;
    forall c | c in t.calls
      ensures CallSafe(t, initial, c)
    {
      var j :| 0 <= j < |t.calls| && t.calls[j] == c;
      if j != i {
        assert c in s.calls;
        assert c.phase.Named? ==> CallName(c) in s.made && CallName(c) in t.made;
      }
    }
  }

  lemma TriedCallIsSafe(s: System, i: nat, initial: set<string>)
    requires Safe(s, initial) && i < |s.calls| && s.calls[i].phase.Trying?
    ensures var t := Take(s, Try(i)); CallSafe(t, initial, t.calls[i]) && s.names <= t.names && s.made <= t.made
  {
    hide NumberOf, NumberedName, IsSuffix;
    var c := s.calls[i];
    assert c in s.calls && CallSafe(s, initial, c);
    hide Safe;
    NumberOfName(c.phase.base + 1 + c.phase.attempt, c.suffix);
  }

  lemma MadeStaySafe(s: System, i: nat, initial: set<string>)
    requires Safe(s, initial) && i < |s.calls| && s.calls[i].phase.Trying?
    ensures var t := Take(s, Try(i));
      && (forall j, k :: 0 <= j < k < |t.made| ==> t.made[j] != t.made[k])
      && (forall name :: name in t.made ==> name in t.names && name !in initial)
  {
    hide NumberedName, CallSafe;
  }

  lemma NamesStayDistinct(s: System, i: nat, initial: set<string>)
    requires Safe(s, initial) && i < |s.calls| && s.calls[i].phase.Trying?
    ensures var t := Take(s, Try(i));
      forall j :: 0 <= j < |t.calls| && j != i && t.calls[j].phase.Named? && t.calls[i].phase.Named? ==>
        CallName(t.calls[j]) != CallName(t.calls[i])
  {
    hide NumberedName, IsSuffix, NumberOf;
    var t := Take(s, Try(i));
    forall j | 0 <= j < |t.calls| && j != i && t.calls[j].phase.Named? && t.calls[i].phase.Named?
      ensures CallName(t.calls[j]) != CallName(t.calls[i])
    {
      assert s.calls[j] in s.calls;
      assert CallName(s.calls[j]) in s.made;
    }
  }

  lemma TryKeepsSafe(s: System, i: nat, initial: set<string>)
    requires Safe(s, initial) && i < |s.calls| && s.calls[i].phase.Trying?
    ensures Safe(Take(s, Try(i)), initial)
  {
    hide NumberOf, NumberedName, IsSuffix, CallSafe, CallName;
    TriedCallIsSafe(s, i, initial);
    ReplaceCall(s, Take(s, Try(i)), initial, i);
    MadeStaySafe(s, i, initial);
    NamesStayDistinct(s, i, initial);
  }

  lemma StepKeepsSafe(s: System, step: Step, initial: set<string>)
    requires Safe(s, initial)
    ensures Safe(Take(s, step), initial)
  {
    hide NumberOf, NumberedName, IsSuffix, Highest;
    var t := Take(s, step);
    match step
    case Other(name) =>
      forall c | c in t.calls
        ensures CallSafe(t, initial, c)
      {
        assert CallSafe(s, initial, c);
      }
    case Read(i) =>
      if i < |s.calls| && s.calls[i].phase.Waiting? {
        assert s.calls[i] in s.calls;
        assert CallSafe(t, initial, t.calls[i]);
        ReplaceCall(s, t, initial, i);
      }
    case Try(i) =>
      if i < |s.calls| && s.calls[i].phase.Trying? {
        TryKeepsSafe(s, i, initial);
      }
  }

  /** In every interleaving of reads, tries and other files appearing, no two calls get the same name, no file that
      was there is made, and every number exceeds all numbers present when its call read the directory. */
  lemma {:induction false} RunIsSafe(s: System, steps: seq<Step>)
    requires Starts(s)
    ensures Safe(TakeAll(s, steps), s.names)
  {
    if |steps| == 0 {
    } else {
      RunIsSafe(s, steps[..|steps| - 1]);
      StepKeepsSafe(TakeAll(s, steps[..|steps| - 1]), steps[|steps| - 1], s.names);
    }
  }

  // ---------------------------------------------------------------- when numbers are shared

  /** No two calls that were given a name have the same number. */
  ghost predicate NumbersDistinct(s: System) {
    forall i, j :: 0 <= i < j < |s.calls| && s.calls[i].phase.Named? && s.calls[j].phase.Named? ==>
      s.calls[i].phase.number != s.calls[j].phase.number
  }

  ghost predicate SameSuffix(s: System) {
    forall i, j :: 0 <= i < j < |s.calls| ==> s.calls[i].suffix == s.calls[j].suffix
  }

  lemma {:induction false} SuffixesStay(s: System, steps: seq<Step>)
    ensures var t := TakeAll(s, steps);
      |t.calls| == |s.calls| && forall i :: 0 <= i < |s.calls| ==> t.calls[i].suffix == s.calls[i].suffix
  {
    hide NumberedName, Highest;
    if |steps| > 0 {
      SuffixesStay(s, steps[..|steps| - 1]);
    }
  }

  lemma {:induction false} OneMore(s: System, steps: seq<Step>, step: Step)
    ensures TakeAll(s, steps + [step]) == Take(TakeAll(s, steps), step)
  {
    assert (steps + [step])[..|steps|] == steps;
    hide Take;
  }

  lemma FourSteps(s: System, a: Step, b: Step, c: Step, d: Step)
    ensures TakeAll(s, [] + [a] + [b] + [c] + [d]) == Take(Take(Take(Take(s, a), b), c), d)
  {
    hide Take;
    OneMore(s, [], a);
    OneMore(s, [] + [a], b);
    OneMore(s, [] + [a] + [b], c);
    OneMore(s, [] + [a] + [b] + [c], d);
  }

  /** Two calls that read before either of them tries. */
  function ReadBoth(i: nat, j: nat): seq<Step> {
    [] + [Read(i)] + [Read(j)] + [Try(i)] + [Try(j)]
  }

  lemma NextIsFree(names: set<string>, suffix: string)
    requires IsSuffix(suffix)
    ensures NumberedName(Highest(names) + 1, suffix) !in names
  {
    hide NumberOf, NumberedName, Highest, IsSuffix;
    NumberOfName(Highest(names) + 1, suffix);
  }

  /** With different suffixes both get the number above the highest. */
  lemma BothGetTheNext(s: System, i: nat, j: nat)
    requires Starts(s) && i < j < |s.calls| && s.calls[i].suffix != s.calls[j].suffix
    ensures !NumbersDistinct(TakeAll(s, ReadBoth(i, j)))
  {
    hide IsSuffix, Highest;
    var a, b := s.calls[i].suffix, s.calls[j].suffix;
    assert s.calls[i] in s.calls && s.calls[j] in s.calls;
    var h := Highest(s.names);
    NextIsFree(s.names, a);
    NextIsFree(s.names, b);
    assert NumberedName(h + 1, a) != NumberedName(h + 1, b) by {
      DifferentSuffixes(h + 1, a, b);
    }
    FourSteps(s, Read(i), Read(j), Try(i), Try(j));
    var reading := Trying(h, 0, s.names);
    var s2 := Take(Take(s, Read(i)), Read(j));
    assert s2 == s.(calls := s.calls[i := Call(a, reading)][j := Call(b, reading)]);
    hide Take, NumberedName, TakeAll;
    TryTheNext(s2, i, a, h, s.names);
    var s3 := Take(s2, Try(i));
    TryTheNext(s3, j, b, h, s.names);
    var s4 := Take(s3, Try(j));
    assert s4.calls[i] == Call(a, Named(h + 1, s.names)) && s4.calls[j] == Call(b, Named(h + 1, s.names));
  }

  lemma TryTheNext(s: System, i: nat, suffix: string, base: nat, seen: set<string>)
    requires i < |s.calls| && s.calls[i] == Call(suffix, Trying(base, 0, seen)) && NumberedName(base + 1, suffix) !in s.names
    ensures var name := NumberedName(base + 1, suffix);
      Take(s, Try(i)) == System(s.names + {name}, s.calls[i := Call(suffix, Named(base + 1, seen))], s.made + [name])
  {
    hide NumberedName;
  }

  lemma DifferentSuffixes(n: nat, a: string, b: string)
    requires a != b
    ensures NumberedName(n, a) != NumberedName(n, b)
  {
    assert NumberedName(n, a)[|Decimal(n)|..] == a;
    assert NumberedName(n, b)[|Decimal(n)|..] == b;
  }

  /** Only names are reserved: no two calls ever get the same number, in whatever way they interleave, exactly when all
      of them upload files with the same extension. */
  lemma NumbersAreDistinctIff(s: System)
    requires Starts(s)
    ensures (forall steps :: NumbersDistinct(TakeAll(s, steps))) <==> SameSuffix(s)
  {
    hide Starts, TakeAll, NumbersDistinct, SameSuffix;
    if SameSuffix(s) {
      forall steps
        ensures NumbersDistinct(TakeAll(s, steps))
      {
        SameSuffixIsSafe(s, steps);
      }
    } else {
      var i, j := SomewhereDifferent(s);
      BothGetTheNext(s, i, j);
      assert !NumbersDistinct(TakeAll(s, ReadBoth(i, j)));
    }
  }

  lemma SomewhereDifferent(s: System) returns (i: nat, j: nat)
    requires !SameSuffix(s)
    ensures i < j < |s.calls| && s.calls[i].suffix != s.calls[j].suffix
  {
    i, j :| 0 <= i < j < |s.calls| && s.calls[i].suffix != s.calls[j].suffix;
  }

  lemma SameSuffixIsSafe(s: System, steps: seq<Step>)
    requires Starts(s) && SameSuffix(s)
    ensures NumbersDistinct(TakeAll(s, steps))
  {
    hide NumberedName, CallSafe, TakeAll;
    RunIsSafe(s, steps);
    SuffixesStay(s, steps);
  }

  /** For example "x.md" and "y.txt", uploaded to an empty directory. */
  lemma NumbersMayBeShared()
    ensures var s := System({}, [Call(".md", Waiting), Call(".txt", Waiting)], []);
      Starts(s) && !NumbersDistinct(TakeAll(s, ReadBoth(0, 1)))
  {
    var s := System({}, [Call(".md", Waiting), Call(".txt", Waiting)], []);
    assert |s.calls[0].suffix| != |s.calls[1].suffix|;
    BothGetTheNext(s, 0, 1);
  }
}
