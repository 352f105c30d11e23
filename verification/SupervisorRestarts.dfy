/** That the supervisor does restart: no service is given up before its restarts are spent. */
module SupervisorRestarts {
  import opened Wrappers
  import opened Supervisor

  /** An unexpected exit sets the timer, with one restart more on the count and the next delay, exactly when restarts are
      left; any other exit sets none. */
  lemma ExitRestartsIff(limits: Limits, s: State, name: Service, id: nat)
    requires Inv(limits, s) && Enabled(s, Exit(name, id))
    ensures var r, t := s.Get(name), Step(limits, s, Exit(name, id)).Get(name);
      && t.live == {} && t.child == r.child && t.attempts == r.attempts
      && (t.timer <==> !r.expectedExit && !s.stopping && r.restarts < limits.maxRestarts)
      && (t.timer ==> t.restarts == r.restarts + 1
                      && t.delays == r.delays + [Min(limits.baseDelay * Pow2(r.restarts), limits.maxDelay)])
      && (!t.timer ==> t.restarts == r.restarts && t.delays == r.delays)
  {
  }

  /** A timer that fires spawns: a process that runs is the child from then on, and when the spawn throws the timer is set
      again exactly when restarts are left. */
  lemma TimerSpawns(limits: Limits, s: State, name: Service, spawn: Spawn)
    requires Inv(limits, s) && Enabled(s, Timer(name, spawn))
    ensures var r, t := s.Get(name), Step(limits, s, Timer(name, spawn)).Get(name);
      && t.attempts == r.attempts + 1
      && (spawn.Runs? ==> t.live == {s.nextId} && t.child == Some(s.nextId) && !t.timer && !t.expectedExit
                          && t.restarts == r.restarts)
      && (spawn.NeverRuns? ==> t.live == {} && t.child == Some(s.nextId) && !t.timer)
      && (spawn.Throws? ==> t.live == {} && t.child == r.child && (t.timer <==> r.restarts < limits.maxRestarts))
  {
    hide BackoffDelay;
  }

  /** A start that takes effect spawns both services. */
  lemma StartSpawnsBoth(limits: Limits, s: State)
    requires Inv(limits, s) && !s.started
    ensures var t := Step(limits, s, Starts(Runs, Runs));
      && t.started && !t.stopping
      && t.router.live == {s.nextId} && t.router.child == Some(s.nextId) && !t.router.expectedExit
      && t.harness.live == {s.nextId + 1} && t.harness.child == Some(s.nextId + 1) && !t.harness.expectedExit
  {
    hide BackoffDelay;
  }

  // ---------------------------------------------------------------- over whole runs

  /** While the services are to run, one without a process waits for its timer or has spent its restarts, and the exit of
      one with a process would not be expected. */
  ghost predicate Cared(limits: Limits, s: State) {
    s.started && !s.stopping ==> CaredFor(limits, s.router) && CaredFor(limits, s.harness)
  }

  predicate CaredFor(limits: Limits, r: Child) {
    if r.live == {} then r.timer || r.restarts == limits.maxRestarts else !r.expectedExit
  }

  /** No process spawned here fails to come to life without a word. */
  predicate Lively(e: Event) {
    match e
    case Starts(router, harness) => !router.NeverRuns? && !harness.NeverRuns?
    case Timer(_, spawn) => !spawn.NeverRuns?
    case _ => true
  }

  lemma StartCares(limits: Limits, s: State, name: Service, spawn: Spawn)
    requires !s.stopping && !spawn.NeverRuns? && s.Get(name).restarts <= limits.maxRestarts && s.Get(name).live == {}
    ensures CaredFor(limits, StartService(limits, s, name, spawn).Get(name))
  {
    hide BackoffDelay;
  }

  lemma Restarts(limits: Limits, s: State)
    requires Inv(limits, s)
    ensures s.router.restarts <= limits.maxRestarts && s.harness.restarts <= limits.maxRestarts
    ensures s.router.timer || s.harness.timer ==> !s.stopping
    ensures s.router.timer ==> s.router.live == {}
    ensures s.harness.timer ==> s.harness.live == {}
  {
    hide BackoffDelay;
  }

  lemma StartsCare(limits: Limits, s: State, router: Spawn, harness: Spawn)
    requires Inv(limits, s) && Cared(limits, s) && Lively(Starts(router, harness))
    ensures Cared(limits, Start(limits, s, router, harness))
  {
    hide BackoffDelay, StartService, CaredFor, ChildOk;
    Restarts(limits, s);
    if !s.started {
      var s1 := s.(stopping := false, started := true, starts := s.starts + 1);
      StartCares(limits, s1, Router, router);
      StartFrame(limits, s1, Router, router);
      var s2 := StartService(limits, s1, Router, router);
      StartCares(limits, s2, Harness, harness);
      StartFrame(limits, s2, Harness, harness);
    }
  }

  lemma TimerCares(limits: Limits, s: State, name: Service, spawn: Spawn)
    requires Inv(limits, s) && Cared(limits, s) && s.Get(name).timer && !spawn.NeverRuns?
    ensures Cared(limits, TimerFires(limits, s, name, spawn))
  {
    hide BackoffDelay, StartService, CaredFor, ChildOk;
    Restarts(limits, s);
    var s1 := s.Put(name, s.Get(name).(timer := false));
    StartCares(limits, s1, name, spawn);
    StartFrame(limits, s1, name, spawn);
  }

  lemma ExitCares(limits: Limits, s: State, name: Service, id: nat)
    requires Inv(limits, s) && Cared(limits, s) && id in s.Get(name).live
    ensures Cared(limits, Exits(limits, s, name, id))
  {
    hide BackoffDelay;
  }

  lemma StepCares(limits: Limits, s: State, e: Event)
    requires Inv(limits, s) && Cared(limits, s) && Enabled(s, e) && Lively(e)
    ensures Cared(limits, Step(limits, s, e))
  {
    hide Inv, Start, TimerFires, Exits, CaredFor;
    match e
    case Starts(router, harness) => StartsCare(limits, s, router, harness);
    case Timer(name, spawn) => TimerCares(limits, s, name, spawn);
    case Exit(name, id) => ExitCares(limits, s, name, id);
    case _ =>
  }

  lemma {:induction false} RunCares(limits: Limits, s: State, run: seq<Event>)
    requires Inv(limits, s) && Cared(limits, s) && Possible(limits, s, run) && OrderlyRun(limits, s, run)
    requires forall e :: e in run ==> Lively(e)
    ensures Cared(limits, AfterRun(limits, s, run))
    decreases |run|
  {
    hide Inv, Step, Cared, Lively;
    if |run| > 0 {
      assert run[0] in run;
      StepKeeps(limits, s, run[0]);
      StepCares(limits, s, run[0]);
      RunCares(limits, Step(limits, s, run[0]), run[1..]);
    }
  }

  /** Over every orderly run: while the services are to run, one without a process has its restart pending or has had all
      its restarts, and once a stop is over no process is left and no restart pending. */
  lemma NeverGivenUp(limits: Limits, run: seq<Event>, name: Service)
    requires Possible(limits, INITIAL, run) && OrderlyRun(limits, INITIAL, run)
    requires forall e :: e in run ==> Lively(e)
    ensures var s := AfterRun(limits, INITIAL, run);
      && (s.started && !s.stopping && s.Get(name).live == {} ==> s.Get(name).timer || s.Get(name).restarts == limits.maxRestarts)
      && (!s.started ==> s.Get(name).live == {} && !s.Get(name).timer)
  {
    hide AfterRun, Possible, OrderlyRun, BackoffDelay, Lively;
    RunKeeps(limits, INITIAL, run);
    RunCares(limits, INITIAL, run);
  }

  // ---------------------------------------------------------------- a service that keeps crashing

  /** `n` crashes, each followed by its restart; `id` runs first and the others have the numbers from `next` on. */
  function Crashes(name: Service, id: nat, next: nat, n: nat): seq<Event>
    decreases n
  {
    if n == 0 then [] else [Exit(name, id), Timer(name, Runs)] + Crashes(name, next, next + 1, n - 1)
  }

  /** The process runs as the service's child, and its end is not expected. */
  predicate RunsAs(s: State, name: Service, id: nat) {
    var r := s.Get(name);
    r.live == {id} && r.child == Some(id) && !r.expectedExit && !s.stopping
  }

  lemma CrashOnce(limits: Limits, s: State, name: Service, id: nat)
    requires Inv(limits, s) && RunsAs(s, name, id) && s.Get(name).restarts < limits.maxRestarts
    ensures var s1 := Step(limits, s, Exit(name, id));
      && Inv(limits, s1) && Enabled(s1, Timer(name, Runs))
      && var s2 := Step(limits, s1, Timer(name, Runs));
      && Inv(limits, s2) && RunsAs(s2, name, s.nextId) && s2.nextId == s.nextId + 1
      && s2.Get(name).restarts == s.Get(name).restarts + 1
  {
    StepKeeps(limits, s, Exit(name, id));
    ExitRestartsIff(limits, s, name, id);
    var s1 := Step(limits, s, Exit(name, id));
    StepKeeps(limits, s1, Timer(name, Runs));
    TimerSpawns(limits, s1, name, Runs);
    hide BackoffDelay, ChildOk;
  }

  /** A service that keeps crashing is up again after every crash as long as restarts are left, and after its last restart
      one more crash leaves it down without a timer. */
  lemma {:induction false} CrashesAreMended(limits: Limits, s: State, name: Service, id: nat, n: nat)
    requires Inv(limits, s) && RunsAs(s, name, id) && s.Get(name).restarts + n <= limits.maxRestarts
    ensures var run := Crashes(name, id, s.nextId, n);
      && Possible(limits, s, run)
      && var t := AfterRun(limits, s, run);
      && Inv(limits, t) && RunsAs(t, name, if n == 0 then id else s.nextId + n - 1)
      && t.Get(name).restarts == s.Get(name).restarts + n
    decreases n
  {
    hide Inv, RunsAs, Step, Enabled;
    var run := Crashes(name, id, s.nextId, n);
    if n > 0 {
      CrashOnce(limits, s, name, id);
      CanExit(s, name, id);
      var s1 := Step(limits, s, Exit(name, id));
      var s2 := Step(limits, s1, Timer(name, Runs));
      var rest := Crashes(name, s.nextId, s.nextId + 1, n - 1);
      CrashesAreMended(limits, s2, name, s.nextId, n - 1);
      assert run[1..][1..] == rest && run[1..][0] == Timer(name, Runs);
    }
  }

  lemma CanExit(s: State, name: Service, id: nat)
    requires RunsAs(s, name, id)
    ensures Enabled(s, Exit(name, id))
  {
  }

  lemma LastCrash(limits: Limits, s: State, name: Service, id: nat)
    requires Inv(limits, s) && RunsAs(s, name, id) && s.Get(name).restarts == limits.maxRestarts
    ensures var t := Step(limits, s, Exit(name, id)).Get(name); t.live == {} && !t.timer && t.restarts == limits.maxRestarts
  {
    ExitRestartsIff(limits, s, name, id);
    hide BackoffDelay, ChildOk;
  }
}
