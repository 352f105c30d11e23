/**
 The service supervisor: two child processes, restarts with back-off, and a `stop` that waits. A state holds what the
 supervisor keeps and, beside it, what an observer counts: the processes alive, the spawn attempts, the delays.
 */
module Supervisor {
  import opened Wrappers

  datatype Service = Router | Harness

  /** A service: the code's `child`, `restartTimer`, `restarts` and `expectedExit`, then the observations. */
  datatype Child = Child(child: Option<nat>, timer: bool, restarts: nat, expectedExit: bool,
                         live: set<nat>, attempts: nat, delays: seq<nat>)

  datatype Limits = Limits(maxRestarts: nat, baseDelay: nat, maxDelay: nat)

  /** `stops` holds, for each `stop` still waiting, the processes it waits for. */
  datatype State = State(router: Child, harness: Child, stopping: bool, started: bool,
                         starts: nat, nextId: nat, stops: seq<set<nat>>) {
    function Get(name: Service): Child {
      if name.Router? then router else harness
    }

    function Put(name: Service, c: Child): State {
      if name.Router? then this.(router := c) else this.(harness := c)
    }

    function Live(): set<nat> {
      router.live + harness.live
    }
  }

  const IDLE := Child(None, false, 0, false, {}, 0, [])

  const INITIAL := State(IDLE, IDLE, false, false, 0, 0, [])

  function Pow2(n: nat): nat {
    if n == 0 then 1 else 2 * Pow2(n - 1)
  }

  /** `backoffDelay` */
  function BackoffDelay(attempt: nat, limits: Limits): nat {
    Min(limits.baseDelay * Pow2(attempt), limits.maxDelay)
  }

  /** How a spawn turns out: a running process, an exception, or a child object whose process never comes to life. */
  datatype Spawn = Runs | Throws | NeverRuns

  function ScheduleRestart(limits: Limits, s: State, name: Service): State {
    var r := s.Get(name);
    if s.stopping || r.timer || r.restarts >= limits.maxRestarts then s
    else s.Put(name, r.(timer := true, restarts := r.restarts + 1,
                        delays := r.delays + [BackoffDelay(r.restarts, limits)]))
  }

  function StartService(limits: Limits, s: State, name: Service, spawn: Spawn): State {
    if s.stopping then s
    else
      var r := s.Get(name).(attempts := s.Get(name).attempts + 1);
      if spawn.Throws? then ScheduleRestart(limits, s.Put(name, r), name)
      else s.Put(name, r.(child := Some(s.nextId), expectedExit := false,
                          live := r.live + if spawn.Runs? then {s.nextId} else {})).(nextId := s.nextId + 1)
  }

  function Start(limits: Limits, s: State, router: Spawn, harness: Spawn): State {
    if s.started then s
    else
      var s1 := s.(stopping := false, started := true, starts := s.starts + 1);
      StartService(limits, StartService(limits, s1, Router, router), Harness, harness)
  }

  function Quiet(r: Child): Child {
    r.(timer := false, expectedExit := r.expectedExit || r.child.Some?)
  }

  /** The running process `stop` waits for. */
  function WaitsFor(r: Child): set<nat> {
    if r.child.Some? && r.child.value in r.live then {r.child.value} else {}
  }

  /** `stop` up to its wait. */
  function StopBegins(s: State): State {
    s.(stopping := true, router := Quiet(s.router), harness := Quiet(s.harness),
       stops := s.stops + [WaitsFor(s.router) + WaitsFor(s.harness)])
  }

  /** `stop` after its wait. */
  function StopEnds(s: State, k: nat): State
    requires k < |s.stops|
  {
    s.(router := s.router.(child := None), harness := s.harness.(child := None), started := false,
       stops := s.stops[..k] + s.stops[k + 1..])
  }

  /** The `exit` handler. */
  function Exits(limits: Limits, s: State, name: Service, id: nat): State {
    var s1 := s.Put(name, s.Get(name).(live := s.Get(name).live - {id}));
    if !s.Get(name).expectedExit && !s.stopping then ScheduleRestart(limits, s1, name) else s1
  }

  /** The timer's callback. */
  function TimerFires(limits: Limits, s: State, name: Service, spawn: Spawn): State {
    StartService(limits, s.Put(name, s.Get(name).(timer := false)), name, spawn)
  }

  datatype Event =
    | Starts(router: Spawn, harness: Spawn)
    | Stops
    | StopResumes(k: nat)
    | Exit(name: Service, id: nat)
    | Timer(name: Service, spawn: Spawn)

  predicate Enabled(s: State, e: Event) {
    match e
    case Starts(_, _) => true
    case Stops => true
    case StopResumes(k) => k < |s.stops| && s.stops[k] !! s.Live()
    case Exit(name, id) => id in s.Get(name).live
    case Timer(name, _) => s.Get(name).timer
  }

  function Step(limits: Limits, s: State, e: Event): State
    requires Enabled(s, e)
  {
    match e
    case Starts(router, harness) => Start(limits, s, router, harness)
    case Stops => StopBegins(s)
    case StopResumes(k) => StopEnds(s, k)
    case Exit(name, id) => Exits(limits, s, name, id)
    case Timer(name, spawn) => TimerFires(limits, s, name, spawn)
  }

  // ---------------------------------------------------------------- the code

  class Supervising {
    const limits: Limits
    var state: State

    constructor (limits: Limits)
      ensures state == INITIAL && this.limits == limits
    {
      this.limits, state := limits, INITIAL;
    }

    method DoScheduleRestart(name: Service)
      modifies this
      ensures state == ScheduleRestart(limits, old(state), name)
    {
      var r := state.Get(name);
      if state.stopping || r.timer { return; }
      if r.restarts >= limits.maxRestarts { return; }
      var delay := BackoffDelay(r.restarts, limits);
      r := r.(restarts := r.restarts + 1);
      r := r.(timer := true, delays := r.delays + [delay]);
      state := state.Put(name, r);
    }

    method DoStartService(name: Service, spawn: Spawn)
      modifies this
      ensures state == StartService(limits, old(state), name, spawn)
    {
      if state.stopping { return; }
      var r := state.Get(name);
      r := r.(attempts := r.attempts + 1);
      state := state.Put(name, r);
      if spawn.Throws? {
        DoScheduleRestart(name);
        return;
      }
      var id := state.nextId;
      r := r.(child := Some(id), expectedExit := false);
      if spawn.Runs? {
        r := r.(live := r.live + {id});
      }
      state := state.Put(name, r).(nextId := id + 1);
    }

    method DoStart(router: Spawn, harness: Spawn)
      modifies this
      ensures state == Start(limits, old(state), router, harness)
    {
      hide StartService;
      if state.started { return; }
      state := state.(stopping := false, started := true, starts := state.starts + 1);
      DoStartService(Router, router);
      DoStartService(Harness, harness);
    }

    method DoStop()
      modifies this
      ensures state == StopBegins(old(state))
    {
      state := state.(stopping := true);
      var waits: set<nat> := {};
      var names, i := [Router, Harness], 0;
      while i < |names|
        invariant i <= |names|
        invariant state == old(state).(stopping := true,
                    router := if i > 0 then Quiet(old(state).router) else old(state).router,
                    harness := if i > 1 then Quiet(old(state).harness) else old(state).harness)
        invariant waits == (if i > 0 then WaitsFor(old(state).router) else {})
                         + (if i > 1 then WaitsFor(old(state).harness) else {})
      {
        var r := state.Get(names[i]);
        r := r.(timer := false);
        if r.child.Some? {
          r := r.(expectedExit := true);
          if r.child.value in r.live {
            waits := waits + {r.child.value};
          }
        }
        state := state.Put(names[i], r);
        i := i + 1;
      }
      state := state.(stops := state.stops + [waits]);
    }

    method DoResumeStop(k: nat)
      requires k < |state.stops|
      modifies this
      ensures state == StopEnds(old(state), k)
    {
      state := state.(router := state.router.(child := None));
      state := state.(harness := state.harness.(child := None));
      state := state.(started := false, stops := state.stops[..k] + state.stops[k + 1..]);
    }

    method OnExit(name: Service, id: nat)
      requires id in state.Get(name).live
      modifies this
      ensures state == Exits(limits, old(state), name, id)
    {
      var r := state.Get(name);
      state := state.Put(name, r.(live := r.live - {id}));
      if !state.Get(name).expectedExit && !state.stopping {
        DoScheduleRestart(name);
      }
    }

    method OnTimer(name: Service, spawn: Spawn)
      requires state.Get(name).timer
      modifies this
      ensures state == TimerFires(limits, old(state), name, spawn)
    {
      state := state.Put(name, state.Get(name).(timer := false));
      DoStartService(name, spawn);
    }
  }

  // ---------------------------------------------------------------- the invariant

  predicate ChildOk(limits: Limits, r: Child, starts: nat, nextId: nat) {
    && (if r.child.Some? then r.live <= {r.child.value} else r.live == {})
    && (r.live != {} ==> !r.timer)
    && r.restarts <= limits.maxRestarts
    && |r.delays| == r.restarts && (forall i :: 0 <= i < r.restarts ==> r.delays[i] == BackoffDelay(i, limits))
    && r.attempts + (if r.timer then 1 else 0) <= starts + r.restarts
    && forall id :: id in r.live ==> id < nextId
  }

  /** What holds at any time, as long as no start takes effect while a stop is still waiting. */
  ghost predicate Inv(limits: Limits, s: State) {
    && ChildOk(limits, s.router, s.starts, s.nextId) && ChildOk(limits, s.harness, s.starts, s.nextId)
    && (s.stopping ==> !s.router.timer && !s.harness.timer)
    && (!s.started ==> s.Live() == {} && !s.router.timer && !s.harness.timer)
    && (s.stops != [] ==> s.stopping)
    && (forall k :: 0 <= k < |s.stops| ==> s.Live() <= s.stops[k] && forall id :: id in s.stops[k] ==> id < s.nextId)
  }

  /** The event does not start the services while a stop is waiting. */
  predicate Orderly(s: State, e: Event) {
    e.Starts? && !s.started ==> s.stops == []
  }

  lemma ScheduleKeepsChild(limits: Limits, s: State, name: Service)
    requires s.Get(name).live == {} && s.Get(name).attempts <= s.starts + s.Get(name).restarts
    requires ChildOk(limits, s.Get(name), s.starts, s.nextId)
    ensures ChildOk(limits, ScheduleRestart(limits, s, name).Get(name), s.starts, s.nextId)
  {
    hide BackoffDelay;
  }

  lemma StartKeepsChild(limits: Limits, s: State, name: Service, spawn: Spawn)
    requires !s.stopping && s.Get(name).live == {} && !s.Get(name).timer
    requires ChildOk(limits, s.Get(name), s.starts, s.nextId) && s.Get(name).attempts + 1 <= s.starts + s.Get(name).restarts
    ensures var t := StartService(limits, s, name, spawn);
      ChildOk(limits, t.Get(name), t.starts, t.nextId) && t.nextId >= s.nextId
  {
    hide BackoffDelay;
  }

  lemma LaterIds(limits: Limits, r: Child, starts: nat, nextId: nat, starts': nat, nextId': nat)
    requires ChildOk(limits, r, starts, nextId) && starts <= starts' && nextId <= nextId'
    ensures ChildOk(limits, r, starts', nextId')
  {
    hide BackoffDelay;
  }

  /** Starting one service leaves the other and the flags alone. */
  lemma StartFrame(limits: Limits, s: State, name: Service, spawn: Spawn)
    ensures var t := StartService(limits, s, name, spawn);
      && t.stopping == s.stopping && t.started == s.started && t.stops == s.stops && t.starts == s.starts
      && (if name.Router? then t.harness == s.harness else t.router == s.router)
  {
    hide BackoffDelay;
  }

  /** A quiet service after one more start has been counted. */
  lemma StartCounted(limits: Limits, r: Child, starts: nat, nextId: nat)
    requires ChildOk(limits, r, starts, nextId) && !r.timer
    ensures ChildOk(limits, r, starts + 1, nextId) && r.attempts + 1 <= starts + 1 + r.restarts
  {
    hide BackoffDelay;
  }

  lemma StartsKeeps(limits: Limits, s: State, router: Spawn, harness: Spawn)
    requires Inv(limits, s) && Orderly(s, Starts(router, harness))
    ensures Inv(limits, Start(limits, s, router, harness))
  {
    hide ChildOk, StartService;
    if !s.started {
      var s1 := s.(stopping := false, started := true, starts := s.starts + 1);
      StartCounted(limits, s.router, s.starts, s.nextId);
      StartCounted(limits, s.harness, s.starts, s.nextId);
      StartKeepsChild(limits, s1, Router, router);
      StartFrame(limits, s1, Router, router);
      var s2 := StartService(limits, s1, Router, router);
      LaterIds(limits, s2.harness, s1.starts, s1.nextId, s2.starts, s2.nextId);
      StartKeepsChild(limits, s2, Harness, harness);
      StartFrame(limits, s2, Harness, harness);
      var s3 := StartService(limits, s2, Harness, harness);
      LaterIds(limits, s3.router, s2.starts, s2.nextId, s3.starts, s3.nextId);
    }
  }

  lemma ExitKeeps(limits: Limits, s: State, name: Service, id: nat)
    requires Inv(limits, s) && id in s.Get(name).live
    ensures Inv(limits, Exits(limits, s, name, id))
  {
    var s1 := s.Put(name, s.Get(name).(live := s.Get(name).live - {id}));
    assert s1.Get(name).live == {};
    assert ChildOk(limits, s1.Get(name), s.starts, s.nextId);
    if !s.Get(name).expectedExit && !s.stopping {
      ScheduleKeepsChild(limits, s1, name);
    }
    hide BackoffDelay;
  }

  lemma TimerKeeps(limits: Limits, s: State, name: Service, spawn: Spawn)
    requires Inv(limits, s) && s.Get(name).timer
    ensures Inv(limits, TimerFires(limits, s, name, spawn))
  {
    var s1 := s.Put(name, s.Get(name).(timer := false));
    var other := if name.Router? then Harness else Router;
    StartKeepsChild(limits, s1, name, spawn);
    var t := StartService(limits, s1, name, spawn);
    LaterIds(limits, s.Get(other), s.starts, s.nextId, t.starts, t.nextId);
    hide ChildOk;
  }

  lemma StopBeginsKeeps(limits: Limits, s: State)
    requires Inv(limits, s)
    ensures Inv(limits, StopBegins(s))
  {
    hide BackoffDelay;
    var t := StopBegins(s);
    forall k | 0 <= k < |t.stops|
      ensures t.Live() <= t.stops[k] && forall id :: id in t.stops[k] ==> id < t.nextId
    {
      if k < |s.stops| {
        assert t.stops[k] == s.stops[k];
      }
    }
  }

  lemma StopEndsKeeps(limits: Limits, s: State, k: nat)
    requires Inv(limits, s) && k < |s.stops| && s.stops[k] !! s.Live()
    ensures Inv(limits, StopEnds(s, k))
  {
    hide BackoffDelay;
    assert s.Live() == {};
    var t := StopEnds(s, k);
    forall j | 0 <= j < |t.stops|
      ensures forall id :: id in t.stops[j] ==> id < t.nextId
    {
      assert t.stops[j] == s.stops[if j < k then j else j + 1];
    }
  }

  lemma StepKeeps(limits: Limits, s: State, e: Event)
    requires Inv(limits, s) && Enabled(s, e) && Orderly(s, e)
    ensures Inv(limits, Step(limits, s, e))
  {
    hide Inv;
    match e
    case Starts(router, harness) => StartsKeeps(limits, s, router, harness);
    case Stops => StopBeginsKeeps(limits, s);
    case StopResumes(k) => StopEndsKeeps(limits, s, k);
    case Exit(name, id) => ExitKeeps(limits, s, name, id);
    case Timer(name, spawn) => TimerKeeps(limits, s, name, spawn);
  }

  // ---------------------------------------------------------------- runs

  /** Each event can happen when its turn comes. */
  predicate Possible(limits: Limits, s: State, run: seq<Event>)
    decreases |run|
  {
    |run| == 0 || (Enabled(s, run[0]) && Possible(limits, Step(limits, s, run[0]), run[1..]))
  }

  function AfterRun(limits: Limits, s: State, run: seq<Event>): State
    requires Possible(limits, s, run)
    decreases |run|
  {
    if |run| == 0 then s else AfterRun(limits, Step(limits, s, run[0]), run[1..])
  }

  predicate OrderlyRun(limits: Limits, s: State, run: seq<Event>)
    requires Possible(limits, s, run)
    decreases |run|
  {
    |run| == 0 || (Orderly(s, run[0]) && OrderlyRun(limits, Step(limits, s, run[0]), run[1..]))
  }

  lemma {:induction false} RunKeeps(limits: Limits, s: State, run: seq<Event>)
    requires Inv(limits, s) && Possible(limits, s, run) && OrderlyRun(limits, s, run)
    ensures Inv(limits, AfterRun(limits, s, run))
    decreases |run|
  {
    hide Inv, Step;
    if |run| > 0 {
      StepKeeps(limits, s, run[0]);
      RunKeeps(limits, Step(limits, s, run[0]), run[1..]);
    }
  }

  /** Over every orderly run each service has at most one live process, never one beside a pending restart, at most
      `maxRestarts` restarts, and no more spawn attempts than starts and restarts together. */
  lemma SupervisionIsSafe(limits: Limits, run: seq<Event>, name: Service)
    requires Possible(limits, INITIAL, run) && OrderlyRun(limits, INITIAL, run)
    ensures var s := AfterRun(limits, INITIAL, run);
      var r := s.Get(name);
      && |r.live| <= 1 && (r.live != {} ==> !r.timer)
      && r.restarts <= limits.maxRestarts && r.attempts <= s.starts + limits.maxRestarts
      && |r.delays| == r.restarts && forall i :: 0 <= i < |r.delays| ==> r.delays[i] == BackoffDelay(i, limits)
  {
    hide BackoffDelay, AfterRun;
    RunKeeps(limits, INITIAL, run);
    var r := AfterRun(limits, INITIAL, run).Get(name);
    if r.child.Some? {
      SmallSet(r.live, r.child.value);
    }
  }

  lemma SmallSet(live: set<nat>, id: nat)
    requires live <= {id}
    ensures |live| <= 1
  {
    if id in live {
      assert live == {id};
    } else {
      assert live == {};
    }
  }

  /** The delays never shrink and never exceed the limit. */
  lemma {:induction false} DelaysGrow(limits: Limits, i: nat, j: nat)
    requires i <= j
    ensures BackoffDelay(i, limits) <= BackoffDelay(j, limits) <= limits.maxDelay
    decreases j
  {
    if i < j {
      DelaysGrow(limits, i, j - 1);
      Doubles(limits.baseDelay, Pow2(j - 1));
    }
  }

  lemma Doubles(base: nat, p: nat)
    ensures base * p <= base * (2 * p)
  {
    assert base * (2 * p) == 2 * (base * p);
  }

  /** Once a stop has begun, nothing but a new start spawns. */
  lemma {:induction false} NothingSpawnedWhileStopping(limits: Limits, s: State, run: seq<Event>, name: Service)
    requires s.stopping && Possible(limits, s, run)
    requires forall e :: e in run ==> !e.Starts?
    ensures var t := AfterRun(limits, s, run); t.Get(name).attempts == s.Get(name).attempts && t.stopping
    decreases |run|
  {
    if |run| > 0 {
      assert run[0] in run;
      NothingSpawnedWhileStopping(limits, Step(limits, s, run[0]), run[1..], name);
    }
  }

  // ---------------------------------------------------------------- a start while a stop waits

  lemma RunCons(limits: Limits, s: State, e: Event, run: seq<Event>)
    requires Enabled(s, e) && Orderly(s, e)
    requires Possible(limits, Step(limits, s, e), run) && OrderlyRun(limits, Step(limits, s, e), run)
    ensures Possible(limits, s, [e] + run) && OrderlyRun(limits, s, [e] + run)
    ensures AfterRun(limits, s, [e] + run) == AfterRun(limits, Step(limits, s, e), run)
  {
    hide Step, Enabled, Orderly;
    assert ([e] + run)[1..] == run;
  }

  /** The run is orderly and leaves the service with two processes. */
  ghost predicate LeadsToTwo(limits: Limits, s: State, run: seq<Event>, name: Service) {
    Possible(limits, s, run) && OrderlyRun(limits, s, run) && |AfterRun(limits, s, run).Get(name).live| >= 2
  }

  /** When the stops wait for no process, they may all resume: the processes alive are forgotten. Then another start. */
  lemma {:induction false} ResumeAndStart(limits: Limits, s: State) returns (run: seq<Event>)
    requires s.stops != [] && s.nextId !in s.router.live
    requires forall k :: 0 <= k < |s.stops| ==> s.stops[k] !! s.Live()
    ensures Possible(limits, s, run) && OrderlyRun(limits, s, run)
    ensures AfterRun(limits, s, run).router.live == s.router.live + {s.nextId}
    decreases |s.stops|
  {
    hide BackoffDelay;
    var t := StopEnds(s, 0);
    assert t.stops == s.stops[1..];
    var rest;
    if t.stops == [] {
      var u := Start(limits, t, Runs, Runs);
      assert u.router.live == s.router.live + {s.nextId} && Step(limits, t, Starts(Runs, Runs)) == u;
      hide Step;
      assert AfterRun(limits, u, []) == u;
      RunCons(limits, t, Starts(Runs, Runs), []);
      rest := [Starts(Runs, Runs)] + [];
    } else {
      assert forall k :: 0 <= k < |t.stops| ==> t.stops[k] == s.stops[k + 1];
      rest := ResumeAndStart(limits, t);
    }
    assert Step(limits, s, StopResumes(0)) == t;
    hide Step, OrderlyRun, AfterRun, Possible;
    RunCons(limits, s, StopResumes(0), rest);
    run := [StopResumes(0)] + rest;
  }

  /** A start that takes effect while a stop still waits is forgotten when that stop resumes, and the next start puts a
      second process beside the first. */
  lemma HastyStartForgetsAChild(limits: Limits, s: State)
    returns (run: seq<Event>)
    requires Inv(limits, s) && s.stops != [] && !s.started
    ensures LeadsToTwo(limits, Start(limits, s, Runs, Runs), run, Router)
  {
    hide BackoffDelay;
    var t := Start(limits, s, Runs, Runs);
    assert t.router.live == {s.nextId} && t.harness.live == {s.nextId + 1} && t.stops == s.stops;
    hide ChildOk, Start;
    run := ResumeAndStart(limits, t);
    hide OrderlyRun, AfterRun, Possible;
    assert AfterRun(limits, t, run).router.live == {s.nextId, t.nextId};
    TwoDiffer(s.nextId, t.nextId);
  }

  lemma TwoDiffer(a: nat, b: nat)
    requires a != b
    ensures |{a, b}| == 2
  {
    assert {a, b} - {a} == {b};
  }

  /** In a state the invariant allows, a start can be followed by an orderly run to two processes of one service exactly
      when a stop waits and nothing is started: this is why a start must wait for the stop. */
  lemma StartCanDoubleIff(limits: Limits, s: State)
    requires Inv(limits, s)
    ensures (exists router, harness, run, name :: LeadsToTwo(limits, Start(limits, s, router, harness), run, name))
       <==> s.stops != [] && !s.started
  {
    if s.stops != [] && !s.started {
      var run := HastyStartForgetsAChild(limits, s);
    } else {
      forall router, harness, run, name
        ensures !LeadsToTwo(limits, Start(limits, s, router, harness), run, name)
      {
        StartsKeeps(limits, s, router, harness);
        NeverTwo(limits, Start(limits, s, router, harness), run, name);
      }
    }
  }

  lemma NeverTwo(limits: Limits, s: State, run: seq<Event>, name: Service)
    requires Inv(limits, s)
    ensures !LeadsToTwo(limits, s, run, name)
  {
    if Possible(limits, s, run) && OrderlyRun(limits, s, run) {
      RunKeeps(limits, s, run);
      hide AfterRun, Possible, OrderlyRun, BackoffDelay;
      var r := AfterRun(limits, s, run).Get(name);
      SmallSet(r.live, if r.child.Some? then r.child.value else 0);
    }
  }

  /** Such a state is reached by stopping before the first start. */
  lemma StopBeforeStart(limits: Limits)
    ensures var s := StopBegins(INITIAL); Inv(limits, s) && s.stops != [] && !s.started
  {
    StopBeginsKeeps(limits, INITIAL);
  }
}
