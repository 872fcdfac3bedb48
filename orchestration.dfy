/**
 * The instance orchestrator of xbeachmi/model.py (`XBeachMI`) as a state
 * machine: which instance runs, the scenario cursor, the open transition,
 * and the states of all engines. Each operation is a function from the
 * state before to the state after (or the `ValueError` it raises, in which
 * case nothing has changed); the class in model.dfy performs the same
 * operations step by step.
 */
module Orchestration {
  import opened Wrappers
  import opened Engines
  import Worker
  import Provision

  /** The parts of the JSON configuration the orchestrator reads while running. */
  datatype Config = Config(scenario: seq<Provision.Entry>, exchange: seq<string>, transitionTime: real)

  /** An open transition: until the running time reaches `time`, `vars` are re-imposed after each update. */
  datatype Transition = Transition(time: real, vars: seq<(string, Reply)>)

  datatype State = State(
    engines: map<string, Engine>,
    instance: string,
    transition: Option<Transition>,
    nextIndex: nat)

  datatype MIError = ValueError

  /**
   * The step `sync_time` sends to the incoming instance: `AsWritten` is the
   * step model.py:405 sends, `Intended` the one the transition needs. Every
   * operation that switches instance takes the rule, so the program as it
   * runs is the `AsWritten` case.
   */
  datatype SyncRule = AsWritten | Intended

  /** The running instance is one of the provisioned instances. */
  predicate Valid(s: State) {
    s.instance in s.engines
  }

  /** The engine a call goes to: the named one, or the running one when no (or an empty) name is given. */
  function Route(s: State, target: string): string {
    if target == "" then s.instance else target
  }

  predicate Reaches(s: State, target: string) {
    Route(s, target) in s.engines
  }

  /** The same engines exist, and the orchestrator's own fields are as they were. */
  predicate SameFrame(s: State, r: State) {
    r.engines.Keys == s.engines.Keys && r.instance == s.instance
    && r.transition == s.transition && r.nextIndex == s.nextIndex
  }

  /** `_call`: one command to the addressed engine, and its reply. */
  function Call(native: Native, s: State, target: string, cmd: Command): (r: (State, Reply))
    requires Reaches(s, target)
    ensures SameFrame(s, r.0)
    ensures forall n :: n in s.engines && n != Route(s, target) ==> r.0.engines[n] == s.engines[n]
  {
    var name := Route(s, target);
    var h := Worker.Handle(native, s.engines[name], cmd);
    (s.(engines := s.engines[name := h.0]), h.1)
  }

  /** The time the addressed engine reports. */
  function TimeOf(s: State, target: string): real
    requires Reaches(s, target)
  {
    s.engines[Route(s, target)].time
  }

  /**
   * `sync_time` as written: with `t1 = t_out - transition_time` and
   * `t2 = t_in`, the incoming instance is advanced by `t2 - t1`.
   */
  function SyncTimeAsWritten(native: Native, cfg: Config, s: State, name: string): (r: State)
    requires Valid(s) && Reaches(s, name)
    ensures SameFrame(s, r)
    ensures r.engines == s.engines[Route(s, name) :=
      Advanced(native, s.engines[Route(s, name)], TimeOf(s, name) - (TimeOf(s, "") - cfg.transitionTime))]
  {
    Worker.HandleEffect(native, s.engines[Route(s, name)], Command.Update(TimeOf(s, name) - (TimeOf(s, "") - cfg.transitionTime)));
    var t1 := TimeOf(s, "") - cfg.transitionTime;
    var t2 := TimeOf(s, name);
    Call(native, s, name, Command.Update(t2 - t1)).0
  }

  /**
   * `sync_time` as intended: the incoming instance is advanced by `t1 - t2`,
   * to `transition_time` before the running one, so that it runs through
   * the transition window up to the switch time.
   */
  function SyncTime(native: Native, cfg: Config, s: State, name: string): (r: State)
    requires Valid(s) && Reaches(s, name)
    ensures SameFrame(s, r)
    ensures r.engines == s.engines[Route(s, name) :=
      Advanced(native, s.engines[Route(s, name)], (TimeOf(s, "") - cfg.transitionTime) - TimeOf(s, name))]
  {
    Worker.HandleEffect(native, s.engines[Route(s, name)], Command.Update((TimeOf(s, "") - cfg.transitionTime) - TimeOf(s, name)));
    var t1 := TimeOf(s, "") - cfg.transitionTime;
    var t2 := TimeOf(s, name);
    Call(native, s, name, Command.Update(t1 - t2)).0
  }

  /** `sync_time` under the chosen rule: the step as written, or the step as intended. */
  function Sync(native: Native, cfg: Config, rule: SyncRule, s: State, name: string): (r: State)
    requires Valid(s) && Reaches(s, name)
    ensures SameFrame(s, r)
  {
    match rule
    case AsWritten => SyncTimeAsWritten(native, cfg, s, name)
    case Intended => SyncTime(native, cfg, s, name)
  }

  /** `exchange_data`: each variable in turn is read from the running instance and set on `name`. */
  function Exchange(native: Native, s: State, name: string, vars: seq<string>): (r: State)
    requires Valid(s) && Reaches(s, name)
    ensures SameFrame(s, r)
    decreases |vars|
  {
    if vars == [] then s
    else
      var s1 := Exchange(native, s, name, vars[..|vars| - 1]);
      var v := vars[|vars| - 1];
      var got := Call(native, s1, "", GetVar(v));
      Call(native, got.0, name, Command.SetVar(v, got.1)).0
  }

  /**
   * `set_instance`: an unknown name raises; the running name changes
   * nothing; any other name opens a transition, synchronizes the incoming
   * instance's time, exchanges data and only then makes it the running one.
   */
  function SetInstance(native: Native, cfg: Config, rule: SyncRule, s: State, name: string): (r: Result<State, MIError>)
    requires Valid(s)
    ensures r.Err? <==> name !in s.engines
    ensures r.Ok? ==> (Valid(r.value) && r.value.instance == name
      && r.value.engines.Keys == s.engines.Keys && r.value.nextIndex == s.nextIndex)
  {
    if name !in s.engines then Err(ValueError)
    else if name == s.instance then Ok(s)
    else
      var tr := Transition(TimeOf(s, ""), [("zb", Call(native, s, "", GetVar("zb")).1)]);
      var s1 := s.(transition := Some(tr));
      var s2 := Sync(native, cfg, rule, s1, name);
      var s3 := Exchange(native, s2, name, cfg.exchange);
      Ok(s3.(instance := name))
  }

  /** `update_instance`: switch to the scenario entry under the cursor once its time has come. */
  function UpdateInstance(native: Native, cfg: Config, rule: SyncRule, s: State): (r: Result<State, MIError>)
    requires Valid(s)
    ensures r.Ok? ==> Valid(r.value) && r.value.engines.Keys == s.engines.Keys
  {
    if s.nextIndex < |cfg.scenario| && TimeOf(s, "") >= cfg.scenario[s.nextIndex].time then
      match SetInstance(native, cfg, rule, s, cfg.scenario[s.nextIndex].name)
      case Err(e) => Err(e)
      case Ok(s1) => Ok(s1.(nextIndex := s1.nextIndex + 1))
    else Ok(s)
  }

  /** The loop of `update` that sets every recorded variable on the running instance. */
  function Reimpose(native: Native, s: State, vars: seq<(string, Reply)>): (r: State)
    requires Valid(s)
    ensures SameFrame(s, r)
    decreases |vars|
  {
    if vars == [] then s
    else
      var s1 := Reimpose(native, s, vars[..|vars| - 1]);
      var p := vars[|vars| - 1];
      Call(native, s1, "", Command.SetVar(p.0, p.1)).0
  }

  /**
   * `update(dt)`: the scenario first, then the running instance advances;
   * inside an open transition the recorded variables are set again, and
   * once the running time has reached the transition's time it is closed.
   */
  function Update(native: Native, cfg: Config, rule: SyncRule, s: State, dt: real): (r: Result<State, MIError>)
    requires Valid(s)
    ensures r.Ok? ==> Valid(r.value) && r.value.engines.Keys == s.engines.Keys
  {
    match UpdateInstance(native, cfg, rule, s)
    case Err(e) => Err(e)
    case Ok(s1) =>
      var s2 := Call(native, s1, "", Command.Update(dt)).0;
      match s2.transition
      case None => Ok(s2)
      case Some(tr) =>
        if TimeOf(s2, "") < tr.time then Ok(Reimpose(native, s2, tr.vars))
        else Ok(s2.(transition := None))
  }

  /** `set_var`: the name `instance` switches instance by the value's text; any other name goes to the running instance. */
  function SetVar(native: Native, cfg: Config, rule: SyncRule, show: Value -> string, s: State, name: string, val: Value)
    : (r: Result<State, MIError>)
    requires Valid(s)
    ensures name != "instance" ==> r.Ok?
    ensures r.Ok? ==> Valid(r.value) && r.value.engines.Keys == s.engines.Keys
  {
    if name == "instance" then SetInstance(native, cfg, rule, s, show(val))
    else Ok(Call(native, s, "", Command.SetVar(name, Some(val))).0)
  }

  /** The loop of `finalize`: one `finalize` call per name, in the given order. */
  function Finalize(native: Native, s: State, order: seq<string>): (r: State)
    requires Valid(s) && forall n :: n in order ==> n in s.engines
    ensures SameFrame(s, r)
    decreases |order|
  {
    if order == [] then s
    else
      var s1 := Finalize(native, s, order[..|order| - 1]);
      Call(native, s1, order[|order| - 1], Command.Finalize).0
  }

  /** The state after construction: every provisioned instance has its engine and none is switching yet. */
  function Initial(start: string -> Engine, listed: seq<string>, scenario: seq<Provision.Entry>, given: string): (s: State)
  {
    var p := Provision.Provisioned(listed, scenario);
    State(map n | n in p :: start(n), Provision.InitialInstance(given, p), None, 0)
  }

  // ---------------------------------------------------------------------
  // Engine-level reference definitions

  /** The incoming engine after the exchange: each variable copied from `source` in turn. */
  function CopyVars(target: Engine, source: Engine, vars: seq<string>): Engine
    decreases |vars|
  {
    if vars == [] then target
    else
      var v := vars[|vars| - 1];
      Assign(CopyVars(target, source, vars[..|vars| - 1]), v, VarReply(source, v))
  }

  /** The running engine after the recorded variables are set on it in turn. */
  function Impose(e: Engine, vars: seq<(string, Reply)>): Engine
    decreases |vars|
  {
    if vars == [] then e
    else
      var p := vars[|vars| - 1];
      Assign(Impose(e, vars[..|vars| - 1]), p.0, p.1)
  }

  // ---------------------------------------------------------------------
  // Properties

  /** A call naming no instance is a call to the running instance. */
  lemma CallDefaultsToRunning(native: Native, s: State, cmd: Command)
    requires Valid(s)
    ensures Reaches(s, "") && Reaches(s, s.instance)
    ensures Call(native, s, "", cmd) == Call(native, s, s.instance, cmd)
  {
  }

  /** Asking an engine for its time or a variable changes nothing. */
  lemma QueriesChangeNothing(native: Native, s: State, target: string, v: string)
    requires Reaches(s, target)
    ensures Call(native, s, target, GetCurrentTime) == (s, Some(Real(TimeOf(s, target))))
    ensures Call(native, s, target, GetVar(v)) == (s, VarReply(s.engines[Route(s, target)], v))
  {
    var name := Route(s, target);
    Worker.HandleEffect(native, s.engines[name], GetCurrentTime);
    Worker.HandleEffect(native, s.engines[name], GetVar(v));
    assert s.engines[name := s.engines[name]] == s.engines;
  }

  /** A call to another engine leaves the addressed one as it was. */
  lemma SetOnOther(native: Native, s: State, name: string, cmd: Command)
    requires Valid(s) && name in s.engines && name != "" && name != s.instance
    ensures Call(native, s, name, cmd).0.engines == s.engines[name := Worker.Handle(native, s.engines[name], cmd).0]
  {
  }

  /** What the exchange does to the incoming engine: each exchanged variable it knows takes the running one's value. */
  lemma {:induction false} CopyVarsEffect(target: Engine, source: Engine, vars: seq<string>)
    ensures var r := CopyVars(target, source, vars);
      && r.time == target.time && r.finalized == target.finalized && r.vars.Keys == target.vars.Keys
      && forall n :: n in target.vars ==>
           r.vars[n] == (if n in vars && n in source.vars then source.vars[n] else target.vars[n])
    decreases |vars|
  {
    if vars != [] {
      var init := vars[..|vars| - 1];
      CopyVarsEffect(target, source, init);
      assert forall n :: n in vars <==> n in init || n == vars[|vars| - 1];
    }
  }

  /** `exchange_data` leaves every engine but the incoming one as it was, and copies into the incoming one. */
  lemma {:induction false} ExchangeCopies(native: Native, s: State, name: string, vars: seq<string>)
    requires Valid(s) && name in s.engines && name != "" && name != s.instance
    ensures Exchange(native, s, name, vars).engines
         == s.engines[name := CopyVars(s.engines[name], s.engines[s.instance], vars)]
    decreases |vars|
  {
    if vars != [] {
      var init := vars[..|vars| - 1];
      var v := vars[|vars| - 1];
      ExchangeCopies(native, s, name, init);
      var s1 := Exchange(native, s, name, init);
      assert s1.engines[s.instance] == s.engines[s.instance];
      QueriesChangeNothing(native, s1, "", v);
      var val := VarReply(s.engines[s.instance], v);
      Worker.HandleEffect(native, s1.engines[name], Command.SetVar(v, val));
    }
  }

  /** An unknown instance name raises `ValueError`. */
  lemma SetInstanceUnknown(native: Native, cfg: Config, rule: SyncRule, s: State, name: string)
    requires Valid(s) && name !in s.engines
    ensures SetInstance(native, cfg, rule, s, name) == Err(ValueError)
  {
  }

  /** Switching to the running instance changes nothing: no transition, no synchronization, no exchange. */
  lemma SetInstanceSame(native: Native, cfg: Config, rule: SyncRule, s: State)
    requires Valid(s)
    ensures SetInstance(native, cfg, rule, s, s.instance) == Ok(s)
  {
  }

  /**
   * A real switch records the outgoing instance's time and `zb`, advances
   * the incoming instance by the rule's step (`t_in - (t_out - transition_time)`
   * as written, `(t_out - transition_time) - t_in` as intended), copies the
   * exchanged variables into it, leaves every other engine (the outgoing
   * one included) as it was, and makes the incoming instance the running one.
   */
  lemma SetInstanceSwitches(native: Native, cfg: Config, rule: SyncRule, s: State, name: string)
    requires Valid(s) && name in s.engines && name != "" && name != s.instance
    ensures SetInstance(native, cfg, rule, s, name).Ok?
    ensures var r := SetInstance(native, cfg, rule, s, name).value;
      var out := s.engines[s.instance];
      var inc := s.engines[name];
      && r.instance == name && r.nextIndex == s.nextIndex
      && r.transition == Some(Transition(out.time, [("zb", VarReply(out, "zb"))]))
      && var dt := if rule == AsWritten then inc.time - (out.time - cfg.transitionTime)
                   else (out.time - cfg.transitionTime) - inc.time;
         r.engines == s.engines[name := CopyVars(Advanced(native, inc, dt), out, cfg.exchange)]
  {
    var out := s.engines[s.instance];
    var inc := s.engines[name];
    QueriesChangeNothing(native, s, "", "zb");
    var s1 := s.(transition := Some(Transition(out.time, [("zb", VarReply(out, "zb"))])));
    var dt := if rule == AsWritten then inc.time - (out.time - cfg.transitionTime)
              else (out.time - cfg.transitionTime) - inc.time;
    var s2 := Sync(native, cfg, rule, s1, name);
    assert Route(s1, name) == name && TimeOf(s1, "") == out.time && TimeOf(s1, name) == inc.time;
    if rule == AsWritten {
      assert s2 == SyncTimeAsWritten(native, cfg, s1, name);
    } else {
      assert s2 == SyncTime(native, cfg, s1, name);
    }
    assert s2.engines == s.engines[name := Advanced(native, inc, dt)];
    ExchangeCopies(native, s2, name, cfg.exchange);
    assert s.engines[name := Advanced(native, inc, dt)][name := CopyVars(Advanced(native, inc, dt), out, cfg.exchange)]
        == s.engines[name := CopyVars(Advanced(native, inc, dt), out, cfg.exchange)];
  }

  /** An engine whose `update(dt)` moves its clock by exactly `dt` and changes nothing else. */
  predicate ExactClock(native: Native, e: Engine, dt: real) {
    native.advance(e, dt) == Some(e.(time := e.time + dt))
  }

  /**
   * With an exact clock, the intended synchronization leaves the incoming
   * instance `transition_time` behind the running one, and touches no other
   * engine.
   */
  lemma SyncTimeAligns(native: Native, cfg: Config, s: State, name: string)
    requires Valid(s) && name in s.engines && name != "" && name != s.instance
    requires ExactClock(native, s.engines[name], (s.engines[s.instance].time - cfg.transitionTime) - s.engines[name].time)
    ensures var r := SyncTime(native, cfg, s, name);
      && r.engines[name] == s.engines[name].(time := s.engines[s.instance].time - cfg.transitionTime)
      && forall n :: n in s.engines && n != name ==> r.engines[n] == s.engines[n]
  {
    var inc := s.engines[name];
    Worker.HandleEffect(native, inc, Command.Update((s.engines[s.instance].time - cfg.transitionTime) - inc.time));
  }

  /**
   * With an exact clock, `sync_time` as written leaves the incoming instance
   * at `2 t_in - t_out + transition_time`: it is aligned afterwards only if
   * it was aligned before.
   */
  lemma SyncTimeAsWrittenMisaligns(native: Native, cfg: Config, s: State, name: string)
    requires Valid(s) && name in s.engines && name != "" && name != s.instance
    requires ExactClock(native, s.engines[name], s.engines[name].time - (s.engines[s.instance].time - cfg.transitionTime))
    ensures var r := SyncTimeAsWritten(native, cfg, s, name);
      && r.engines[name].time == 2.0 * s.engines[name].time - s.engines[s.instance].time + cfg.transitionTime
      && (r.engines[name].time == s.engines[s.instance].time - cfg.transitionTime
          <==> s.engines[name].time == s.engines[s.instance].time - cfg.transitionTime)
  {
    var inc := s.engines[name];
    Worker.HandleEffect(native, inc, Command.Update(inc.time - (s.engines[s.instance].time - cfg.transitionTime)));
  }

  /** Two instances: "storm" runs at t = 1000, "calm" has not started; the transition time is 100. */
  function ExampleState(): (s: State)
    ensures Valid(s)
  {
    State(map["storm" := Engine(1000.0, map[], false), "calm" := Engine(0.0, map[], false)], "storm", None, 0)
  }

  function ExampleNative(): Native {
    Native((e: Engine, dt: real) => Some(e.(time := e.time + dt)), (e: Engine) => true)
  }

  /** The switch to "calm" should start it at t = 900; as written it asks for `update(-900)`. */
  lemma SyncTimeExample()
    ensures SyncTimeAsWritten(ExampleNative(), Config([], [], 100.0), ExampleState(), "calm").engines["calm"].time == -900.0
    ensures SyncTime(ExampleNative(), Config([], [], 100.0), ExampleState(), "calm").engines["calm"].time == 900.0
  {
    var s := ExampleState();
    var native := ExampleNative();
    assert s.engines["calm"].time == 0.0 && s.engines["storm"].time == 1000.0;
    Worker.HandleEffect(native, s.engines["calm"], Command.Update(-900.0));
    Worker.HandleEffect(native, s.engines["calm"], Command.Update(900.0));
  }

  /**
   * Where a switch leaves the clock of the new running instance, with an
   * exact clock: as written at `2 t_in - t_out + transition_time`, as
   * intended at `t_out - transition_time`.
   */
  lemma SetInstanceClock(native: Native, cfg: Config, rule: SyncRule, s: State, name: string)
    requires Valid(s) && name in s.engines && name != "" && name != s.instance
    requires var out := s.engines[s.instance];
      var inc := s.engines[name];
      ExactClock(native, inc, if rule == AsWritten then inc.time - (out.time - cfg.transitionTime)
                              else (out.time - cfg.transitionTime) - inc.time)
    ensures SetInstance(native, cfg, rule, s, name).Ok?
    ensures var r := SetInstance(native, cfg, rule, s, name).value;
      var out := s.engines[s.instance];
      var inc := s.engines[name];
      r.engines[r.instance].time
        == if rule == AsWritten then 2.0 * inc.time - out.time + cfg.transitionTime
           else out.time - cfg.transitionTime
  {
    var out := s.engines[s.instance];
    var inc := s.engines[name];
    var dt := if rule == AsWritten then inc.time - (out.time - cfg.transitionTime)
              else (out.time - cfg.transitionTime) - inc.time;
    SetInstanceSwitches(native, cfg, rule, s, name);
    CopyVarsEffect(Advanced(native, inc, dt), out, cfg.exchange);
  }

  /** Without a scenario entry left, `update_instance` does nothing. */
  lemma UpdateInstanceIdle(native: Native, cfg: Config, rule: SyncRule, s: State)
    requires Valid(s) && s.nextIndex >= |cfg.scenario|
    ensures UpdateInstance(native, cfg, rule, s) == Ok(s)
  {
  }

  /** Before the entry's time, `update_instance` does nothing. */
  lemma UpdateInstanceWaits(native: Native, cfg: Config, rule: SyncRule, s: State)
    requires Valid(s) && s.nextIndex < |cfg.scenario| && TimeOf(s, "") < cfg.scenario[s.nextIndex].time
    ensures UpdateInstance(native, cfg, rule, s) == Ok(s)
  {
  }

  /** Once the entry's time has come, the entry's instance runs and the cursor moves on by exactly one. */
  lemma UpdateInstanceSwitches(native: Native, cfg: Config, rule: SyncRule, s: State)
    requires Valid(s) && s.nextIndex < |cfg.scenario| && TimeOf(s, "") >= cfg.scenario[s.nextIndex].time
    requires cfg.scenario[s.nextIndex].name in s.engines
    ensures UpdateInstance(native, cfg, rule, s).Ok?
    ensures var r := UpdateInstance(native, cfg, rule, s).value;
      r.instance == cfg.scenario[s.nextIndex].name && r.nextIndex == s.nextIndex + 1
      && r == SetInstance(native, cfg, rule, s, cfg.scenario[s.nextIndex].name).value.(nextIndex := s.nextIndex + 1)
  {
  }

  /** An entry naming an unknown instance raises, and the cursor stays. */
  lemma UpdateInstanceRejects(native: Native, cfg: Config, rule: SyncRule, s: State)
    requires Valid(s) && s.nextIndex < |cfg.scenario| && TimeOf(s, "") >= cfg.scenario[s.nextIndex].time
    requires cfg.scenario[s.nextIndex].name !in s.engines
    ensures UpdateInstance(native, cfg, rule, s) == Err(ValueError)
  {
  }

  /** The recorded variables end up on the running engine as `Impose` sets them. */
  lemma {:induction false} ReimposeImposes(native: Native, s: State, vars: seq<(string, Reply)>)
    requires Valid(s)
    ensures Reimpose(native, s, vars).engines == s.engines[s.instance := Impose(s.engines[s.instance], vars)]
    decreases |vars|
  {
    if vars == [] {
      assert s.engines[s.instance := s.engines[s.instance]] == s.engines;
    } else {
      var init := vars[..|vars| - 1];
      var p := vars[|vars| - 1];
      ReimposeImposes(native, s, init);
      var s1 := Reimpose(native, s, init);
      Worker.HandleEffect(native, s1.engines[s.instance], Command.SetVar(p.0, p.1));
    }
  }

  /** A failing `update_instance` ends `update` before the running instance advances. */
  lemma UpdateStopsOnError(native: Native, cfg: Config, rule: SyncRule, s: State, dt: real)
    requires Valid(s) && UpdateInstance(native, cfg, rule, s).Err?
    ensures Update(native, cfg, rule, s, dt) == Err(UpdateInstance(native, cfg, rule, s).error)
  {
  }

  /** Outside a transition, `update` advances only the running instance, after the scenario step. */
  lemma UpdateAdvancesRunning(native: Native, cfg: Config, rule: SyncRule, s: State, dt: real)
    requires Valid(s) && UpdateInstance(native, cfg, rule, s).Ok?
    requires UpdateInstance(native, cfg, rule, s).value.transition.None?
    ensures var s1 := UpdateInstance(native, cfg, rule, s).value;
      Update(native, cfg, rule, s, dt)
        == Ok(s1.(engines := s1.engines[s1.instance := Advanced(native, s1.engines[s1.instance], dt)]))
  {
    var s1 := UpdateInstance(native, cfg, rule, s).value;
    Worker.HandleEffect(native, s1.engines[s1.instance], Command.Update(dt));
  }

  /**
   * Inside a transition, after advancing, `update` sets the recorded
   * variables on the running instance while its time is before the
   * transition's time, and closes the transition otherwise.
   */
  lemma UpdateInTransition(native: Native, cfg: Config, rule: SyncRule, s: State, dt: real)
    requires Valid(s) && UpdateInstance(native, cfg, rule, s).Ok?
    requires UpdateInstance(native, cfg, rule, s).value.transition.Some?
    ensures var s1 := UpdateInstance(native, cfg, rule, s).value;
      var tr := s1.transition.value;
      var a := Advanced(native, s1.engines[s1.instance], dt);
      Update(native, cfg, rule, s, dt)
        == if a.time < tr.time then Ok(s1.(engines := s1.engines[s1.instance := Impose(a, tr.vars)]))
           else Ok(s1.(engines := s1.engines[s1.instance := a], transition := None))
  {
    var s1 := UpdateInstance(native, cfg, rule, s).value;
    var a := Advanced(native, s1.engines[s1.instance], dt);
    Worker.HandleEffect(native, s1.engines[s1.instance], Command.Update(dt));
    var s2 := Call(native, s1, "", Command.Update(dt)).0;
    assert s2.engines == s1.engines[s1.instance := a];
    ReimposeImposes(native, s2, s1.transition.value.vars);
    assert s1.engines[s1.instance := a][s1.instance := Impose(a, s1.transition.value.vars)]
        == s1.engines[s1.instance := Impose(a, s1.transition.value.vars)];
  }

  /**
   * The point of a transition: right after a switch, while the running
   * time stays before the transition's time, an update leaves the new
   * running instance with the outgoing instance's recorded `zb`.
   */
  lemma TransitionHoldsBed(native: Native, cfg: Config, rule: SyncRule, s: State, dt: real, z: Value)
    requires Valid(s) && UpdateInstance(native, cfg, rule, s).Ok?
    requires UpdateInstance(native, cfg, rule, s).value.transition.Some?
    requires UpdateInstance(native, cfg, rule, s).value.transition.value.vars == [("zb", Some(z))]
    requires var s1 := UpdateInstance(native, cfg, rule, s).value;
      var a := Advanced(native, s1.engines[s1.instance], dt);
      a.time < s1.transition.value.time && "zb" in a.vars
    ensures Update(native, cfg, rule, s, dt).Ok?
    ensures var r := Update(native, cfg, rule, s, dt).value;
      "zb" in r.engines[r.instance].vars && r.engines[r.instance].vars["zb"] == z
  {
    UpdateInTransition(native, cfg, rule, s, dt);
    var s1 := UpdateInstance(native, cfg, rule, s).value;
    var a := Advanced(native, s1.engines[s1.instance], dt);
    var vars := [("zb", Some(z))];
    assert vars[..0] == [];
    assert Impose(a, vars) == Assign(a, "zb", Some(z));
  }

  /** `set_var('instance', v)` is `set_instance(str(v))`. */
  lemma SetVarInstance(native: Native, cfg: Config, rule: SyncRule, show: Value -> string, s: State, val: Value)
    requires Valid(s)
    ensures SetVar(native, cfg, rule, show, s, "instance", val) == SetInstance(native, cfg, rule, s, show(val))
  {
  }

  /** Any other name is set on the running instance alone, when it knows the variable. */
  lemma SetVarForwards(native: Native, cfg: Config, rule: SyncRule, show: Value -> string, s: State, name: string, val: Value)
    requires Valid(s) && name != "instance"
    ensures SetVar(native, cfg, rule, show, s, name, val)
         == Ok(s.(engines := s.engines[s.instance := Assign(s.engines[s.instance], name, Some(val))]))
  {
    Worker.HandleEffect(native, s.engines[s.instance], Command.SetVar(name, Some(val)));
  }

  /** Finalizing distinct instances in some order closes exactly those instances, each once. */
  lemma {:induction false} FinalizeCloses(native: Native, s: State, order: seq<string>)
    requires Valid(s) && "" !in s.engines
    requires forall n :: n in order ==> n in s.engines
    requires forall i, j :: 0 <= i < j < |order| ==> order[i] != order[j]
    ensures Finalize(native, s, order).engines
         == map n | n in s.engines :: if n in order then Closed(native, s.engines[n]) else s.engines[n]
    decreases |order|
  {
    if order != [] {
      var init := order[..|order| - 1];
      var last := order[|order| - 1];
      FinalizeCloses(native, s, init);
      assert last !in init;
      var s1 := Finalize(native, s, init);
      Worker.HandleEffect(native, s1.engines[last], Command.Finalize);
      assert forall n :: n in order <==> n in init || n == last;
    }
  }

  /** `finalize` over every provisioned instance closes all of them. */
  lemma FinalizeClosesAll(native: Native, s: State, order: seq<string>)
    requires Valid(s) && "" !in s.engines
    requires forall n :: n in order <==> n in s.engines
    requires forall i, j :: 0 <= i < j < |order| ==> order[i] != order[j]
    ensures Finalize(native, s, order).engines == map n | n in s.engines :: Closed(native, s.engines[n])
  {
    FinalizeCloses(native, s, order);
  }

  /** After construction the first provisioned name runs (unless one was given), and every provisioned name has an engine. */
  lemma InitialRunsFirst(start: string -> Engine, listed: seq<string>, scenario: seq<Provision.Entry>)
    requires var p := Provision.Provisioned(listed, scenario); |p| > 0 && p[0] != ""
    ensures var s := Initial(start, listed, scenario, "");
      var p := Provision.Provisioned(listed, scenario);
      && Valid(s) && s.instance == p[0] && s.nextIndex == 0 && s.transition == None
      && forall n :: n in s.engines <==> n in listed || exists i :: 0 <= i < |scenario| && scenario[i].name == n
  {
    var p := Provision.Provisioned(listed, scenario);
    Provision.InitialIsLeast(p);
    forall n ensures n in p <==> n in listed || exists i :: 0 <= i < |scenario| && scenario[i].name == n {
      if exists i :: 0 <= i < |scenario| && scenario[i].name == n {
        var i :| 0 <= i < |scenario| && scenario[i].name == n;
        Provision.ScenarioProvisioned(listed, scenario, i);
      }
      if n in p && n !in listed {
        assert n in listed + Provision.ScenarioNames(scenario);
        var k :| 0 <= k < |listed + Provision.ScenarioNames(scenario)| && (listed + Provision.ScenarioNames(scenario))[k] == n;
        assert scenario[k - |listed|].name == n;
      }
    }
  }
}
