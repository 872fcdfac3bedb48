/**
 * `XBeachMI` of xbeachmi/model.py as an object whose fields change in place:
 * the running instance, the scenario cursor, the open transition and the
 * engines of all provisioned instances. Each method does what the Python
 * method does, call by call, and is proved to end in the state the
 * corresponding function of `Orchestration` describes. The step that
 * `sync_time` sends is the object's `rule`: with `O.AsWritten` the methods
 * are the program as written, with `O.Intended` its corrected form.
 */
module Model {
  import opened Wrappers
  import opened Engines
  import Worker
  import Provision
  import O = Orchestration

  class XBeachMI {
    /** The engines' foreign numerics. */
    const native: Native
    const config: O.Config
    /** The step `sync_time` sends: `O.AsWritten` is the program as it runs. */
    const rule: O.SyncRule
    /** Python's `str` on engine values. */
    const show: Value -> string

    var engines: map<string, Engine>
    var instance: string
    var transition: Option<O.Transition>
    var nextIndex: nat

    function State(): O.State
      reads this
    {
      O.State(engines, instance, transition, nextIndex)
    }

    predicate Valid()
      reads this
    {
      instance in engines
    }

    /**
     * Construction and `load_configfile`: one engine per provisioned
     * instance, taken in sorted order; the first name becomes the running
     * instance unless one was given. `start` is the engine each instance's
     * params.txt initializes.
     */
    constructor (native: Native, config: O.Config, rule: O.SyncRule, show: Value -> string,
                 listed: seq<string>, given: string, start: string -> Engine)
      requires Provision.InitialInstance(given, Provision.Provisioned(listed, config.scenario))
            in Provision.Provisioned(listed, config.scenario)
      ensures Valid()
      ensures State() == O.Initial(start, listed, config.scenario, given)
      ensures this.native == native && this.config == config && this.rule == rule && this.show == show
    {
      this.native := native;
      this.config := config;
      this.rule := rule;
      this.show := show;
      var provisioned := Provision.Provisioned(listed, config.scenario);
      var es: map<string, Engine> := map[];
      var running := given;
      var j := 0;
      while j < |provisioned|
        invariant 0 <= j <= |provisioned|
        invariant es == map n | n in provisioned[..j] :: start(n)
        invariant running == if given != "" then given else Provision.FirstNamed(provisioned[..j])
      {
        assert provisioned[..j + 1][..j] == provisioned[..j];
        var name := provisioned[j];
        if running == "" {
          running := name;
        }
        Grow(provisioned, j, start);
        es := es[name := start(name)];
        j := j + 1;
      }
      assert provisioned[..j] == provisioned;
      this.engines := es;
      this.instance := running;
      this.transition := None;
      this.nextIndex := 0;
    }

    /** `_call`: send one command to the named instance, or to the running one when none is named. */
    method Call(target: string, cmd: Command) returns (reply: Reply)
      requires O.Reaches(State(), target)
      modifies this
      ensures (State(), reply) == O.Call(native, old(State()), target, cmd)
    {
      var name := if target == "" then instance else target;
      var h := Worker.Handle(native, engines[name], cmd);
      engines := engines[name := h.0];
      reply := h.1;
    }

    /** `_call('get_current_time', instance=target)`. */
    method CurrentTime(target: string) returns (t: real)
      requires O.Reaches(State(), target)
      modifies this
      ensures t == O.TimeOf(old(State()), target) && State() == old(State())
    {
      O.QueriesChangeNothing(native, State(), target, "");
      var reply := Call(target, GetCurrentTime);
      t := reply.value.x;
    }

    /** `get_var`: a variable of the running instance. */
    method GetVar(name: string) returns (r: Reply)
      requires Valid()
      modifies this
      ensures r == VarReply(old(engines)[old(instance)], name) && State() == old(State())
    {
      O.QueriesChangeNothing(native, State(), "", name);
      r := Call("", Command.GetVar(name));
    }

    /**
     * `sync_time`: `t1` is `transition_time` before the running instance's
     * time, `t2` the incoming instance's time, and the incoming instance is
     * sent `update(t2 - t1)` as written or `update(t1 - t2)` as intended.
     */
    method SyncTime(name: string)
      requires Valid() && O.Reaches(State(), name)
      modifies this
      ensures State() == O.Sync(native, config, rule, old(State()), name)
    {
      var tOut := CurrentTime("");
      var t1 := tOut - config.transitionTime;
      var t2 := CurrentTime(name);
      var dt := if rule == O.AsWritten then t2 - t1 else t1 - t2;
      var _ := Call(name, Command.Update(dt));
    }

    /** `exchange_data`: copy every exchanged variable from the running instance to `name`. */
    method ExchangeData(name: string)
      requires Valid() && O.Reaches(State(), name)
      modifies this
      ensures State() == O.Exchange(native, old(State()), name, config.exchange)
    {
      ghost var s0 := State();
      var vars := config.exchange;
      var i := 0;
      while i < |vars|
        invariant 0 <= i <= |vars|
        invariant State() == O.Exchange(native, s0, name, vars[..i])
        invariant Valid() && O.Reaches(State(), name)
      {
        assert vars[..i + 1][..i] == vars[..i];
        var v := vars[i];
        var val := Call("", Command.GetVar(v));
        var _ := Call(name, Command.SetVar(v, val));
        i := i + 1;
      }
      assert vars[..i] == vars;
    }

    /** `set_instance`. */
    method SetInstance(name: string) returns (o: Outcome<O.MIError>)
      requires Valid()
      modifies this
      ensures Valid()
      ensures O.SetInstance(native, config, rule, old(State()), name).Ok? ==>
        o == Pass && State() == O.SetInstance(native, config, rule, old(State()), name).value
      ensures O.SetInstance(native, config, rule, old(State()), name).Err? ==>
        o == Fail(O.SetInstance(native, config, rule, old(State()), name).error) && State() == old(State())
    {
      if name !in engines {
        return Fail(O.ValueError);
      }
      if name != instance {
        ghost var s0 := State();
        O.QueriesChangeNothing(native, s0, "", "zb");
        var t := CurrentTime("");
        var zb := Call("", Command.GetVar("zb"));
        assert State() == s0 && zb == O.Call(native, s0, "", Command.GetVar("zb")).1;
        transition := Some(O.Transition(t, [("zb", zb)]));
        ghost var s1 := State();
        assert s1 == s0.(transition := Some(O.Transition(O.TimeOf(s0, ""), [("zb", zb)])));
        SyncTime(name);
        ghost var s2 := State();
        assert s2 == O.Sync(native, config, rule, s1, name);
        ExchangeData(name);
        assert State() == O.Exchange(native, s2, name, config.exchange);
        instance := name;
      }
      o := Pass;
    }

    /** `update_instance`. */
    method UpdateInstance() returns (o: Outcome<O.MIError>)
      requires Valid()
      modifies this
      ensures Valid()
      ensures O.UpdateInstance(native, config, rule, old(State())).Ok? ==>
        o == Pass && State() == O.UpdateInstance(native, config, rule, old(State())).value
      ensures O.UpdateInstance(native, config, rule, old(State())).Err? ==>
        o == Fail(O.UpdateInstance(native, config, rule, old(State())).error) && State() == old(State())
    {
      o := Pass;
      if nextIndex < |config.scenario| {
        var t := CurrentTime("");
        var entry := config.scenario[nextIndex];
        if t >= entry.time {
          o := SetInstance(entry.name);
          if o.Fail? {
            return;
          }
          nextIndex := nextIndex + 1;
        }
      }
    }

    /** `update(dt)`; the default `-1` asks the engine for one step of its own size. */
    method Update(dt: real := -1.0) returns (o: Outcome<O.MIError>)
      requires Valid()
      modifies this
      ensures Valid()
      ensures O.Update(native, config, rule, old(State()), dt).Ok? ==>
        o == Pass && State() == O.Update(native, config, rule, old(State()), dt).value
      ensures O.Update(native, config, rule, old(State()), dt).Err? ==>
        o == Fail(O.Update(native, config, rule, old(State()), dt).error) && State() == old(State())
    {
      o := UpdateInstance();
      if o.Fail? {
        return;
      }
      var _ := Call("", Command.Update(dt));
      if transition.Some? {
        var t := CurrentTime("");
        if t < transition.value.time {
          ghost var s2 := State();
          var vars := transition.value.vars;
          var j := 0;
          while j < |vars|
            invariant 0 <= j <= |vars|
            invariant State() == O.Reimpose(native, s2, vars[..j])
            invariant Valid()
          {
            assert vars[..j + 1][..j] == vars[..j];
            var _ := Call("", Command.SetVar(vars[j].0, vars[j].1));
            j := j + 1;
          }
          assert vars[..j] == vars;
        } else {
          transition := None;
        }
      }
    }

    /** `set_var`. */
    method SetVar(name: string, val: Value) returns (o: Outcome<O.MIError>)
      requires Valid()
      modifies this
      ensures Valid()
      ensures O.SetVar(native, config, rule, show, old(State()), name, val).Ok? ==>
        o == Pass && State() == O.SetVar(native, config, rule, show, old(State()), name, val).value
      ensures O.SetVar(native, config, rule, show, old(State()), name, val).Err? ==>
        o == Fail(O.SetVar(native, config, rule, show, old(State()), name, val).error) && State() == old(State())
    {
      if name == "instance" {
        o := SetInstance(show(val));
      } else {
        var _ := Call("", Command.SetVar(name, Some(val)));
        o := Pass;
      }
    }

    /**
     * `finalize`: one `finalize` call per instance, in the dictionary's
     * order, which the model leaves open; `order` is the order taken.
     */
    method Finalize() returns (order: seq<string>)
      requires Valid()
      modifies this
      ensures forall n :: n in order <==> n in old(engines)
      ensures forall i, j :: 0 <= i < j < |order| ==> order[i] != order[j]
      ensures State() == O.Finalize(native, old(State()), order)
    {
      ghost var s0 := State();
      var remaining := engines.Keys;
      order := [];
      while remaining != {}
        invariant forall n :: n in s0.engines <==> n in remaining || n in order
        invariant forall n :: n in remaining ==> n !in order
        invariant forall i, j :: 0 <= i < j < |order| ==> order[i] != order[j]
        invariant State() == O.Finalize(native, s0, order)
        invariant Valid()
        decreases |remaining|
      {
        var name :| name in remaining;
        FinalizeStep(native, s0, order, name);
        var _ := Call(name, Command.Finalize);
        order := order + [name];
        remaining := remaining - {name};
      }
    }
  }

  /** The engine map of the constructor's loop grows by one provisioned name per iteration. */
  lemma Grow(p: seq<string>, j: nat, start: string -> Engine)
    requires j < |p|
    ensures (map n | n in p[..j] :: start(n))[p[j] := start(p[j])] == map n | n in p[..j + 1] :: start(n)
  {
    assert forall n :: n in p[..j + 1] <==> n in p[..j] || n == p[j];
  }

  /** One more name in `finalize`'s order is one more `finalize` call. */
  lemma FinalizeStep(native: Native, s0: O.State, order: seq<string>, name: string)
    requires O.Valid(s0) && name in s0.engines && forall n :: n in order ==> n in s0.engines
    ensures forall n :: n in order + [name] ==> n in s0.engines
    ensures O.Finalize(native, s0, order + [name])
         == O.Call(native, O.Finalize(native, s0, order), name, Command.Finalize).0
  {
    assert (order + [name])[..|order|] == order;
  }
}
