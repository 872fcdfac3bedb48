/**
 * The XBeach engines that xbeachmi/model.py drives through BMI calls. The
 * engines' numerics are foreign code: advancing an engine and closing it
 * are parameters (`Native`), each of which may raise. Everything else an
 * engine does for the orchestrator is reading and writing named variables
 * and reporting its time.
 */
module Engines {
  import opened Wrappers

  /** A model variable: a scalar or a grid of cells. */
  datatype Value = Real(x: real) | Grid(cells: seq<real>)

  /** The state of one initialized engine. */
  datatype Engine = Engine(time: real, vars: map<string, Value>, finalized: bool)

  /** The BMI calls the orchestrator sends, with their arguments. */
  datatype Command =
    | GetCurrentTime
    | GetVar(name: string)
    | SetVar(name: string, val: Option<Value>)
    | Update(dt: real)
    | Finalize

  /** What a call hands back: a value, or Python's `None`. */
  type Reply = Option<Value>

  /** A call either returns, possibly `None` for a void BMI function, or raises. */
  datatype CallResult = Returned(reply: Reply) | Raised

  /**
   * The foreign part of an engine: `advance(e, dt)` is the engine after an
   * `update(dt)`, or `None` when the update raises; `close(e)` says whether
   * `finalize` succeeds.
   */
  datatype Native = Native(advance: (Engine, real) -> Option<Engine>, close: Engine -> bool)

  /** The engine after `update(dt)`; a raising update leaves it as it was. */
  function Advanced(native: Native, e: Engine, dt: real): Engine {
    match native.advance(e, dt)
    case Some(e1) => e1
    case None => e
  }

  /** The engine after `finalize`; a raising finalize leaves it as it was. */
  function Closed(native: Native, e: Engine): Engine {
    if native.close(e) then e.(finalized := true) else e
  }

  /** What `get_var` hands back: the variable's value, or `None` when the engine does not know it. */
  function VarReply(e: Engine, name: string): Reply {
    if name in e.vars then Some(e.vars[name]) else None
  }

  /** The engine after `set_var`: a known variable takes a value that is not `None`; otherwise nothing changes. */
  function Assign(e: Engine, name: string, val: Option<Value>): Engine {
    if name in e.vars && val.Some? then e.(vars := e.vars[name := val.value]) else e
  }

  /**
   * One BMI call on one engine. `get_var` of an unknown variable raises, and
   * so does `set_var` of an unknown variable or of a `None` value; the void
   * calls return `None`.
   */
  function Invoke(native: Native, e: Engine, cmd: Command): (Engine, CallResult) {
    match cmd
    case GetCurrentTime => (e, Returned(Some(Real(e.time))))
    case GetVar(name) =>
      if name in e.vars then (e, Returned(Some(e.vars[name]))) else (e, Raised)
    case SetVar(name, val) =>
      if name in e.vars && val.Some? then (e.(vars := e.vars[name := val.value]), Returned(None))
      else (e, Raised)
    case Update(dt) =>
      if native.advance(e, dt).Some? then (native.advance(e, dt).value, Returned(None)) else (e, Raised)
    case Finalize =>
      if native.close(e) then (e.(finalized := true), Returned(None)) else (e, Raised)
  }
}
