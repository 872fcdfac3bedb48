/**
 * The listening loop each instance process runs (`XBeachMI.run`): take a
 * command from the inbound queue, run it on the engine, put its result (or
 * `None` when it raised) on the outbound queue, and leave the loop right
 * after a `finalize` command, whether or not it succeeded.
 *
 * A queue entry `None` stands for a falsy item: it is taken but neither
 * answered nor counted as a task. The model ends the loop when the queue is
 * exhausted, where the process would wait for more commands.
 */
module Worker {
  import opened Wrappers
  import opened Engines

  /** One command: run it and turn an exception into a `None` reply. */
  function Handle(native: Native, e: Engine, cmd: Command): (r: (Engine, Reply))
    ensures Invoke(native, e, cmd).1.Raised? ==> r == (e, None)
    ensures Invoke(native, e, cmd).1.Returned? ==> r.1 == Invoke(native, e, cmd).1.reply
    ensures r.0 == Invoke(native, e, cmd).0
  {
    match Invoke(native, e, cmd)
    case (e1, Returned(reply)) => (e1, reply)
    case (e1, Raised) => (e1, None)
  }

  /** Each call's effect on the engine and its reply, once exceptions are turned into `None`. */
  lemma HandleEffect(native: Native, e: Engine, cmd: Command)
    ensures cmd.GetCurrentTime? ==> Handle(native, e, cmd) == (e, Some(Real(e.time)))
    ensures cmd.GetVar? ==> Handle(native, e, cmd) == (e, VarReply(e, cmd.name))
    ensures cmd.SetVar? ==> Handle(native, e, cmd) == (Assign(e, cmd.name, cmd.val), None)
    ensures cmd.Update? ==> Handle(native, e, cmd) == (Advanced(native, e, cmd.dt), None)
    ensures cmd.Finalize? ==> Handle(native, e, cmd) == (Closed(native, e), None)
  {
  }

  /** What the loop has done: the final engine, the replies in order, and how many entries it took. */
  datatype Served = Served(engine: Engine, replies: seq<Reply>, taken: nat)

  predicate IsFinalize(q: Option<Command>) {
    q.Some? && q.value.Finalize?
  }

  /** The loop over a queue, entry by entry from the front. */
  function ServeSpec(native: Native, e: Engine, queue: seq<Option<Command>>): (r: Served)
    ensures r.taken <= |queue|
    decreases |queue|
  {
    if queue == [] then Served(e, [], 0)
    else
      match queue[0]
      case None =>
        var rest := ServeSpec(native, e, queue[1..]);
        rest.(taken := rest.taken + 1)
      case Some(cmd) =>
        var (e1, reply) := Handle(native, e, cmd);
        if cmd.Finalize? then Served(e1, [reply], 1)
        else
          var rest := ServeSpec(native, e1, queue[1..]);
          Served(rest.engine, [reply] + rest.replies, rest.taken + 1)
  }

  /** What the loop has done so far followed by what it does on the rest of the queue. */
  function Resume(replies: seq<Reply>, taken: nat, rest: Served): Served {
    Served(rest.engine, replies + rest.replies, taken + rest.taken)
  }

  /** The listening loop. */
  method Serve(native: Native, e0: Engine, queue: seq<Option<Command>>) returns (e: Engine, replies: seq<Reply>, taken: nat)
    ensures Served(e, replies, taken) == ServeSpec(native, e0, queue)
  {
    e := e0;
    replies := [];
    taken := 0;
    while taken < |queue|
      invariant taken <= |queue|
      invariant ServeSpec(native, e0, queue) == Resume(replies, taken, ServeSpec(native, e, queue[taken..]))
    {
      var q := queue[taken];
      assert queue[taken..][1..] == queue[taken + 1..];
      taken := taken + 1;
      if q.Some? {
        var cmd := q.value;
        var next := Handle(native, e, cmd);
        e := next.0;
        replies := replies + [next.1];
        if cmd.Finalize? {
          return;
        }
      }
    }
    assert queue[taken..] == [];
  }

  // ---------------------------------------------------------------------
  // A reference definition: every command run in order, none skipped.

  /** The commands of a queue, in order, without the falsy entries. */
  function Commands(queue: seq<Option<Command>>): seq<Command>
    decreases |queue|
  {
    if queue == [] then []
    else (if queue[0].Some? then [queue[0].value] else []) + Commands(queue[1..])
  }

  /** Run commands one after another, collecting every reply. */
  function Run(native: Native, e: Engine, cmds: seq<Command>): (Engine, seq<Reply>)
    decreases |cmds|
  {
    if cmds == [] then (e, [])
    else
      var (e1, replies) := Run(native, e, cmds[..|cmds| - 1]);
      var (e2, reply) := Handle(native, e1, cmds[|cmds| - 1]);
      (e2, replies + [reply])
  }

  /** `Run` seen from the front. */
  lemma {:induction false} RunFront(native: Native, e: Engine, cmd: Command, cmds: seq<Command>)
    ensures Run(native, e, [cmd] + cmds)
         == (var e1 := Handle(native, e, cmd).0;
             (Run(native, e1, cmds).0, [Handle(native, e, cmd).1] + Run(native, e1, cmds).1))
    decreases |cmds|
  {
    if cmds != [] {
      var init := cmds[..|cmds| - 1];
      var last := cmds[|cmds| - 1];
      assert ([cmd] + cmds)[..|cmds|] == [cmd] + init;
      assert ([cmd] + cmds)[|cmds|] == last;
      RunFront(native, e, cmd, init);
      var h := Handle(native, e, cmd);
      var mid := Run(native, h.0, init);
      var fin := Handle(native, mid.0, last);
      assert Run(native, e, [cmd] + init) == (mid.0, [h.1] + mid.1);
      assert Run(native, h.0, cmds) == (fin.0, mid.1 + [fin.1]);
      assert Run(native, e, [cmd] + cmds) == (fin.0, ([h.1] + mid.1) + [fin.1]);
      assert ([h.1] + mid.1) + [fin.1] == [h.1] + (mid.1 + [fin.1]);
    } else {
      assert [cmd] + cmds == [cmd];
      assert [cmd][..0] == [];
      var h := Handle(native, e, cmd);
      assert Run(native, e, [cmd]) == (h.0, [] + [h.1]);
      assert [] + [h.1] == [h.1] + [];
    }
  }


  /**
   * A queue with no `finalize` before its last entry is taken entirely, and
   * its replies are those of running its commands in order.
   */
  lemma {:induction false} ServeRunsInOrder(native: Native, e: Engine, queue: seq<Option<Command>>)
    requires forall k :: 0 <= k < |queue| - 1 ==> !IsFinalize(queue[k])
    ensures ServeSpec(native, e, queue).taken == |queue|
    ensures (ServeSpec(native, e, queue).engine, ServeSpec(native, e, queue).replies) == Run(native, e, Commands(queue))
    decreases |queue|
  {
    if queue != [] {
      var tail := queue[1..];
      assert forall k :: 0 <= k < |tail| - 1 ==> tail[k] == queue[k + 1];
      match queue[0]
      case None =>
        assert Commands(queue) == [] + Commands(tail);
        assert [] + Commands(tail) == Commands(tail);
        ServeRunsInOrder(native, e, tail);
      case Some(cmd) =>
        assert Commands(queue) == [cmd] + Commands(tail);
        RunFront(native, e, cmd, Commands(tail));
        if cmd.Finalize? {
          assert IsFinalize(queue[0]);
          assert |queue| == 1;
          assert tail == [];
          assert Commands(tail) == [];
          assert [Handle(native, e, cmd).1] + [] == [Handle(native, e, cmd).1];
        } else {
          ServeRunsInOrder(native, Handle(native, e, cmd).0, tail);
        }
    }
  }

  /** Nothing after the first `finalize` is taken or answered, whether or not that `finalize` succeeded. */
  lemma {:induction false} StopsAtFirstFinalize(native: Native, e: Engine, queue: seq<Option<Command>>, j: nat)
    requires j < |queue| && IsFinalize(queue[j])
    requires forall k :: 0 <= k < j ==> !IsFinalize(queue[k])
    ensures ServeSpec(native, e, queue) == ServeSpec(native, e, queue[..j + 1])
    ensures ServeSpec(native, e, queue).taken == j + 1
    decreases j
  {
    var tail := queue[1..];
    if j > 0 {
      assert queue[..j + 1][1..] == tail[..j];
      assert forall k :: 0 <= k < j - 1 ==> tail[k] == queue[k + 1];
      match queue[0]
      case None =>
        StopsAtFirstFinalize(native, e, tail, j - 1);
      case Some(cmd) =>
        assert !IsFinalize(queue[0]);
        StopsAtFirstFinalize(native, Handle(native, e, cmd).0, tail, j - 1);
    }
  }

  /**
   * The loop answers the commands up to and including the first `finalize`
   * (or the whole queue when there is none) in order, one reply each.
   */
  lemma AnswersInOrder(native: Native, e: Engine, queue: seq<Option<Command>>)
    ensures var r := ServeSpec(native, e, queue);
      (r.engine, r.replies) == Run(native, e, Commands(queue[..r.taken]))
  {
    var r := ServeSpec(native, e, queue);
    if j :| 0 <= j < |queue| && IsFinalize(queue[j]) && forall k :: 0 <= k < j ==> !IsFinalize(queue[k]) {
      StopsAtFirstFinalize(native, e, queue, j);
      var p := queue[..j + 1];
      assert forall k :: 0 <= k < |p| - 1 ==> p[k] == queue[k];
      ServeRunsInOrder(native, e, p);
    } else {
      NoFirstFinalize(queue);
      assert queue[..|queue|] == queue;
      ServeRunsInOrder(native, e, queue);
    }
  }

  /** A queue without a first `finalize` has none at all. */
  lemma NoFirstFinalize(queue: seq<Option<Command>>)
    requires !exists j :: 0 <= j < |queue| && IsFinalize(queue[j]) && forall k :: 0 <= k < j ==> !IsFinalize(queue[k])
    ensures forall k :: 0 <= k < |queue| ==> !IsFinalize(queue[k])
  {
    forall k | 0 <= k < |queue|
      ensures !IsFinalize(queue[k])
    {
      NoFinalizeBelow(queue, k);
    }
  }

  lemma {:induction false} NoFinalizeBelow(queue: seq<Option<Command>>, k: nat)
    requires k < |queue|
    requires !exists j :: 0 <= j < |queue| && IsFinalize(queue[j]) && forall i :: 0 <= i < j ==> !IsFinalize(queue[i])
    ensures forall i :: 0 <= i <= k ==> !IsFinalize(queue[i])
    decreases k
  {
    if k > 0 {
      NoFinalizeBelow(queue, k - 1);
    }
  }

  /** A failed command is answered with `None` and leaves the engine as it was. */
  lemma FailedRepliesNone(native: Native, e: Engine, cmd: Command)
    requires Invoke(native, e, cmd).1.Raised?
    ensures Handle(native, e, cmd) == (e, None)
  {
  }
}
