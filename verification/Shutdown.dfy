/** Graceful shutdown of the server: an accept loop, a watch channel and the connection tasks,
    interleaved in any order. */
module Shutdown {
  import opened Bytes

  /** A connection task: still running or ended, the channel version its receiver has seen, and
      whether it was told to shut down. */
  datatype Conn = Conn(live: bool, seen: nat, notified: bool)

  /** How the server returns: the signal branch, an exhausted listener, or an accept error. */
  datatype Exit = Graceful | NoMore | AcceptError

  datatype Phase = Accepting | Closing | Stopped(exit: Exit)

  /** `version` is that of the channel, `kept` the version seen by the receiver the accept loop
      clones for each connection. */
  datatype Server = Server(phase: Phase, version: nat, kept: nat, conns: map<nat, Conn>)

  const START := Server(Accepting, 0, 0, map[])

  datatype Step =
    | Accept(id: nat)   // spawn a task with a clone of the receiver
    | Handshake         // a TLS handshake that fails
    | Signal            // drop the kept receiver, send on the channel, start waiting
    | See(id: nat)      // a task's receiver reports a change
    | End(id: nat)      // a task ends and drops its receiver
    | Return            // every receiver is gone
    | Exhausted         // the listener has no more connections
    | AcceptFailed      // the listener reports an error

  predicate IsLive(s: Server, id: nat) {
    id in s.conns && s.conns[id].live
  }

  function Live(s: Server): set<nat> {
    set id | id in s.conns && s.conns[id].live
  }

  predicate Enabled(s: Server, step: Step) {
    match step
    case Accept(id) => s.phase.Accepting? && id !in s.conns
    case Handshake => s.phase.Accepting?
    case Signal => s.phase.Accepting?
    case See(id) => IsLive(s, id) && (s.conns[id].seen != s.version || s.phase.Stopped?)
    case End(id) => IsLive(s, id)
    case Return => s.phase.Closing? && Live(s) == {}
    case Exhausted => s.phase.Accepting?
    case AcceptFailed => s.phase.Accepting?
  }

  function Next(s: Server, step: Step): Server
    requires Enabled(s, step)
  {
    match step
    case Accept(id) => s.(conns := s.conns[id := Conn(true, s.kept, false)])
    case Handshake => s
    case Signal =>
      // Sending without receivers fails and leaves the version alone.
      s.(phase := Closing, version := if Live(s) == {} then s.version else s.version + 1)
    case See(id) => s.(conns := s.conns[id := s.conns[id].(seen := s.version, notified := true)])
    case End(id) => s.(conns := s.conns[id := s.conns[id].(live := false)])
    case Return => s.(phase := Stopped(Graceful))
    case Exhausted => s.(phase := Stopped(NoMore))
    case AcceptFailed => s.(phase := Stopped(AcceptError))
  }

  /** The state after a run, if every step of it was enabled. */
  function Run(s: Server, steps: seq<Step>): (r: Option<Server>)
    decreases |steps|
  {
    if steps == [] then Some(s)
    else if !Enabled(s, steps[0]) then None
    else Run(Next(s, steps[0]), steps[1..])
  }

  ghost predicate Inv(s: Server) {
    && s.kept == 0
    && (s.phase.Accepting? ==> s.version == 0)
    && (s.phase == Stopped(Graceful) ==> Live(s) == {})
    && (forall id :: id in s.conns ==> s.conns[id].seen <= s.version)
    && (s.phase.Accepting? ==> forall id :: id in s.conns ==> !s.conns[id].notified)
    && (s.phase.Closing? ==> forall id :: id in s.conns && s.conns[id].live ==>
          (s.conns[id].notified <==> s.conns[id].seen == s.version))
  }

  lemma StepKeepsInv(s: Server, step: Step)
    requires Inv(s) && Enabled(s, step)
    ensures Inv(Next(s, step))
  {
    if step.Signal? {
      forall id | id in s.conns && s.conns[id].live
        ensures s.conns[id].seen != Next(s, step).version
      {
        assert id in Live(s);
      }
    }
  }

  lemma {:induction false} RunKeepsInv(s: Server, steps: seq<Step>)
    requires Inv(s) && Run(s, steps).Some?
    ensures Inv(Run(s, steps).value)
    decreases |steps|
  {
    if steps != [] {
      StepKeepsInv(s, steps[0]);
      RunKeepsInv(Next(s, steps[0]), steps[1..]);
    }
  }

  /** Once accepting is over it stays over: no connection is added, whatever happens next. */
  lemma {:induction false} NoAcceptAfter(s: Server, steps: seq<Step>)
    requires !s.phase.Accepting? && Run(s, steps).Some?
    ensures Run(s, steps).value.conns.Keys == s.conns.Keys && !Run(s, steps).value.phase.Accepting?
    ensures forall i :: 0 <= i < |steps| ==> !steps[i].Accept?
    decreases |steps|
  {
    if steps != [] {
      NoAcceptAfter(Next(s, steps[0]), steps[1..]);
      forall i | 0 <= i < |steps|
        ensures !steps[i].Accept?
      {
        if i > 0 { assert steps[i] == steps[1..][i - 1]; }
      }
    }
  }

  lemma {:induction false} RunSplit(s: Server, a: seq<Step>, b: seq<Step>)
    requires Run(s, a + b).Some?
    ensures Run(s, a).Some? && Run(Run(s, a).value, b) == Run(s, a + b)
    decreases |a|
  {
    if a == [] {
      assert a + b == b;
    } else {
      assert (a + b)[1..] == a[1..] + b;
      RunSplit(Next(s, a[0]), a[1..], b);
    }
  }

  /** In every run of the server: after the signal no connection is accepted; the signal branch
      returns only when every connection ever spawned has ended; and at any time in between, every
      connection still running has been told to shut down or can be told at once, however late it
      was spawned. */
  lemma ShutdownIsGraceful(steps: seq<Step>, k: nat)
    requires Run(START, steps).Some? && k < |steps| && steps[k].Signal?
    ensures var s := Run(START, steps).value;
            && (forall i :: k < i < |steps| ==> !steps[i].Accept?)
            && (s.phase == Closing || s.phase == Stopped(Graceful))
            && (s.phase == Stopped(Graceful) ==> forall id :: id in s.conns ==> !s.conns[id].live)
            && (s.phase == Closing ==>
                  forall id :: IsLive(s, id) ==> s.conns[id].notified || Enabled(s, See(id)))
  {
    var before, after := steps[..k], steps[k..];
    assert steps == before + after;
    RunSplit(START, before, after);
    var at := Run(START, before).value;
    assert after[0] == steps[k];
    var closing := Next(at, Signal);
    NoAcceptAfter(closing, after[1..]);
    StaysGraceful(closing, after[1..]);
    assert Inv(START);
    RunKeepsInv(START, steps);
    var s := Run(START, steps).value;
    assert s == Run(closing, after[1..]).value;
    forall i | k < i < |steps|
      ensures !steps[i].Accept?
    {
      assert steps[i] == after[1..][i - k - 1];
    }
    forall id | id in s.conns && s.phase == Stopped(Graceful)
      ensures !s.conns[id].live
    {
      assert id !in Live(s);
    }
  }

  lemma {:induction false} StaysGraceful(s: Server, steps: seq<Step>)
    requires (s.phase == Closing || s.phase == Stopped(Graceful)) && Run(s, steps).Some?
    ensures Run(s, steps).value.phase == Closing || Run(s, steps).value.phase == Stopped(Graceful)
    decreases |steps|
  {
    if steps != [] {
      StaysGraceful(Next(s, steps[0]), steps[1..]);
    }
  }

  // ---- the wait ends -------------------------------------------------------------------------

  function Unnotified(s: Server): set<nat> {
    set id | id in s.conns && s.conns[id].live && !s.conns[id].notified
  }

  /** Steps that can still be taken while closing. */
  function Remaining(s: Server): nat {
    |Live(s)| + |Unnotified(s)| + if s.phase.Closing? then 1 else 0
  }

  lemma ClosingStepDecreases(s: Server, step: Step)
    requires Inv(s) && (s.phase == Closing || s.phase == Stopped(Graceful)) && Enabled(s, step)
    ensures Remaining(Next(s, step)) < Remaining(s)
  {
    var t := Next(s, step);
    match step
    case See(id) =>
      assert id in Live(s);
      assert Live(t) == Live(s);
      assert Unnotified(t) == Unnotified(s) - {id};
    case End(id) =>
      assert Live(t) == Live(s) - {id};
      SubsetSize(Unnotified(t), Unnotified(s));
    case Return =>
      assert Live(t) == Live(s) && Unnotified(t) == Unnotified(s);
  }

  lemma {:induction false} SubsetSize(a: set<nat>, b: set<nat>)
    requires a <= b
    ensures |a| <= |b|
    decreases a
  {
    if a != {} {
      var x :| x in a;
      SubsetSize(a - {x}, b - {x});
    }
  }

  /** After the signal a run can only take as many steps as there are connections to tell and to
      end, and one more to return; and until it has returned some step is possible. So every run
      that is not stopped by the outside returns. */
  lemma {:induction false} ShutdownEnds(s: Server, steps: seq<Step>)
    requires Inv(s) && (s.phase == Closing || s.phase == Stopped(Graceful)) && Run(s, steps).Some?
    ensures |steps| <= Remaining(s)
    ensures var t := Run(s, steps).value;
            t.phase == Closing ==> Enabled(t, Return) || exists id :: Enabled(t, End(id))
    decreases |steps|
  {
    if steps == [] {
      if s.phase == Closing && Live(s) != {} {
        var id :| id in Live(s);
        assert Enabled(s, End(id));
      }
    } else {
      ClosingStepDecreases(s, steps[0]);
      StepKeepsInv(s, steps[0]);
      ShutdownEnds(Next(s, steps[0]), steps[1..]);
    }
  }

  /** In every run, at the step that stops the server: no connection is left running exactly when
      the signal branch returns or none was running anyway. */
  lemma StopLeavesNoneExactly(steps: seq<Step>, k: nat)
    requires Run(START, steps).Some? && k < |steps|
    ensures Run(START, steps[..k]).Some? && Run(START, steps[..k + 1]).Some?
    ensures var s, t := Run(START, steps[..k]).value, Run(START, steps[..k + 1]).value;
            !s.phase.Stopped? && t.phase.Stopped? ==> (Live(t) == {} <==> steps[k].Return? || Live(s) == {})
  {
    assert steps == steps[..k + 1] + steps[k + 1..];
    RunSplit(START, steps[..k + 1], steps[k + 1..]);
    var step := [steps[k]];
    assert steps[..k + 1] == steps[..k] + step;
    RunSplit(START, steps[..k], step);
    var s := Run(START, steps[..k]).value;
    assert step[1..] == [];
    assert Run(s, step) == Run(Next(s, steps[k]), []);
  }

  /** A return other than that of the signal branch can leave connections running. */
  lemma ExhaustedDoesNotWait(id: nat, last: Step)
    requires last.Exhausted? || last.AcceptFailed?
    ensures var r := Run(START, [Accept(id), last]);
            r.Some? && r.value.phase.Stopped? && IsLive(r.value, id)
  {
    var steps := [Accept(id), last];
    assert steps[1..] == [last] && steps[1..][1..] == [];
    assert Run(Next(START, Accept(id)), [last]) == Run(Next(Next(START, Accept(id)), last), [last][1..]);
  }
}
