/** Which requests are lost: those that a destroyed environment has not taken when its thread stops. */
module ProtocolDrops {
  import opened Protocol
  import opened ProtocolInvariant
  import opened ProtocolSteps
  import opened ProtocolProgress
  import opened ProtocolResults

  // ---- What the client can see

  lemma BeforeInStream(v: Server, r: Request, name: string)
    requires BeforeDestroy(v.handled, r, name)
    ensures BeforeDestroy(Stream(v), r, name)
  {
    BeforeStays(v.handled, v.lines + v.stdin, r, name);
    assert Stream(v) == v.handled + (v.lines + v.stdin);
  }

  lemma DropInServer(v: Server, k: nat, r: Request)
    requires ServerInv(v) && k < |v.envs| && r in v.envs[k].dropped
    ensures r.kind == Eval(v.envs[k].name) && BeforeDestroy(Stream(v), r, v.envs[k].name)
  {
    hide Of;
    assert EnvOk(v, k);
    assert r in v.envs[k].submitted;
    DestroyedBefore(v, k, r);
    BeforeInStream(v, r, v.envs[k].name);
  }

  /** A request is lost only if it asks for an evaluation and the client destroys that environment later. */
  lemma DropNeedsDestroy(steps: seq<Step>, k: nat, r: Request)
    requires IsRun(steps) && k < |After(steps).server.envs| && r in After(steps).server.envs[k].dropped
    ensures r.kind == Eval(After(steps).server.envs[k].name)
    ensures BeforeDestroy(After(steps).client.sent, r, After(steps).server.envs[k].name)
  {
    RunsKeep(steps);
    DropInServer(After(steps).server, k, r);
  }

  /**
   * A request that the client does not follow with the destruction of its environment is answered: left
   * to itself, and with poll never timing out, the server stops only when it has exited or has replied.
   */
  lemma AnsweredUnlessDestroyed(run: seq<Step>, states: seq<Server>, steps: seq<ServerStep>, r: Request)
    requires IsRun(run) && PromptRun(states, steps) && states[0] == After(run).server
    requires r in After(run).client.sent
    requires r.kind.Eval? ==> !BeforeDestroy(After(run).client.sent, r, r.kind.name)
    ensures |steps| <= Work(states[0])
    ensures var last := states[|steps|];
            || last.main.Gone?
            || (exists step :: Prompt(step) && TableKnown(last) && ServerCan(last, step))
            || r in last.replies
  {
    EverythingIsAnswered(run, states, steps);
    RunsKeep(run);
    PromptRunsKeep(states, steps);
    var last := states[|steps|];
    hide ServerInv, PromptRun, After;
    if k: nat :| k < |last.envs| && r in last.envs[k].dropped {
      DropInServer(last, k, r);
    }
  }

  // ---- When it is decided

  /** Once its thread has finished, an environment gets nothing more: what is queued stays until it is dropped. */
  lemma FinishedStays(v: Server, step: ServerStep, w: Server, k: nat)
    requires MainOk(v) && TableOk(v) && Goes(v, step, w) && k < |v.envs|
    requires v.envs[k].phase.Exited? && !v.envs[k].running && (v.envs[k].dropped != [] ==> v.envs[k].queue == [])
    ensures k < |w.envs| && w.envs[k].phase.Exited?
    ensures w.envs[k].queue + w.envs[k].dropped == v.envs[k].queue + v.envs[k].dropped
    ensures w.envs[k].answered == v.envs[k].answered
  {
    hide Find;
  }

  lemma {:induction false} FinishedForever(steps: seq<Step>, n: nat, k: nat)
    requires n <= |steps| && IsRun(steps) && IsRun(steps[..n])
    requires k < |After(steps[..n]).server.envs| && After(steps[..n]).server.envs[k].phase.Exited?
    ensures k < |After(steps).server.envs|
    ensures var e, f := After(steps[..n]).server.envs[k], After(steps).server.envs[k];
            f.phase.Exited? && f.queue + f.dropped == e.queue + e.dropped && f.answered == e.answered
    decreases |steps|
  {
    hide Of, Apply;
    if n == |steps| {
      assert steps[..n] == steps;
    } else {
      var before, step := steps[..|steps| - 1], steps[|steps| - 1];
      assert before[..n] == steps[..n];
      FinishedForever(before, n, k);
      RunsKeep(before);
      assert EnvOk(After(before).server, k);
      FinishedStep(After(before), step, After(steps), k);
    }
  }

  lemma FinishedStep(s: System, step: Step, t: System, k: nat)
    requires Inv(s) && Enabled(s, step) && t == Apply(s, step) && k < |s.server.envs| && s.server.envs[k].phase.Exited?
    ensures k < |t.server.envs| && t.server.envs[k].phase.Exited?
    ensures t.server.envs[k].queue + t.server.envs[k].dropped == s.server.envs[k].queue + s.server.envs[k].dropped
    ensures t.server.envs[k].answered == s.server.envs[k].answered
  {
    hide Of;
    assert EnvOk(s.server, k);
    if step.FromServer? {
      FinishedStays(s.server, step.server, t.server, k);
    }
  }

  lemma {:induction false} RunPrefix(steps: seq<Step>, n: nat)
    requires IsRun(steps) && n <= |steps|
    ensures IsRun(steps[..n])
    ensures n < |steps| ==> IsRun(steps[..n + 1]) && Enabled(After(steps[..n]), steps[n])
                            && After(steps[..n + 1]) == Apply(After(steps[..n]), steps[n])
    decreases |steps|
  {
    if n == |steps| {
      assert steps[..n] == steps;
    } else {
      var before := steps[..|steps| - 1];
      RunPrefix(before, n);
      assert before[..n] == steps[..n];
      assert n + 1 < |steps| ==> before[..n + 1] == steps[..n + 1];
      assert n + 1 == |steps| ==> steps[..n + 1] == steps;
    }
  }

  /**
   * The test of running at the top of the loop decides. If it fails at step n, then exactly what is in
   * the queue at that moment is lost: once the environment is joined, a request it was given is without
   * a reply if and only if it was in that queue.
   */
  lemma LostExactly(steps: seq<Step>, n: nat, k: nat, r: Request)
    requires IsRun(steps) && n < |steps| && steps[n] == FromServer(EnvMove(k)) && IsRun(steps[..n])
    requires var v := After(steps[..n]).server; k < |v.envs| && v.envs[k].phase.AtTop? && !v.envs[k].running
    requires k < |After(steps).server.envs| && !Ending(After(steps).server, k)
    ensures After(steps).server.envs[k].dropped == After(steps[..n]).server.envs[k].queue
    ensures r in After(steps).server.envs[k].submitted ==>
              (r !in After(steps).server.replies <==> r in After(steps[..n]).server.envs[k].queue)
  {
    var cut := steps[..n + 1];
    RunPrefix(steps, n);
    RunPrefix(steps, n + 1);
    RunsKeep(steps);
    RunsKeep(steps[..n]);
    hide After, IsRun, Inv, Apply, Enabled;
    ExitKeepsQueue(After(steps[..n]), k, After(cut));
    FinishedForever(steps, n + 1, k);
    InvServer(After(steps));
    JoinedExactly(After(steps).server, k, After(steps[..n]).server.envs[k].queue, r);
  }

  lemma InvServer(s: System)
    requires Inv(s)
    ensures ServerInv(s.server)
  {
  }

  lemma ExitKeepsQueue(s: System, k: nat, t: System)
    requires Inv(s) && Enabled(s, FromServer(EnvMove(k))) && t == Apply(s, FromServer(EnvMove(k)))
    requires k < |s.server.envs| && s.server.envs[k].phase.AtTop? && !s.server.envs[k].running
    ensures k < |t.server.envs| && t.server.envs[k].phase.Exited?
    ensures t.server.envs[k].queue + t.server.envs[k].dropped == s.server.envs[k].queue
  {
    hide Of;
    assert EnvOk(s.server, k);
  }

  lemma JoinedExactly(v: Server, k: nat, queue: seq<Request>, r: Request)
    requires ServerInv(v) && k < |v.envs| && v.envs[k].phase.Exited? && !Ending(v, k)
    requires v.envs[k].queue + v.envs[k].dropped == queue
    ensures v.envs[k].dropped == queue
    ensures r in v.envs[k].submitted ==> (r !in v.replies <==> r in queue)
  {
    hide Of;
    var env := v.envs[k];
    assert EnvOk(v, k);
    assert env.queue == [] && Rest(env) == env.dropped;
    if r in queue {
      RestIsUnanswered(v, k, r);
    } else if r in env.submitted {
      assert r in env.answered;
      OfMembers(v.replies, v.route, k, r);
    }
  }
}
