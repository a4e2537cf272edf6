/** No step is lost: without the poll timeouts the server still finishes all its work. */
module ProtocolProgress {
  import opened Protocol
  import opened ProtocolInvariant
  import opened ProtocolSteps

  /** A step that does not rely on a poll timeout. */
  predicate Prompt(step: ServerStep) {
    !step.EnvTimeout? && step != MainWake(true)
  }

  // ---- Work that is left

  function Rank(env: Env): (n: nat) {
    match env.phase
    case Exited => 0
    case Polling => 1
    case AtTop => 2
    case RunningJobs => 3
    case Fetching => 4
    case Handling(_) => 5
    case Draining(ready) => if ready && env.signals > 0 then 0 else 5
  }

  function EnvWork(env: Env): (n: nat) {
    10 * (env.signals + |env.queue|) + Rank(env)
  }

  function EnvsWork(envs: seq<Env>): (n: nat) {
    if envs == [] then 0 else EnvsWork(envs[..|envs| - 1]) + EnvWork(envs[|envs| - 1])
  }

  function MainRank(v: Server): (n: nat) {
    match v.main
    case Gone => 0
    case MainPolling => 1
    case MainFetching => 4
    case MainDraining(ready) => if ready && v.lineSignals > 0 then 0 else 5
    case Notifying(_) => 20
    case Stopping(_, _) => 30
    case Joining(_, _) => 15
  }

  function MainWork(v: Server): (n: nat) {
    200 * |v.stdin| + 100 * |v.lines| + 10 * v.lineSignals + (if v.notifyDue then 20 else 0) + MainRank(v)
  }

  function Work(v: Server): (n: nat) {
    MainWork(v) + EnvsWork(v.envs)
  }

  lemma {:induction false} EnvsWorkUpdate(envs: seq<Env>, k: nat, env: Env)
    requires k < |envs|
    ensures EnvsWork(envs[k := env]) == EnvsWork(envs) - EnvWork(envs[k]) + EnvWork(env)
  {
    var n := |envs| - 1;
    if k == n {
      assert envs[k := env][..n] == envs[..n];
    } else {
      EnvsWorkUpdate(envs[..n], k, env);
      assert envs[k := env][..n] == envs[..n][k := env];
    }
  }

  lemma EnvsWorkAppend(envs: seq<Env>, env: Env)
    ensures EnvsWork(envs + [env]) == EnvsWork(envs) + EnvWork(env)
  {
    assert (envs + [env])[..|envs|] == envs;
  }

  lemma MoveWorks(env: Env)
    requires CanMove(env)
    ensures EnvWork(Move(env)) < EnvWork(env)
  {
  }

  /** What one step does to the environments, as work added less work done. */
  lemma EnvsStep(v: Server, step: ServerStep, w: Server)
    requires Goes(v, step, w) && Prompt(step)
    ensures EnvsWork(w.envs) <= EnvsWork(v.envs) +
            (if step.Create? then 2 else if step.Submit? || step.Notify? || step.SignalStop? then 10 else 0)
    ensures step.EnvMove? ==> EnvsWork(w.envs) < EnvsWork(v.envs)
  {
    hide EnvsWork, Find;
    match step
    case Create => EnvsWorkAppend(v.envs, w.envs[|v.envs|]);
    case Submit(k) => EnvsWorkUpdate(v.envs, k, w.envs[k]);
    case Destroy(k) => EnvsWorkUpdate(v.envs, k, w.envs[k]);
    case Notify => EnvsWorkUpdate(v.envs, v.main.env, w.envs[v.main.env]);
    case SignalStop => EnvsWorkUpdate(v.envs, v.main.env, w.envs[v.main.env]);
    case Join => EnvsWorkUpdate(v.envs, v.main.env, w.envs[v.main.env]);
    case EnvMove(k) =>
      EnvsWorkUpdate(v.envs, k, w.envs[k]);
      MoveWorks(v.envs[k]);
    case _ =>
  }

  lemma MainStep(v: Server, step: ServerStep, w: Server)
    requires Goes(v, step, w) && Prompt(step)
    ensures MainWork(w)
      + (if step.Create? then 2 else if step.Submit? || step.Notify? || step.SignalStop? then 10 else 0) <=
            MainWork(v) - (if step.EnvMove? then 0 else 1)
  {
    hide Find;
  }

  /** Every step but a timeout uses up some work, so only finitely many can follow. */
  lemma StepWorks(v: Server, step: ServerStep, w: Server)
    requires Goes(v, step, w) && Prompt(step)
    ensures Work(w) < Work(v)
  {
    hide Goes, MainWork, EnvsWork;
    EnvsStep(v, step, w);
    MainStep(v, step, w);
  }

  /** One server state after another, without timeouts. */
  ghost predicate PromptRun(states: seq<Server>, steps: seq<ServerStep>) {
    && |states| == |steps| + 1
    && forall i :: 0 <= i < |steps| ==>
         Prompt(steps[i]) && !states[i].main.Gone? && Goes(states[i], steps[i], states[i + 1])
  }

  lemma {:induction false} PromptRunsEnd(states: seq<Server>, steps: seq<ServerStep>)
    requires PromptRun(states, steps)
    ensures |steps| + Work(states[|steps|]) <= Work(states[0])
  {
    if steps != [] {
      var n := |steps| - 1;
      PromptRunsEnd(states[..n + 1], steps[..n]);
      StepWorks(states[n], steps[n], states[n + 1]);
    }
  }

  // ---- Where a server without work stands

  ghost predicate AllAnswered(v: Server) {
    && v.main.MainPolling? && v.stdin == [] && v.lines == []
    && forall k: nat :: k < |v.envs| ==>
         v.envs[k].queue == [] && (v.envs[k].phase.Polling? || v.envs[k].phase.Exited?)
  }

  /** The main thread can go on unless it waits for lines or for a thread to finish. */
  lemma MainGoesOn(v: Server) returns (step: ServerStep)
    requires TableOk(v) && MainOk(v) && !v.main.Gone? && !v.main.MainPolling? && !v.main.Joining?
    ensures Prompt(step) && ServerCan(v, step)
  {
    match v.main
    case MainDraining(_) => step := MainDrain;
    case Notifying(_) => step := Notify;
    case Stopping(_, _) => step := SignalStop;
    case MainFetching =>
      if v.lines == [] {
        step := MainRest;
      } else if AnswersNow(v, v.lines[0].kind) {
        step := Answer;
      } else {
        var k := v.table[Find(v.envs, v.table, v.lines[0].kind.name)];
        step := if v.lines[0].kind.Eval? then Submit(k) else Destroy(k);
      }
  }

  lemma JoinGoesOn(v: Server) returns (step: ServerStep)
    requires TableOk(v) && MainOk(v) && WakeOk(v) && v.main.Joining?
    ensures Prompt(step) && ServerCan(v, step)
  {
    var k := v.main.env;
    assert Awake(v.envs[k], false, false);
    step := if v.envs[k].phase.Exited? then Join else EnvMove(k);
  }

  lemma EnvGoesOn(v: Server, k: nat) returns (step: ServerStep)
    requires TableOk(v) && WakeOk(v) && StoppedOk(v) && EnvsOk(v) && v.main.MainPolling? && k < |v.envs|
    requires !(v.envs[k].queue == [] && (v.envs[k].phase.Polling? || v.envs[k].phase.Exited?))
    ensures Prompt(step) && ServerCan(v, step)
  {
    assert Awake(v.envs[k], false, false);
    assert EnvOk(v, k);
    step := EnvMove(k);
  }

  /** A server that has not answered everything can go on without waiting for a timeout. */
  lemma NeverStuck(v: Server) returns (step: ServerStep)
    requires ServerInv(v) && !v.main.Gone? && !AllAnswered(v)
    ensures Prompt(step) && ServerCan(v, step)
  {
    hide Of, EnvOk;
    if v.main.Joining? {
      step := JoinGoesOn(v);
    } else if !v.main.MainPolling? {
      step := MainGoesOn(v);
    } else if v.notifyDue {
      step := SignalLine;
    } else if v.stdin != [] {
      step := PushLine;
    } else if v.lines != [] {
      step := MainWake(false);
    } else {
      var k: nat :| k < |v.envs| && !(v.envs[k].queue == [] && (v.envs[k].phase.Polling? || v.envs[k].phase.Exited?));
      step := EnvGoesOn(v, k);
    }
  }
}
