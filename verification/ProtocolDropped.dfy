/** Not every request gets a reply: a run in which one is dropped with its environment. */
module ProtocolDropped {
  import opened Protocol
  import opened ProtocolSteps

  lemma Extend(steps: seq<Step>, step: Step)
    requires IsRun(steps) && Enabled(After(steps), step)
    ensures IsRun(steps + [step]) && After(steps + [step]) == Apply(After(steps), step)
  {
    assert (steps + [step])[..|steps|] == steps;
  }

  /** A caller numbers, registers and writes its request. */
  lemma SendOne(steps: seq<Step>, kind: Kind) returns (more: seq<Step>)
    requires IsRun(steps)
    ensures IsRun(more)
    ensures var s := After(steps); var r := Request(s.client.counter + 1, kind);
            && After(more).client.counter == s.client.counter + 1
            && After(more).server == s.server.(stdin := s.server.stdin + [r])
  {
    hide After, IsRun;
    var id := After(steps).client.counter + 1;
    Extend(steps, FromClient(Number(kind)));
    more := steps + [FromClient(Number(kind))];
    Extend(more, FromClient(Register(id)));
    more := more + [FromClient(Register(id))];
    Extend(more, FromClient(Write(id)));
    more := more + [FromClient(Write(id))];
  }

  lemma Serve(steps: seq<Step>, step: ServerStep, v: Server, w: Server) returns (more: seq<Step>)
    requires IsRun(steps) && v == After(steps).server && !v.main.Gone? && Goes(v, step, w)
    ensures IsRun(more) && After(more).server == w
  {
    Extend(steps, FromServer(step));
    more := steps + [FromServer(step)];
  }

  const MAKE := Request(1, CreateEnv("a"))
  const ASK := Request(2, Eval("a"))
  const END := Request(3, DestroyEnv("a"))

  /** Three requests: create an environment, evaluate in it, destroy it. */
  lemma Sent() returns (steps: seq<Step>)
    ensures IsRun(steps)
    ensures After(steps).server == Server([MAKE, ASK, END], [], 0, false, MainPolling, [], [], [], map[], [])
  {
    assert IsRun([]) && After([]) == START;
    hide After, IsRun;
    steps := SendOne([], MAKE.kind);
    steps := SendOne(steps, ASK.kind);
    steps := SendOne(steps, END.kind);
  }

  lemma ReadOne(steps: seq<Step>, v: Server) returns (more: seq<Step>)
    requires IsRun(steps) && v == After(steps).server && TableKnown(v)
    requires v.main.MainPolling? && !v.notifyDue && v.stdin != []
    ensures IsRun(more)
    ensures After(more).server ==
            v.(stdin := v.stdin[1..], lines := v.lines + [v.stdin[0]], lineSignals := v.lineSignals + 1)
  {
    hide After, IsRun;
    var w := ServerApply(v, PushLine);
    more := Serve(steps, PushLine, v, w);
    more := Serve(more, SignalLine, w, ServerApply(w, SignalLine));
  }

  lemma Read() returns (steps: seq<Step>)
    ensures IsRun(steps)
    ensures After(steps).server == Server([], [MAKE, ASK, END], 0, false, MainFetching, [], [], [], map[], [])
  {
    hide After, IsRun;
    steps := Sent();
    steps := ReadOne(steps, After(steps).server);
    steps := ReadOne(steps, After(steps).server);
    steps := ReadOne(steps, After(steps).server);
    var v := Server([], [MAKE, ASK, END], 3, false, MainPolling, [], [], [], map[], []);
    var w := v.(main := MainDraining(true));
    steps := Serve(steps, MainWake(false), v, w);
    steps := Serve(steps, MainDrain, w, w.(main := MainFetching, lineSignals := 0));
  }

  /** The environment as it is once the request is queued, and when it is told to stop. */
  function Asked(running: bool, signals: nat, phase: Phase): (env: Env) {
    Env("a", running, [ASK], signals, phase, [ASK], [], [])
  }

  lemma Queued() returns (steps: seq<Step>)
    ensures IsRun(steps)
    ensures After(steps).server ==
            Server([], [END], 0, false, MainFetching, [Asked(true, 1, AtTop)], [0],
                   [MAKE, ASK], map[1 := ByMain, 2 := ToEnv(0)], [MAKE])
  {
    hide After, IsRun;
    steps := Read();
    var v := Server([], [MAKE, ASK, END], 0, false, MainFetching, [], [], [], map[], []);
    var made := Server([], [ASK, END], 0, false, MainFetching, [NewEnv("a")], [0], [MAKE], map[1 := ByMain], [MAKE]);
    steps := Serve(steps, Create, v, made);
    var asked := Server([], [END], 0, false, Notifying(0), [Asked(true, 0, AtTop)], [0],
                        [MAKE, ASK], map[1 := ByMain, 2 := ToEnv(0)], [MAKE]);
    var env := NewEnv("a");
    assert env.(queue := env.queue + [ASK], submitted := env.submitted + [ASK]) == Asked(true, 0, AtTop);
    assert made.envs[0 := Asked(true, 0, AtTop)] == asked.envs;
    steps := Serve(steps, Submit(0), made, asked);
    steps := Serve(steps, Notify, asked, asked.(main := MainFetching, envs := [Asked(true, 1, AtTop)]));
  }

  /** The thread finds running cleared before it looks at its queue. */
  lemma RequestIsDropped() returns (steps: seq<Step>)
    ensures IsRun(steps)
    ensures var v := After(steps).server;
            && v.replies == [MAKE, END] && |v.envs| == 1 && v.envs[0].dropped == [ASK]
  {
    hide After, IsRun;
    steps := Queued();
    var v := Server([], [END], 0, false, MainFetching, [Asked(true, 1, AtTop)], [0],
                    [MAKE, ASK], map[1 := ByMain, 2 := ToEnv(0)], [MAKE]);
    var stopping := Server([], [], 0, false, Stopping(0, END), [Asked(false, 1, AtTop)], [],
                           [MAKE, ASK, END], map[1 := ByMain, 2 := ToEnv(0), 3 := ByMain], [MAKE]);
    steps := Serve(steps, Destroy(0), v, stopping);
    var joining := stopping.(main := Joining(0, END), envs := [Asked(false, 2, AtTop)]);
    steps := Serve(steps, SignalStop, stopping, joining);
    var ended := joining.(envs := [Asked(false, 2, Exited)]);
    assert joining.replies + [] == joining.replies;
    steps := Serve(steps, EnvMove(0), joining, ended);
    steps := Serve(steps, Join, ended, ServerApply(ended, Join));
  }
}
