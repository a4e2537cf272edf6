/** A request followed by the destruction of its environment may be answered and may be lost. */
module ProtocolChoice {
  import opened Protocol
  import opened ProtocolInvariant
  import opened ProtocolSteps
  import opened ProtocolDropped

  // ---- Letting one environment thread work off its queue

  function Rounds(env: Env): (n: nat) {
    10 * |env.queue| +
    match env.phase
    case AtTop => if env.queue == [] then 0 else 5
    case RunningJobs => if env.queue == [] then 1 else 6
    case Fetching => 2
    case Handling(_) => 3
    case Draining(_) => 3
    case Polling => 4
    case Exited => 0
  }

  /** The server after thread k has gone on by itself. */
  ghost predicate OnlyThread(v: Server, k: nat, w: Server) {
    && k < |v.envs| && v.replies <= w.replies
    && w == v.(envs := w.envs, replies := w.replies) && |w.envs| == |v.envs|
    && (forall i: nat :: i < |v.envs| && i != k ==> w.envs[i] == v.envs[i])
    && w.envs[k].name == v.envs[k].name && w.envs[k].running == v.envs[k].running
    && w.envs[k].submitted == v.envs[k].submitted && w.envs[k].dropped == v.envs[k].dropped
  }

  /** A running thread that is not yet back at the top with an empty queue gets closer to it. */
  lemma ThreadStep(v: Server, k: nat) returns (step: ServerStep, w: Server)
    requires TableKnown(v) && k < |v.envs| && v.envs[k].running && !v.envs[k].phase.Exited? && Rounds(v.envs[k]) > 0
    ensures Goes(v, step, w) && OnlyThread(v, k, w) && Rounds(w.envs[k]) < Rounds(v.envs[k])
    ensures !w.envs[k].phase.Exited?
  {
    step := if v.envs[k].phase.Polling? then EnvTimeout(k) else EnvMove(k);
    w := ServerApply(v, step);
  }

  lemma OnlyThreadAgain(v: Server, k: nat, w: Server, x: Server)
    requires OnlyThread(v, k, w) && OnlyThread(w, k, x)
    ensures OnlyThread(v, k, x)
  {
  }

  lemma {:induction false} WorkOff(steps: seq<Step>, v: Server, k: nat) returns (more: seq<Step>, w: Server)
    requires IsRun(steps) && v == After(steps).server && !v.main.Gone? && TableKnown(v)
    requires k < |v.envs| && v.envs[k].running && !v.envs[k].phase.Exited?
    ensures IsRun(more) && steps <= more && w == After(more).server && OnlyThread(v, k, w)
    ensures w.envs[k].phase.AtTop? && w.envs[k].queue == []
    decreases Rounds(v.envs[k])
  {
    hide After, IsRun;
    if Rounds(v.envs[k]) == 0 {
      more, w := steps, v;
    } else {
      hide OnlyThread;
      var step, x := ThreadStep(v, k);
      more := ServeOn(steps, step, v, x);
      OnlyThreadKnown(v, k, x);
      more, w := WorkOff(more, x, k);
      OnlyThreadAgain(v, k, x, w);
    }
  }

  lemma OnlyThreadKnown(v: Server, k: nat, w: Server)
    requires TableKnown(v) && OnlyThread(v, k, w)
    ensures TableKnown(w) && k < |w.envs| && w.main == v.main && w.envs[k].running == v.envs[k].running
  {
  }

  lemma ServeOn(steps: seq<Step>, step: ServerStep, v: Server, w: Server) returns (more: seq<Step>)
    requires IsRun(steps) && v == After(steps).server && !v.main.Gone? && Goes(v, step, w)
    ensures IsRun(more) && After(more).server == w && steps <= more
  {
    Extend(steps, FromServer(step));
    more := steps + [FromServer(step)];
  }

  // ---- The main thread

  lemma {:induction false} FindByName(envs: seq<Env>, other: seq<Env>, table: seq<nat>, name: string)
    requires forall i :: 0 <= i < |table| ==> table[i] < |envs| && table[i] < |other|
    requires forall i :: 0 <= i < |table| ==> envs[table[i]].name == other[table[i]].name
    ensures Find(envs, table, name) == Find(other, table, name)
  {
    if table != [] { FindByName(envs, other, table[1..], name); }
  }

  /** The main thread is about to take r, an evaluation in environment k. */
  ghost predicate Takes(v: Server, k: nat, r: Request) {
    && TableKnown(v) && CanTake(v) && v.lines[0] == r && r.kind.Eval? && k < |v.envs|
    && Finds(v, r.kind.name, k)
  }

  lemma StillTakes(v: Server, k: nat, r: Request, w: Server)
    requires Takes(v, k, r) && OnlyThread(v, k, w)
    ensures Takes(w, k, r)
  {
    FindByName(v.envs, w.envs, v.table, r.kind.name);
  }

  /** r is queued and the thread is told. */
  lemma HandOver(v: Server, k: nat, r: Request) returns (x: Server, w: Server)
    requires Takes(v, k, r) && TableOk(v)
    ensures Goes(v, Submit(k), x) && Goes(x, Notify, w) && !x.main.Gone?
    ensures w.main.MainFetching? && w.lines == v.lines[1..] && w.stdin == v.stdin
    ensures w.table == v.table && |w.envs| == |v.envs|
    ensures var env := v.envs[k];
            w.envs == v.envs[k := env.(queue := env.queue + [r], submitted := env.submitted + [r],
                                       signals := env.signals + 1)]
    ensures TableKnown(w) && k < |w.envs| && Finds(w, r.kind.name, k)
  {
    x := ServerApply(v, Submit(k));
    w := ServerApply(x, Notify);
    FindByName(v.envs, w.envs, v.table, r.kind.name);
  }

  /** Environment k is destroyed while its thread stands at the top of its loop. */
  lemma Demolish(v: Server, k: nat, name: string) returns (x: Server, y: Server, z: Server, w: Server)
    requires TableKnown(v) && CanTake(v) && v.lines[0].kind == DestroyEnv(name) && k < |v.envs| && Finds(v, name, k)
    requires v.envs[k].phase.AtTop?
    ensures Goes(v, Destroy(k), x) && Goes(x, SignalStop, y) && Goes(y, EnvMove(k), z) && Goes(z, Join, w)
    ensures !x.main.Gone? && !y.main.Gone? && !z.main.Gone?
    ensures k < |w.envs| && w.envs[k].dropped == v.envs[k].queue
  {
    hide Find;
    x := ServerApply(v, Destroy(k));
    TableShrinks(v, k, x);
    hide Finds;
    y, z, w := FinishStop(x, k);
  }

  lemma FinishStop(x: Server, k: nat) returns (y: Server, z: Server, w: Server)
    requires TableKnown(x) && x.main.Stopping? && x.main.env == k < |x.envs|
    requires x.envs[k].phase.AtTop? && !x.envs[k].running
    ensures Goes(x, SignalStop, y) && Goes(y, EnvMove(k), z) && Goes(z, Join, w) && !y.main.Gone? && !z.main.Gone?
    ensures k < |w.envs| && w.envs[k].dropped == x.envs[k].queue
  {
    y := ServerApply(x, SignalStop);
    z := ServerApply(y, EnvMove(k));
    w := ServerApply(z, Join);
  }

  lemma TableShrinks(v: Server, k: nat, x: Server)
    requires Goes(v, Destroy(k), x)
    ensures TableKnown(x) && x.main == Stopping(k, v.lines[0])
    ensures |x.envs| == |v.envs| && x.envs[k] == v.envs[k].(running := false)
  {
  }

  /** Thread k works off its queue, and only then is r handed over. */
  lemma Offer(steps: seq<Step>, v: Server, k: nat, r: Request) returns (more: seq<Step>, w: Server)
    requires IsRun(steps) && v == After(steps).server && Takes(v, k, r)
    ensures IsRun(more) && steps <= more && w == After(more).server && !w.main.Gone?
    ensures TableKnown(w) && k < |w.envs| && Finds(w, r.kind.name, k) && w.main.MainFetching?
    ensures w.lines == v.lines[1..] && w.stdin == v.stdin
    ensures w.envs[k].phase.AtTop? && w.envs[k].queue == [r] && w.envs[k].running && r in w.envs[k].submitted
  {
    RunsKeep(steps);
    RunningEnv(v, k, r);
    hide After, IsRun, Takes, Finds, OnlyThread;
    var x: Server, y: Server;
    more, w := WorkOff(steps, v, k);
    OnlyThreadKnown(v, k, w);
    StillTakes(v, k, r, w);
    StillListed(more, v, k, w);
    var q := w;
    x, w := HandOver(q, k, r);
    more := ServeOn(more, Submit(k), q, x);
    more := ServeOn(more, Notify, x, w);
  }

  lemma RunningEnv(v: Server, k: nat, r: Request)
    requires ServerInv(v) && Takes(v, k, r)
    ensures v.envs[k].running && !v.envs[k].phase.Exited? && !v.main.Gone?
  {
    hide Of;
    assert EnvOk(v, k);
  }

  lemma StillListed(more: seq<Step>, v: Server, k: nat, w: Server)
    requires IsRun(more) && w == After(more).server && OnlyThread(v, k, w)
    ensures TableOk(w) && w.lines == v.lines && w.table == v.table && w.stdin == v.stdin
  {
    RunsKeep(more);
  }

  // ---- Other requests between an evaluation and the destruction

  /** r is in the queue of environment k, whose thread stands at the top of its loop. */
  ghost predicate Waits(v: Server, k: nat, r: Request) {
    && TableKnown(v) && v.main.MainFetching? && k < |v.envs| && k in v.table
    && r.kind == Eval(v.envs[k].name) && v.envs[k].phase.AtTop? && r in v.envs[k].queue
  }

  lemma FindsListed(v: Server, name: string, k: nat)
    requires TableKnown(v) && Listed(v.envs, v.table) && k in v.table && v.envs[k].name == name
    ensures Finds(v, name, k)
  {
  }

  lemma AnswerOne(v: Server, k: nat, r: Request) returns (w: Server)
    requires Waits(v, k, r) && v.lines != [] && AnswersNow(v, v.lines[0].kind) && !v.lines[0].kind.Exit?
    ensures Goes(v, Answer, w) && Waits(w, k, r) && w.lines == v.lines[1..] && w.stdin == v.stdin
  {
    w := ServerApply(v, Answer);
  }

  lemma CreateOne(v: Server, k: nat, r: Request) returns (w: Server)
    requires Waits(v, k, r) && ServerCan(v, Create)
    ensures Goes(v, Create, w) && Waits(w, k, r) && w.lines == v.lines[1..] && w.stdin == v.stdin
  {
    hide Find;
    w := ServerApply(v, Create);
  }

  lemma SubmitOne(v: Server, k: nat, r: Request, i: nat) returns (x: Server, w: Server)
    requires Waits(v, k, r) && TableOk(v) && ServerCan(v, Submit(i))
    ensures Goes(v, Submit(i), x) && Goes(x, Notify, w) && !x.main.Gone?
    ensures Waits(w, k, r) && w.lines == v.lines[1..] && w.stdin == v.stdin
  {
    hide Find;
    x, w := HandOver(v, i, v.lines[0]);
  }

  /** How far a thread that is told to stop is from its end. */
  function Ends(env: Env): (n: nat) {
    10 * |env.queue| +
    match env.phase
    case Exited => 0
    case AtTop => 1
    case RunningJobs => 2
    case Fetching => 3
    case Handling(_) => 4
    case Draining(_) => 4
    case Polling => 5
  }

  lemma EndStep(v: Server, i: nat) returns (step: ServerStep, w: Server)
    requires TableKnown(v) && i < |v.envs| && !v.envs[i].running && !v.envs[i].phase.Exited?
    ensures Goes(v, step, w) && OnlyThread(v, i, w) && Ends(w.envs[i]) < Ends(v.envs[i])
  {
    step := if v.envs[i].phase.Polling? then EnvTimeout(i) else EnvMove(i);
    w := ServerApply(v, step);
  }

  lemma {:induction false} EndThread(steps: seq<Step>, v: Server, i: nat) returns (more: seq<Step>, w: Server)
    requires IsRun(steps) && v == After(steps).server && !v.main.Gone? && TableKnown(v)
    requires i < |v.envs| && !v.envs[i].running
    ensures IsRun(more) && steps <= more && w == After(more).server && OnlyThread(v, i, w) && w.envs[i].phase.Exited?
    decreases Ends(v.envs[i])
  {
    hide After, IsRun;
    if v.envs[i].phase.Exited? {
      more, w := steps, v;
    } else {
      hide OnlyThread;
      var step, x := EndStep(v, i);
      more := ServeOn(steps, step, v, x);
      OnlyThreadKnown(v, i, x);
      more, w := EndThread(more, x, i);
      OnlyThreadAgain(v, i, x, w);
    }
  }

  lemma RemoveKeeps(table: seq<nat>, j: nat, k: nat)
    requires j < |table| && k in table && table[j] != k
    ensures k in Remove(table, j) && forall x :: x in Remove(table, j) ==> x in table
  {
    var p :| 0 <= p < |table| && table[p] == k;
    assert table == table[..j] + [table[j]] + table[j + 1..];
  }

  /** The main thread begins to destroy another environment. */
  lemma DestroyOther(v: Server, k: nat, r: Request, i: nat) returns (x: Server, y: Server)
    requires Waits(v, k, r) && ServerCan(v, Destroy(i)) && v.lines[0].kind != DestroyEnv(r.kind.name)
    ensures Goes(v, Destroy(i), x) && Goes(x, SignalStop, y) && !x.main.Gone? && !y.main.Gone?
    ensures y.main.Joining? && y.main.env == i < |y.envs| && !y.envs[i].running && i != k
    ensures Waits(y.(main := MainFetching), k, r) && y.lines == v.lines[1..] && y.stdin == v.stdin
  {
    RemoveKeeps(v.table, Find(v.envs, v.table, v.lines[0].kind.name), k);
    hide Find, Remove;
    x := ServerApply(v, Destroy(i));
    y := ServerApply(x, SignalStop);
  }

  lemma JoinOther(y: Server, z: Server, k: nat, r: Request, i: nat) returns (w: Server)
    requires y.main.Joining? && y.main.env == i < |y.envs| && i != k && Waits(y.(main := MainFetching), k, r)
    requires OnlyThread(y, i, z) && z.envs[i].phase.Exited?
    ensures Goes(z, Join, w) && !z.main.Gone? && Waits(w, k, r) && w.lines == y.lines && w.stdin == y.stdin
  {
    w := ServerApply(z, Join);
  }

  lemma DestroyOne(steps: seq<Step>, v: Server, k: nat, r: Request, i: nat) returns (more: seq<Step>, w: Server)
    requires IsRun(steps) && v == After(steps).server
    requires Waits(v, k, r) && ServerCan(v, Destroy(i)) && v.lines[0].kind != DestroyEnv(r.kind.name)
    ensures IsRun(more) && steps <= more && w == After(more).server
    ensures Waits(w, k, r) && w.lines == v.lines[1..] && w.stdin == v.stdin
  {
    hide After, IsRun, OnlyThread;
    var x, y := DestroyOther(v, k, r, i);
    more := ServeOn(steps, Destroy(i), v, x);
    more := ServeOn(more, SignalStop, x, y);
    var z: Server;
    more, z := EndThread(more, y, i);
    w := JoinOther(y, z, k, r, i);
    more := ServeOn(more, Join, z, w);
  }

  /** A request that is not the destruction of environment k is dealt with while thread k stands still. */
  lemma PassOver(steps: seq<Step>, v: Server, k: nat, r: Request) returns (more: seq<Step>, w: Server)
    requires IsRun(steps) && v == After(steps).server && Waits(v, k, r)
    requires v.lines != [] && !v.lines[0].kind.Exit? && v.lines[0].kind != DestroyEnv(r.kind.name)
    ensures IsRun(more) && steps <= more && w == After(more).server
    ensures Waits(w, k, r) && w.lines == v.lines[1..] && w.stdin == v.stdin
  {
    RunsKeep(steps);
    hide After, IsRun, Waits, Find, ServerApply, Inv;
    StillFetching(v, k, r);
    var kind := v.lines[0].kind;
    if kind.CreateEnv? && ServerCan(v, Create) {
      w := CreateOne(v, k, r);
      more := ServeOn(steps, Create, v, w);
    } else if (kind.Eval? || kind.DestroyEnv?) && !Missing(v, kind.name) {
      var i := v.table[Find(v.envs, v.table, kind.name)];
      if kind.Eval? {
        var x: Server;
        x, w := SubmitOne(v, k, r, i);
        more := ServeOn(steps, Submit(i), v, x);
        more := ServeOn(more, Notify, x, w);
      } else {
        more, w := DestroyOne(steps, v, k, r, i);
      }
    } else {
      w := AnswerOne(v, k, r);
      more := ServeOn(steps, Answer, v, w);
    }
  }

  lemma StillFetching(v: Server, k: nat, r: Request)
    requires Waits(v, k, r)
    ensures TableKnown(v) && v.main.MainFetching?
  {
  }

  /** Everything the client has written is among the lines before the main thread goes on. */
  lemma {:induction false} ReadAll(steps: seq<Step>, v: Server, k: nat, r: Request) returns (more: seq<Step>, w: Server)
    requires IsRun(steps) && v == After(steps).server && Waits(v, k, r)
    ensures IsRun(more) && steps <= more && w == After(more).server && Waits(w, k, r)
    ensures w.lines == v.lines + v.stdin
    decreases 2 * |v.stdin| + if v.notifyDue then 1 else 0
  {
    hide After, IsRun;
    if v.stdin == [] {
      more, w := steps, v;
    } else {
      var step := if v.notifyDue then SignalLine else PushLine;
      var x := ServerApply(v, step);
      more := ServeOn(steps, step, v, x);
      more, w := ReadAll(more, x, k, r);
      assert v.stdin == [v.stdin[0]] + v.stdin[1..];
    }
  }

  lemma {:induction false} LoseAt(steps: seq<Step>, v: Server, k: nat, r: Request, j: nat) returns (more: seq<Step>)
    requires IsRun(steps) && v == After(steps).server && Waits(v, k, r)
    requires j < |v.lines| && v.lines[j].kind == DestroyEnv(r.kind.name)
    requires forall i :: 0 <= i < j ==> !v.lines[i].kind.Exit?
    ensures IsRun(more) && steps <= more && k < |After(more).server.envs| && r in After(more).server.envs[k].dropped
    decreases j
  {
    if v.lines[0].kind == DestroyEnv(r.kind.name) {
      RunsKeep(steps);
      FindsListed(v, r.kind.name, k);
      hide After, IsRun, Finds;
      var x, y, z, w := Demolish(v, k, r.kind.name);
      more := ServeOn(steps, Destroy(k), v, x);
      more := ServeOn(more, SignalStop, x, y);
      more := ServeOn(more, EnvMove(k), y, z);
      more := ServeOn(more, Join, z, w);
    } else {
      hide After, IsRun, Waits;
      var w: Server;
      more, w := PassOver(steps, v, k, r);
      more := LoseAt(more, w, k, r, j - 1);
    }
  }

  /** What is written behind the line that the main thread is about to take. */
  function Behind(v: Server): (rest: seq<Request>)
    requires v.lines != []
  {
    v.lines[1..] + v.stdin
  }

  /**
   * Wherever a run has come to, if the main thread is about to take an evaluation, and the destruction of
   * that environment has been written behind it with no exit in between, the run can go on so that the
   * evaluation is lost.
   */
  lemma MayBeLost(steps: seq<Step>, k: nat, r: Request, j: nat) returns (more: seq<Step>)
    requires IsRun(steps) && Takes(After(steps).server, k, r) && j < |Behind(After(steps).server)|
    requires Behind(After(steps).server)[j].kind == DestroyEnv(r.kind.name)
    requires forall i :: 0 <= i < j ==> !Behind(After(steps).server)[i].kind.Exit?
    ensures IsRun(more) && steps <= more && k < |After(more).server.envs| && r in After(more).server.envs[k].dropped
  {
    assert r.kind.Eval?;
    hide After, IsRun, Takes, Waits;
    var v, w := After(steps).server, After(steps).server;
    more, w := Offer(steps, v, k, r);
    OfferedWaits(w, k, r);
    more, w := ReadAll(more, w, k, r);
    more := LoseAt(more, w, k, r, j);
  }

  lemma OfferedWaits(w: Server, k: nat, r: Request)
    requires r.kind.Eval? && TableKnown(w) && k < |w.envs| && Finds(w, r.kind.name, k) && w.main.MainFetching?
    requires w.envs[k].phase.AtTop? && w.envs[k].queue == [r]
    ensures Waits(w, k, r)
  {
  }

  /** And it can go on so that the evaluation is answered. */
  lemma MayBeAnswered(steps: seq<Step>, k: nat, r: Request) returns (more: seq<Step>)
    requires IsRun(steps) && Takes(After(steps).server, k, r)
    ensures IsRun(more) && steps <= more && r in After(more).server.replies
  {
    hide After, IsRun, Takes, Finds;
    var v: Server, w: Server;
    more, v := Offer(steps, After(steps).server, k, r);
    more, w := WorkOff(more, v, k);
    RunsKeep(more);
    WorkedOff(v, k, w, r);
  }

  lemma WorkedOff(v: Server, k: nat, w: Server, r: Request)
    requires ServerInv(w) && OnlyThread(v, k, w) && r in v.envs[k].submitted && v.envs[k].running
    requires w.envs[k].phase.AtTop? && w.envs[k].queue == []
    ensures r in w.replies
  {
    hide Of;
    assert EnvOk(w, k);
    assert Rest(w.envs[k]) == [] && w.envs[k].answered == w.envs[k].submitted;
    OfMembers(w.replies, w.route, k, r);
  }
}
