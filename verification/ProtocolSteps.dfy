/** Every step of the protocol keeps the invariant. */
module ProtocolSteps {
  import opened Protocol
  import opened ProtocolInvariant

  ghost predicate Goes(v: Server, step: ServerStep, w: Server) {
    TableKnown(v) && ServerCan(v, step) && w == ServerApply(v, step)
  }

  // ---- The stream of lines

  lemma TakeFirst(v: Server)
    requires Distinct(Stream(v)) && v.lines != []
    ensures v.handled + [v.lines[0]] + v.lines[1..] + v.stdin == Stream(v)
    ensures forall r :: r in v.handled ==> r.id != v.lines[0].id
  {
    assert v.lines == [v.lines[0]] + v.lines[1..];
    assert Stream(v)[|v.handled|] == v.lines[0];
    forall i | 0 <= i < |v.handled| ensures v.handled[i].id != v.lines[0].id {
      assert Stream(v)[i] == v.handled[i];
    }
  }

  lemma HandledDistinct(v: Server)
    requires Distinct(Stream(v))
    ensures Distinct(v.handled)
  {
    assert v.handled == Stream(v)[..|v.handled|];
  }

  lemma StreamKept(v: Server, step: ServerStep, w: Server)
    requires Distinct(Stream(v)) && Goes(v, step, w)
    ensures Stream(w) == Stream(v)
  {
    if step.PushLine? {
      assert v.stdin == [v.stdin[0]] + v.stdin[1..];
    } else if v.lines != [] {
      TakeFirst(v);
    }
  }

  lemma RouteKept(v: Server, step: ServerStep, w: Server)
    requires RouteOk(v) && Goes(v, step, w)
    ensures RouteOk(w)
  {
    forall id | id in w.route ensures exists r :: r in w.handled && r.id == id {
      if id in v.route {
        var r :| r in v.handled && r.id == id;
        assert r in w.handled;
      } else {
        assert v.lines[0] in w.handled;
      }
    }
  }

  // ---- Who is answered

  lemma RestIsApart(env: Env, r: Request)
    requires Conserved(env) && Distinct(env.submitted) && r in Rest(env)
    ensures r in env.submitted && r !in env.answered
  {
    var j :| 0 <= j < |Rest(env)| && Rest(env)[j] == r;
    assert env.submitted[|env.answered| + j] == r;
    forall i | 0 <= i < |env.answered| ensures env.answered[i] != r {
      assert env.submitted[i] == env.answered[i];
    }
  }

  /** A request that an environment has not answered has no answer at all. */
  lemma RestIsUnanswered(v: Server, k: nat, r: Request)
    requires Distinct(Stream(v)) && RepliesOk(v) && k < |v.envs| && EnvOk(v, k) && r in Rest(v.envs[k])
    ensures r in v.handled && r.id in v.route && v.route[r.id] == ToEnv(k)
    ensures forall q :: q in v.replies ==> q.id != r.id
  {
    hide Rest;
    HandledDistinct(v);
    OfDistinct(v.handled, v.route, k);
    RestIsApart(v.envs[k], r);
    OfMembers(v.handled, v.route, k, r);
    OfMembers(v.replies, v.route, k, r);
    forall q | q in v.replies ensures q.id != r.id { DifferentIds(v.handled, q, r); }
  }

  lemma JoinIsUnanswered(v: Server)
    requires Distinct(Stream(v)) && RepliesOk(v) && MainOk(v) && v.main.Joining?
    ensures forall q :: q in v.replies ==> q.id != v.main.request.id
  {
    HandledDistinct(v);
    forall q | q in v.replies ensures q.id != v.main.request.id { DifferentIds(v.handled, q, v.main.request); }
  }

  lemma RepliesKept(v: Server, step: ServerStep, w: Server)
    requires Distinct(Stream(v)) && RepliesOk(v) && EnvsOk(v) && MainOk(v) && Goes(v, step, w)
    ensures RepliesOk(w) && v.replies <= w.replies
  {
    hide Conserved;
    if step.Answer? || step.Create? {
      TakeFirst(v);
    } else if step.Join? {
      JoinIsUnanswered(v);
    } else if step.EnvMove? && v.envs[step.env].phase.Handling? {
      RestIsUnanswered(v, step.env, v.envs[step.env].phase.request);
    }
  }

  lemma AnswersKept(v: Server, step: ServerStep, w: Server)
    requires Distinct(Stream(v)) && AnswersOk(v) && Goes(v, step, w)
    ensures AnswersOk(w)
  {
    if v.lines != [] { TakeFirst(v); }
  }

  // ---- Where requests are

  /** Taking a line leaves the requests of every environment as they were, but for its own. */
  lemma TakeKeepsParts(v: Server, where: Route, k: nat, route: map<nat, Route>)
    requires Distinct(Stream(v)) && RepliesOk(v) && v.lines != []
    requires route == v.route[v.lines[0].id := where]
    ensures Of(v.handled + [v.lines[0]], route, k) ==
            Of(v.handled, v.route, k) + (if where == ToEnv(k) then [v.lines[0]] else [])
    ensures Of(v.replies, route, k) == Of(v.replies, v.route, k)
    ensures where == ByMain ==> Of(v.replies + [v.lines[0]], route, k) == Of(v.replies, v.route, k)
  {
    var r := v.lines[0];
    TakeFirst(v);
    OfNewRoute(v.handled, v.route, r.id, where, k);
    OfNewRoute(v.replies, v.route, r.id, where, k);
    OfAppend(v.handled, r, route, k);
    OfAppend(v.replies, r, route, k);
  }

  lemma MoveConserves(env: Env)
    requires CanMove(env) && Conserved(env)
    ensures Conserved(Move(env)) && Move(env).submitted == env.submitted
    ensures Move(env).answered == env.answered + Held(env.phase)
  {
    if env.phase.Fetching? && env.queue != [] {
      assert env.queue == [env.queue[0]] + env.queue[1..];
    }
  }

  lemma AnswerKeepsEnv(v: Server, w: Server, k: nat)
    requires Distinct(Stream(v)) && RepliesOk(v) && Goes(v, Answer, w) && k < |v.envs| && EnvOk(v, k)
    ensures EnvOk(w, k)
  {
    TakeKeepsParts(v, ByMain, k, w.route);
  }

  lemma SubmitKeepsEnv(v: Server, m: nat, w: Server, k: nat)
    requires Distinct(Stream(v)) && RepliesOk(v) && TableOk(v) && Goes(v, Submit(m), w) && k < |v.envs| && EnvOk(v, k)
    ensures EnvOk(w, k)
  {
    hide Of, Find;
    TakeKeepsParts(v, ToEnv(m), k, w.route);
  }

  /** Nothing has gone to an environment that does not exist yet. */
  lemma NothingYet(v: Server, k: nat)
    requires RepliesOk(v) && RouteOk(v) && k == |v.envs|
    ensures Of(v.handled, v.route, k) == [] && Of(v.replies, v.route, k) == []
  {
    OfNothing(v.handled, v.route, k);
    OfNothing(v.replies, v.route, k);
  }

  lemma CreateKeepsEnv(v: Server, w: Server, k: nat)
    requires Distinct(Stream(v)) && RepliesOk(v) && RouteOk(v) && Goes(v, Create, w) && k < |w.envs|
    requires k < |v.envs| ==> EnvOk(v, k)
    ensures EnvOk(w, k)
  {
    hide Of, Find, RouteOk, RepliesOk, Distinct;
    TakeKeepsParts(v, ByMain, k, w.route);
    if k == |v.envs| {
      NothingYet(v, k);
      assert w.envs[k] == NewEnv(v.lines[0].kind.name);
    } else {
      assert w.envs[k] == v.envs[k];
    }
  }

  lemma DestroyKeepsEnv(v: Server, m: nat, w: Server, k: nat)
    requires Distinct(Stream(v)) && RepliesOk(v) && Goes(v, Destroy(m), w) && k < |v.envs| && EnvOk(v, k)
    ensures EnvOk(w, k)
  {
    TakeKeepsParts(v, ByMain, k, w.route);
  }

  lemma JoinKeepsEnv(v: Server, w: Server, k: nat)
    requires MainOk(v) && Goes(v, Join, w) && k < |v.envs| && EnvOk(v, k)
    ensures EnvOk(w, k)
  {
    OfAppend(v.replies, v.main.request, v.route, k);
  }

  lemma MoveKeepsEnv(v: Server, m: nat, w: Server, k: nat)
    requires Distinct(Stream(v)) && RepliesOk(v) && EnvsOk(v) && Goes(v, EnvMove(m), w) && k < |v.envs|
    ensures EnvOk(w, k)
  {
    hide Move;
    assert EnvOk(v, m) && EnvOk(v, k);
    MoveConserves(v.envs[m]);
    if v.envs[m].phase.Handling? {
      var r := v.envs[m].phase.request;
      RestIsUnanswered(v, m, r);
      OfAppend(v.replies, r, v.route, k);
    } else {
      assert w.replies == v.replies;
    }
  }

  lemma OthersKeepEnv(v: Server, step: ServerStep, w: Server, k: nat)
    requires !step.Answer? && !step.Submit? && !step.Create? && !step.Destroy? && !step.Join? && !step.EnvMove?
    requires Goes(v, step, w) && k < |v.envs| && EnvOk(v, k)
    ensures EnvOk(w, k)
  {
  }

  lemma EnvsKept(v: Server, step: ServerStep, w: Server)
    requires ServerInv(v) && Goes(v, step, w)
    ensures EnvsOk(w)
  {
    forall k: nat | k < |w.envs| ensures EnvOk(w, k) {
      hide EnvOk, Of;
      match step
      case Answer => AnswerKeepsEnv(v, w, k);
      case Submit(m) => SubmitKeepsEnv(v, m, w, k);
      case Create => CreateKeepsEnv(v, w, k);
      case Destroy(m) => DestroyKeepsEnv(v, m, w, k);
      case Join => JoinKeepsEnv(v, w, k);
      case EnvMove(m) => MoveKeepsEnv(v, m, w, k);
      case _ => OthersKeepEnv(v, step, w, k);
    }
  }

  // ---- The main thread

  lemma DestroyKeepsMain(v: Server, k: nat, w: Server)
    requires Distinct(Stream(v)) && RepliesOk(v) && EnvsOk(v) && TableOk(v) && Goes(v, Destroy(k), w)
    ensures MainOk(w)
  {
    hide Of;
    TakeFirst(v);
    assert EnvOk(v, k);
  }

  lemma MoveKeepsMain(v: Server, k: nat, w: Server)
    requires Distinct(Stream(v)) && RepliesOk(v) && EnvsOk(v) && MainOk(v) && Goes(v, EnvMove(k), w)
    ensures MainOk(w)
  {
    hide Of;
    assert EnvOk(v, k);
    if v.envs[k].phase.Handling? {
      RestIsUnanswered(v, k, v.envs[k].phase.request);
    }
  }

  lemma OthersKeepMain(v: Server, step: ServerStep, w: Server)
    requires TableOk(v) && MainOk(v) && !step.Destroy? && !step.EnvMove? && Goes(v, step, w)
    ensures MainOk(w)
  {
  }

  lemma MainKept(v: Server, step: ServerStep, w: Server)
    requires ServerInv(v) && Goes(v, step, w)
    ensures MainOk(w)
  {
    hide MainOk, EnvsOk;
    match step
    case Destroy(k) => DestroyKeepsMain(v, k, w);
    case EnvMove(k) => MoveKeepsMain(v, k, w);
    case _ => OthersKeepMain(v, step, w);
  }

  lemma StoppedKept(v: Server, step: ServerStep, w: Server)
    requires StoppedOk(v) && TableOk(v) && Goes(v, step, w)
    ensures StoppedOk(w)
  {
    hide Find;
  }

  // ---- Destruction

  lemma BeforeStays(s: seq<Request>, more: seq<Request>, r: Request, name: string)
    requires BeforeDestroy(s, r, name)
    ensures BeforeDestroy(s + more, r, name)
  {
    var i, j :| 0 <= i < j < |s| && s[i] == r && s[j].kind == DestroyEnv(name);
    assert (s + more)[i] == r && (s + more)[j].kind == DestroyEnv(name);
  }

  lemma BeforeLast(s: seq<Request>, last: Request, r: Request, name: string)
    requires r in s && last.kind == DestroyEnv(name)
    ensures BeforeDestroy(s + [last], r, name)
  {
    var i :| 0 <= i < |s| && s[i] == r;
    assert (s + [last])[i] == r && (s + [last])[|s|] == last;
  }

  lemma HandledGrows(v: Server, step: ServerStep, w: Server) returns (more: seq<Request>)
    requires Goes(v, step, w)
    ensures w.handled == v.handled + more
    ensures step.Destroy? ==> more == [v.lines[0]]
  {
    more := if step.Answer? || step.Submit? || step.Create? || step.Destroy? then [v.lines[0]] else [];
  }

  /** What one environment has been given, and whether it runs, after a step. */
  lemma GivenToEnv(v: Server, step: ServerStep, w: Server, k: nat)
    requires TableOk(v) && Goes(v, step, w) && k < |w.envs|
    ensures k >= |v.envs| ==> w.envs[k].submitted == []
    ensures k < |v.envs| ==> w.envs[k].name == v.envs[k].name
    ensures k < |v.envs| && !(step == Submit(k)) ==> w.envs[k].submitted == v.envs[k].submitted
    ensures k < |v.envs| && !(step == Destroy(k)) ==> w.envs[k].running == v.envs[k].running
    ensures step == Submit(k) ==> k < |v.envs| && v.envs[k].running && v.lines[0].kind == Eval(v.envs[k].name)
                                  && w.envs[k].submitted == v.envs[k].submitted + [v.lines[0]]
    ensures step == Destroy(k) ==> k < |v.envs| && v.lines[0].kind == DestroyEnv(v.envs[k].name)
  {
  }

  lemma DestroyedBefore(v: Server, k: nat, r: Request)
    requires DestroyOk(v) && k < |v.envs| && !v.envs[k].running && r in v.envs[k].submitted
    ensures BeforeDestroy(v.handled, r, v.envs[k].name)
  {
  }

  lemma DestroyKept(v: Server, step: ServerStep, w: Server)
    requires DestroyOk(v) && EnvsOk(v) && TableOk(v) && Goes(v, step, w)
    ensures DestroyOk(w)
  {
    var more := HandledGrows(v, step, w);
    hide BeforeDestroy, Goes, TableOk, EnvsOk;
    forall k: nat, r | k < |w.envs| && r in w.envs[k].submitted
      ensures r.kind == Eval(w.envs[k].name) && (!w.envs[k].running ==> BeforeDestroy(w.handled, r, w.envs[k].name))
    {
      GivenToEnv(v, step, w, k);
      if step == Destroy(k) {
        SubmittedIsHandled(v, k, r);
        BeforeLast(v.handled, v.lines[0], r, v.envs[k].name);
      } else if !w.envs[k].running {
        assert k < |v.envs| && step != Submit(k) && r in v.envs[k].submitted;
        DestroyedBefore(v, k, r);
        BeforeStays(v.handled, more, r, v.envs[k].name);
      }
    }
  }

  lemma SubmittedIsHandled(v: Server, k: nat, r: Request)
    requires EnvsOk(v) && k < |v.envs| && r in v.envs[k].submitted
    ensures r in v.handled
  {
    assert EnvOk(v, k);
    OfMembers(v.handled, v.route, k, r);
  }

  // ---- The manager's array

  lemma RemoveKeepsList(envs: seq<Env>, table: seq<nat>, i: nat, env: Env)
    requires Listed(envs, table) && i < |table|
    ensures Listed(envs[table[i] := env], Remove(table, i))
  {
    var left := Remove(table, i);
    assert forall j :: 0 <= j < |left| ==> left[j] == table[if j < i then j else j + 1] != table[i];
  }

  lemma DestroyKeepsTable(v: Server, k: nat, w: Server)
    requires TableOk(v) && Goes(v, Destroy(k), w)
    ensures TableOk(w)
  {
    RemoveKeepsList(v.envs, v.table, Find(v.envs, v.table, v.lines[0].kind.name), w.envs[k]);
  }

  lemma CreateKeepsTable(v: Server, w: Server)
    requires TableOk(v) && Goes(v, Create, w)
    ensures TableOk(w)
  {
  }

  lemma MoveKeepsTable(v: Server, k: nat, w: Server)
    requires TableOk(v) && Goes(v, EnvMove(k), w)
    ensures TableOk(w)
  {
  }

  lemma OthersKeepTable(v: Server, step: ServerStep, w: Server)
    requires TableOk(v) && Goes(v, step, w) && !step.Destroy? && !step.Create? && !step.EnvMove?
    ensures TableOk(w)
  {
    hide Find;
  }

  lemma TableKept(v: Server, step: ServerStep, w: Server)
    requires TableOk(v) && Goes(v, step, w)
    ensures TableOk(w)
  {
    hide TableOk;
    match step
    case Destroy(k) => DestroyKeepsTable(v, k, w);
    case Create => CreateKeepsTable(v, w);
    case EnvMove(k) => MoveKeepsTable(v, k, w);
    case _ => OthersKeepTable(v, step, w);
  }

  // ---- Wake-ups

  lemma MoveStaysAwake(env: Env, notifying: bool, stopping: bool)
    requires CanMove(env) && Awake(env, notifying, stopping)
    ensures Awake(Move(env), notifying, stopping)
  {
  }

  lemma MoveKeepsWake(v: Server, k: nat, w: Server)
    requires WakeOk(v) && Goes(v, EnvMove(k), w)
    ensures WakeOk(w)
  {
    hide Awake, Move;
    MoveStaysAwake(v.envs[k], v.main == Notifying(k), v.main.Stopping? && v.main.env == k);
  }

  lemma OthersKeepWake(v: Server, step: ServerStep, w: Server)
    requires WakeOk(v) && !step.EnvMove? && Goes(v, step, w)
    ensures WakeOk(w)
  {
  }

  lemma WakeKept(v: Server, step: ServerStep, w: Server)
    requires WakeOk(v) && Goes(v, step, w)
    ensures WakeOk(w)
  {
    hide WakeOk;
    if step.EnvMove? { MoveKeepsWake(v, step.env, w); } else { OthersKeepWake(v, step, w); }
  }

  // ---- The client

  lemma CallsKept(c: Client, replies: seq<Request>, step: ClientStep, d: Client)
    requires CallsOk(c) && ClientCan(c, replies, step) && d == ClientApply(c, replies, step)
    ensures CallsOk(d)
    ensures c.sent <= d.sent
  {
  }

  lemma ScanKeepsReader(c: Client, replies: seq<Request>, d: Client)
    requires ReaderOk(c, replies) && ClientCan(c, replies, Scan) && d == ClientApply(c, replies, Scan)
    ensures ReaderOk(d, replies)
  {
    forall id | id in d.delivered ensures AnsweredBefore(replies, Settled(d), id) {
      assert AnsweredBefore(replies, Settled(c), id);
    }
  }

  lemma DeliverKeepsReader(c: Client, replies: seq<Request>, d: Client)
    requires ReaderOk(c, replies) && ClientCan(c, replies, Deliver) && d == ClientApply(c, replies, Deliver)
    requires forall r :: r in replies ==> r in c.sent
    ensures ReaderOk(d, replies)
  {
    assert c.reader.request in replies;
    forall id | id in d.delivered ensures AnsweredBefore(replies, Settled(d), id) {
      assert id in c.delivered ==> AnsweredBefore(replies, Settled(c), id);
      assert replies[c.consumed - 1] == c.reader.request;
    }
  }

  lemma ReaderKept(c: Client, replies: seq<Request>, step: ClientStep, d: Client)
    requires ReaderOk(c, replies) && ClientCan(c, replies, step) && d == ClientApply(c, replies, step)
    requires forall r :: r in replies ==> r in c.sent
    ensures ReaderOk(d, replies)
  {
    if step.Scan? {
      ScanKeepsReader(c, replies, d);
    } else if step.Deliver? {
      DeliverKeepsReader(c, replies, d);
    } else {
      hide AnsweredBefore;
    }
  }

  lemma MoreReplies(c: Client, replies: seq<Request>, more: seq<Request>)
    requires ReaderOk(c, replies) && replies <= more
    ensures ReaderOk(c, more) && (WaitersOk(c, replies) ==> WaitersOk(c, more))
  {
    forall id | AnsweredBefore(more, Settled(c), id) ensures AnsweredBefore(replies, Settled(c), id) {
      var i :| 0 <= i < Settled(c) <= |more| && more[i].id == id;
      assert replies[i].id == id;
    }
    forall id | id in c.delivered ensures AnsweredBefore(more, Settled(c), id) {
      assert AnsweredBefore(replies, Settled(c), id);
    }
  }

  /** A reply that is read while its caller waits is delivered. */
  lemma ReaderKeepsWaiters(c: Client, replies: seq<Request>, step: ClientStep, d: Client)
    requires WaitersOk(c, replies) && ReaderOk(c, replies) && (step.Scan? || step.Deliver?)
    requires ClientCan(c, replies, step) && d == ClientApply(c, replies, step)
    ensures WaitersOk(d, replies)
  {
    forall id | id in d.calls && d.calls[id].state.Waiting? && AnsweredBefore(replies, Settled(d), id)
      ensures id in d.slots
    {
      var i :| 0 <= i < Settled(d) <= |replies| && replies[i].id == id;
      if i < Settled(c) {
        assert AnsweredBefore(replies, Settled(c), id);
      }
    }
  }

  lemma WriteKeepsWaiters(c: Client, replies: seq<Request>, id: nat, d: Client)
    requires WaitersOk(c, replies) && CallsOk(c) && forall r :: r in replies ==> r in c.sent
    requires ClientCan(c, replies, Write(id)) && d == ClientApply(c, replies, Write(id))
    ensures WaitersOk(d, replies)
  {
    forall i | 0 <= i < |replies| ensures replies[i].id != id { assert replies[i] in c.sent; }
    assert !AnsweredBefore(replies, Settled(d), id);
    hide AnsweredBefore;
  }

  lemma WaitersKept(c: Client, replies: seq<Request>, step: ClientStep, d: Client)
    requires WaitersOk(c, replies) && CallsOk(c) && ReaderOk(c, replies) && forall r :: r in replies ==> r in c.sent
    requires ClientCan(c, replies, step) && d == ClientApply(c, replies, step)
    ensures WaitersOk(d, replies)
  {
    hide AnsweredBefore;
    if step.Scan? || step.Deliver? {
      ReaderKeepsWaiters(c, replies, step, d);
    } else if step.Write? {
      WriteKeepsWaiters(c, replies, step.id, d);
    }
  }

  lemma OutcomesKept(c: Client, replies: seq<Request>, step: ClientStep, d: Client)
    requires CallsOk(c) && ReaderOk(c, replies) && OutcomesOk(c)
    requires ClientCan(c, replies, step) && d == ClientApply(c, replies, step)
    ensures OutcomesOk(d)
  {
    if step.Receive? {
      assert c.slots[step.id] in c.sent;
    }
  }

  // ---- Whole steps

  lemma ServerKeeps(v: Server, step: ServerStep, w: Server)
    requires ServerInv(v) && Goes(v, step, w)
    ensures ServerInv(w) && Stream(w) == Stream(v) && v.replies <= w.replies
  {
    StreamKept(v, step, w);
    RouteKept(v, step, w);
    EnvsKept(v, step, w);
    MainKept(v, step, w);
    StoppedKept(v, step, w);
    DestroyKept(v, step, w);
    RepliesKept(v, step, w);
    AnswersKept(v, step, w);
    TableKept(v, step, w);
    WakeKept(v, step, w);
  }

  /** A request written by the client reaches the end of the stream. */
  lemma WriteKeeps(s: System, id: nat, w: Server)
    requires Inv(s) && ClientCan(s.client, s.server.replies, Write(id))
    requires w == s.server.(stdin := s.server.stdin + [s.client.calls[id].request])
    ensures ServerInv(w) && Stream(w) == Stream(s.server) + [s.client.calls[id].request]
  {
    hide Of;
    var r := s.client.calls[id].request;
    assert Stream(w) == Stream(s.server) + [r];
    forall q | q in s.client.sent ensures q.id != r.id {}
    forall k: nat | k < |w.envs| ensures EnvOk(w, k) { assert EnvOk(s.server, k); }
  }

  lemma ClientKeeps(s: System, step: ClientStep, t: System)
    requires Inv(s) && Enabled(s, FromClient(step)) && t == Apply(s, FromClient(step))
    ensures Inv(t)
  {
    hide CallsOk, ReaderOk, OutcomesOk, WaitersOk, RouteOk, EnvsOk, MainOk, TableOk, WakeOk, Distinct;
    var c, replies, d := s.client, s.server.replies, t.client;
    CallsKept(c, replies, step, d);
    ReaderKept(c, replies, step, d);
    OutcomesKept(c, replies, step, d);
    WaitersKept(c, replies, step, d);
    if step.Write? { WriteKeeps(s, step.id, t.server); }
  }

  lemma StepKeeps(s: System, step: Step, t: System)
    requires Inv(s) && Enabled(s, step) && t == Apply(s, step)
    ensures Inv(t)
  {
    hide CallsOk, OutcomesOk, ServerInv, ServerApply, ClientApply;
    match step
    case FromClient(c) => ClientKeeps(s, c, t);
    case FromServer(v) =>
      ServerKeeps(s.server, v, t.server);
      MoreReplies(s.client, s.server.replies, t.server.replies);
  }

  /** The invariant holds after every run, whatever the interleaving. */
  lemma {:induction false} RunsKeep(steps: seq<Step>)
    requires IsRun(steps)
    ensures Inv(After(steps))
  {
    if steps != [] {
      hide Inv;
      var before, step := steps[..|steps| - 1], steps[|steps| - 1];
      RunsKeep(before);
      StepKeeps(After(before), step, After(steps));
    }
  }
}
