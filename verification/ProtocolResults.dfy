/** What the protocol promises over every run. */
module ProtocolResults {
  import opened Protocol
  import opened ProtocolInvariant
  import opened ProtocolSteps
  import opened ProtocolProgress

  /** Each request id gets at most one reply, and only a request that was sent gets one. */
  lemma AtMostOneReply(steps: seq<Step>)
    requires IsRun(steps)
    ensures var s := After(steps);
            Distinct(s.server.replies) && forall r :: r in s.server.replies ==> r in s.client.sent
  {
    RunsKeep(steps);
  }

  /** A line not yet handled belongs to no environment. */
  lemma LaterLine(v: Server, r: Request)
    requires Distinct(Stream(v)) && RouteOk(v) && r in v.lines + v.stdin
    ensures r.id !in v.route
  {
    var j :| 0 <= j < |v.lines + v.stdin| && (v.lines + v.stdin)[j] == r;
    assert Stream(v)[|v.handled| + j] == r;
    forall q | q in v.handled ensures q.id != r.id {
      var i :| 0 <= i < |v.handled| && v.handled[i] == q;
      assert Stream(v)[i] == q;
    }
  }

  lemma LinesOf(v: Server, k: nat)
    requires Distinct(Stream(v)) && RouteOk(v)
    ensures Of(Stream(v), v.route, k) == Of(v.handled, v.route, k)
  {
    var rest := v.lines + v.stdin;
    forall r | r in rest ensures r.id !in v.route { LaterLine(v, r); }
    OfNothing(rest, v.route, k);
    OfConcat(v.handled, rest, v.route, k);
    assert Stream(v) == v.handled + rest;
  }

  /**
   * The requests sent to an environment are, in the order the client wrote them, those
   * answered, the one in hand, those queued and those dropped when it was destroyed; and
   * its replies leave the server in that same order.
   */
  lemma RepliesInOrder(steps: seq<Step>, k: nat)
    requires IsRun(steps) && k < |After(steps).server.envs|
    ensures var s := After(steps); var v := s.server; var env := v.envs[k];
            && Of(s.client.sent, v.route, k) == env.answered + (Held(env.phase) + env.queue + env.dropped)
            && Of(v.replies, v.route, k) == env.answered
            && Of(v.replies, v.route, k) <= Of(s.client.sent, v.route, k)
  {
    RunsKeep(steps);
    hide Of, After, IsRun;
    var v := After(steps).server;
    assert EnvOk(v, k);
    LinesOf(v, k);
  }

  /**
   * No wake-up is lost: a thread blocked in poll with work to do has a byte in its pipe,
   * unless the thread that gave it the work is about to write one.
   */
  lemma NoLostWakeup(steps: seq<Step>)
    requires IsRun(steps)
    ensures var v := After(steps).server;
            && (v.main.MainPolling? && v.lines != [] ==> v.lineSignals > 0 || v.notifyDue)
            && forall k: nat :: k < |v.envs| && v.envs[k].phase.Polling? ==>
                 && (v.envs[k].queue != [] ==> v.envs[k].signals > 0 || v.main == Notifying(k))
                 && (!v.envs[k].running ==> v.envs[k].signals > 0 || (v.main.Stopping? && v.main.env == k))
  {
    RunsKeep(steps);
    var v := After(steps).server;
    assert forall k: nat :: k < |v.envs| ==>
      Awake(v.envs[k], v.main == Notifying(k), v.main.Stopping? && v.main.env == k);
  }

  lemma NotYetDelivered(c: Client, replies: seq<Request>)
    requires ReaderOk(c, replies) && Distinct(replies) && c.reader.Delivering?
    ensures c.reader.request.id !in c.delivered
  {
    var id := c.reader.request.id;
    assert forall i :: 0 <= i < Settled(c) ==> replies[i].id != replies[c.consumed - 1].id;
    assert !AnsweredBefore(replies, Settled(c), id);
  }

  /** The read loop never waits to put a reply into a channel. */
  lemma DeliverNeverBlocks(steps: seq<Step>)
    requires IsRun(steps) && After(steps).client.reader.Delivering?
    ensures Enabled(After(steps), FromClient(Deliver))
  {
    RunsKeep(steps);
    var s := After(steps);
    NotYetDelivered(s.client, s.server.replies);
  }

  /** A reply that the read loop has passed while its caller waits is in the channel of that caller. */
  lemma WaiterGetsReply(steps: seq<Step>, id: nat)
    requires IsRun(steps) && id in After(steps).client.calls && After(steps).client.calls[id].state.Waiting?
    requires var s := After(steps);
             exists i :: 0 <= i < Settled(s.client) <= |s.server.replies| && s.server.replies[i].id == id
    ensures Enabled(After(steps), FromClient(Receive(id)))
  {
    RunsKeep(steps);
    var s := After(steps);
    assert AnsweredBefore(s.server.replies, Settled(s.client), id);
  }

  /** A caller receives nothing but the reply to its own request. */
  lemma OwnReply(steps: seq<Step>, id: nat)
    requires IsRun(steps) && id in After(steps).client.calls
    requires After(steps).client.calls[id].state.Returned?
    requires After(steps).client.calls[id].state.outcome.Received?
    ensures var call := After(steps).client.calls[id];
            call.state.outcome.request == call.request && call.request.id == id
  {
    RunsKeep(steps);
  }

  /** The manager holds at most 64 environments, all running, no two of the same name. */
  lemma EnvironmentsDistinct(steps: seq<Step>)
    requires IsRun(steps)
    ensures var v := After(steps).server;
            && |v.table| <= 64
            && (forall i :: 0 <= i < |v.table| ==> v.table[i] < |v.envs| && v.envs[v.table[i]].running)
            && (forall i, j :: 0 <= i < j < |v.table| ==> v.envs[v.table[i]].name != v.envs[v.table[j]].name)
  {
    RunsKeep(steps);
  }

  // ---- Which requests stay without a reply

  ghost predicate Outstanding(v: Server, r: Request) {
    || ((v.main.Stopping? || v.main.Joining?) && v.main.request == r)
    || exists k: nat :: k < |v.envs| && r in Rest(v.envs[k])
  }

  lemma UnansweredIsOutstanding(v: Server, r: Request)
    requires RouteOk(v) && EnvsOk(v) && AnswersOk(v) && r in v.handled && r !in v.replies
    ensures Outstanding(v, r)
  {
    if v.route[r.id].ToEnv? {
      hide Rest;
      var k := v.route[r.id].env;
      assert EnvOk(v, k);
      OfMembers(v.handled, v.route, k, r);
      OfMembers(v.replies, v.route, k, r);
    }
  }

  /**
   * A request the main thread has handled has no reply exactly when it is still
   * being worked on, still queued, or was dropped with its environment.
   */
  lemma UnansweredExactly(steps: seq<Step>, r: Request)
    requires IsRun(steps) && r in After(steps).server.handled
    ensures r !in After(steps).server.replies <==> Outstanding(After(steps).server, r)
  {
    RunsKeep(steps);
    var v := After(steps).server;
    if r !in v.replies {
      UnansweredIsOutstanding(v, r);
    }
    if k: nat :| k < |v.envs| && r in Rest(v.envs[k]) {
      assert EnvOk(v, k);
      RestIsUnanswered(v, k, r);
    }
  }

  lemma DroppedStays(v: Server, step: ServerStep, w: Server, k: nat)
    requires MainOk(v) && Goes(v, step, w) && k < |v.envs|
    ensures k < |w.envs|
    ensures v.envs[k].dropped != [] ==> w.envs[k].dropped == v.envs[k].dropped
  {
  }

  /** A request dropped with its environment never gets a reply. */
  lemma {:induction false} DroppedForever(steps: seq<Step>, n: nat, k: nat, r: Request)
    requires n <= |steps| && IsRun(steps) && IsRun(steps[..n])
    requires k < |After(steps[..n]).server.envs| && r in After(steps[..n]).server.envs[k].dropped
    ensures k < |After(steps).server.envs| && r in After(steps).server.envs[k].dropped
    ensures r !in After(steps).server.replies
    decreases |steps|
  {
    RunsKeep(steps);
    hide Of, Apply;
    if n == |steps| {
      assert steps[..n] == steps;
    } else {
      var before := steps[..|steps| - 1];
      assert before[..n] == steps[..n];
      DroppedForever(before, n, k, r);
      RunsKeep(before);
      var step := steps[|steps| - 1];
      if step.FromServer? {
        DroppedStays(After(before).server, step.server, After(steps).server, k);
      }
    }
    var v := After(steps).server;
    assert EnvOk(v, k) && r in Rest(v.envs[k]);
    RestIsUnanswered(v, k, r);
  }

  // ---- Everything is answered in the end

  lemma {:induction false} PromptRunsKeep(states: seq<Server>, steps: seq<ServerStep>)
    requires PromptRun(states, steps) && ServerInv(states[0])
    ensures ServerInv(states[|steps|]) && Stream(states[|steps|]) == Stream(states[0])
  {
    if steps != [] {
      hide ServerInv, Stream, Goes;
      var n := |steps| - 1;
      PromptRunsKeep(states[..n + 1], steps[..n]);
      ServerKeeps(states[n], steps[n], states[n + 1]);
    }
  }

  lemma AnsweredOrDropped(v: Server, r: Request)
    requires ServerInv(v) && AllAnswered(v) && r in Stream(v)
    ensures r in v.replies || exists k: nat :: k < |v.envs| && r in v.envs[k].dropped
  {
    hide Of;
    if r !in v.replies {
      assert Stream(v) == v.handled;
      UnansweredIsOutstanding(v, r);
      var k: nat :| k < |v.envs| && r in Rest(v.envs[k]);
      assert Rest(v.envs[k]) == v.envs[k].dropped;
    }
  }

  /**
   * Left to itself after any run, and with poll never timing out, the server takes at
   * most Work steps; when it can take no more it has exited, or has replied to every
   * request it was sent except those dropped with their environment.
   */
  lemma EverythingIsAnswered(run: seq<Step>, states: seq<Server>, steps: seq<ServerStep>)
    requires IsRun(run) && PromptRun(states, steps) && states[0] == After(run).server
    ensures |steps| <= Work(states[0])
    ensures var last := states[|steps|];
            || last.main.Gone?
            || (exists step :: Prompt(step) && TableKnown(last) && ServerCan(last, step))
            || (forall r :: r in After(run).client.sent ==>
                  r in last.replies || exists k: nat :: k < |last.envs| && r in last.envs[k].dropped)
  {
    RunsKeep(run);
    PromptRunsEnd(states, steps);
    PromptRunsKeep(states, steps);
    hide ServerInv, PromptRun, After, AllAnswered;
    var last := states[|steps|];
    if !last.main.Gone? {
      if AllAnswered(last) {
        forall r | r in After(run).client.sent
          ensures r in last.replies || exists k: nat :: k < |last.envs| && r in last.envs[k].dropped
        {
          AnsweredOrDropped(last, r);
        }
      } else {
        var step := NeverStuck(last);
      }
    }
  }
}
