/** What every reachable state of the protocol satisfies. */
module ProtocolInvariant {
  import opened Protocol

  ghost predicate Distinct(s: seq<Request>) {
    forall i, j :: 0 <= i < j < |s| ==> s[i].id != s[j].id
  }

  /** The requests of s that went to environment k, in order. */
  ghost function Of(s: seq<Request>, route: map<nat, Route>, k: nat): (part: seq<Request>) {
    if s == [] then []
    else
      var last := s[|s| - 1];
      Of(s[..|s| - 1], route, k) + (if last.id in route && route[last.id] == ToEnv(k) then [last] else [])
  }

  // ---- The server

  /** Every request the server was sent, in order: handled, read, still in the pipe. */
  function Stream(v: Server): (stream: seq<Request>) {
    v.handled + v.lines + v.stdin
  }

  ghost predicate RouteOk(v: Server) {
    && (forall r :: r in v.handled ==> r.id in v.route)
    && (forall id :: id in v.route ==> exists r :: r in v.handled && r.id == id)
    && (forall id :: id in v.route && v.route[id].ToEnv? ==> v.route[id].env < |v.envs|)
  }

  /** Submitted and not answered: in hand, then queued, then dropped at the end. */
  function Rest(env: Env): (rest: seq<Request>) {
    Held(env.phase) + env.queue + env.dropped
  }

  ghost predicate Conserved(env: Env) {
    && env.submitted == env.answered + Rest(env)
    && (env.dropped != [] ==> env.phase.Exited? && env.queue == [])
    && (env.phase.Exited? ==> !env.running)
  }

  /** The history of environment k is what the streams of lines and replies show of it. */
  ghost predicate EnvOk(v: Server, k: nat)
    requires k < |v.envs|
  {
    && Conserved(v.envs[k])
    && Of(v.handled, v.route, k) == v.envs[k].submitted
    && Of(v.replies, v.route, k) == v.envs[k].answered
  }

  ghost predicate EnvsOk(v: Server) {
    forall k: nat :: k < |v.envs| ==> EnvOk(v, k)
  }

  /** A request whose environment is being destroyed waits for its answer. */
  ghost predicate MainOk(v: Server) {
    && (v.main.Notifying? ==> v.main.env < |v.envs| && v.envs[v.main.env].running)
    && (v.main.Stopping? || v.main.Joining? ==>
          && v.main.env < |v.envs| && !v.envs[v.main.env].running && v.envs[v.main.env].dropped == []
          && v.main.request in v.handled && v.main.request !in v.replies
          && v.main.request.id in v.route && v.route[v.main.request.id] == ByMain)
  }

  predicate Ending(v: Server, k: nat) {
    (v.main.Stopping? || v.main.Joining?) && v.main.env == k
  }

  /** An environment told to stop is being waited for, or is gone and has an empty queue. */
  ghost predicate StoppedOk(v: Server) {
    forall k: nat :: k < |v.envs| && !v.envs[k].running ==>
      Ending(v, k) || (v.envs[k].phase.Exited? && v.envs[k].queue == [])
  }

  /** In s, r comes before a request to destroy the environment of that name. */
  ghost predicate BeforeDestroy(s: seq<Request>, r: Request, name: string) {
    exists i, j :: 0 <= i < j < |s| && s[i] == r && s[j].kind == DestroyEnv(name)
  }

  /** An environment gets evaluations under its own name, and once it is told to stop they precede its destruction. */
  ghost predicate DestroyOk(v: Server) {
    forall k: nat, r :: k < |v.envs| && r in v.envs[k].submitted ==>
      && r.kind == Eval(v.envs[k].name)
      && (!v.envs[k].running ==> BeforeDestroy(v.handled, r, v.envs[k].name))
  }

  ghost predicate RepliesOk(v: Server) {
    Distinct(v.replies) && forall r :: r in v.replies ==> r in v.handled
  }

  /** What the main thread answers itself it has answered, but for the request in its hands. */
  ghost predicate AnswersOk(v: Server) {
    forall r :: r in v.handled && r.id in v.route && v.route[r.id] == ByMain ==>
      r in v.replies || ((v.main.Stopping? || v.main.Joining?) && v.main.request == r)
  }

  /** The manager's array lists running environments, no two of the same name. */
  ghost predicate Listed(envs: seq<Env>, table: seq<nat>) {
    && (forall i :: 0 <= i < |table| ==> table[i] < |envs| && envs[table[i]].running)
    && (forall i, j :: 0 <= i < j < |table| ==> envs[table[i]].name != envs[table[j]].name)
  }

  ghost predicate TableOk(v: Server) {
    Listed(v.envs, v.table) && |v.table| <= MAX_ENVIRONMENTS
  }

  predicate Resting(phase: Phase) {
    phase.RunningJobs? || phase.AtTop? || phase.Polling?
  }

  /** An environment thread that will poll finds a byte whenever it has something to do. */
  ghost predicate Awake(env: Env, notifying: bool, stopping: bool) {
    && (Resting(env.phase) && env.queue != [] ==> env.signals > 0 || notifying)
    && (env.phase.Polling? && !env.running ==> env.signals > 0 || stopping)
  }

  ghost predicate WakeOk(v: Server) {
    && (v.main.MainPolling? && v.lines != [] ==> v.lineSignals > 0 || v.notifyDue)
    && (forall k: nat :: k < |v.envs| ==>
          Awake(v.envs[k], v.main == Notifying(k), v.main.Stopping? && v.main.env == k))
  }

  ghost predicate ServerInv(v: Server) {
    && Distinct(Stream(v)) && RouteOk(v) && EnvsOk(v) && MainOk(v) && StoppedOk(v) && DestroyOk(v)
    && RepliesOk(v) && AnswersOk(v) && TableOk(v) && WakeOk(v)
  }

  // ---- The client

  ghost predicate CallsOk(c: Client) {
    && (forall id :: id in c.calls ==> c.calls[id].request.id == id <= c.counter)
    && (forall r :: r in c.sent ==>
          r.id in c.calls && c.calls[r.id].request == r &&
          !c.calls[r.id].state.Numbered? && !c.calls[r.id].state.Registered?)
  }

  /** Replies read so far and no longer in the hands of the read loop. */
  function Settled(c: Client): (n: int) {
    if c.reader.Delivering? then c.consumed - 1 else c.consumed
  }

  ghost predicate AnsweredBefore(replies: seq<Request>, n: int, id: nat) {
    exists i :: 0 <= i < n <= |replies| && replies[i].id == id
  }

  ghost predicate ReaderOk(c: Client, replies: seq<Request>) {
    && c.consumed <= |replies|
    && (c.reader.Delivering? ==> c.consumed > 0 && replies[c.consumed - 1] == c.reader.request)
    && (forall id :: id in c.delivered ==> AnsweredBefore(replies, Settled(c), id))
    && (forall id :: id in c.slots ==> id in c.delivered && c.slots[id].id == id && c.slots[id] in c.sent)
  }

  /** A caller is in the table from before it writes until it returns, and finds what was delivered. */
  ghost predicate WaitersOk(c: Client, replies: seq<Request>) {
    && (forall id :: id in c.calls && (c.calls[id].state.Registered? || c.calls[id].state.Waiting?) ==> id in c.pending)
    && (forall id :: id in c.calls && c.calls[id].state.Waiting? && AnsweredBefore(replies, Settled(c), id) ==>
          id in c.slots)
  }

  /** A caller that received a reply received the reply to its own request. */
  ghost predicate OutcomesOk(c: Client) {
    forall id :: id in c.calls && c.calls[id].state.Returned? && c.calls[id].state.outcome.Received? ==>
      c.calls[id].state.outcome.request == c.calls[id].request
  }

  ghost predicate Inv(s: System) {
    && ServerInv(s.server)
    && s.client.sent == Stream(s.server)
    && CallsOk(s.client) && ReaderOk(s.client, s.server.replies) && OutcomesOk(s.client)
    && WaitersOk(s.client, s.server.replies)
  }

  // ---- Requests of one environment

  lemma OfAppend(s: seq<Request>, r: Request, route: map<nat, Route>, k: nat)
    ensures Of(s + [r], route, k) ==
            Of(s, route, k) + (if r.id in route && route[r.id] == ToEnv(k) then [r] else [])
  {
    assert (s + [r])[..|s|] == s;
  }

  /** Routing a request that is not in s changes nothing. */
  lemma {:induction false} OfNewRoute(s: seq<Request>, route: map<nat, Route>, id: nat, where: Route, k: nat)
    requires forall r :: r in s ==> r.id != id
    ensures Of(s, route[id := where], k) == Of(s, route, k)
  {
    if s != [] {
      assert s[|s| - 1] in s;
      forall r | r in s[..|s| - 1] ensures r.id != id { assert r in s; }
      OfNewRoute(s[..|s| - 1], route, id, where, k);
    }
  }

  lemma {:induction false} OfMembers(s: seq<Request>, route: map<nat, Route>, k: nat, r: Request)
    ensures r in Of(s, route, k) <==> r in s && r.id in route && route[r.id] == ToEnv(k)
  {
    if s != [] {
      OfMembers(s[..|s| - 1], route, k, r);
      assert s == s[..|s| - 1] + [s[|s| - 1]];
    }
  }

  lemma {:induction false} OfDistinct(s: seq<Request>, route: map<nat, Route>, k: nat)
    requires Distinct(s)
    ensures Distinct(Of(s, route, k))
  {
    if s != [] {
      var front, last := s[..|s| - 1], s[|s| - 1];
      OfDistinct(front, route, k);
      forall r | r in Of(front, route, k) ensures r.id != last.id {
        OfMembers(front, route, k, r);
      }
    }
  }

  lemma {:induction false} OfNothing(s: seq<Request>, route: map<nat, Route>, k: nat)
    requires forall r :: r in s && r.id in route ==> route[r.id] != ToEnv(k)
    ensures Of(s, route, k) == []
  {
    if s != [] {
      assert s[|s| - 1] in s;
      OfNothing(s[..|s| - 1], route, k);
    }
  }

  lemma {:induction false} OfConcat(s: seq<Request>, t: seq<Request>, route: map<nat, Route>, k: nat)
    ensures Of(s + t, route, k) == Of(s, route, k) + Of(t, route, k)
  {
    if t == [] {
      assert s + t == s;
    } else {
      var front, last := t[..|t| - 1], t[|t| - 1];
      OfConcat(s, front, route, k);
      OfAppend(s + front, last, route, k);
      assert s + t == s + front + [last];
    }
  }

  lemma DifferentIds(s: seq<Request>, a: Request, b: Request)
    requires Distinct(s) && a in s && b in s && a != b
    ensures a.id != b.id
  {
  }
}
