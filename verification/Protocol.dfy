/**
 * The request protocol between the Go client, the main thread of the server and
 * the event-loop thread of every environment, as atomic steps that may interleave
 * in any order. A step is what one thread does between two points where another
 * thread can see it: one critical section, one pipe operation, one channel
 * operation.
 */
module Protocol {

  datatype Kind =
    | Immediate                  // listed, malformed or unknown: the main thread answers at once
    | CreateEnv(name: string)
    | DestroyEnv(name: string)
    | Eval(name: string)         // eval and eval_file
    | Exit

  datatype Request = Request(id: nat, kind: Kind)

  // ---- Environment threads (env_event_loop)

  datatype Phase =
    | AtTop                      // about to test running
    | Polling                    // blocked in poll
    | Draining(ready: bool)      // poll has returned, and says whether the pipe was readable
    | Fetching                   // about to take the head of the queue
    | Handling(request: Request) // a request is taken and not yet answered
    | RunningJobs                // timers, fetch results and microtasks
    | Exited

  /** submitted, answered and dropped record the history of the environment. */
  datatype Env = Env(
    name: string,
    running: bool,
    queue: seq<Request>,
    signals: nat,                // bytes in the notification pipe
    phase: Phase,
    submitted: seq<Request>,
    answered: seq<Request>,
    dropped: seq<Request>)

  const DRAIN_MAX := 64
  const MAX_ENVIRONMENTS := 64

  function Drained(signals: nat): (left: nat) {
    if signals <= DRAIN_MAX then 0 else signals - DRAIN_MAX
  }

  function NewEnv(name: string): (env: Env) {
    Env(name, true, [], 0, AtTop, [], [], [])
  }

  /** The thread can go on; only a blocked poll and a finished thread cannot. */
  predicate CanMove(env: Env) {
    !env.phase.Exited? && (env.phase.Polling? ==> env.signals > 0)
  }

  /** What the thread does next, with poll returning because the pipe is readable. */
  function Move(env: Env): (next: Env)
    requires CanMove(env)
  {
    match env.phase
    case AtTop => env.(phase := if env.running then Polling else Exited)
    case Polling => env.(phase := Draining(true))
    case Draining(ready) =>
      env.(phase := Fetching, signals := if ready then Drained(env.signals) else env.signals)
    case Fetching =>
      if env.queue == [] then env.(phase := RunningJobs)
      else env.(phase := Handling(env.queue[0]), queue := env.queue[1..])
    case Handling(r) => env.(phase := Fetching, answered := env.answered + [r])
    case RunningJobs => env.(phase := AtTop)
  }

  /** The request that a thread has taken and not yet answered. */
  function Held(phase: Phase): (held: seq<Request>) {
    if phase.Handling? then [phase.request] else []
  }

  function Signal(env: Env): (next: Env) {
    env.(signals := env.signals + 1)
  }

  // ---- Main thread, standard-input thread and Go client

  datatype MainPhase =
    | MainPolling
    | MainDraining(ready: bool)
    | MainFetching
    | Notifying(env: nat)                    // a request is queued, its byte not yet written
    | Stopping(env: nat, request: Request)   // running is cleared, the byte not yet written
    | Joining(env: nat, request: Request)    // waiting for the thread to finish
    | Gone                                   // the process has exited

  datatype Route = ByMain | ToEnv(env: nat)

  datatype Outcome = Received(request: Request) | TimedOut | Failed

  datatype CallState = Numbered | Registered | Waiting | Returned(outcome: Outcome)

  datatype Call = Call(request: Request, state: CallState)

  datatype Reader = Scanning | Delivering(request: Request)

  /** sent and delivered record history. */
  datatype Client = Client(
    counter: nat,
    calls: map<nat, Call>,
    pending: set<nat>,
    slots: map<nat, Request>,    // what each one-slot channel holds
    reader: Reader,
    consumed: nat,               // replies read from standard output
    sent: seq<Request>,
    delivered: set<nat>)

  /** A reply is the request it answers. handled, route and replies record history. */
  datatype Server = Server(
    stdin: seq<Request>,         // written by the client, not yet read
    lines: seq<Request>,
    lineSignals: nat,
    notifyDue: bool,             // a line is pushed, its byte not yet written
    main: MainPhase,
    envs: seq<Env>,              // by creation number, destroyed ones included
    table: seq<nat>,             // the manager's array
    handled: seq<Request>,
    route: map<nat, Route>,
    replies: seq<Request>)

  datatype System = System(client: Client, server: Server)

  const START := System(
    Client(0, map[], {}, map[], Scanning, 0, [], {}),
    Server([], [], 0, false, MainPolling, [], [], [], map[], []))

  // ---- The Go client

  datatype ClientStep =
    // SendRequest
    | Number(kind: Kind) | Register(id: nat) | Write(id: nat) | WriteFails(id: nat)
    | Receive(id: nat) | GiveUp(id: nat)
    // readLoop
    | Scan | Deliver

  predicate ClientCan(c: Client, replies: seq<Request>, step: ClientStep) {
    match step
    case Number(_) => true
    case Register(id) => id in c.calls && c.calls[id].state.Numbered?
    case Write(id) => id in c.calls && c.calls[id].state.Registered?
    case WriteFails(id) => id in c.calls && c.calls[id].state.Registered?
    case Receive(id) => id in c.calls && c.calls[id].state.Waiting? && id in c.slots
    case GiveUp(id) => id in c.calls && c.calls[id].state.Waiting?
    case Scan => c.reader.Scanning? && c.consumed < |replies|
    case Deliver => c.reader.Delivering? && c.reader.request.id !in c.slots
  }

  /** SendRequest returns, and its deferred call removes the channel from the table. */
  function Settle(c: Client, id: nat, outcome: Outcome): (d: Client)
    requires id in c.calls
  {
    c.(calls := c.calls[id := c.calls[id].(state := Returned(outcome))], pending := c.pending - {id})
  }

  function ClientApply(c: Client, replies: seq<Request>, step: ClientStep): (d: Client)
    requires ClientCan(c, replies, step)
  {
    match step
    case Number(kind) =>
      var id := c.counter + 1;
      c.(counter := id, calls := c.calls[id := Call(Request(id, kind), Numbered)])
    case Register(id) =>
      c.(calls := c.calls[id := c.calls[id].(state := Registered)], pending := c.pending + {id})
    case Write(id) =>
      c.(calls := c.calls[id := c.calls[id].(state := Waiting)], sent := c.sent + [c.calls[id].request])
    case WriteFails(id) => Settle(c, id, Failed)
    case Receive(id) => Settle(c, id, Received(c.slots[id])).(slots := c.slots - {id})
    case GiveUp(id) => Settle(c, id, TimedOut)
    case Scan =>
      var r := replies[c.consumed];
      c.(consumed := c.consumed + 1, reader := if r.id in c.pending then Delivering(r) else Scanning)
    case Deliver =>
      var r := c.reader.request;
      c.(reader := Scanning, slots := c.slots[r.id := r], delivered := c.delivered + {r.id})
  }

  // ---- The server

  datatype ServerStep =
    // standard-input thread
    | PushLine | SignalLine
    // main loop and handle_request
    | MainWake(timeout: bool) | MainDrain | MainRest
    | Answer | Submit(env: nat) | Notify | Create | Destroy(env: nat) | SignalStop | Join
    // environment threads
    | EnvTimeout(env: nat) | EnvMove(env: nat)

  /** The position of the environment of a given name in the manager's array, or its length. */
  function Find(envs: seq<Env>, table: seq<nat>, name: string): (i: nat)
    requires forall i :: 0 <= i < |table| ==> table[i] < |envs|
    ensures i <= |table|
    ensures i < |table| ==> envs[table[i]].name == name
    ensures forall j :: 0 <= j < i ==> envs[table[j]].name != name
  {
    if table == [] then 0
    else if envs[table[0]].name == name then 0
    else 1 + Find(envs, table[1..], name)
  }

  ghost predicate TableKnown(v: Server) {
    forall i :: 0 <= i < |v.table| ==> v.table[i] < |v.envs|
  }

  predicate Finds(v: Server, name: string, k: nat)
    requires forall i :: 0 <= i < |v.table| ==> v.table[i] < |v.envs|
  {
    var i := Find(v.envs, v.table, name);
    i < |v.table| && v.table[i] == k
  }

  predicate Missing(v: Server, name: string)
    requires forall i :: 0 <= i < |v.table| ==> v.table[i] < |v.envs|
  {
    Find(v.envs, v.table, name) == |v.table|
  }

  predicate CanTake(v: Server) {
    v.main.MainFetching? && v.lines != []
  }

  /**
   * The main thread answers the line itself: no environment of that name, no room for a
   * new one, creation failed, or nothing but an answer is asked for.
   */
  predicate AnswersNow(v: Server, kind: Kind)
    requires forall i :: 0 <= i < |v.table| ==> v.table[i] < |v.envs|
  {
    match kind
    case Eval(name) => Missing(v, name)
    case DestroyEnv(name) => Missing(v, name)
    case _ => true
  }

  ghost predicate ServerCan(v: Server, step: ServerStep)
    requires TableKnown(v)
  {
    match step
    case PushLine => !v.notifyDue && v.stdin != []
    case SignalLine => v.notifyDue
    case MainWake(timeout) => v.main.MainPolling? && (timeout || v.lineSignals > 0)
    case MainDrain => v.main.MainDraining?
    case MainRest => v.main.MainFetching? && v.lines == []
    case Answer => CanTake(v) && AnswersNow(v, v.lines[0].kind)
    case Submit(k) => CanTake(v) && v.lines[0].kind.Eval? && Finds(v, v.lines[0].kind.name, k)
    case Notify => v.main.Notifying? && v.main.env < |v.envs|
    case Create =>
      && CanTake(v) && v.lines[0].kind.CreateEnv?
      && |v.table| < MAX_ENVIRONMENTS && Missing(v, v.lines[0].kind.name)
    case Destroy(k) => CanTake(v) && v.lines[0].kind.DestroyEnv? && Finds(v, v.lines[0].kind.name, k)
    case SignalStop => v.main.Stopping? && v.main.env < |v.envs|
    case Join => v.main.Joining? && v.main.env < |v.envs| && v.envs[v.main.env].phase.Exited?
    case EnvTimeout(k) => k < |v.envs| && v.envs[k].phase.Polling?
    case EnvMove(k) => k < |v.envs| && CanMove(v.envs[k])
  }

  function SetEnv(v: Server, k: nat, env: Env): (w: Server)
    requires k < |v.envs|
  {
    v.(envs := v.envs[k := env])
  }

  /** The main thread takes the first line and decides who answers it. */
  function Take(v: Server, route: Route): (w: Server)
    requires v.lines != []
  {
    var r := v.lines[0];
    v.(lines := v.lines[1..], handled := v.handled + [r], route := v.route[r.id := route])
  }

  function Remove(table: seq<nat>, i: nat): (t: seq<nat>)
    requires i < |table|
  {
    table[..i] + table[i + 1..]
  }

  ghost function ServerApply(v: Server, step: ServerStep): (w: Server)
    requires TableKnown(v) && ServerCan(v, step)
  {
    match step
    case PushLine => v.(stdin := v.stdin[1..], lines := v.lines + [v.stdin[0]], notifyDue := true)
    case SignalLine => v.(notifyDue := false, lineSignals := v.lineSignals + 1)
    case MainWake(timeout) => v.(main := MainDraining(v.lineSignals > 0))
    case MainDrain =>
      v.(main := MainFetching, lineSignals := if v.main.ready then Drained(v.lineSignals) else v.lineSignals)
    case MainRest => v.(main := MainPolling)
    case Answer =>
      var r := v.lines[0];
      Take(v, ByMain).(replies := v.replies + [r], main := if r.kind.Exit? then Gone else MainFetching)
    case Submit(k) =>
      var env, r := v.envs[k], v.lines[0];
      SetEnv(Take(v, ToEnv(k)), k, env.(queue := env.queue + [r], submitted := env.submitted + [r]))
        .(main := Notifying(k))
    case Notify => SetEnv(v, v.main.env, Signal(v.envs[v.main.env])).(main := MainFetching)
    case Create =>
      var r := v.lines[0];
      Take(v, ByMain).(envs := v.envs + [NewEnv(r.kind.name)], table := v.table + [|v.envs|],
                       replies := v.replies + [r])
    case Destroy(k) =>
      var r := v.lines[0];
      SetEnv(Take(v, ByMain), k, v.envs[k].(running := false))
        .(table := Remove(v.table, Find(v.envs, v.table, r.kind.name)), main := Stopping(k, r))
    case SignalStop =>
      SetEnv(v, v.main.env, Signal(v.envs[v.main.env])).(main := Joining(v.main.env, v.main.request))
    case Join =>
      var env := v.envs[v.main.env];
      SetEnv(v, v.main.env, env.(queue := [], dropped := env.queue))
        .(main := MainFetching, replies := v.replies + [v.main.request])
    case EnvTimeout(k) => SetEnv(v, k, v.envs[k].(phase := Draining(v.envs[k].signals > 0)))
    case EnvMove(k) =>
      SetEnv(v, k, Move(v.envs[k])).(replies := v.replies + Held(v.envs[k].phase))
  }

  // ---- Runs

  datatype Step = FromClient(client: ClientStep) | FromServer(server: ServerStep)

  /** The step can happen now; a process that has exited takes no step. */
  ghost predicate Enabled(s: System, step: Step) {
    match step
    case FromClient(c) => ClientCan(s.client, s.server.replies, c)
    case FromServer(v) => !s.server.main.Gone? && TableKnown(s.server) && ServerCan(s.server, v)
  }

  ghost function Apply(s: System, step: Step): (t: System)
    requires Enabled(s, step)
  {
    match step
    case FromClient(c) =>
      var client := ClientApply(s.client, s.server.replies, c);
      System(client,
             if c.Write? then s.server.(stdin := s.server.stdin + [s.client.calls[c.id].request]) else s.server)
    case FromServer(v) => s.(server := ServerApply(s.server, v))
  }

  /** The steps can happen one after the other from the start. */
  ghost predicate IsRun(steps: seq<Step>)
    decreases |steps|, 0
  {
    steps == [] || (IsRun(steps[..|steps| - 1]) && Enabled(After(steps[..|steps| - 1]), steps[|steps| - 1]))
  }

  /** The state a run leads to. */
  ghost function After(steps: seq<Step>): (s: System)
    requires IsRun(steps)
    decreases |steps|, 1
  {
    if steps == [] then START else Apply(After(steps[..|steps| - 1]), steps[|steps| - 1])
  }
}
