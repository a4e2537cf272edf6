/** Timers: arming, clearing, and the pass that fires what is due. */
module Timers {

  // ---- Clock readings

  datatype TimeSpec = TimeSpec(sec: int, nsec: int)

  predicate Normal(t: TimeSpec) {
    0 <= t.nsec < 1_000_000_000
  }

  function Nanos(t: TimeSpec): (n: int) {
    t.sec * 1_000_000_000 + t.nsec
  }

  function AddMs(t: TimeSpec, ms: nat): (r: TimeSpec)
    requires Normal(t)
    ensures Normal(r) && Nanos(r) == Nanos(t) + ms * 1_000_000
  {
    var sec, nsec := t.sec + ms / 1000, t.nsec + ms % 1000 * 1_000_000;
    if nsec >= 1_000_000_000 then TimeSpec(sec + 1, nsec - 1_000_000_000) else TimeSpec(sec, nsec)
  }

  function Cmp(a: TimeSpec, b: TimeSpec): (r: int)
    requires Normal(a) && Normal(b)
    ensures (r < 0 <==> Nanos(a) < Nanos(b)) && (r == 0 <==> Nanos(a) == Nanos(b)) && (r > 0 <==> Nanos(a) > Nanos(b))
  {
    if a.sec < b.sec then -1 else if a.sec > b.sec then 1
    else if a.nsec < b.nsec then -1 else if a.nsec > b.nsec then 1 else 0
  }

  // ---- The list

  datatype Timer = Timer(id: nat, nextFire: TimeSpec, intervalMs: nat, isInterval: bool, canceled: bool)

  predicate Due(t: Timer, now: TimeSpec)
    requires Normal(t.nextFire) && Normal(now)
  {
    !t.canceled && Cmp(now, t.nextFire) >= 0
  }

  ghost predicate WellFormed(timers: seq<Timer>, counter: nat) {
    && (forall i :: 0 <= i < |timers| ==> timers[i].id <= counter && Normal(timers[i].nextFire))
    && (forall i, j :: 0 <= i < j < |timers| ==> timers[i].id != timers[j].id)
    && (forall i :: 0 <= i < |timers| ==> (timers[i].isInterval ==> timers[i].intervalMs > 0))
  }

  /** What a callback can do, with the clock reading it is done at. */
  datatype Action = SetTimeout(delayMs: int, at: TimeSpec) | SetInterval(periodMs: int, at: TimeSpec) | Clear(id: nat)

  datatype Event = Fired(id: nat) | Cleared(id: nat)

  /** Clearing a timer marks it; the entry stays until the next pass. */
  function Cancel(timers: seq<Timer>, id: nat): (r: seq<Timer>)
    ensures |r| == |timers|
  {
    if timers == [] then []
    else if timers[0].id == id then [timers[0].(canceled := true)] + timers[1..]
    else [timers[0]] + Cancel(timers[1..], id)
  }

  lemma {:induction false} CancelMarks(timers: seq<Timer>, id: nat, k: nat)
    requires k < |timers| && forall i, j :: 0 <= i < j < |timers| ==> timers[i].id != timers[j].id
    ensures Cancel(timers, id)[k] == if timers[k].id == id then timers[k].(canceled := true) else timers[k]
  {
    if k > 0 && timers[0].id != id {
      CancelMarks(timers[1..], id, k - 1);
    }
  }

  /** Live entries due at the sampled time. */
  ghost function DueCount(timers: seq<Timer>, now: TimeSpec): (n: nat)
    requires Normal(now) && forall i :: 0 <= i < |timers| ==> Normal(timers[i].nextFire)
    ensures n <= |timers|
  {
    if timers == [] then 0 else (if Due(timers[0], now) then 1 else 0) + DueCount(timers[1..], now)
  }

  lemma {:induction false} DueConcat(s: seq<Timer>, t: seq<Timer>, now: TimeSpec)
    requires Normal(now) && forall i :: 0 <= i < |s| ==> Normal(s[i].nextFire)
    requires forall i :: 0 <= i < |t| ==> Normal(t[i].nextFire)
    ensures DueCount(s + t, now) == DueCount(s, now) + DueCount(t, now)
  {
    if s == [] {
      assert s + t == t;
    } else {
      DueConcat(s[1..], t, now);
      assert (s + t)[1..] == s[1..] + t;
    }
  }

  lemma {:induction false} CancelDue(timers: seq<Timer>, id: nat, now: TimeSpec)
    requires Normal(now) && forall i :: 0 <= i < |timers| ==> Normal(timers[i].nextFire)
    ensures forall i :: 0 <= i < |timers| ==> Normal(Cancel(timers, id)[i].nextFire)
    ensures DueCount(Cancel(timers, id), now) <= DueCount(timers, now)
  {
    if timers != [] {
      CancelDue(timers[1..], id, now);
      var r := Cancel(timers, id);
      assert r[1..] == if timers[0].id == id then timers[1..] else Cancel(timers[1..], id);
      assert forall i :: 0 < i < |r| ==> r[i] == r[1..][i - 1];
    }
  }

  // ---- One pass

  /** No timer fires twice, and none fires after it was cleared. */
  ghost predicate Orderly(log: seq<Event>) {
    forall i, j :: 0 <= i < j < |log| && log[j].Fired? ==> log[i] != log[j] && log[i] != Cleared(log[j].id)
  }

  /** The timer of that number was live and due at the start. */
  ghost predicate WasDue(start: seq<Timer>, id: nat, now: TimeSpec)
    requires Normal(now) && forall i :: 0 <= i < |start| ==> Normal(start[i].nextFire)
  {
    exists i :: 0 <= i < |start| && start[i].id == id && Due(start[i], now)
  }

  /**
   * How the list relates to what has happened: what is due was due at the start, and so was what has
   * fired; a fired entry is not due any more, a cleared one is marked, and an entry that was due at the
   * start is still there unless it was fired or cleared. Timers numbered above limit came later.
   */
  ghost predicate Passing(start: seq<Timer>, limit: nat, timers: seq<Timer>, counter: nat, log: seq<Event>,
                          now: TimeSpec) {
    && Normal(now) && WellFormed(start, limit) && WellFormed(timers, counter) && Orderly(log) && limit <= counter
    && (forall i :: 0 <= i < |timers| && Due(timers[i], now) ==> timers[i] in start)
    && (forall i :: 0 <= i < |log| && log[i].Fired? ==> WasDue(start, log[i].id, now))
    && (forall i :: 0 <= i < |timers| ==> Fired(timers[i].id) in log ==> !Due(timers[i], now))
    && (forall i :: 0 <= i < |timers| && timers[i].id <= limit ==> Cleared(timers[i].id) in log ==> timers[i].canceled)
    && (forall i :: 0 <= i < |start| && Due(start[i], now) ==>
          start[i] in timers || Fired(start[i].id) in log || Cleared(start[i].id) in log)
  }

  /** A timer armed after the sampled time is not due in this pass. */
  lemma ArmKeeps(start: seq<Timer>, limit: nat, timers: seq<Timer>, counter: nat, log: seq<Event>, now: TimeSpec,
                 t: Timer)
    requires Passing(start, limit, timers, counter, log, now)
    requires t.id == counter + 1 && (t.isInterval ==> t.intervalMs > 0)
    requires Normal(t.nextFire) && Nanos(t.nextFire) > Nanos(now)
    ensures Passing(start, limit, [t] + timers, counter + 1, log, now)
    ensures DueCount([t] + timers, now) == DueCount(timers, now)
  {
    var more := [t] + timers;
    assert more[1..] == timers;
    assert forall i :: 0 < i < |more| ==> more[i] == timers[i - 1];
    forall i | 0 <= i < |start| && Due(start[i], now)
      ensures start[i] in more || Fired(start[i].id) in log || Cleared(start[i].id) in log
    {
    }
  }

  lemma MarkKeeps(start: seq<Timer>, limit: nat, timers: seq<Timer>, marked: seq<Timer>, counter: nat, log: seq<Event>,
                  now: TimeSpec, id: nat)
    requires Passing(start, limit, timers, counter, log, now) && |marked| == |timers|
    requires forall k :: 0 <= k < |timers| ==>
               marked[k] == if timers[k].id == id then timers[k].(canceled := true) else timers[k]
    ensures Passing(start, limit, marked, counter, log + [Cleared(id)], now)
  {
    var more := log + [Cleared(id)];
    assert more[|log|] == Cleared(id);
    assert forall e :: e in more <==> e in log || e == Cleared(id);
    forall i | 0 <= i < |start| && Due(start[i], now)
      ensures start[i] in marked || Fired(start[i].id) in more || Cleared(start[i].id) in more
    {
      if start[i] in timers && start[i].id != id {
        var k :| 0 <= k < |timers| && timers[k] == start[i];
        assert marked[k] == start[i];
      }
    }
  }

  lemma ClearKeeps(start: seq<Timer>, limit: nat, timers: seq<Timer>, counter: nat, log: seq<Event>, now: TimeSpec,
                   id: nat)
    requires Passing(start, limit, timers, counter, log, now)
    ensures Passing(start, limit, Cancel(timers, id), counter, log + [Cleared(id)], now)
    ensures DueCount(Cancel(timers, id), now) <= DueCount(timers, now)
  {
    CancelDue(timers, id, now);
    var marked := Cancel(timers, id);
    forall k | 0 <= k < |timers|
      ensures marked[k] == if timers[k].id == id then timers[k].(canceled := true) else timers[k]
    {
      CancelMarks(timers, id, k);
    }
    MarkKeeps(start, limit, timers, marked, counter, log, now, id);
  }

  function Removed(timers: seq<Timer>, pos: nat): (r: seq<Timer>)
    requires pos < |timers|
  {
    timers[..pos] + timers[pos + 1..]
  }

  lemma RemovedAt(timers: seq<Timer>, pos: nat, x: Timer)
    requires pos < |timers|
    ensures forall i :: 0 <= i < |timers| - 1 ==> Removed(timers, pos)[i] == timers[if i < pos then i else i + 1]
    ensures x in timers && x != timers[pos] ==> x in Removed(timers, pos)
  {
    if x in timers && x != timers[pos] {
      var k :| 0 <= k < |timers| && timers[k] == x;
      assert Removed(timers, pos)[if k < pos then k else k - 1] == x;
    }
  }

  lemma RemovedDue(timers: seq<Timer>, pos: nat, now: TimeSpec)
    requires pos < |timers| && Normal(now) && forall i :: 0 <= i < |timers| ==> Normal(timers[i].nextFire)
    ensures DueCount(timers, now) == DueCount(Removed(timers, pos), now) + if Due(timers[pos], now) then 1 else 0
  {
    var t := timers[pos];
    assert timers == timers[..pos] + ([t] + timers[pos + 1..]);
    DueConcat(timers[..pos], [t] + timers[pos + 1..], now);
    DueConcat(timers[..pos], timers[pos + 1..], now);
    assert ([t] + timers[pos + 1..])[1..] == timers[pos + 1..];
  }

  lemma DropKeeps(start: seq<Timer>, limit: nat, timers: seq<Timer>, counter: nat, log: seq<Event>, now: TimeSpec,
                  pos: nat)
    requires Passing(start, limit, timers, counter, log, now) && pos < |timers| && timers[pos].canceled
    ensures Passing(start, limit, Removed(timers, pos), counter, log, now)
    ensures DueCount(Removed(timers, pos), now) == DueCount(timers, now)
  {
    RemovedDue(timers, pos, now);
    RemovedAt(timers, pos, timers[pos]);
    forall i | 0 <= i < |start| && Due(start[i], now)
      ensures start[i] in Removed(timers, pos) || Fired(start[i].id) in log || Cleared(start[i].id) in log
    {
      RemovedAt(timers, pos, start[i]);
    }
  }

  lemma FireLog(start: seq<Timer>, limit: nat, timers: seq<Timer>, counter: nat, log: seq<Event>, now: TimeSpec,
                pos: nat)
    requires Passing(start, limit, timers, counter, log, now) && pos < |timers| && Due(timers[pos], now)
    ensures Orderly(log + [Fired(timers[pos].id)])
  {
  }

  lemma FiredMembers(log: seq<Event>, id: nat)
    ensures forall e :: e in log + [Fired(id)] <==> e in log || e == Fired(id)
  {
    assert (log + [Fired(id)])[|log|] == Fired(id);
  }

  /** A one-shot timer leaves the list when it fires. */
  lemma FireOnceKeeps(start: seq<Timer>, limit: nat, timers: seq<Timer>, counter: nat, log: seq<Event>, now: TimeSpec,
                      pos: nat)
    requires Passing(start, limit, timers, counter, log, now) && pos < |timers| && Due(timers[pos], now)
    ensures Passing(start, limit, Removed(timers, pos), counter, log + [Fired(timers[pos].id)], now)
    ensures DueCount(Removed(timers, pos), now) < DueCount(timers, now)
  {
    hide DueCount;
    var id := timers[pos].id;
    RemovedDue(timers, pos, now);
    RemovedAt(timers, pos, timers[pos]);
    FireLog(start, limit, timers, counter, log, now, pos);
    hide Orderly;
    var left, more := Removed(timers, pos), log + [Fired(id)];
    hide Removed;
    FiredMembers(log, id);
    forall i | 0 <= i < |start| && Due(start[i], now)
      ensures start[i] in left || Fired(start[i].id) in more || Cleared(start[i].id) in more
    {
      RemovedAt(timers, pos, start[i]);
    }
    assert forall i :: 0 <= i < |left| ==> left[i].id != id;
  }

  lemma UpdatedDue(timers: seq<Timer>, pos: nat, t: Timer, now: TimeSpec)
    requires pos < |timers| && Normal(now) && Normal(t.nextFire)
    requires forall i :: 0 <= i < |timers| ==> Normal(timers[i].nextFire)
    requires Due(timers[pos], now) && !Due(t, now)
    ensures DueCount(timers[pos := t], now) < DueCount(timers, now)
  {
    RemovedDue(timers, pos, now);
    RemovedDue(timers[pos := t], pos, now);
    assert Removed(timers[pos := t], pos) == Removed(timers, pos);
  }

  /** A repeating timer stays, rescheduled past the sampled time. */
  lemma FireAgainKeeps(start: seq<Timer>, limit: nat, timers: seq<Timer>, counter: nat, log: seq<Event>, now: TimeSpec,
                       pos: nat, at: TimeSpec)
    requires Passing(start, limit, timers, counter, log, now) && pos < |timers| && Due(timers[pos], now)
    requires Normal(at) && Nanos(at) >= Nanos(now) && timers[pos].isInterval
    ensures var t := timers[pos].(nextFire := AddMs(at, timers[pos].intervalMs));
            && Passing(start, limit, timers[pos := t], counter, log + [Fired(timers[pos].id)], now)
            && DueCount(timers[pos := t], now) < DueCount(timers, now)
  {
    var t := timers[pos].(nextFire := AddMs(at, timers[pos].intervalMs));
    var next, more := timers[pos := t], log + [Fired(timers[pos].id)];
    UpdatedDue(timers, pos, t, now);
    FireLog(start, limit, timers, counter, log, now, pos);
    forall i | 0 <= i < |start| && Due(start[i], now)
      ensures start[i] in next || Fired(start[i].id) in more || Cleared(start[i].id) in more
    {
      assert more[|log|] == Fired(t.id);
      if start[i] in timers {
        var k :| 0 <= k < |timers| && timers[k] == start[i];
        assert k != pos ==> next[k] == start[i];
      }
    }
  }

  // ---- The reference pass

  /** The live timers and the last number given. */
  type State = (seq<Timer>, nat)

  function Live(timers: seq<Timer>): (live: seq<Timer>) {
    if timers == [] then []
    else if timers[0].canceled then Live(timers[1..])
    else [timers[0]] + Live(timers[1..])
  }

  /** Here a cleared timer is gone at once. */
  function Without(live: seq<Timer>, id: nat): (rest: seq<Timer>) {
    if live == [] then []
    else if live[0].id == id then live[1..]
    else [live[0]] + Without(live[1..], id)
  }

  /** The clock has not gone back, and has gone on if a timeout without delay is set. */
  ghost predicate After(action: Action, now: TimeSpec) {
    match action
    case SetTimeout(delay, at) => Normal(at) && Nanos(at) >= Nanos(now) && (delay <= 0 ==> Nanos(at) > Nanos(now))
    case SetInterval(_, at) => Normal(at) && Nanos(at) >= Nanos(now)
    case Clear(_) => true
  }

  ghost predicate AllAfter(actions: seq<Action>, now: TimeSpec) {
    forall i :: 0 <= i < |actions| ==> After(actions[i], now)
  }

  function Do(state: State, action: Action): (next: State) {
    var (live, counter) := state;
    match action
    case SetTimeout(delay, at) =>
      var t := Timer(counter + 1, Later(at, if delay < 0 then 0 else delay), 0, false, false);
      ([t] + live, counter + 1)
    case SetInterval(period, at) =>
      var ms := if period <= 0 then 1 else period;
      ([Timer(counter + 1, Later(at, ms), ms, true, false)] + live, counter + 1)
    case Clear(id) => (Without(live, id), counter)
  }

  /** A reading that is out of range does not occur. */
  function Later(at: TimeSpec, ms: nat): (t: TimeSpec) {
    if Normal(at) then AddMs(at, ms) else at
  }

  function Perform(state: State, actions: seq<Action>): (next: State) {
    if actions == [] then state else Do(Perform(state, actions[..|actions| - 1]), actions[|actions| - 1])
  }

  function Clears(actions: seq<Action>): (log: seq<Event>) {
    if actions == [] then []
    else
      var last := actions[|actions| - 1];
      Clears(actions[..|actions| - 1]) + (if last.Clear? then [Cleared(last.id)] else [])
  }

  /** What happens when these timers fire one after the other. */
  function Transcript(fired: seq<nat>, script: (nat, nat) -> seq<Action>): (log: seq<Event>) {
    if fired == [] then []
    else
      var k := |fired| - 1;
      Transcript(fired[..k], script) + [Fired(fired[k])] + Clears(script(k, fired[k]))
  }

  /** A one-shot timer goes, a repeating one is put off. */
  function Fire(live: seq<Timer>, i: nat, at: TimeSpec): (next: seq<Timer>)
    requires i < |live|
  {
    if live[i].isInterval then live[i := live[i].(nextFire := Later(at, live[i].intervalMs))]
    else Removed(live, i)
  }

  /** Timer id is the first due one, and fires. */
  ghost predicate FirstDue(live: seq<Timer>, i: nat, id: nat, now: TimeSpec) {
    && i < |live| && live[i].id == id && DueAt(live, i, now) && forall j :: 0 <= j < i ==> !DueAt(live, j, now)
  }

  ghost predicate DueAt(live: seq<Timer>, i: nat, now: TimeSpec)
    requires i < |live|
  {
    Nanos(live[i].nextFire) <= Nanos(now)
  }

  /** From one state to the next the first due timer fires and its callback does what it does. */
  ghost predicate Fires(state: State, next: State, id: nat, now: TimeSpec, actions: seq<Action>, at: TimeSpec) {
    exists i: nat :: FirstDue(state.0, i, id, now) && next == Perform((Fire(state.0, i, at), state.1), actions)
  }

  ghost predicate IsPass(states: seq<State>, fired: seq<nat>, now: TimeSpec,
                         script: (nat, nat) -> seq<Action>, tick: nat -> TimeSpec) {
    && |states| == |fired| + 1
    && forall k :: 0 <= k < |fired| ==> Fires(states[k], states[k + 1], fired[k], now, script(k, fired[k]), tick(k))
  }

  lemma PassOn(states: seq<State>, fired: seq<nat>, now: TimeSpec, script: (nat, nat) -> seq<Action>,
               tick: nat -> TimeSpec, id: nat, next: State)
    requires IsPass(states, fired, now, script, tick)
    requires Fires(states[|fired|], next, id, now, script(|fired|, id), tick(|fired|))
    ensures IsPass(states + [next], fired + [id], now, script, tick)
    ensures Transcript(fired + [id], script) == Transcript(fired, script) + [Fired(id)] + Clears(script(|fired|, id))
  {
    assert (fired + [id])[..|fired|] == fired;
  }

  /** Nothing is left to choose: the first state, the script and the clock decide the whole pass. */
  lemma {:induction false} PassIsDetermined(states: seq<State>, fired: seq<nat>, states2: seq<State>, fired2: seq<nat>,
                                            now: TimeSpec,
                                            script: (nat, nat) -> seq<Action>, tick: nat -> TimeSpec, k: nat)
    requires IsPass(states, fired, now, script, tick) && IsPass(states2, fired2, now, script, tick)
    requires states[0] == states2[0] && k <= |fired| && k <= |fired2|
    ensures states[..k + 1] == states2[..k + 1] && fired[..k] == fired2[..k]
    ensures k == |fired| && NoneDue(states[k], now) ==> |fired2| == k
  {
    if k > 0 {
      PassIsDetermined(states, fired, states2, fired2, now, script, tick, k - 1);
      assert states[k - 1] == states[..k][k - 1] == states2[k - 1];
      var i: nat :| FirstDue(states[k - 1].0, i, fired[k - 1], now)
        && states[k] == Perform((Fire(states[k - 1].0, i, tick(k - 1)), states[k - 1].1), script(k - 1, fired[k - 1]));
      var j: nat :| FirstDue(states2[k - 1].0, j, fired2[k - 1], now)
        && states2[k] == Perform((Fire(states2[k - 1].0, j, tick(k - 1)), states2[k - 1].1),
                                 script(k - 1, fired2[k - 1]));
      SameFirst(states[k - 1].0, i, fired[k - 1], j, fired2[k - 1], now);
      assert states[..k + 1] == states[..k] + [states[k]] && states2[..k + 1] == states2[..k] + [states2[k]];
      assert fired[..k] == fired[..k - 1] + [fired[k - 1]] && fired2[..k] == fired2[..k - 1] + [fired2[k - 1]];
    }
    assert states[k] == states[..k + 1][k] == states2[k];
    if k < |fired2| {
      SomethingWasDue(states2[k], states2[k + 1], fired2[k], now, script(k, fired2[k]), tick(k));
    }
  }

  ghost predicate NoneDue(state: State, now: TimeSpec) {
    forall i: nat :: i < |state.0| ==> !DueAt(state.0, i, now)
  }

  lemma SomethingWasDue(state: State, next: State, id: nat, now: TimeSpec, actions: seq<Action>, at: TimeSpec)
    requires Fires(state, next, id, now, actions, at)
    ensures !NoneDue(state, now)
  {
    var i: nat :| FirstDue(state.0, i, id, now) && next == Perform((Fire(state.0, i, at), state.1), actions);
    assert DueAt(state.0, i, now);
  }

  lemma SameFirst(live: seq<Timer>, i: nat, a: nat, j: nat, b: nat, now: TimeSpec)
    requires FirstDue(live, i, a, now) && FirstDue(live, j, b, now)
    ensures i == j && a == b
  {
  }

  lemma {:induction false} FiredInTranscript(fired: seq<nat>, script: (nat, nat) -> seq<Action>)
    ensures forall k :: 0 <= k < |fired| ==> Fired(fired[k]) in Transcript(fired, script)
  {
    if fired != [] {
      FiredInTranscript(fired[..|fired| - 1], script);
    }
  }

  // ---- The list with marks against the list without

  lemma LiveCons(t: Timer, timers: seq<Timer>)
    requires !t.canceled
    ensures Live([t] + timers) == [t] + Live(timers)
  {
    assert ([t] + timers)[1..] == timers;
  }

  lemma Associate(a: seq<Timer>, b: seq<Timer>, c: seq<Timer>)
    ensures a + b + c == a + (b + c)
  {
  }

  lemma {:induction false} LiveConcat(s: seq<Timer>, t: seq<Timer>)
    ensures Live(s + t) == Live(s) + Live(t)
  {
    if s == [] {
      assert s + t == t;
    } else {
      var rest := s[1..];
      LiveConcat(rest, t);
      assert (s + t)[1..] == rest + t && (s + t)[0] == s[0];
      Associate([s[0]], Live(rest), Live(t));
    }
  }

  lemma {:induction false} LiveFrom(timers: seq<Timer>)
    ensures forall i :: 0 <= i < |Live(timers)| ==> Live(timers)[i] in timers && !Live(timers)[i].canceled
  {
    if timers != [] { LiveFrom(timers[1..]); }
  }

  lemma {:induction false} WithoutAbsent(live: seq<Timer>, id: nat)
    requires forall i :: 0 <= i < |live| ==> live[i].id != id
    ensures Without(live, id) == live
  {
    if live != [] { WithoutAbsent(live[1..], id); }
  }

  lemma {:induction false} LiveCancel(timers: seq<Timer>, id: nat)
    requires forall i, j :: 0 <= i < j < |timers| ==> timers[i].id != timers[j].id
    ensures Live(Cancel(timers, id)) == Without(Live(timers), id)
  {
    if timers != [] {
      var rest, t := timers[1..], timers[0];
      LiveCancel(rest, id);
      LiveFrom(rest);
      if t.id == id {
        WithoutAbsent(Live(rest), id);
        assert Cancel(timers, id)[1..] == rest;
      } else {
        assert Cancel(timers, id)[1..] == Cancel(rest, id);
      }
    }
  }

  lemma LiveThree(front: seq<Timer>, t: seq<Timer>, back: seq<Timer>)
    ensures Live(front + (t + back)) == Live(front) + (Live(t) + Live(back))
  {
    LiveConcat(front, t + back);
    LiveConcat(t, back);
  }

  lemma ThreeParts(timers: seq<Timer>, pos: nat)
    requires pos < |timers|
    ensures timers == timers[..pos] + ([timers[pos]] + timers[pos + 1..])
  {
  }

  lemma LiveSplit(timers: seq<Timer>, pos: nat)
    requires pos < |timers|
    ensures Live(timers) == Live(timers[..pos]) + (Live([timers[pos]]) + Live(timers[pos + 1..]))
    ensures Live(Removed(timers, pos)) == Live(timers[..pos]) + Live(timers[pos + 1..])
  {
    hide Live;
    var front, t, back := timers[..pos], [timers[pos]], timers[pos + 1..];
    ThreeParts(timers, pos);
    LiveThree(front, t, back);
    LiveConcat(front, back);
  }

  lemma LiveDrop(timers: seq<Timer>, pos: nat)
    requires pos < |timers| && timers[pos].canceled
    ensures Live(Removed(timers, pos)) == Live(timers)
  {
    LiveSplit(timers, pos);
  }

  lemma {:induction false} AllLive(timers: seq<Timer>)
    requires forall i :: 0 <= i < |timers| ==> !timers[i].canceled
    ensures Live(timers) == timers
  {
    if timers != [] { AllLive(timers[1..]); }
  }

  lemma LiveAround(timers: seq<Timer>, pos: nat)
    requires pos < |timers| && !timers[pos].canceled && forall i :: 0 <= i < pos ==> !timers[i].canceled
    ensures Live(timers) == timers[..pos] + ([timers[pos]] + Live(timers[pos + 1..]))
    ensures Live(Removed(timers, pos)) == timers[..pos] + Live(timers[pos + 1..])
  {
    hide Live;
    LiveSplit(timers, pos);
    AllLive(timers[..pos]);
    AllLive([timers[pos]]);
  }

  lemma FireBetween(live: seq<Timer>, front: seq<Timer>, t: Timer, back: seq<Timer>, at: TimeSpec)
    requires live == front + ([t] + back)
    ensures |front| < |live| && live[|front|] == t && live[..|front|] == front
    ensures Fire(live, |front|, at) ==
            if t.isInterval then front + ([t.(nextFire := Later(at, t.intervalMs))] + back) else front + back
  {
    assert live[|front| + 1..] == back;
  }

  /** Firing in the marked list is firing the first due timer of the live one. */
  lemma LiveFire(timers: seq<Timer>, pos: nat, at: TimeSpec, now: TimeSpec)
    requires pos < |timers| && Normal(at) && Normal(now) && forall i :: 0 <= i < |timers| ==> Normal(timers[i].nextFire)
    requires forall i :: 0 <= i < pos ==> !timers[i].canceled && !Due(timers[i], now)
    requires Due(timers[pos], now)
    ensures FirstDue(Live(timers), pos, timers[pos].id, now)
    ensures Fire(Live(timers), pos, at) ==
            Live(if timers[pos].isInterval
                 then timers[pos := timers[pos].(nextFire := AddMs(at, timers[pos].intervalMs))]
                 else Removed(timers, pos))
  {
    hide Live, Fire, Removed;
    var t, front, back := timers[pos], timers[..pos], timers[pos + 1..];
    var next := timers[pos := t.(nextFire := AddMs(at, t.intervalMs))];
    assert next[..pos] == front && next[pos + 1..] == back;
    LiveAround(timers, pos);
    LiveAround(next, pos);
    FireBetween(Live(timers), front, t, Live(back), at);
    assert forall j :: 0 <= j < pos ==> Live(timers)[j] == front[j];
  }

  class TimerManager {
    var timers: seq<Timer>
    var counter: nat

    ghost predicate Valid()
      reads this
    {
      WellFormed(timers, counter)
    }

    constructor ()
      ensures Valid() && timers == [] && counter == 0
    {
      timers, counter := [], 0;
    }

    /** tm_set_timeout: a new entry at the head, due after the delay. */
    method Arm(delayMs: int, at: TimeSpec) returns (id: nat)
      requires Valid() && Normal(at)
      modifies this
      ensures Valid() && id == counter == old(counter) + 1
      ensures timers == [Timer(id, AddMs(at, if delayMs < 0 then 0 else delayMs), 0, false, false)] + old(timers)
    {
      counter := counter + 1;
      id := counter;
      timers := [Timer(id, AddMs(at, if delayMs < 0 then 0 else delayMs), 0, false, false)] + timers;
    }

    /** tm_set_interval: the period is at least one millisecond. */
    method ArmInterval(periodMs: int, at: TimeSpec) returns (id: nat)
      requires Valid() && Normal(at)
      modifies this
      ensures Valid() && id == counter == old(counter) + 1
      ensures var period := if periodMs <= 0 then 1 else periodMs;
              timers == [Timer(id, AddMs(at, period), period, true, false)] + old(timers)
    {
      var period: nat := if periodMs <= 0 then 1 else periodMs;
      counter := counter + 1;
      id := counter;
      timers := [Timer(id, AddMs(at, period), period, true, false)] + timers;
    }

    /** tm_clear: the entry of that number, if there is one, is marked. */
    method Disarm(id: nat)
      requires Valid()
      modifies this`timers
      ensures Valid() && timers == Cancel(old(timers), id)
    {
      ghost var was := timers;
      forall k | 0 <= k < |timers|
        ensures Cancel(timers, id)[k] == if timers[k].id == id then timers[k].(canceled := true) else timers[k]
      {
        CancelMarks(timers, id, k);
      }
      for i := 0 to |timers|
        invariant timers == was && forall j :: 0 <= j < i ==> timers[j].id != id
      {
        if timers[i].id == id {
          timers := timers[i := timers[i].(canceled := true)];
          assert timers == Cancel(was, id);
          return;
        }
      }
      assert timers == Cancel(was, id);
    }

    /** What a callback does to the timers, with a clock that has moved on. */
    method RunCallback(actions: seq<Action>, now: TimeSpec, ghost start: seq<Timer>, ghost limit: nat,
                       ghost log0: seq<Event>)
      returns (ghost log: seq<Event>)
      requires Passing(start, limit, timers, counter, log0, now) && AllAfter(actions, now)
      modifies this
      ensures Passing(start, limit, timers, counter, log, now) && log == log0 + Clears(actions)
      ensures DueCount(timers, now) <= old(DueCount(timers, now))
      ensures (Live(timers), counter) == Perform(old((Live(timers), counter)), actions)
    {
      log := log0;
      ghost var begun := (Live(timers), counter);
      assert actions[..0] == [];
      for i := 0 to |actions|
        invariant Passing(start, limit, timers, counter, log, now) && log == log0 + Clears(actions[..i])
        invariant DueCount(timers, now) <= old(DueCount(timers, now))
        invariant (Live(timers), counter) == Perform(begun, actions[..i])
      {
        assert actions[..i + 1][..i] == actions[..i];
        log := RunAction(actions[i], now, start, limit, log);
      }
      assert actions[..|actions|] == actions;
    }

    method RunAction(action: Action, now: TimeSpec, ghost start: seq<Timer>, ghost limit: nat, ghost log0: seq<Event>)
      returns (ghost log: seq<Event>)
      requires Passing(start, limit, timers, counter, log0, now) && After(action, now)
      modifies this
      ensures Passing(start, limit, timers, counter, log, now)
      ensures log == log0 + (if action.Clear? then [Cleared(action.id)] else [])
      ensures DueCount(timers, now) <= old(DueCount(timers, now))
      ensures (Live(timers), counter) == Do(old((Live(timers), counter)), action)
    {
      hide Live, DueCount, Passing;
      log := log0;
      ghost var was, count := timers, counter;
      PassValid(start, limit, timers, counter, log, now);
      match action {
        case SetTimeout(delay, at) =>
          var id := Arm(delay, at);
          ArmKeeps(start, limit, was, count, log, now, timers[0]);
          LiveCons(timers[0], was);
        case SetInterval(period, at) =>
          var id := ArmInterval(period, at);
          ArmKeeps(start, limit, was, count, log, now, timers[0]);
          LiveCons(timers[0], was);
        case Clear(id) =>
          Disarm(id);
          ClearKeeps(start, limit, was, count, log, now, id);
          LiveCancel(was, id);
          log := log + [Cleared(id)];
      }
    }

    /** The entry at pos is due: a repeating one is put off, a one-shot one is unlinked. */
    method TakeDue(pos: nat, now: TimeSpec, at: TimeSpec, ghost start: seq<Timer>, ghost limit: nat,
                   ghost log: seq<Event>)
      requires Passing(start, limit, timers, counter, log, now) && pos < |timers| && Normal(at)
        && Nanos(at) >= Nanos(now)
      requires forall i :: 0 <= i < pos ==> !timers[i].canceled && !Due(timers[i], now)
      requires Due(timers[pos], now)
      modifies this`timers
      ensures Passing(start, limit, timers, counter, log + [Fired(old(timers[pos].id))], now)
      ensures DueCount(timers, now) < old(DueCount(timers, now))
      ensures FirstDue(old(Live(timers)), pos, old(timers[pos].id), now)
      ensures Live(timers) == Fire(old(Live(timers)), pos, at)
    {
      hide DueCount, Live, FirstDue, Fire;
      var e := timers[pos];
      LiveFire(timers, pos, at, now);
      if e.isInterval {
        FireAgainKeeps(start, limit, timers, counter, log, now, pos, at);
        timers := timers[pos := e.(nextFire := AddMs(at, e.intervalMs))];
      } else {
        FireOnceKeeps(start, limit, timers, counter, log, now, pos);
        timers := Removed(timers, pos);
      }
    }

    /**
     * tm_process_pending. Callback number k, of timer id, does script(k, id); an interval is rescheduled
     * from the reading tick(k). The pass ends and does what the reference pass does: again and again the
     * first due timer of the list fires, until none is due. Only timers that were live and due at the
     * start fire, none twice and none after it was cleared; each of them fires or is cleared first.
     */
    method ProcessPending(now: TimeSpec, script: (nat, nat) -> seq<Action>, tick: nat -> TimeSpec)
      returns (processed: nat, ghost fired: seq<nat>, ghost states: seq<State>)
      requires Valid() && Normal(now)
      requires forall k: nat :: Normal(tick(k)) && Nanos(tick(k)) >= Nanos(now)
      requires forall k: nat, id: nat :: AllAfter(script(k, id), now)
      modifies this
      ensures Valid() && processed == |fired| && IsPass(states, fired, now, script, tick)
      ensures states[0] == (Live(old(timers)), old(counter)) && states[processed] == (timers, counter)
      ensures (forall i :: 0 <= i < |timers| ==> !timers[i].canceled && !Due(timers[i], now))
        && NoneDue(states[processed], now)
      ensures Orderly(Transcript(fired, script))
      ensures forall k :: 0 <= k < |fired| ==> WasDue(old(timers), fired[k], now)
      ensures forall i :: 0 <= i < |old(timers)| && Due(old(timers)[i], now) ==>
                Fired(old(timers)[i].id) in Transcript(fired, script)
                  || Cleared(old(timers)[i].id) in Transcript(fired, script)
    {
      hide Passing, DueCount, Live, Perform, IsPass, Transcript, Orderly, WasDue, Clears, NoneDue, Fires, FirstDue,
          Fire;
      ghost var start, limit := timers, counter;
      processed, fired, states := 0, [], [(Live(timers), counter)];
      ghost var log: seq<Event> := [];
      PassStart(timers, counter, now, script, tick);
      var pos := 0;
      while pos < |timers|
        invariant pos <= |timers| && Passing(start, limit, timers, counter, log, now) && Valid()
        invariant processed == |fired| && log == Transcript(fired, script) && IsPass(states, fired, now, script, tick)
        invariant |states| == processed + 1 && states[0] == (Live(start), limit)
          && states[processed] == (Live(timers), counter)
        invariant forall i :: 0 <= i < pos ==> !timers[i].canceled && !Due(timers[i], now)
        decreases DueCount(timers, now), |timers|, |timers| - pos
      {
        var e := timers[pos];
        if e.canceled {
          DropKeeps(start, limit, timers, counter, log, now, pos);
          LiveDrop(timers, pos);
          timers := Removed(timers, pos);
        } else if Cmp(now, e.nextFire) >= 0 {
          var at := tick(processed);
          TakeDue(pos, now, at, start, limit, log);
          log := RunCallback(script(processed, e.id), now, start, limit, log + [Fired(e.id)]);
          FiresAt(states[processed], pos, (Live(timers), counter), e.id, now, script(processed, e.id), at);
          PassOn(states, fired, now, script, tick, e.id, (Live(timers), counter));
          states, fired := states + [(Live(timers), counter)], fired + [e.id];
          processed := processed + 1;
          pos := 0;
        } else {
          pos := pos + 1;
        }
        PassValid(start, limit, timers, counter, log, now);
      }
      PassEnd(start, limit, timers, counter, log, now);
      AllLive(timers);
      NoneLeft(timers, counter, now);
      FiredInTranscript(fired, script);
    }
  }

  lemma FiresAt(state: State, i: nat, next: State, id: nat, now: TimeSpec, actions: seq<Action>, at: TimeSpec)
    requires FirstDue(state.0, i, id, now) && next == Perform((Fire(state.0, i, at), state.1), actions)
    ensures Fires(state, next, id, now, actions, at)
  {
  }

  lemma NoneLeft(timers: seq<Timer>, counter: nat, now: TimeSpec)
    requires WellFormed(timers, counter) && Normal(now)
    requires forall i :: 0 <= i < |timers| ==> !timers[i].canceled && !Due(timers[i], now)
    ensures NoneDue((timers, counter), now)
  {
  }

  lemma PassStart(timers: seq<Timer>, counter: nat, now: TimeSpec, script: (nat, nat) -> seq<Action>,
                  tick: nat -> TimeSpec)
    requires WellFormed(timers, counter) && Normal(now)
    requires forall k: nat :: Normal(tick(k))
    ensures Passing(timers, counter, timers, counter, [], now)
    ensures Transcript([], script) == [] && IsPass([(Live(timers), counter)], [], now, script, tick)
  {
  }

  lemma PassValid(start: seq<Timer>, limit: nat, timers: seq<Timer>, counter: nat, log: seq<Event>, now: TimeSpec)
    requires Passing(start, limit, timers, counter, log, now)
    ensures WellFormed(timers, counter)
  {
  }

  lemma PassEnd(start: seq<Timer>, limit: nat, timers: seq<Timer>, counter: nat, log: seq<Event>, now: TimeSpec)
    requires Passing(start, limit, timers, counter, log, now)
    requires forall i :: 0 <= i < |timers| ==> !Due(timers[i], now)
    ensures Orderly(log) && WellFormed(start, limit)
    ensures forall i :: 0 <= i < |log| && log[i].Fired? ==> WasDue(start, log[i].id, now)
    ensures forall i :: 0 <= i < |start| && Due(start[i], now) ==>
              Fired(start[i].id) in log || Cleared(start[i].id) in log
  {
  }
}
