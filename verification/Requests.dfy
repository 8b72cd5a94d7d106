/** The device request engine as a state machine over its steps: one outstanding
    request, a backlog in order, a fresh id for every attempt, retries on timeout. */
module Requests {
  import opened Wrappers

  /** `max_retry` and `retry_timeout` are fixed for the life of a device, and so is
      whether it speaks the legacy protocol, which carries no request ids. */
  datatype Config = Config(legacy: bool, maxRetry: nat, timeout: nat)

  const LINQ_NETW_MAX_RETRY := 5
  const LINQ_ERROR_504 := 504
  const LINQ_ERROR_IO := -4
  const LINQ_ERROR_TIMEOUT := -6
  const LINQ_ERROR_SHUTTING_DOWN := -7

  /** `tag` numbers the requests in the order in which they were accepted. `id` is
      -1 before the first attempt. `expired` counts the polls that found the request
      timed out, `sends` its attempts. */
  datatype Request = Request(tag: nat, id: int, retryAt: nat, retryCount: nat, sends: nat, expired: nat)

  datatype Done = Done(req: Request, err: int)

  datatype Attempt = Attempt(id: int, tag: nat)

  datatype Engine = Engine(pending: Option<Request>, queue: seq<Request>, reqid: nat, accepted: nat,
                           done: seq<Done>, attempts: seq<Attempt>, ioFailed: bool)

  const INIT: Engine := Engine(None, [], 0, 0, [], [], false)

  /** What the outside contributes to a step: the clock, whether a transmission
      succeeds, and how many requests the completion callbacks of the step submit
      (those of a resolved request, and those of a failed transmission). */
  datatype Env = Env(tick: nat, sent: bool, onDone: nat, onFail: nat)

  datatype Step = Send(env: Env) | Poll(env: Env) | Reply(env: Env, id: int, err: int)

  // ---------------------------------------------------------------- steps

  function Fresh(c: Config, from: nat, tick: nat, k: nat): (r: seq<Request>)
    ensures |r| == k
  {
    if k == 0 then [] else Fresh(c, from, tick, k - 1) + [Request(from + k - 1, -1, tick + c.timeout, 0, 0, 0)]
  }

  /** New requests join the backlog. */
  function Submit(c: Config, e: Engine, tick: nat, k: nat): Engine {
    e.(queue := e.queue + Fresh(c, e.accepted, tick, k), accepted := e.accepted + k)
  }

  /** The callback of the pending request fires, possibly submitting more, and then it is gone. */
  function Resolve(c: Config, e: Engine, err: int, tick: nat, again: nat): Engine
    requires e.pending.Some?
  {
    Submit(c, e, tick, again).(pending := None, done := e.done + [Done(e.pending.value, err)])
  }

  /** An attempt: a fresh id, and the request is pending, or failed. */
  function Transmit(c: Config, e: Engine, r: Request, env: Env): Engine {
    var id := if c.legacy then -1 else e.reqid;
    var e' := e.(pending := Some(r.(id := id, sends := r.sends + 1)),
                 reqid := if c.legacy then e.reqid else e.reqid + 1,
                 attempts := e.attempts + [Attempt(id, r.tag)]);
    if env.sent then e' else Resolve(c, e', LINQ_ERROR_IO, env.tick, env.onFail).(ioFailed := true)
  }

  function Flush(c: Config, e: Engine, env: Env): Engine {
    if e.queue != [] && e.pending.None? then Transmit(c, e.(queue := e.queue[1..]), e.queue[0], env) else e
  }

  function Retry(c: Config, e: Engine, env: Env): Engine
    requires e.pending.Some?
  {
    var r := e.pending.value;
    Transmit(c, e, r.(retryAt := env.tick + c.timeout, retryCount := r.retryCount + 1, expired := r.expired + 1), env)
  }

  predicate Expired(e: Engine, tick: nat) {
    e.pending.Some? && tick >= e.pending.value.retryAt
  }

  function TimeOut(c: Config, e: Engine, env: Env): Engine
    requires e.pending.Some?
  {
    var r := e.pending.value;
    var e' := e.(pending := Some(r.(expired := r.expired + 1)));
    Flush(c, Resolve(c, e', LINQ_ERROR_TIMEOUT, env.tick, env.onDone), env)
  }

  /** A reply is for the pending request: its id is that of the last attempt, or it has none. */
  predicate Matches(e: Engine, id: int) {
    e.pending.Some? && (id >= 0 ==> id == e.reqid - 1)
  }

  function Answer(c: Config, e: Engine, env: Env, err: int): Engine
    requires e.pending.Some?
  {
    var r := e.pending.value;
    if err == LINQ_ERROR_504 && r.retryCount < LINQ_NETW_MAX_RETRY then
      e.(pending := Some(r.(retryAt := env.tick + c.timeout)))
    else
      Flush(c, Resolve(c, e, err, env.tick, env.onDone), env)
  }

  function Next(c: Config, e: Engine, step: Step): Engine {
    match step
    case Send(env) => Flush(c, Submit(c, e, env.tick, 1), env)
    case Poll(env) =>
      if !Expired(e, env.tick) then e
      else if e.pending.value.retryCount < c.maxRetry then Retry(c, e, env)
      else TimeOut(c, e, env)
    case Reply(env, id, err) => if Matches(e, id) then Answer(c, e, env, err) else e
  }

  function Run(c: Config, e: Engine, steps: seq<Step>): Engine {
    if steps == [] then e else Next(c, Run(c, e, steps[..|steps| - 1]), steps[|steps| - 1])
  }

  /** The next waiting request, if any, becomes the pending one. */
  function Pop(e: Engine): Engine
    requires e.pending.None?
  {
    if e.queue == [] then e else e.(pending := Some(e.queue[0]), queue := e.queue[1..])
  }

  /** What the callbacks submit while the device shuts down: `calls[k]` is the clock and
      the number of requests of call number `k`; later calls submit none. */
  function Submitted(calls: seq<Env>): nat {
    if calls == [] then 0 else calls[0].onDone + Submitted(calls[1..])
  }

  function FirstCall(calls: seq<Env>): Env {
    if calls == [] then Env(0, true, 0, 0) else calls[0]
  }

  function LaterCalls(calls: seq<Env>): (r: seq<Env>)
    ensures Submitted(calls) == FirstCall(calls).onDone + Submitted(r)
  {
    if calls == [] then [] else calls[1..]
  }

  function Left(e: Engine, calls: seq<Env>): nat {
    |e.queue| + Submitted(calls) + if e.pending.Some? then 1 else 0
  }

  /** Shutting down: one request after the other is completed as long as one is pending;
      a backlog without a pending request is dropped. */
  function Destroy(c: Config, e: Engine, calls: seq<Env>): Engine
    decreases Left(e, calls)
  {
    if e.pending.None? then e.(queue := [])
    else Destroy(c, ShutOne(c, e, FirstCall(calls)), LaterCalls(calls))
  }

  function ShutOne(c: Config, e: Engine, env: Env): (e': Engine)
    requires e.pending.Some?
    ensures |e'.queue| + (if e'.pending.Some? then 1 else 0) == |e.queue| + env.onDone
  {
    Pop(Resolve(c, e, LINQ_ERROR_SHUTTING_DOWN, env.tick, env.onDone))
  }

  // ---------------------------------------------------------------- invariant

  function DoneReqs(done: seq<Done>): seq<Request> {
    seq(|done|, i requires 0 <= i < |done| => done[i].req)
  }

  /** The completed requests in the order of their callbacks, the pending one, the backlog. */
  function All(e: Engine): seq<Request> {
    DoneReqs(e.done) + (if e.pending.Some? then [e.pending.value] else []) + e.queue
  }

  /** These are exactly the accepted requests, each once, in order. */
  predicate Fifo(e: Engine) {
    |All(e)| == e.accepted && forall i | 0 <= i < e.accepted :: All(e)[i].tag == i
  }

  predicate Idle(r: Request) {
    r.sends == 0 && r.retryCount == 0 && r.expired == 0
  }

  predicate Active(c: Config, r: Request) {
    r.sends == r.retryCount + 1 && r.expired == r.retryCount <= c.maxRetry
  }

  predicate Ended(c: Config, r: Request) {
    r.sends <= c.maxRetry + 1 && r.expired <= c.maxRetry + 1
  }

  /** Every attempt of a device with ids takes the next number. */
  predicate Numbered(c: Config, e: Engine) {
    && (if c.legacy then e.reqid == 0 else e.reqid == |e.attempts|)
    && (forall i | 0 <= i < |e.attempts| :: e.attempts[i].id == (if c.legacy then -1 else i))
  }

  function Sends(attempts: seq<Attempt>, tag: nat): nat {
    if attempts == [] then 0
    else Sends(attempts[..|attempts| - 1], tag) + if attempts[|attempts| - 1].tag == tag then 1 else 0
  }

  /** Each request's own count is the number of attempts that carried it. */
  predicate Counted(e: Engine) {
    && |All(e)| == e.accepted
    && (forall i | 0 <= i < |e.attempts| :: e.attempts[i].tag < e.accepted)
    && forall t: nat | t < e.accepted :: All(e)[t].sends == Sends(e.attempts, t)
  }

  lemma {:induction false} NoSends(attempts: seq<Attempt>, tag: nat)
    requires forall i | 0 <= i < |attempts| :: attempts[i].tag != tag
    ensures Sends(attempts, tag) == 0
  {
    if attempts != [] {
      NoSends(attempts[..|attempts| - 1], tag);
    }
  }

  lemma SendsNext(attempts: seq<Attempt>, a: Attempt, tag: nat)
    ensures Sends(attempts + [a], tag) == Sends(attempts, tag) + if a.tag == tag then 1 else 0
  {
    assert (attempts + [a])[..|attempts|] == attempts;
  }

  /** The last attempt is one of the pending request, under the id it carries. */
  predicate LastIsPending(e: Engine) {
    e.pending.Some? ==>
      e.attempts != [] && e.attempts[|e.attempts| - 1] == Attempt(e.pending.value.id, e.pending.value.tag)
  }

  /** What holds even in the middle of a step. */
  predicate Loose(c: Config, e: Engine) {
    && Fifo(e) && Numbered(c, e) && Counted(e)
    && (forall d | d in e.done :: Ended(c, d.req))
    && (forall r | r in e.queue :: Idle(r))
  }

  predicate Inv(c: Config, e: Engine) {
    && Loose(c, e) && LastIsPending(e)
    && (e.pending.Some? ==> Active(c, e.pending.value))
    && (!e.ioFailed && e.pending.None? ==> e.queue == [])
  }

  lemma {:induction false} FreshIdle(c: Config, from: nat, tick: nat, k: nat)
    ensures |Fresh(c, from, tick, k)| == k
    ensures forall i | 0 <= i < k :: Idle(Fresh(c, from, tick, k)[i]) && Fresh(c, from, tick, k)[i].tag == from + i
  {
    if k > 0 {
      FreshIdle(c, from, tick, k - 1);
    }
  }

  lemma SubmitLoose(c: Config, e: Engine, tick: nat, k: nat)
    requires Loose(c, e)
    ensures Loose(c, Submit(c, e, tick, k))
  {
    FreshIdle(c, e.accepted, tick, k);
    var f, a, e' := Fresh(c, e.accepted, tick, k), All(e), Submit(c, e, tick, k);
    assert All(e') == a + f;
    forall t: nat | t < e'.accepted
      ensures All(e')[t].tag == t && All(e')[t].sends == Sends(e.attempts, t)
    {
      if t < e.accepted {
        assert All(e')[t] == a[t];
      } else {
        assert All(e')[t] == f[t - e.accepted];
        NoSends(e.attempts, t);
      }
    }
  }

  lemma ResolveLoose(c: Config, e: Engine, err: int, tick: nat, again: nat)
    requires e.pending.Some? && Ended(c, e.pending.value) && Loose(c, e)
    ensures Loose(c, Resolve(c, e, err, tick, again))
  {
    SubmitLoose(c, e, tick, again);
    var e1 := Submit(c, e, tick, again);
    assert All(Resolve(c, e, err, tick, again)) == All(e1);
  }

  /** Changing the pending request, but not which one it is, nor its attempts. */
  lemma TouchLoose(c: Config, e: Engine, r: Request)
    requires e.pending.Some? && r.tag == e.pending.value.tag && r.sends == e.pending.value.sends && Loose(c, e)
    ensures Loose(c, e.(pending := Some(r)))
  {
    var e' := e.(pending := Some(r));
    forall t: nat | t < e.accepted
      ensures All(e')[t].tag == t && All(e')[t].sends == Sends(e.attempts, t)
    {
      assert All(e)[t].tag == t;
    }
  }

  /** The pending request stands behind the completed ones, so they number it. */
  lemma PendingTag(c: Config, e: Engine)
    requires Loose(c, e) && e.pending.Some?
    ensures e.pending.value.tag == |e.done| < e.accepted && All(e)[|e.done|] == e.pending.value
  {
    assert All(e)[|e.done|] == e.pending.value;
  }

  lemma AttemptLoose(c: Config, e: Engine, r: Request, e': Engine)
    requires Loose(c, e.(pending := Some(r)))
    requires var id := if c.legacy then -1 else e.reqid;
             e' == e.(pending := Some(r.(id := id, sends := r.sends + 1)),
                      reqid := if c.legacy then e.reqid else e.reqid + 1,
                      attempts := e.attempts + [Attempt(id, r.tag)])
    ensures Loose(c, e') && LastIsPending(e')
  {
    var e0 := e.(pending := Some(r));
    PendingTag(c, e0);
    assert All(e') == All(e0)[|e.done| := e'.pending.value];
    forall t: nat | t < e.accepted
      ensures All(e')[t].tag == t && All(e')[t].sends == Sends(e'.attempts, t)
    {
      assert All(e0)[t].tag == t && All(e0)[t].sends == Sends(e.attempts, t);
      SendsNext(e.attempts, e'.attempts[|e.attempts|], t);
    }
  }

  lemma TransmitInv(c: Config, e: Engine, r: Request, env: Env)
    requires Loose(c, e.(pending := Some(r)))
    requires r.sends == r.retryCount <= c.maxRetry && r.expired == r.retryCount
    ensures Inv(c, Transmit(c, e, r, env))
  {
    var id := if c.legacy then -1 else e.reqid;
    var e1 := e.(pending := Some(r.(id := id, sends := r.sends + 1)),
                 reqid := if c.legacy then e.reqid else e.reqid + 1,
                 attempts := e.attempts + [Attempt(id, r.tag)]);
    AttemptLoose(c, e, r, e1);
    if !env.sent {
      ResolveLoose(c, e1, LINQ_ERROR_IO, env.tick, env.onFail);
      var e2 := Resolve(c, e1, LINQ_ERROR_IO, env.tick, env.onFail);
      assert All(e2.(ioFailed := true)) == All(e2);
    }
  }

  lemma FlushInv(c: Config, e: Engine, env: Env)
    requires Loose(c, e) && LastIsPending(e) && (e.pending.Some? ==> Active(c, e.pending.value))
    ensures Inv(c, Flush(c, e, env))
  {
    if e.queue != [] && e.pending.None? {
      var e1 := e.(queue := e.queue[1..]);
      assert All(e1.(pending := Some(e.queue[0]))) == All(e) && e.queue[0] in e.queue;
      TransmitInv(c, e1, e.queue[0], env);
    }
  }

  lemma NextInv(c: Config, e: Engine, step: Step)
    requires Inv(c, e)
    ensures Inv(c, Next(c, e, step))
  {
    hide Fifo, Numbered, All, Counted, Fresh, Transmit, Flush;
    match step
    case Send(env) =>
      SubmitLoose(c, e, env.tick, 1);
      FlushInv(c, Submit(c, e, env.tick, 1), env);
    case Poll(env) =>
      if Expired(e, env.tick) {
        var r := e.pending.value;
        if r.retryCount < c.maxRetry {
          var r' := r.(retryAt := env.tick + c.timeout, retryCount := r.retryCount + 1, expired := r.expired + 1);
          TouchLoose(c, e, r');
          TransmitInv(c, e, r', env);
        } else {
          var r' := r.(expired := r.expired + 1);
          TouchLoose(c, e, r');
          DoneThenFlush(c, e.(pending := Some(r')), LINQ_ERROR_TIMEOUT, env);
        }
      }
    case Reply(env, id, err) =>
      if Matches(e, id) {
        var r := e.pending.value;
        if err == LINQ_ERROR_504 && r.retryCount < LINQ_NETW_MAX_RETRY {
          TouchLoose(c, e, r.(retryAt := env.tick + c.timeout));
        } else {
          DoneThenFlush(c, e, err, env);
        }
      }
  }

  lemma DoneThenFlush(c: Config, e: Engine, err: int, env: Env)
    requires e.pending.Some? && Ended(c, e.pending.value) && Loose(c, e)
    ensures Inv(c, Flush(c, Resolve(c, e, err, env.tick, env.onDone), env))
  {
    ResolveLoose(c, e, err, env.tick, env.onDone);
    FlushInv(c, Resolve(c, e, err, env.tick, env.onDone), env);
  }

  /** Every run keeps the invariant: requests complete once each, in order. */
  lemma {:induction false} RunInv(c: Config, steps: seq<Step>)
    ensures Inv(c, Run(c, INIT, steps))
  {
    if steps != [] {
      hide Inv, Next;
      RunInv(c, steps[..|steps| - 1]);
      NextInv(c, Run(c, INIT, steps[..|steps| - 1]), steps[|steps| - 1]);
    }
  }

  // ---------------------------------------------------------------- stalls

  /** Requests wait although none is pending. */
  predicate Stalled(e: Engine) {
    e.pending.None? && e.queue != []
  }

  /** How many requests a step leaves behind the one that it transmits; -1 if it
      transmits none. */
  function Behind(c: Config, e: Engine, step: Step): int {
    match step
    case Send(env) => if e.pending.None? then |e.queue| else -1
    case Poll(env) =>
      if !Expired(e, env.tick) then -1
      else if e.pending.value.retryCount < c.maxRetry then |e.queue|
      else |e.queue| + env.onDone - 1
    case Reply(env, id, err) =>
      if !Matches(e, id) || (err == LINQ_ERROR_504 && e.pending.value.retryCount < LINQ_NETW_MAX_RETRY) then -1
      else |e.queue| + env.onDone - 1
  }

  lemma TransmitStalls(c: Config, e: Engine, r: Request, env: Env)
    ensures Stalled(Transmit(c, e, r, env)) <==> !env.sent && |e.queue| + env.onFail > 0
  {
    hide Fresh;
  }

  lemma FlushStalls(c: Config, e: Engine, env: Env)
    ensures Stalled(Flush(c, e, env)) <==> Stalled(e) && !env.sent && |e.queue| - 1 + env.onFail > 0
  {
    hide Transmit;
    if Stalled(e) {
      TransmitStalls(c, e.(queue := e.queue[1..]), e.queue[0], env);
    }
  }

  lemma ResolveQueue(c: Config, e: Engine, err: int, env: Env)
    requires e.pending.Some?
    ensures var e' := Resolve(c, e, err, env.tick, env.onDone);
            e'.pending.None? && |e'.queue| == |e.queue| + env.onDone
  {
    hide Fresh;
  }

  lemma SubmitQueue(c: Config, e: Engine, tick: nat, k: nat)
    ensures Submit(c, e, tick, k).pending == e.pending && |Submit(c, e, tick, k).queue| == |e.queue| + k
  {
    hide Fresh;
  }

  /** A step leaves requests waiting with none pending exactly when its transmission
      fails with more requests behind it, or when it transmits nothing and they waited
      before. In particular any successful transmission ends a stall. */
  lemma NextStalls(c: Config, e: Engine, step: Step)
    ensures var behind := Behind(c, e, step);
            Stalled(Next(c, e, step)) <==>
              if behind < 0 then Stalled(e) else !step.env.sent && behind + step.env.onFail > 0
  {
    hide Transmit, Fresh, Flush, Resolve, Submit;
    match step
    case Send(env) =>
      SubmitQueue(c, e, env.tick, 1);
      FlushStalls(c, Submit(c, e, env.tick, 1), env);
    case Poll(env) =>
      if Expired(e, env.tick) {
        var r := e.pending.value;
        if r.retryCount < c.maxRetry {
          var r' := r.(retryAt := env.tick + c.timeout, retryCount := r.retryCount + 1, expired := r.expired + 1);
          TransmitStalls(c, e, r', env);
        } else {
          CompleteStalls(c, e.(pending := Some(r.(expired := r.expired + 1))), LINQ_ERROR_TIMEOUT, env);
        }
      }
    case Reply(env, id, err) =>
      if Matches(e, id) && !(err == LINQ_ERROR_504 && e.pending.value.retryCount < LINQ_NETW_MAX_RETRY) {
        CompleteStalls(c, e, err, env);
      }
  }

  lemma CompleteStalls(c: Config, e: Engine, err: int, env: Env)
    requires e.pending.Some?
    ensures var behind := |e.queue| + env.onDone - 1;
            Stalled(Flush(c, Resolve(c, e, err, env.tick, env.onDone), env)) <==>
              behind >= 0 && !env.sent && behind + env.onFail > 0
  {
    hide Transmit, Fresh, Flush, Resolve;
    ResolveQueue(c, e, err, env);
    FlushStalls(c, Resolve(c, e, err, env.tick, env.onDone), env);
  }

  /** Step `k` of a run is its last transmission, and fails with more requests behind it. */
  predicate StallsAt(c: Config, steps: seq<Step>, k: nat)
    requires k < |steps|
  {
    var behind := Behind(c, Run(c, INIT, steps[..k]), steps[k]);
    && behind >= 0 && !steps[k].env.sent && behind + steps[k].env.onFail > 0
    && forall j | k < j < |steps| :: Behind(c, Run(c, INIT, steps[..j]), steps[j]) < 0
  }

  /** After a run requests wait with none pending exactly when the last transmission of
      the run failed with more requests behind it. */
  lemma {:induction false} RunStalls(c: Config, steps: seq<Step>)
    ensures Stalled(Run(c, INIT, steps)) <==> exists k: nat :: k < |steps| && StallsAt(c, steps, k)
  {
    if steps != [] {
      hide Next, Behind, Stalled;
      var n := |steps| - 1;
      var init, last := steps[..n], steps[n];
      RunStalls(c, init);
      NextStalls(c, Run(c, INIT, init), last);
      EarlierStalls(c, steps);
      if Behind(c, Run(c, INIT, init), last) >= 0 {
        NoneAfter(c, steps, n);
      }
    }
  }

  /** The last step makes no difference to the earlier ones, if it transmits nothing. */
  lemma EarlierStalls(c: Config, steps: seq<Step>)
    requires steps != []
    ensures var n := |steps| - 1;
            var quiet := Behind(c, Run(c, INIT, steps[..n]), steps[n]) < 0;
            forall k: nat | k < n :: StallsAt(c, steps, k) <==> quiet && StallsAt(c, steps[..n], k)
  {
    hide Run, Behind;
    var n := |steps| - 1;
    var init := steps[..n];
    assert forall j | 0 <= j < n :: init[..j] == steps[..j] && init[j] == steps[j];
  }

  lemma NoneAfter(c: Config, steps: seq<Step>, n: nat)
    requires n + 1 == |steps|
    ensures StallsAt(c, steps, n) <==>
              var behind := Behind(c, Run(c, INIT, steps[..n]), steps[n]);
              behind >= 0 && !steps[n].env.sent && behind + steps[n].env.onFail > 0
  {
    hide Run, Behind;
  }

  // ---------------------------------------------------------------- consequences

  lemma ShutOneLoose(c: Config, e: Engine, env: Env)
    requires e.pending.Some? && Ended(c, e.pending.value) && Loose(c, e)
    ensures var e' := ShutOne(c, e, env);
            && Loose(c, e') && (e'.pending.Some? ==> Ended(c, e'.pending.value))
            && (e'.pending.Some? || e'.queue == [])
            && e'.done == e.done + [Done(e.pending.value, LINQ_ERROR_SHUTTING_DOWN)]
  {
    hide Fresh;
    var e1 := Resolve(c, e, LINQ_ERROR_SHUTTING_DOWN, env.tick, env.onDone);
    ResolveLoose(c, e, LINQ_ERROR_SHUTTING_DOWN, env.tick, env.onDone);
    if e1.queue != [] {
      assert e1.queue[0] in e1.queue;
      assert All(Pop(e1)) == All(e1);
    }
  }

  lemma {:induction false} DestroyAll(c: Config, e: Engine, calls: seq<Env>)
    requires Loose(c, e) && (if e.pending.Some? then Ended(c, e.pending.value) else e.queue == [])
    ensures var e' := Destroy(c, e, calls);
            && e'.pending == None && e'.queue == [] && Fifo(e')
            && |e.done| <= |e'.done| && e'.done[..|e.done|] == e.done
            && forall i | |e.done| <= i < |e'.done| :: e'.done[i].err == LINQ_ERROR_SHUTTING_DOWN
    decreases Left(e, calls)
  {
    hide Loose, Ended, ShutOne, LaterCalls, FirstCall, Submitted, Fifo;
    if e.pending.Some? {
      var e1 := ShutOne(c, e, FirstCall(calls));
      ShutOneLoose(c, e, FirstCall(calls));
      DestroyAll(c, e1, LaterCalls(calls));
      var e' := Destroy(c, e1, LaterCalls(calls));
      assert e'.done[..|e.done|] == e'.done[..|e1.done|][..|e.done|] == e.done;
      assert e'.done[|e.done|] == e'.done[..|e1.done|][|e.done|];
    } else {
      LooseFifo(c, e);
    }
  }

  lemma LooseFifo(c: Config, e: Engine)
    requires Loose(c, e)
    ensures Fifo(e)
  {
  }

  /** Shutting down completes every accepted request, in order and with the same error,
      including those that its callbacks submit, exactly when one is pending or none is
      waiting. */
  lemma DestroyCompletes(c: Config, e: Engine, calls: seq<Env>)
    requires Inv(c, e)
    ensures var e' := Destroy(c, e, calls);
            && e'.pending == None && e'.queue == []
            && (Fifo(e') <==> !Stalled(e))
            && (!e.ioFailed ==> Fifo(e'))
            && |e.done| <= |e'.done| && e'.done[..|e.done|] == e.done
            && forall i | |e.done| <= i < |e'.done| :: e'.done[i].err == -7
  {
    if e.pending.Some? || e.queue == [] {
      DestroyAll(c, e, calls);
    } else {
      assert |All(Destroy(c, e, calls))| == |e.done|;
    }
  }

  /** Three requests, of which the first completes and the second cannot be sent: the
      third waits with none pending, and shutting down drops it. */
  lemma DroppedRequest(c: Config)
    requires !c.legacy
    ensures var sent, failed := Env(0, true, 0, 0), Env(0, false, 0, 0);
            var e := Run(c, INIT, [Send(sent), Send(sent), Send(sent), Reply(failed, 0, 0)]);
            && e.accepted == 3 && Stalled(e)
            && |Destroy(c, e, []).done| == 2 && !Fifo(Destroy(c, e, []))
  {
    hide Next, Inv, Fifo;
    var sent, failed := Env(0, true, 0, 0), Env(0, false, 0, 0);
    var steps := [Send(sent), Send(sent), Send(sent), Reply(failed, 0, 0)];
    assert steps[..4] == steps && steps[..0] == [];
    RunSnoc(c, steps, 0);
    RunSnoc(c, steps, 1);
    RunSnoc(c, steps, 2);
    RunSnoc(c, steps, 3);
    var e1, e2, e3 := Run(c, INIT, steps[..1]), Run(c, INIT, steps[..2]), Run(c, INIT, steps[..3]);
    SendIdle(c, INIT);
    SendBusy(c, e1);
    SendBusy(c, e2);
    ReplyFails(c, e3);
    var e := Run(c, INIT, steps);
    RunInv(c, steps);
    DestroyCompletes(c, e, []);
  }

  lemma RunSnoc(c: Config, steps: seq<Step>, k: nat)
    requires k < |steps|
    ensures Run(c, INIT, steps[..k + 1]) == Next(c, Run(c, INIT, steps[..k]), steps[k])
    ensures Run(c, INIT, []) == INIT
  {
    hide Next;
    assert steps[..k + 1][..k] == steps[..k];
  }

  lemma SendIdle(c: Config, e: Engine)
    requires e.pending.None? && e.queue == [] && e.reqid == 0 && !c.legacy
    ensures var e' := Next(c, e, Send(Env(0, true, 0, 0)));
            && e'.pending.Some? && e'.queue == [] && e'.reqid == 1 && e'.accepted == e.accepted + 1
            && e'.done == e.done
  {
  }

  lemma SendBusy(c: Config, e: Engine)
    requires e.pending.Some?
    ensures var e' := Next(c, e, Send(Env(0, true, 0, 0)));
            && e'.pending.Some? && |e'.queue| == |e.queue| + 1 && e'.reqid == e.reqid
            && e'.accepted == e.accepted + 1 && e'.done == e.done
  {
    hide Fresh;
  }

  lemma ReplyFails(c: Config, e: Engine)
    requires e.pending.Some? && |e.queue| == 2 && e.reqid == 1
    ensures var e' := Next(c, e, Reply(Env(0, false, 0, 0), 0, 0));
            e'.pending.None? && |e'.queue| == 1 && e'.accepted == e.accepted && |e'.done| == |e.done| + 2
  {
    hide Fresh;
  }

  /** After any run, a reply under the id of any attempt but the last changes nothing,
      and so does any such reply when no request is pending; the last id belongs to
      the pending request. */
  lemma StaleReply(c: Config, steps: seq<Step>, env: Env, k: nat, err: int)
    requires !c.legacy && k < |Run(c, INIT, steps).attempts|
    ensures var e := Run(c, INIT, steps);
            var id := e.attempts[k].id;
            if k == |e.attempts| - 1 && e.pending.Some?
            then Matches(e, id) && e.attempts[k].tag == e.pending.value.tag && id == e.pending.value.id
            else Next(c, e, Reply(env, id, err)) == e
  {
    hide Run;
    RunInv(c, steps);
  }

  /** After any run, attempt ids are strictly increasing. */
  lemma IdsIncrease(c: Config, steps: seq<Step>, i: nat, j: nat)
    requires !c.legacy && i < j < |Run(c, INIT, steps).attempts|
    ensures Run(c, INIT, steps).attempts[i].id < Run(c, INIT, steps).attempts[j].id
  {
    hide Run;
    RunInv(c, steps);
  }

  /** Attempts are made in the order in which the requests were accepted, and none yet
      for a request that waits behind the next in line. */
  predicate InOrder(e: Engine) {
    && (forall i, j | 0 <= i < j < |e.attempts| :: e.attempts[i].tag <= e.attempts[j].tag)
    && (forall i | 0 <= i < |e.attempts| :: e.attempts[i].tag <= |e.done|)
  }

  lemma TransmitInOrder(c: Config, e: Engine, r: Request, env: Env)
    requires InOrder(e) && r.tag == |e.done|
    ensures InOrder(Transmit(c, e, r, env))
  {
    hide Fresh;
  }

  lemma FlushInOrder(c: Config, e: Engine, env: Env)
    requires Loose(c, e) && InOrder(e)
    ensures InOrder(Flush(c, e, env))
  {
    hide Transmit;
    if e.queue != [] && e.pending.None? {
      assert All(e)[|e.done|] == e.queue[0];
      TransmitInOrder(c, e.(queue := e.queue[1..]), e.queue[0], env);
    }
  }

  lemma DoneInOrder(c: Config, e: Engine, err: int, env: Env)
    requires e.pending.Some? && Ended(c, e.pending.value) && Loose(c, e) && InOrder(e)
    ensures InOrder(Flush(c, Resolve(c, e, err, env.tick, env.onDone), env))
  {
    ResolveLoose(c, e, err, env.tick, env.onDone);
    FlushInOrder(c, Resolve(c, e, err, env.tick, env.onDone), env);
  }

  lemma NextInOrder(c: Config, e: Engine, step: Step)
    requires Inv(c, e) && InOrder(e)
    ensures InOrder(Next(c, e, step))
  {
    hide Fifo, Numbered, All, Counted, Flush, Transmit;
    match step
    case Send(env) =>
      SubmitLoose(c, e, env.tick, 1);
      FlushInOrder(c, Submit(c, e, env.tick, 1), env);
    case Poll(env) =>
      if Expired(e, env.tick) {
        var r := e.pending.value;
        PendingTag(c, e);
        if r.retryCount < c.maxRetry {
          TransmitInOrder(c, e, r.(retryAt := env.tick + c.timeout, retryCount := r.retryCount + 1,
                                   expired := r.expired + 1), env);
        } else {
          var r' := r.(expired := r.expired + 1);
          TouchLoose(c, e, r');
          DoneInOrder(c, e.(pending := Some(r')), LINQ_ERROR_TIMEOUT, env);
        }
      }
    case Reply(env, id, err) =>
      if Matches(e, id) && !(err == LINQ_ERROR_504 && e.pending.value.retryCount < LINQ_NETW_MAX_RETRY) {
        DoneInOrder(c, e, err, env);
      }
  }

  lemma {:induction false} RunInOrder(c: Config, steps: seq<Step>)
    ensures InOrder(Run(c, INIT, steps))
  {
    if steps != [] {
      hide Inv, Next, InOrder;
      var init := steps[..|steps| - 1];
      RunInOrder(c, init);
      RunInv(c, init);
      NextInOrder(c, Run(c, INIT, init), steps[|steps| - 1]);
    } else {
      assert InOrder(INIT);
    }
  }

  /** The polls of a run that find the given request pending and timed out. */
  function ExpiredPolls(c: Config, e: Engine, steps: seq<Step>, tag: nat): nat {
    if steps == [] then 0
    else
      var init, last := steps[..|steps| - 1], steps[|steps| - 1];
      var e' := Run(c, e, init);
      ExpiredPolls(c, e, init, tag) +
      if last.Poll? && Expired(e', last.env.tick) && e'.pending.value.tag == tag then 1 else 0
  }

  predicate Pends(e: Engine, tag: nat) {
    e.pending.Some? && e.pending.value.tag == tag
  }

  /** As long as a request stays pending, each expired poll uses up one retry, and
      nothing gives one back; otherwise the request is completed. */
  lemma RetriesCount(c: Config, e: Engine, step: Step, tag: nat)
    requires Inv(c, e) && Pends(e, tag)
    ensures var e' := Next(c, e, step);
            if Pends(e', tag)
            then e'.pending.value.retryCount == e.pending.value.retryCount +
                   if step.Poll? && Expired(e, step.env.tick) then 1 else 0
            else |e'.done| > tag
  {
    hide Fifo, Numbered, Counted, All, Fresh, Submit;
    SubmitKeeps(c);
    NextInv(c, e, step);
    PendingTag(c, e);
    if Next(c, e, step).pending.Some? {
      PendingTag(c, Next(c, e, step));
    }
  }

  lemma SubmitKeeps(c: Config)
    ensures forall k: nat, e': Engine, tick: nat ::
              Submit(c, e', tick, k).pending == e'.pending && Submit(c, e', tick, k).done == e'.done
  {
  }

  lemma DoneGrows(c: Config, e: Engine, step: Step)
    ensures |e.done| <= |Next(c, e, step).done|
  {
  }

  /** From any reachable state: while a request pends, every expired poll has raised its
      retry count by one, so after more of them than it has retries left it is completed. */
  lemma {:induction false} Patience(c: Config, e: Engine, steps: seq<Step>, tag: nat)
    requires Inv(c, e) && Pends(e, tag)
    ensures var e', k := Run(c, e, steps), ExpiredPolls(c, e, steps, tag);
            && Inv(c, e')
            && (Pends(e', tag) ==> e'.pending.value.retryCount == e.pending.value.retryCount + k <= c.maxRetry)
            && (!Pends(e', tag) ==> |e'.done| > tag)
            && (k > c.maxRetry - e.pending.value.retryCount ==> |e'.done| > tag)
  {
    if steps != [] {
      var init, last := steps[..|steps| - 1], steps[|steps| - 1];
      Patience(c, e, init, tag);
      var e1 := Run(c, e, init);
      NextInv(c, e1, last);
      DoneGrows(c, e1, last);
      if Pends(e1, tag) {
        RetriesCount(c, e1, last, tag);
      } else if Next(c, e1, last).pending.Some? {
        PendingTag(c, Next(c, e1, last));
      }
    }
  }

  /** No request is ever transmitted more than `maxRetry + 1` times. */
  lemma SendsBounded(c: Config, e: Engine, tag: nat)
    requires Inv(c, e)
    ensures Sends(e.attempts, tag) <= c.maxRetry + 1
  {
    if tag >= e.accepted {
      NoSends(e.attempts, tag);
    } else if tag < |e.done| {
      assert All(e)[tag] == e.done[tag].req && e.done[tag] in e.done;
    } else if e.pending.Some? && tag == |e.done| {
      PendingTag(c, e);
    } else {
      var q := tag - |e.done| - if e.pending.Some? then 1 else 0;
      assert All(e)[tag] == e.queue[q] && e.queue[q] in e.queue;
    }
  }
}
