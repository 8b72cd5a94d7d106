/** What the callbacks of completed requests hear, and when requests run out of time:
    read off the steps of a run. */
module RequestCodes {
  import opened Wrappers
  import opened Requests

  /** The reply has no id, or that of the last attempt, and a request is waiting for it. */
  predicate Answers(e: Engine, step: Step) {
    && step.Reply? && e.pending.Some?
    && (step.id < 0 || (e.attempts != [] && step.id == e.attempts[|e.attempts| - 1].id))
  }

  /** A 504 is put off, up to the fifth retry. */
  predicate Defers(e: Engine, step: Step) {
    Answers(e, step) && step.err == 504 && e.pending.value.retryCount < 5
  }

  /** A poll at or behind the deadline of the pending request. */
  predicate Due(e: Engine, step: Step) {
    step.Poll? && e.pending.Some? && step.env.tick >= e.pending.value.retryAt
  }

  predicate Resends(c: Config, e: Engine, step: Step) {
    Due(e, step) && e.pending.value.retryCount < c.maxRetry
  }

  /** The code with which the step ends the pending request, if it does: the one of the
      reply, or the timeout. */
  function Ending(c: Config, e: Engine, step: Step): seq<int> {
    if Answers(e, step) && !Defers(e, step) then [step.err]
    else if Due(e, step) && !Resends(c, e, step) then [-6]
    else []
  }

  /** Whether the step transmits: the first of an empty line, a retry, or the next
      behind a request that ended. */
  predicate Tries(c: Config, e: Engine, step: Step) {
    || (step.Send? && e.pending.None?)
    || Resends(c, e, step)
    || (Ending(c, e, step) != [] && |e.queue| + step.env.onDone > 0)
  }

  /** The codes of the requests that the step completes: a transmission that fails
      completes its request with an I/O error. */
  function Codes(c: Config, e: Engine, step: Step): seq<int> {
    Ending(c, e, step) + if Tries(c, e, step) && !step.env.sent then [-4] else []
  }

  function Errs(done: seq<Done>): (r: seq<int>)
    ensures |r| == |done| && forall i | 0 <= i < |done| :: r[i] == done[i].err
  {
    seq(|done|, i requires 0 <= i < |done| => done[i].err)
  }

  lemma ErrsSnoc(done: seq<Done>, d: Done)
    ensures Errs(done + [d]) == Errs(done) + [d.err]
  {
  }

  // ---------------------------------------------------------------- one step

  lemma SubmitCodes(c: Config, e: Engine, tick: nat, k: nat)
    ensures var e' := Submit(c, e, tick, k);
            && e'.done == e.done && e'.attempts == e.attempts && e'.pending == e.pending
            && |e'.queue| == |e.queue| + k && e'.accepted == e.accepted + k
  {
    hide Fresh;
  }

  lemma ResolveCodes(c: Config, e: Engine, err: int, tick: nat, again: nat)
    requires e.pending.Some?
    ensures var e' := Resolve(c, e, err, tick, again);
            && Errs(e'.done) == Errs(e.done) + [err] && e'.attempts == e.attempts && e'.pending.None?
            && |e'.queue| == |e.queue| + again && e'.accepted == e.accepted + again
  {
    hide Submit;
    SubmitCodes(c, e, tick, again);
    ErrsSnoc(e.done, Done(e.pending.value, err));
  }

  lemma TransmitCodes(c: Config, e: Engine, r: Request, env: Env)
    ensures var e' := Transmit(c, e, r, env);
            && Errs(e'.done) == Errs(e.done) + (if env.sent then [] else [-4])
            && |e'.attempts| == |e.attempts| + 1
            && e'.accepted == e.accepted + if env.sent then 0 else env.onFail
  {
    hide Resolve;
    var id := if c.legacy then -1 else e.reqid;
    var e1 := e.(pending := Some(r.(id := id, sends := r.sends + 1)),
                 reqid := if c.legacy then e.reqid else e.reqid + 1,
                 attempts := e.attempts + [Attempt(id, r.tag)]);
    if !env.sent {
      ResolveCodes(c, e1, LINQ_ERROR_IO, env.tick, env.onFail);
    }
    assert Errs(e.done) + [] == Errs(e.done);
  }

  lemma FlushCodes(c: Config, e: Engine, env: Env)
    ensures var e', tries := Flush(c, e, env), e.pending.None? && e.queue != [];
            && Errs(e'.done) == Errs(e.done) + (if tries && !env.sent then [-4] else [])
            && |e'.attempts| == |e.attempts| + (if tries then 1 else 0)
            && e'.accepted == e.accepted + if tries && !env.sent then env.onFail else 0
  {
    hide Transmit;
    if e.pending.None? && e.queue != [] {
      TransmitCodes(c, e.(queue := e.queue[1..]), e.queue[0], env);
    }
    assert Errs(e.done) + [] == Errs(e.done);
  }

  lemma EndCodes(c: Config, e: Engine, err: int, env: Env)
    requires e.pending.Some?
    ensures var e', tries := Flush(c, Resolve(c, e, err, env.tick, env.onDone), env), |e.queue| + env.onDone > 0;
            && Errs(e'.done) == Errs(e.done) + [err] + (if tries && !env.sent then [-4] else [])
            && |e'.attempts| == |e.attempts| + (if tries then 1 else 0)
            && e'.accepted == e.accepted + env.onDone + if tries && !env.sent then env.onFail else 0
  {
    hide Resolve, Flush, Errs;
    ResolveCodes(c, e, err, env.tick, env.onDone);
    FlushCodes(c, Resolve(c, e, err, env.tick, env.onDone), env);
  }

  lemma AnswersMatches(c: Config, e: Engine, step: Step)
    requires Inv(c, e) && step.Reply?
    ensures Answers(e, step) <==> Matches(e, step.id)
  {
    hide Loose;
    LooseNumbers(c, e);
  }

  lemma LooseNumbers(c: Config, e: Engine)
    requires Loose(c, e)
    ensures Numbered(c, e)
  {
  }

  /** The requests that a step accepts: the one sent, and those that its callbacks submit. */
  function Arrivals(c: Config, e: Engine, step: Step): nat {
    (if step.Send? then 1 else 0)
    + (if Ending(c, e, step) != [] then step.env.onDone else 0)
    + (if Tries(c, e, step) && !step.env.sent then step.env.onFail else 0)
  }

  lemma PollCodes(c: Config, e: Engine, env: Env)
    requires Due(e, Poll(env))
    ensures var e', step := Next(c, e, Poll(env)), Poll(env);
            && Errs(e'.done) == Errs(e.done) + Codes(c, e, step)
            && |e'.attempts| == |e.attempts| + (if Tries(c, e, step) then 1 else 0)
            && e'.accepted == e.accepted + Arrivals(c, e, step)
  {
    hide Transmit, Fresh, Flush, Resolve, Submit, Errs;
    var r := e.pending.value;
    var failed := if Tries(c, e, Poll(env)) && !env.sent then [-4] else [];
    if r.retryCount < c.maxRetry {
      TransmitCodes(c, e, r.(retryAt := env.tick + c.timeout, retryCount := r.retryCount + 1,
                             expired := r.expired + 1), env);
      NothingFirst(failed);
    } else {
      EndCodes(c, e.(pending := Some(r.(expired := r.expired + 1))), LINQ_ERROR_TIMEOUT, env);
      Associate(Errs(e.done), [-6], failed);
    }
  }

  /** A step completes exactly these requests, with these codes, makes an attempt exactly
      when it transmits, and accepts what is sent and submitted. */
  lemma NextCodes(c: Config, e: Engine, step: Step)
    requires Inv(c, e)
    ensures var e' := Next(c, e, step);
            && Errs(e'.done) == Errs(e.done) + Codes(c, e, step)
            && |e'.attempts| == |e.attempts| + (if Tries(c, e, step) then 1 else 0)
            && e'.accepted == e.accepted + Arrivals(c, e, step)
  {
    hide Transmit, Fresh, Flush, Resolve, Submit, Inv, Errs;
    assert Errs(e.done) + [] == Errs(e.done);
    match step
    case Send(env) =>
      SubmitCodes(c, e, env.tick, 1);
      FlushCodes(c, Submit(c, e, env.tick, 1), env);
      NothingFirst(if Tries(c, e, step) && !env.sent then [-4] else []);
    case Poll(env) =>
      if Due(e, step) {
        PollCodes(c, e, env);
      }
    case Reply(env, id, err) =>
      AnswersMatches(c, e, step);
      if Answers(e, step) && !Defers(e, step) {
        EndCodes(c, e, err, env);
        Associate(Errs(e.done), [err], if Tries(c, e, step) && !env.sent then [-4] else []);
      }
  }

  lemma NothingFirst<T>(s: seq<T>)
    ensures [] + s == s
  {
  }

  /** A reply that answers nothing changes nothing. */
  lemma Ignored(c: Config, e: Engine, step: Step)
    requires Inv(c, e) && step.Reply? && !Answers(e, step)
    ensures Next(c, e, step) == e
  {
    AnswersMatches(c, e, step);
  }

  // ---------------------------------------------------------------- whole runs

  /** Why completion number `i` came about in step `k`, and its code. */
  predicate Cause(c: Config, steps: seq<Step>, k: nat, i: nat, err: int)
    requires k < |steps|
  {
    var e, e', step := Run(c, INIT, steps[..k]), Run(c, INIT, steps[..k + 1]), steps[k];
    && |e.done| <= i < |e'.done|
    && ((i == |e.done| && Answers(e, step) && !Defers(e, step) && err == step.err)
        || (i == |e.done| && Due(e, step) && e.pending.value.retryCount == c.maxRetry && err == -6)
        || (i == |e'.done| - 1 && Tries(c, e, step) && !step.env.sent && err == -4))
  }

  lemma StepCause(c: Config, steps: seq<Step>, k: nat, i: nat)
    requires k < |steps|
    requires |Run(c, INIT, steps[..k]).done| <= i < |Run(c, INIT, steps[..k + 1]).done|
    ensures Cause(c, steps, k, i, Run(c, INIT, steps[..k + 1]).done[i].err)
  {
    RunSnoc(c, steps, k);
    RunInv(c, steps[..k]);
    var e, e' := Run(c, INIT, steps[..k]), Run(c, INIT, steps[..k + 1]);
    hide Run, Next, Errs;
    NextCodes(c, e, steps[k]);
    MaxRetries(c, e);
    assert e'.done[i].err == Errs(e'.done)[i] == Codes(c, e, steps[k])[i - |e.done|];
  }

  lemma MaxRetries(c: Config, e: Engine)
    requires Inv(c, e)
    ensures e.pending.Some? ==> e.pending.value.retryCount <= c.maxRetry
  {
    hide Loose;
  }

  lemma DoneStays(c: Config, e: Engine, step: Step, i: nat)
    requires Inv(c, e) && i < |e.done|
    ensures i < |Next(c, e, step).done| && Next(c, e, step).done[i].err == e.done[i].err
  {
    hide Inv, Next;
    NextCodes(c, e, step);
    hide Errs, Codes;
    var e' := Next(c, e, step);
    assert e'.done[i].err == Errs(e'.done)[i] == Errs(e.done)[i];
  }

  /** After every run, every completed request has the code of what completed it: of the
      reply accepted for it, the timeout once its retries were used up, or the I/O error
      of its failed transmission. */
  lemma {:induction false} RunCodes(c: Config, steps: seq<Step>, i: nat) returns (k: nat)
    requires i < |Run(c, INIT, steps).done|
    ensures k < |steps| && Cause(c, steps, k, i, Run(c, INIT, steps).done[i].err)
  {
    var n := |steps| - 1;
    var init := steps[..n];
    assert steps[..n + 1] == steps;
    RunSnoc(c, steps, n);
    RunInv(c, init);
    hide Next, Cause;
    if i < |Run(c, INIT, init).done| {
      DoneStays(c, Run(c, INIT, init), steps[n], i);
      k := RunCodes(c, init, i);
      CauseStays(c, steps, k, i, Run(c, INIT, steps).done[i].err);
    } else {
      k := n;
      StepCause(c, steps, n, i);
    }
  }

  lemma CauseStays(c: Config, steps: seq<Step>, k: nat, i: nat, err: int)
    requires k + 1 < |steps| && Cause(c, steps[..|steps| - 1], k, i, err)
    ensures Cause(c, steps, k, i, err)
  {
    hide Run, Codes, Answers, Defers, Due, Tries;
    var init := steps[..|steps| - 1];
    assert init[..k] == steps[..k] && init[..k + 1] == steps[..k + 1] && init[k] == steps[k];
  }

  // ---------------------------------------------------------------- deadlines

  /** The deadlines of all accepted requests, in order. */
  function Deadlines(e: Engine): (r: seq<nat>)
    ensures |r| == |All(e)| && forall i | 0 <= i < |r| :: r[i] == All(e)[i].retryAt
  {
    seq(|All(e)|, i requires 0 <= i < |All(e)| => All(e)[i].retryAt)
  }

  function Same(x: nat, k: nat): (r: seq<nat>)
    ensures |r| == k && forall i | 0 <= i < k :: r[i] == x
  {
    seq(k, _ => x)
  }

  lemma {:induction false} FreshDeadlines(c: Config, from: nat, tick: nat, k: nat)
    ensures |Fresh(c, from, tick, k)| == k
    ensures forall i | 0 <= i < k :: Fresh(c, from, tick, k)[i].retryAt == tick + c.timeout
  {
    if k > 0 {
      FreshDeadlines(c, from, tick, k - 1);
    }
  }

  lemma SubmitDeadlines(c: Config, e: Engine, tick: nat, k: nat)
    ensures Deadlines(Submit(c, e, tick, k)) == Deadlines(e) + Same(tick + c.timeout, k)
    ensures Submit(c, e, tick, k).accepted == e.accepted + k
  {
    FreshDeadlines(c, e.accepted, tick, k);
    hide Fresh;
    assert All(Submit(c, e, tick, k)) == All(e) + Fresh(c, e.accepted, tick, k);
  }

  lemma ResolveDeadlines(c: Config, e: Engine, err: int, tick: nat, again: nat)
    requires e.pending.Some?
    ensures Deadlines(Resolve(c, e, err, tick, again)) == Deadlines(e) + Same(tick + c.timeout, again)
    ensures Resolve(c, e, err, tick, again).accepted == e.accepted + again
  {
    SubmitDeadlines(c, e, tick, again);
    hide Fresh;
    assert All(Resolve(c, e, err, tick, again)) == All(Submit(c, e, tick, again));
  }

  lemma TransmitDeadlines(c: Config, e: Engine, r: Request, env: Env)
    ensures var k := if env.sent then 0 else env.onFail;
            && Deadlines(Transmit(c, e, r, env))
               == Deadlines(e.(pending := Some(r))) + Same(env.tick + c.timeout, k)
            && Transmit(c, e, r, env).accepted == e.accepted + k
  {
    hide Resolve;
    var id := if c.legacy then -1 else e.reqid;
    var e0 := e.(pending := Some(r));
    var e1 := e.(pending := Some(r.(id := id, sends := r.sends + 1)),
                 reqid := if c.legacy then e.reqid else e.reqid + 1,
                 attempts := e.attempts + [Attempt(id, r.tag)]);
    assert forall i | 0 <= i < |All(e0)| :: All(e1)[i].retryAt == All(e0)[i].retryAt;
    assert Deadlines(e1) == Deadlines(e0);
    if !env.sent {
      ResolveDeadlines(c, e1, LINQ_ERROR_IO, env.tick, env.onFail);
      var e2 := Resolve(c, e1, LINQ_ERROR_IO, env.tick, env.onFail);
      assert All(e2.(ioFailed := true)) == All(e2);
    }
  }

  lemma FlushDeadlines(c: Config, e: Engine, env: Env)
    ensures Flush(c, e, env).accepted >= e.accepted
    ensures Deadlines(Flush(c, e, env))
         == Deadlines(e) + Same(env.tick + c.timeout, Flush(c, e, env).accepted - e.accepted)
  {
    hide Transmit;
    if e.pending.None? && e.queue != [] {
      var e1 := e.(queue := e.queue[1..]);
      assert All(e1.(pending := Some(e.queue[0]))) == All(e);
      assert Deadlines(e1.(pending := Some(e.queue[0]))) == Deadlines(e);
      TransmitDeadlines(c, e1, e.queue[0], env);
    }
  }

  lemma TouchDeadlines(e: Engine, r: Request)
    requires e.pending.Some?
    ensures |e.done| < |Deadlines(e)| && Deadlines(e.(pending := Some(r))) == Deadlines(e)[|e.done| := r.retryAt]
  {
    assert All(e.(pending := Some(r))) == All(e)[|e.done| := r];
  }

  lemma SameTwice(s: seq<nat>, x: nat, j: nat, k: nat)
    ensures s + Same(x, j) + Same(x, k) == s + Same(x, j + k)
  {
  }

  lemma EndDeadlines(c: Config, e: Engine, err: int, env: Env)
    requires e.pending.Some?
    ensures var e' := Flush(c, Resolve(c, e, err, env.tick, env.onDone), env);
            && e'.accepted >= e.accepted
            && Deadlines(e') == Deadlines(e) + Same(env.tick + c.timeout, e'.accepted - e.accepted)
  {
    hide Resolve, Flush, Deadlines, Same;
    ResolveDeadlines(c, e, err, env.tick, env.onDone);
    var e1 := Resolve(c, e, err, env.tick, env.onDone);
    FlushDeadlines(c, e1, env);
    SameTwice(Deadlines(e), env.tick + c.timeout, env.onDone, Flush(c, e1, env).accepted - e1.accepted);
  }

  lemma PollDeadlines(c: Config, e: Engine, env: Env)
    requires Due(e, Poll(env))
    ensures var e', d := Next(c, e, Poll(env)), env.tick + c.timeout;
            && e'.accepted >= e.accepted && |e.done| < |Deadlines(e)|
            && Deadlines(e') ==
               (if Resends(c, e, Poll(env)) then Deadlines(e)[|e.done| := d] else Deadlines(e))
               + Same(d, e'.accepted - e.accepted)
  {
    hide Transmit, Fresh, Flush, Resolve, Submit, Deadlines, Same;
    var r := e.pending.value;
    if r.retryCount < c.maxRetry {
      var r' := r.(retryAt := env.tick + c.timeout, retryCount := r.retryCount + 1, expired := r.expired + 1);
      TouchDeadlines(e, r');
      TransmitDeadlines(c, e, r', env);
    } else {
      var e1 := e.(pending := Some(r.(expired := r.expired + 1)));
      TouchDeadlines(e, e1.pending.value);
      SameDeadline(e);
      EndDeadlines(c, e1, LINQ_ERROR_TIMEOUT, env);
    }
  }

  /** Only a retry and a deferral move a deadline, of the pending request, to the timeout
      from now on; so is the deadline of every request that the step accepts. */
  lemma NextDeadlines(c: Config, e: Engine, step: Step)
    requires Inv(c, e)
    ensures var e', d := Next(c, e, step), step.env.tick + c.timeout;
            && e'.accepted >= e.accepted
            && (e.pending.Some? ==> |e.done| < |Deadlines(e)|)
            && Deadlines(e') ==
               (if Resends(c, e, step) || Defers(e, step) then Deadlines(e)[|e.done| := d] else Deadlines(e))
               + Same(d, e'.accepted - e.accepted)
  {
    hide Transmit, Fresh, Flush, Resolve, Submit, Inv, Deadlines, Same;
    var d := step.env.tick + c.timeout;
    NoneMore(Deadlines(e), d);
    if e.pending.Some? {
      TouchDeadlines(e, e.pending.value);
    }
    match step
    case Send(env) =>
      SubmitDeadlines(c, e, env.tick, 1);
      var e1 := Submit(c, e, env.tick, 1);
      FlushDeadlines(c, e1, env);
      SameTwice(Deadlines(e), d, 1, Flush(c, e1, env).accepted - e1.accepted);
    case Poll(env) =>
      if Due(e, step) {
        PollDeadlines(c, e, env);
      }
    case Reply(env, id, err) =>
      AnswersMatches(c, e, step);
      if Defers(e, step) {
        TouchDeadlines(e, e.pending.value.(retryAt := d));
        NoneMore(Deadlines(e)[|e.done| := d], d);
      } else if Answers(e, step) {
        EndDeadlines(c, e, err, env);
      }
  }

  lemma NoneMore(s: seq<nat>, d: nat)
    ensures s + Same(d, 0) == s
  {
  }

  lemma SameDeadline(e: Engine)
    requires e.pending.Some?
    ensures |e.done| < |Deadlines(e)| && Deadlines(e)[|e.done| := e.pending.value.retryAt] == Deadlines(e)
  {
    assert All(e)[|e.done|] == e.pending.value;
  }

  /** The tick of the last step that accepted, retried or deferred the request. */
  function Armed(c: Config, steps: seq<Step>, tag: nat): nat {
    if steps == [] then 0
    else
      var n := |steps| - 1;
      var e, e' := Run(c, INIT, steps[..n]), Run(c, INIT, steps);
      if e.accepted <= tag < e'.accepted then steps[n].env.tick
      else if Pends(e, tag) && (Resends(c, e, steps[n]) || Defers(e, steps[n])) then steps[n].env.tick
      else Armed(c, steps[..n], tag)
  }

  lemma {:induction false} RunDeadlines(c: Config, steps: seq<Step>, tag: nat)
    requires tag < Run(c, INIT, steps).accepted
    ensures var e := Run(c, INIT, steps);
            tag < |All(e)| && All(e)[tag].retryAt == Armed(c, steps, tag) + c.timeout
  {
    RunInv(c, steps);
    InvAll(c, Run(c, INIT, steps));
    if steps != [] {
      var n := |steps| - 1;
      var e, e' := Run(c, INIT, steps[..n]), Run(c, INIT, steps);
      RunInv(c, steps[..n]);
      InvAll(c, e);
      hide Next, Inv, All, Deadlines, Same, Resends, Defers;
      NextDeadlines(c, e, steps[n]);
      PendingAt(c, e);
      assert All(e')[tag].retryAt == Deadlines(e')[tag];
      if tag < e.accepted {
        RunDeadlines(c, steps[..n], tag);
        assert All(e)[tag].retryAt == Deadlines(e)[tag];
        ResendsPends(c, e, steps[n]);
      }
    }
  }

  lemma InvAll(c: Config, e: Engine)
    requires Inv(c, e)
    ensures |All(e)| == e.accepted
  {
    hide All;
  }

  lemma PendingAt(c: Config, e: Engine)
    requires Inv(c, e)
    ensures e.pending.Some? ==> e.pending.value.tag == |e.done|
  {
    hide Loose;
    if e.pending.Some? {
      PendingTag(c, e);
    }
  }

  lemma ResendsPends(c: Config, e: Engine, step: Step)
    ensures Resends(c, e, step) || Defers(e, step) ==> e.pending.Some?
  {
  }

  /** A poll has no effect before the deadline, one timeout behind that tick; from then on
      it makes an attempt or completes the request. */
  lemma PollDue(c: Config, steps: seq<Step>, env: Env)
    requires Run(c, INIT, steps).pending.Some?
    ensures var e := Run(c, INIT, steps);
            var e', tag := Next(c, e, Poll(env)), e.pending.value.tag;
            && (env.tick < Armed(c, steps, tag) + c.timeout ==> e' == e)
            && (env.tick >= Armed(c, steps, tag) + c.timeout ==>
                  if e.pending.value.retryCount < c.maxRetry then |e'.attempts| == |e.attempts| + 1
                  else |e'.done| > |e.done| && e'.done[|e.done|].err == -6)
  {
    var e := Run(c, INIT, steps);
    RunInv(c, steps);
    PendingAt(c, e);
    hide Run;
    PendingTag(c, e);
    RunDeadlines(c, steps, e.pending.value.tag);
    NextCodes(c, e, Poll(env));
    hide Inv, Armed, Errs;
    if Due(e, Poll(env)) {
      hide Next;
      var e' := Next(c, e, Poll(env));
      if !Resends(c, e, Poll(env)) {
        assert e'.done[|e.done|].err == Errs(e'.done)[|e.done|];
      }
    }
  }
}
