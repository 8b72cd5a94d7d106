/** The ZMTP device object, which carries the request engine. */
module ZmtpDevice {
  import opened Wrappers
  import opened Requests
  import K = KList

  /** A signed 32-bit integer as a frame of four bytes, most significant first. */
  function WriteI32(n: int): (b: seq<byte>)
    requires -0x8000_0000 <= n < 0x8000_0000
    ensures |b| == 4
  {
    var u: int := if n < 0 then n + 0x1_0000_0000 else n;
    [u / 0x100_0000 % 0x100, u / 0x1_0000 % 0x100, u / 0x100 % 0x100, u % 0x100]
  }

  function ReadI32(b: seq<byte>): int
    requires |b| == 4
  {
    var u: int := ((b[0] as int * 0x100 + b[1]) * 0x100 + b[2]) * 0x100 + b[3];
    if u >= 0x8000_0000 then u - 0x1_0000_0000 else u
  }

  lemma FourBytes(u: nat)
    requires u < 0x1_0000_0000
    ensures var high := u / 0x100_0000 % 0x100 * 0x100 + u / 0x1_0000 % 0x100;
            (high * 0x100 + u / 0x100 % 0x100) * 0x100 + u % 0x100 == u
  {
    var v := u / 0x100;
    var w := v / 0x100;
    assert u / 0x1_0000 == w && u / 0x100_0000 == w / 0x100;
  }

  lemma I32RoundTrip(n: int)
    requires -0x8000_0000 <= n < 0x8000_0000
    ensures ReadI32(WriteI32(n)) == n
  {
    var u := if n < 0 then n + 0x1_0000_0000 else n;
    FourBytes(u);
    var b := WriteI32(n);
    assert b[0] == u / 0x100_0000 % 0x100 && b[1] == u / 0x1_0000 % 0x100;
    assert b[2] == u / 0x100 % 0x100 && b[3] == u % 0x100;
  }

  /** A request in flight or waiting; `idFrame` is empty until the first attempt. */
  class Message {
    ghost const tag: nat
    var retryAt: nat
    var retryCount: nat
    var sentAt: nat
    var idFrame: seq<byte>
    var routerFrame: seq<byte>
    ghost var sends: nat
    ghost var expired: nat

    constructor (ghost tag: nat, retryAt: nat)
      ensures Is(Request(tag, -1, retryAt, 0, 0, 0))
    {
      this.tag, this.retryAt, retryCount, sentAt := tag, retryAt, 0, 0;
      idFrame, routerFrame, sends, expired := [], [], 0, 0;
    }

    /** This message, as a value. */
    ghost predicate Is(r: Request)
      reads this
    {
      && r.tag == tag && r.retryAt == retryAt && r.retryCount == retryCount
      && r.sends == sends && r.expired == expired
      && (if idFrame == [] then r.id == -1 else |idFrame| == 4 && ReadI32(idFrame) == r.id)
    }
  }

  class Device {
    const c: Config
    var pending: Message?
    var queue: K.Queue<Message?>
    var reqid: nat
    var router: seq<byte>

    ghost var now: Engine
    ghost var Repr: set<object>

    /** The objects carry the state `now` of the engine. */
    ghost predicate Valid()
      reads this, Repr
    {
      && this in Repr && queue in Repr && queue.Repr <= Repr && this !in queue.Repr && queue.Valid()
      && now.reqid == reqid && Carries()
    }

    ghost predicate Carries()
      reads this, Repr
      requires queue in Repr
    {
      && (if pending == null then now.pending == None
          else && pending in Repr && pending !in queue.Repr && pending !in queue.Contents
               && now.pending.Some? && pending.Is(now.pending.value))
      && |queue.Contents| == |now.queue|
      && (forall i | 0 <= i < |now.queue| ::
            var m := queue.Contents[i];
            m != null && m in Repr && m !in queue.Repr && m.Is(now.queue[i]))
      && K.Distinct(queue.Contents)
    }

    constructor (c: Config, router: seq<byte>)
      ensures Valid() && fresh(Repr) && this.c == c && now == INIT
    {
      this.c, this.router, pending, reqid := c, router, null, 0;
      var q := new K.Queue<Message?>();
      queue := q;
      now := INIT;
      Repr := {this, q} + q.Repr;
    }

    /** What the objects tell about the state of the engine. */
    lemma Mirrors()
      requires Valid()
      ensures this in Repr && (pending == null <==> now.pending.None?) && queue.size == |now.queue|
      ensures reqid == now.reqid
      ensures pending != null ==>
                pending in Repr && pending.retryAt == now.pending.value.retryAt
                && pending.retryCount == now.pending.value.retryCount
    {
      hide K.Distinct;
    }

    method Enqueue(tick: nat)
      requires Valid()
      modifies Repr
      ensures Valid() && fresh(Repr - old(Repr))
      ensures now == Submit(c, old(now), tick, 1) && pending == old(pending)
    {
      hide ReadI32, K.Queue.Valid, K.Distinct, Submit;
      var m := new Message(now.accepted, tick + c.timeout);
      queue.Push(m);
      SubmitFirst(c, now, tick);
      DistinctSnoc(old(queue.Contents), m);
      now := Submit(c, now, tick, 1);
      Repr := Repr + {m} + queue.Repr;
    }

    method EnqueueMany(tick: nat, k: nat)
      requires Valid()
      modifies Repr
      ensures Valid() && fresh(Repr - old(Repr))
      ensures now == Submit(c, old(now), tick, k) && pending == old(pending)
    {
      hide *;
      SubmitNone(c, now, tick);
      for i := 0 to k
        invariant Valid() && fresh(Repr - old(Repr)) && pending == old(pending)
        invariant now == Submit(c, old(now), tick, i)
      {
        SubmitOne(c, old(now), tick, i);
        Enqueue(tick);
      }
    }

    /** `request_id_set`: a fresh id frame, unless the device is a legacy one. */
    method RequestIdSet(m: Message)
      requires reqid < 0x7fff_ffff
      modifies this`reqid, m`idFrame
      ensures if c.legacy then m.idFrame == [] && reqid == old(reqid)
              else |m.idFrame| == 4 && ReadI32(m.idFrame) == old(reqid) && reqid == old(reqid) + 1
    {
      m.idFrame := [];
      if !c.legacy {
        I32RoundTrip(reqid);
        m.idFrame := WriteI32(reqid);
        reqid := reqid + 1;
      }
    }

    method RequestRouterIdSet(m: Message)
      modifies m`routerFrame
      ensures |router| > 0 ==> m.routerFrame == router
    {
      if |router| > 0 && m.routerFrame != router {
        m.routerFrame := router;
      }
    }

    /** The callback of the pending request, which may submit more, and its removal. */
    method RequestResolve(err: int, tick: nat, again: nat, ghost ioFailed: bool)
      requires Valid() && pending != null
      modifies Repr
      ensures Valid() && fresh(Repr - old(Repr)) && pending == null
      ensures var e := Resolve(c, old(now), err, tick, again);
              now == if ioFailed then e.(ioFailed := true) else e
    {
      hide Submit, Fresh, K.Queue.Valid, K.Distinct, ReadI32;
      EnqueueMany(tick, again);
      SubmitSteady(c, old(now), tick, again);
      now := now.(done := now.done + [Done(now.pending.value, err)], pending := None,
                  ioFailed := now.ioFailed || ioFailed);
      pending := null;
    }

    /** The frames and the time of an attempt. */
    method Prepare(m: Message, tick: nat, ghost r: Request)
      requires m.Is(r) && reqid < 0x7fff_ffff
      modifies this`reqid, m
      ensures m.Is(r.(id := if c.legacy then -1 else old(reqid), sends := r.sends + 1))
      ensures reqid == if c.legacy then old(reqid) else old(reqid) + 1
    {
      hide ReadI32;
      RequestIdSet(m);
      RequestRouterIdSet(m);
      m.sentAt := tick;
      m.sends := m.sends + 1;
    }

    /** An attempt at the pending request takes the next id. */
    method Stamp(tick: nat, ghost r: Request)
      requires Valid() && pending != null && reqid < 0x7fff_ffff && now.pending == Some(r)
      modifies this, pending
      ensures Valid() && Repr == old(Repr) && pending == old(pending)
      ensures reqid <= old(reqid) + 1
      ensures var id := if c.legacy then -1 else old(now).reqid;
              now == old(now).(pending := Some(r.(id := id, sends := r.sends + 1)),
                               reqid := if c.legacy then old(now).reqid else old(now).reqid + 1,
                               attempts := old(now).attempts + [Requests.Attempt(id, r.tag)])
    {
      hide K.Distinct, K.Queue.Valid, ReadI32, Message.Is;
      Prepare(pending, tick, r);
      ghost var id := if c.legacy then -1 else now.reqid;
      now := now.(pending := Some(r.(id := id, sends := r.sends + 1)), reqid := reqid,
                  attempts := now.attempts + [Requests.Attempt(id, r.tag)]);
    }

    /** Sends the pending request; a failure completes it. */
    method Attempt(env: Env, ghost before: Engine, ghost r: Request)
      requires Valid() && pending != null && reqid < 0x7fff_ffff
      requires now == before.(pending := Some(r))
      modifies Repr
      ensures Valid() && fresh(Repr - old(Repr))
      ensures now == Transmit(c, before, r, env)
    {
      hide Valid, Resolve;
      Mirrors();
      Stamp(env.tick, r);
      if !env.sent {
        RequestResolve(LINQ_ERROR_IO, env.tick, env.onFail, true);
      }
    }

    /** The next request of the backlog, if any, becomes the pending one. */
    method PopPending()
      requires Valid() && pending == null
      modifies Repr
      ensures Valid() && fresh(Repr - old(Repr)) && reqid == old(reqid)
      ensures now == Pop(old(now)) && (old(now).queue != [] ==> pending != null)
    {
      hide K.Queue.Valid, ReadI32;
      var head := queue.Shift();
      if head.Some? {
        pending := head.value;
        now := now.(pending := Some(now.queue[0]), queue := now.queue[1..]);
      }
      Repr := Repr + queue.Repr;
    }

    method RequestFlush(env: Env)
      requires Valid() && pending == null && now.queue != [] && reqid < 0x7fff_ffff
      modifies Repr
      ensures Valid() && fresh(Repr - old(Repr))
      ensures now == Flush(c, old(now), env)
    {
      hide Valid, Transmit;
      Mirrors();
      ghost var r, rest := now.queue[0], now.(queue := now.queue[1..]);
      PopPending();
      Attempt(env, rest, r);
    }

    method FlushWCheck(env: Env)
      requires Valid() && reqid < 0x7fff_ffff
      modifies Repr
      ensures Valid() && fresh(Repr - old(Repr))
      ensures now == Flush(c, old(now), env)
    {
      hide Valid, Transmit;
      Mirrors();
      if queue.size > 0 && pending == null {
        RequestFlush(env);
      }
    }

    /** New retry data of the pending request, which stays the same one. */
    method Mark(retryAt: nat, retryCount: nat, ghost expired: nat)
      requires Valid() && pending != null
      modifies this`now, pending
      ensures Valid() && now.pending.Some? && old(now).pending.Some?
      ensures var r := old(now).pending.value.(retryAt := retryAt, retryCount := retryCount, expired := expired);
              now == old(now).(pending := Some(r))
    {
      hide K.Queue.Valid, K.Distinct, ReadI32;
      pending.retryAt, pending.retryCount, pending.expired := retryAt, retryCount, expired;
      ghost var r := now.pending.value.(retryAt := retryAt, retryCount := retryCount, expired := expired);
      now := now.(pending := Some(r));
    }

    method RequestRetry(env: Env)
      requires Valid() && pending != null && reqid < 0x7fff_ffff
      modifies Repr
      ensures Valid() && fresh(Repr - old(Repr))
      ensures now == Retry(c, old(now), env)
    {
      hide Valid, Transmit;
      Mirrors();
      ghost var was := now;
      Mark(env.tick + c.timeout, pending.retryCount + 1, now.pending.value.expired + 1);
      Attempt(env, was, now.pending.value);
    }

    // ---------------------------------------------------------------- the steps

    method ZmtpSend(env: Env)
      requires Valid() && reqid < 0x7fff_ffff
      modifies Repr
      ensures Valid() && fresh(Repr - old(Repr))
      ensures now == Next(c, old(now), Send(env))
    {
      hide Valid, Flush;
      Mirrors();
      SubmitSteady(c, now, env.tick, 1);
      hide Submit;
      Enqueue(env.tick);
      Mirrors();
      FlushWCheck(env);
    }

    /** A request that ran out of retries. */
    method RequestTimeout(env: Env)
      requires Valid() && pending != null && reqid < 0x7fff_ffff
      modifies Repr
      ensures Valid() && fresh(Repr - old(Repr))
      ensures now == TimeOut(c, old(now), env)
    {
      hide Valid, Flush, Submit;
      Mirrors();
      Mark(pending.retryAt, pending.retryCount, now.pending.value.expired + 1);
      SubmitSteady(c, now, env.tick, env.onDone);
      RequestResolve(LINQ_ERROR_TIMEOUT, env.tick, env.onDone, false);
      Mirrors();
      FlushWCheck(env);
    }

    method ZmtpPoll(env: Env)
      requires Valid() && reqid < 0x7fff_ffff
      modifies Repr
      ensures Valid() && fresh(Repr - old(Repr))
      ensures now == Next(c, old(now), Poll(env))
    {
      hide Valid, Retry, TimeOut;
      Mirrors();
      if pending != null {
        if env.tick >= pending.retryAt {
          if !(pending.retryCount >= c.maxRetry) {
            RequestRetry(env);
          } else {
            RequestTimeout(env);
          }
        }
      }
    }

    function RequestPending(id: int): bool
      reads this
    {
      pending != null && (id >= 0 ==> id == reqid - 1)
    }

    /** `process_response`; a malformed message changes nothing. */
    method ProcessResponse(env: Env, ver: byte, frames: seq<seq<byte>>)
      requires Valid() && reqid < 0x7fff_ffff && NoFrameMissing(ver, frames)
      requires ver == FRAME_VER_0 <==> c.legacy
      modifies Repr
      ensures Valid() && fresh(Repr - old(Repr))
      ensures now == match ParseResponse(ver, frames)
                     case None => old(now)
                     case Some((id, err)) => Next(c, old(now), Reply(env, id, err))
    {
      var parsed := ParseResponse(ver, frames);
      if parsed.Some? {
        HandleResponse(env, parsed.value.0, parsed.value.1);
      }
    }

    /** A well-formed response: its id (-1 without an id frame), and its error code. */
    method HandleResponse(env: Env, id: int, err: int)
      requires Valid() && reqid < 0x7fff_ffff
      modifies Repr
      ensures Valid() && fresh(Repr - old(Repr))
      ensures now == Next(c, old(now), Reply(env, id, err))
    {
      hide Valid, Flush, Resolve;
      Mirrors();
      if RequestPending(id) {
        if err == LINQ_ERROR_504 {
          if pending.retryCount >= LINQ_NETW_MAX_RETRY {
            Complete(env, err);
          } else {
            Mark(env.tick + c.timeout, pending.retryCount, now.pending.value.expired);
          }
        } else {
          Complete(env, err);
        }
      }
    }

    /** The pending request is done, and the next one follows. */
    method Complete(env: Env, err: int)
      requires Valid() && pending != null && reqid < 0x7fff_ffff
      modifies Repr
      ensures Valid() && fresh(Repr - old(Repr))
      ensures now == Flush(c, Resolve(c, old(now), err, env.tick, env.onDone), env)
    {
      hide Valid, Flush, Submit;
      Mirrors();
      SubmitSteady(c, now, env.tick, env.onDone);
      RequestResolve(err, env.tick, env.onDone, false);
      Mirrors();
      FlushWCheck(env);
    }

    /** `calls` is what the callbacks submit on the way. */
    method ZmtpDestroy(calls: seq<Env>)
      requires Valid()
      modifies Repr
      ensures Valid() && now == Destroy(c, old(now), calls)
    {
      hide Valid, Submitted, Resolve, Pop;
      Mirrors();
      var left := calls;
      while pending != null
        invariant Valid() && fresh(Repr - old(Repr))
        invariant pending == null <==> now.pending.None?
        invariant Destroy(c, now, left) == Destroy(c, old(now), calls)
        decreases Left(now, left)
      {
        var env := FirstCall(left);
        RequestResolve(LINQ_ERROR_SHUTTING_DOWN, env.tick, env.onDone, false);
        PopPending();
        Mirrors();
        left := LaterCalls(left);
      }
      ListDestroy();
    }

    /** `request_list_destroy`: what is still in the backlog is dropped. */
    method ListDestroy()
      requires Valid() && pending == null
      modifies Repr
      ensures Valid() && fresh(Repr - old(Repr)) && now == old(now).(queue := [])
    {
      var next := queue.Shift();
      while next.Some?
        invariant queue == old(queue) && pending == null && reqid == old(reqid)
        invariant now == old(now) && Repr == old(Repr)
        invariant queue.Valid() && this !in queue.Repr && fresh(queue.Repr - old(Repr))
        invariant next.None? ==> queue.Contents == []
        decreases |queue.Contents|, next.Some?
      {
        next := queue.Shift();
      }
      now := now.(queue := []);
      Repr := Repr + queue.Repr;
    }
  }

  const FRAME_VER_0: byte := 0
  const FRAME_VER_1: byte := 1
  const JSON_LEN := 8192

  /** The message is not cut off right in front of its last frame. */
  predicate NoFrameMissing(ver: byte, frames: seq<seq<byte>>) {
    && (ver == FRAME_VER_0 ==> |frames| != 5)
    && (ver == FRAME_VER_1 ==> |frames| != 6)
  }

  /** The frames of a response, from the router id on: its request id (-1 in the
      legacy protocol) and its signed 16-bit error code. */
  function ParseResponse(ver: byte, frames: seq<seq<byte>>): (r: Option<(int, int)>)
    requires NoFrameMissing(ver, frames)
  {
    if ver == FRAME_VER_0 && |frames| >= 5 && |frames[4]| == 2 && |frames[5]| <= JSON_LEN then
      Some((-1, ErrorCode(frames[4])))
    else if ver == FRAME_VER_1 && |frames| >= 6
         && |frames[4]| == 4 && |frames[5]| == 2 && |frames[6]| <= JSON_LEN then
      Some((ReadI32(frames[4]), ErrorCode(frames[5])))
    else None
  }

  function ErrorCode(b: seq<byte>): int
    requires |b| == 2
  {
    var u: int := b[0] as int * 0x100 + b[1];
    if u >= 0x8000 then u - 0x1_0000 else u
  }

  /** Numbers in frames are in two's complement, the highest byte first. */
  lemma FrameNumbers(id: seq<byte>, err: seq<byte>)
    requires |id| == 4 && |err| == 2
    ensures -0x8000_0000 <= ReadI32(id) < 0x8000_0000
    ensures (ReadI32(id) + 0x1_0000_0000) % 0x1_0000_0000
         == 0x100_0000 * (id[0] as int) + 0x1_0000 * (id[1] as int) + 0x100 * (id[2] as int) + id[3]
    ensures -0x8000 <= ErrorCode(err) < 0x8000
    ensures (ErrorCode(err) + 0x1_0000) % 0x1_0000 == 0x100 * (err[0] as int) + err[1]
  {
  }

  /** A response is router, version, type and serial, then the id in the current protocol,
      and then the error and the data; the sizes decide whether it is taken. */
  lemma ResponseFrames(ver: byte, router: seq<byte>, kind: seq<byte>, serial: seq<byte>, id: seq<byte>,
                       err: seq<byte>, data: seq<byte>)
    ensures ParseResponse(1, [router, [ver], kind, serial, id, err, data])
         == if |id| == 4 && |err| == 2 && |data| <= 8192 then Some((ReadI32(id), ErrorCode(err))) else None
    ensures ParseResponse(0, [router, [ver], kind, serial, err, data])
         == if |err| == 2 && |data| <= 8192 then Some((-1, ErrorCode(err))) else None
    ensures ver > 1 ==> ParseResponse(ver, [router, [ver], kind, serial, id, err, data]) == None
    ensures ParseResponse(1, [router, [ver], kind, serial, id]) == None
    ensures ParseResponse(0, [router, [ver], kind, serial]) == None
  {
    hide ReadI32, ErrorCode;
  }

  /** 504 as it is sent. */
  lemma BusyFrame()
    ensures ErrorCode([1, 248]) == 504 && ErrorCode([255, 255]) == -1
  {
  }

  /** A reply that echoes the id frame of an attempt answers the pending request
      exactly if that was the last attempt. */
  lemma EchoedId(c: Config, e: Engine, k: nat, frames: seq<seq<byte>>)
    requires Inv(c, e) && !c.legacy && k < |e.attempts| < 0x8000_0000 && e.pending.Some?
    requires |frames| == 7 && |frames[5]| == 2 && |frames[6]| <= JSON_LEN
    requires frames[4] == WriteI32(e.attempts[k].id)
    ensures ParseResponse(FRAME_VER_1, frames) == Some((e.attempts[k].id, ErrorCode(frames[5])))
    ensures Matches(e, e.attempts[k].id) <==> k == |e.attempts| - 1
  {
    I32RoundTrip(e.attempts[k].id);
  }

  lemma DistinctSnoc<T>(s: seq<T>, x: T)
    requires K.Distinct(s) && x !in s
    ensures K.Distinct(s + [x])
  {
  }

  lemma SubmitSteady(c: Config, e: Engine, tick: nat, k: nat)
    ensures var e' := Submit(c, e, tick, k);
            e'.pending == e.pending && e'.reqid == e.reqid && e'.done == e.done && e'.ioFailed == e.ioFailed
  {
  }

  lemma SubmitNone(c: Config, e: Engine, tick: nat)
    ensures Submit(c, e, tick, 0) == e
  {
    assert e.queue + Fresh(c, e.accepted, tick, 0) == e.queue;
  }

  lemma SubmitFirst(c: Config, e: Engine, tick: nat)
    ensures Submit(c, e, tick, 1)
         == e.(queue := e.queue + [Request(e.accepted, -1, tick + c.timeout, 0, 0, 0)], accepted := e.accepted + 1)
  {
    assert Fresh(c, e.accepted, tick, 0) == [];
  }

  lemma SubmitOne(c: Config, e: Engine, tick: nat, k: nat)
    ensures Submit(c, Submit(c, e, tick, k), tick, 1) == Submit(c, e, tick, k + 1)
  {
    var r := Request(e.accepted + k, -1, tick + c.timeout, 0, 0, 0);
    assert Fresh(c, e.accepted + k, tick, 1) == [r] by { assert Fresh(c, e.accepted + k, tick, 0) == []; }
    assert e.queue + Fresh(c, e.accepted, tick, k) + [r] == e.queue + (Fresh(c, e.accepted, tick, k) + [r]);
  }
}
