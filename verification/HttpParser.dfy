/** The HTTP parser object: it takes buffers, and jumps over body bytes in them. */
module HttpParser {
  import opened Wrappers
  import opened HttpBody

  class Executor {
    const m: Message
    var state: State
    var contentLength: nat
    var nread: nat
    var trailing: bool
    var errno: Errno
    /** Every notification so far; one event for each byte handed to `on_body`. */
    var log: seq<Event>

    ghost function Abs(): Parser
      reads this
    {
      Parser(state, contentLength, nread, trailing, errno)
    }

    constructor (m: Message, contentLength: nat)
      requires contentLength <= ULLONG_MAX
      ensures this.m == m && log == []
      ensures Abs() == Parser(HeadersAlmostDone, contentLength, 0, false, HPE_OK) && Sound(m, Abs())
    {
      this.m := m;
      this.state, this.contentLength, this.nread := HeadersAlmostDone, contentLength, 0;
      this.trailing, this.errno, this.log := false, HPE_OK, [];
    }

    /** `on_body` for the bytes from the mark to `to`, if a mark is set. */
    method CallbackBody(data: seq<byte>, mark: int, to: nat)
      requires -1 <= mark <= to <= |data|
      modifies this`log
      ensures log == old(log) + if mark == -1 then [] else BodyEvents(data[mark..to])
    {
      if mark != -1 {
        var k := mark;
        while k < to
          invariant mark <= k <= to
          invariant log == old(log) + BodyEvents(data[mark..k])
        {
          assert data[mark..k + 1][..k - mark] == data[mark..k];
          log := log + [Body(data[k])];
          k := k + 1;
        }
      }
    }

    /** `on_headers_complete`, and where the end of the headers leads. */
    method HeadersDone()
      requires state == HeadersAlmostDone
      modifies this
      ensures var t := AfterHeaders(m, old(Abs())); Abs() == t.p && log == old(log) + t.events
    {
      log := log + [HeadersComplete];
      nread := 0;
      if m.skipBody {
        state := NewMessage(m, contentLength);
        log := log + [MessageComplete];
      } else if m.chunked {
        state := ChunkSizeStart;
      } else if contentLength == 0 {
        state := NewMessage(m, contentLength);
        log := log + [MessageComplete];
      } else if contentLength != ULLONG_MAX {
        state := BodyIdentity;
      } else if !NeedsEof(m, contentLength) {
        state := NewMessage(m, contentLength);
        log := log + [MessageComplete];
      } else {
        state := BodyIdentityEof;
      }
    }

    /** The states that look at single bytes. */
    method TakeOne(ch: byte) returns (ok: bool)
      requires errno == HPE_OK && Sound(m, Abs().(nread := if nread == 0 then 0 else nread - 1))
      requires !(state.BodyIdentity? || state.BodyIdentityEof? || state.ChunkData?)
      modifies this
      ensures var t := TakeByte(m, old(Abs()), ch);
              Abs() == t.p && ok == t.ok && log == old(log) + t.events
    {
      match state {
      case Dead =>
        if ch != CR && ch != LF {
          errno := HPE_CLOSED_CONNECTION;
        }
      case Start =>
        errno := BeyondModel;
      case HeaderFieldStart =>
        if ch == CR {
          state := HeadersAlmostDone;
        } else if ch == LF {
          state := HeadersAlmostDone;
          EndOfHeaders(ch);
        } else {
          errno := BeyondModel;
        }
      case HeadersAlmostDone =>
        EndOfHeaders(ch);
      case ChunkSizeStart =>
        if Unhex(ch) == -1 {
          errno := HPE_INVALID_CHUNK_SIZE;
        } else {
          contentLength := Unhex(ch);
          state := ChunkSize;
        }
      case ChunkSize =>
        if ch == CR {
          state := ChunkSizeAlmostDone;
        } else if Unhex(ch) == -1 {
          if ch == SEMICOLON || ch == SPACE {
            state := ChunkParameters;
          } else {
            errno := HPE_INVALID_CHUNK_SIZE;
          }
        } else {
          var t := (contentLength * 16 + Unhex(ch)) % 0x1_0000_0000_0000_0000;
          if (ULLONG_MAX - 16) / 16 < contentLength {
            errno := HPE_INVALID_CONTENT_LENGTH;
          } else {
            contentLength := t;
          }
        }
      case ChunkParameters =>
        if ch == CR {
          state := ChunkSizeAlmostDone;
        }
      case ChunkSizeAlmostDone =>
        if ch != LF {
          errno := HPE_STRICT;
        } else {
          nread := 0;
          if contentLength == 0 {
            trailing := true;
            state := HeaderFieldStart;
          } else {
            state := ChunkData;
          }
          log := log + [ChunkHeader];
        }
      case ChunkDataAlmostDone =>
        if ch != CR {
          errno := HPE_STRICT;
        } else {
          state := ChunkDataDone;
        }
      case ChunkDataDone =>
        if ch != LF {
          errno := HPE_STRICT;
        } else {
          nread := 0;
          state := ChunkSizeStart;
          log := log + [ChunkComplete];
        }
      }
      ok := errno == HPE_OK;
    }

    method EndOfHeaders(ch: byte)
      requires state == HeadersAlmostDone && errno == HPE_OK
      modifies this
      ensures var t := EndHeaders(m, old(Abs()), ch); Abs() == t.p && log == old(log) + t.events
    {
      if ch != LF {
        errno := HPE_STRICT;
      } else if trailing {
        log := log + [ChunkComplete];
        state := NewMessage(m, contentLength);
        log := log + [MessageComplete];
      } else if m.chunked && m.hasLength {
        errno := HPE_UNEXPECTED_CONTENT_LENGTH;
      } else {
        HeadersDone();
      }
    }

    /** The events of the bytes behind a mark that have not been notified yet. */
    ghost function Pending(data: seq<byte>, mark: int, p: int): seq<Event>
      requires -1 <= mark <= p <= |data| && 0 <= p
    {
      if mark == -1 then [] else BodyEvents(data[mark..p])
    }

    /** The parser has taken the first `p` bytes of the buffer, without an error. */
    ghost predicate Consumed(start: Parser, log0: seq<Event>, data: seq<byte>, mark: int, p: int)
      requires -1 <= mark <= p <= |data| && 0 <= p
      reads this
    {
      var r := Feed(m, start, data[..p]);
      && errno == HPE_OK && Sound(m, Abs())
      && r.p == Abs() && log + Pending(data, mark, p) == log0 + r.events
      && (mark != -1 ==> state == ChunkDataAlmostDone || p == |data|)
      && (mark != -1 && state == ChunkDataAlmostDone ==> log == log0 + Trim(r.events))
      && (mark == -1 && state == ChunkDataAlmostDone ==> p == 0)
      && (mark == -1 && state == ChunkData ==> Trim(r.events) == r.events)
    }

    /** A stretch of body bytes, taken at once; the notification may have to wait. */
    method TakeBody(ghost start: Parser, ghost log0: seq<Event>, data: seq<byte>, mark0: int, p: nat)
      returns (mark: int, next: nat)
      requires -1 <= mark0 <= p < |data| && Consumed(start, log0, data, mark0, p)
      requires state.BodyIdentity? || state.BodyIdentityEof? || state.ChunkData?
      modifies this
      ensures -1 <= mark <= next <= |data| && p < next && Consumed(start, log0, data, mark, next)
    {
      hide Feed, Byte, Sound, BodyEvents, Trim;
      ghost var before, log1 := Abs(), log;
      ghost var r := Feed(m, start, data[..p]);
      assert mark0 == -1 && log0 + r.events == log1 + [] == log1;
      mark, next := TakeStretch(data, mark0, p);
      TrimBody(r.events, data[p..next]);
      ghost var s := Feed(m, before, data[p..next]);
      assert data[..next] == data[..p] + data[p..next];
      FeedSplit(m, start, data[..p], data[p..next]);
      FeedSound(m, before, data[p..next]);
      assert log0 + (r.events + s.events) == (log0 + r.events) + s.events;
    }

    /** As many body bytes as there are, or are left of the body. */
    method TakeStretch(data: seq<byte>, mark0: int, p: nat) returns (mark: int, next: nat)
      requires p < |data| && mark0 == -1 && errno == HPE_OK && Sound(m, Abs())
      requires state.BodyIdentity? || state.BodyIdentityEof? || state.ChunkData?
      modifies this
      ensures -1 <= mark <= next <= |data| && p < next
      ensures var s := Feed(m, old(Abs()), data[p..next]);
              Abs() == s.p && errno == HPE_OK && log + Pending(data, mark, next) == old(log) + s.events
      ensures mark != -1 ==> state == ChunkDataAlmostDone || next == |data|
      ensures mark == -1 ==> state != ChunkData && state != ChunkDataAlmostDone
      ensures state == ChunkDataAlmostDone ==>
                && old(state) == ChunkData && log == old(log)
                && Feed(m, old(Abs()), data[p..next]).events == BodyEvents(data[p..next])
    {
      hide Feed, Byte, Sound, BodyEvents, NewMessage;
      ghost var before := Abs();
      mark := if mark0 == -1 then p else mark0;
      var left := |data| - p;
      if state.BodyIdentityEof? {
        next := |data|;
        assert data[p..] == data[p..next];
        EofRun(m, before, data[p..]);
      } else {
        BodyLength(m, before);
        var toRead := if contentLength < left then contentLength else left;
        next := p + toRead;
        contentLength := contentLength - toRead;
        if state.ChunkData? {
          ChunkDataRun(m, before, data[p..next]);
          if contentLength == 0 {
            state := ChunkDataAlmostDone;
          }
        } else {
          IdentityRun(m, before, data[p..next]);
          if contentLength == 0 {
            CallbackBody(data, mark, next);
            mark := -1;
            state := NewMessage(m, contentLength);
            log := log + [MessageComplete];
          }
        }
      }
    }

    /** A byte counts towards the header size limit, and is taken if it keeps within it. */
    method TakeCounted(ch: byte) returns (ok: bool)
      requires errno == HPE_OK && Sound(m, Abs())
      requires !(state.BodyIdentity? || state.BodyIdentityEof? || state.ChunkData?)
      modifies this
      ensures var t := Byte(m, old(Abs()), ch); Abs() == t.p && ok == t.ok && log == old(log) + t.events
    {
      hide TakeByte, Sound;
      SoundLess(m, Abs());
      if ParsingHeader(state) {
        nread := nread + 1;
        if nread > HTTP_MAX_HEADER_SIZE {
          errno := HPE_HEADER_OVERFLOW;
          assert log + [] == log;
          return false;
        }
      }
      ok := TakeOne(ch);
    }

    /** A single byte; when it is rejected, the run ends here, and a pending
        notification is lost. */
    method TakeSingle(ghost start: Parser, ghost log0: seq<Event>, data: seq<byte>, mark0: int, p: nat)
      returns (ok: bool, mark: int)
      requires -1 <= mark0 <= p < |data| && Consumed(start, log0, data, mark0, p)
      requires !(state.BodyIdentity? || state.BodyIdentityEof? || state.ChunkData?)
      modifies this
      ensures ok ==> -1 <= mark <= p + 1 && Consumed(start, log0, data, mark, p + 1)
      ensures !ok ==>
                var r := Feed(m, start, data);
                && Abs() == r.p && errno != HPE_OK && r.n == p && Sound(m, Abs())
                && log == log0 + if state == ChunkDataAlmostDone then Trim(r.events) else r.events
    {
      hide Feed, Byte, BodyEvents, Trim, Sound;
      ghost var before, log1 := Abs(), log;
      ghost var r, t := Feed(m, start, data[..p]), Byte(m, before, data[p]);
      FeedNext(m, start, data, p);
      ByteSound(m, before, data[p]);
      SilentByte(m, before, data[p]);
      OtherByte(m, before, data[p]);
      NothingFed(m, start, data);
      TrimNothing();
      mark := mark0;
      var inBody := state.ChunkDataAlmostDone?;
      ok := TakeCounted(data[p]);
      if !ok {
        assert r.events + [] == r.events && log1 + [] == log1;
        return;
      }
      if inBody {
        assert log1 + [] == log1;
        CallbackBody(data, mark, p);
        mark := -1;
        assert log == log1 + Pending(data, mark0, p);
        assert log0 + (r.events + []) == log;
      } else {
        assert mark == -1 && log1 + [] == log1;
      }
      assert log + [] == log;
      TrimSnoc(r.events, ChunkHeader);
      assert log0 + (r.events + t.events) == (log0 + r.events) + t.events;
    }

    method Execute(data: seq<byte>) returns (n: nat)
      requires Sound(m, Abs())
      modifies this
      ensures Sound(m, Abs())
      ensures var r := if data == [] then AtEof(old(Abs())) else Feed(m, old(Abs()), data);
              if old(errno) != HPE_OK then n == 0 && Abs() == old(Abs()) && log == old(log)
              else && Abs() == r.p && n == r.n
                   && (errno == HPE_OK ==> log == old(log) + r.events)
                   && log == old(log) + if data != [] && errno != HPE_OK && state == ChunkDataAlmostDone
                                        then Trim(r.events) else r.events
    {
      hide Feed, Byte, Sound, BodyEvents, Trim;
      if errno != HPE_OK {
        return 0;
      }
      if |data| == 0 {
        AtEofSound(m, Abs());
        match state {
          case BodyIdentityEof =>
            log := log + [MessageComplete];
            return 0;
          case Dead =>
            return 0;
          case Start =>
            return 0;
          case _ =>
            errno := HPE_INVALID_EOF_STATE;
            assert log == old(log) + [];
            return 1;
        }
      }
      ghost var start := Abs();
      var p, mark := 0, -1;
      NothingFed(m, start, data);
      TrimNothing();
      while p != |data|
        invariant -1 <= mark <= p <= |data| && 0 <= p
        invariant Consumed(start, old(log), data, mark, p)
      {
        if state.BodyIdentity? || state.BodyIdentityEof? || state.ChunkData? {
          mark, p := TakeBody(start, old(log), data, mark, p);
        } else {
          var ok;
          ok, mark := TakeSingle(start, old(log), data, mark, p);
          if !ok {
            return p;
          }
          p := p + 1;
        }
      }
      CallbackBody(data, mark, p);
      n := |data|;
      assert data[..p] == data;
    }
  }

  lemma SilentByte(m: Message, p: Parser, c: byte)
    ensures p.state.ChunkDataAlmostDone? ==> Byte(m, p, c).events == []
  {
  }

  lemma SoundLess(m: Message, p: Parser)
    requires Sound(m, p)
    ensures Sound(m, p.(nread := if p.nread == 0 then 0 else p.nread - 1))
    ensures ParsingHeader(p.state) ==>
              var q := p.(nread := p.nread + 1);
              Sound(m, q.(nread := if q.nread == 0 then 0 else q.nread - 1))
  {
  }

  lemma NothingFed(m: Message, p: Parser, data: seq<byte>)
    ensures Feed(m, p, data[..0]) == Fed(p, [], 0)
  {
  }

  lemma AtEofSound(m: Message, p: Parser)
    requires Sound(m, p)
    ensures Sound(m, AtEof(p).p)
  {
  }

  lemma BodyLength(m: Message, p: Parser)
    requires Sound(m, p) && (p.state.BodyIdentity? || p.state.ChunkData?)
    ensures p.len > 0
  {
  }

  /** Feeding a body in any non-empty pieces leaves the same parser state, error
      and total offset as feeding it at once; without an error also the same
      notifications and the same body bytes. */
  method ExecuteParts(e: Executor, parts: seq<seq<byte>>) returns (n: nat)
    requires Sound(e.m, e.Abs()) && e.errno == HPE_OK
    requires forall part | part in parts :: part != []
    modifies e
    ensures var r := Feed(e.m, old(e.Abs()), Concat(parts));
            && e.Abs() == r.p && n == r.n
            && (e.errno == HPE_OK ==> e.log == old(e.log) + r.events)
  {
    hide Feed, Sound;
    n := 0;
    ghost var m, start := e.m, e.Abs();
    FeedInParts(m, start, parts);
    for k := 0 to |parts|
      invariant Sound(m, e.Abs())
      invariant var r := FeedAll(m, start, parts[..k]);
                && e.Abs() == r.p && n == r.n
                && (e.errno == HPE_OK ==> e.log == old(e.log) + r.events)
    {
      ghost var r := FeedAll(m, start, parts[..k]);
      assert parts[..k + 1][..k] == parts[..k];
      assert parts[k] in parts;
      if e.errno != HPE_OK {
        FeedStuck(m, e.Abs(), parts[k]);
      }
      var taken := e.Execute(parts[k]);
      n := n + taken;
      ghost var s := Feed(m, r.p, parts[k]);
      assert old(e.log) + (r.events + s.events) == (old(e.log) + r.events) + s.events;
      assert r.events + [] == r.events;
    }
    assert parts[..|parts|] == parts;
  }

  /** The digit loop of a `Content-Length` value. */
  method ReadContentLength(v: seq<byte>) returns (r: Option<nat>)
    requires |v| > 0
    ensures r == ContentLength(v)
  {
    if !(48 <= v[0] <= 57) {
      NoLength(v, 1);
      return None;
    }
    var len: nat := v[0] - 48;
    var i := 1;
    while i < |v|
      invariant 1 <= i <= |v| && ContentLength(v[..i]) == Some(len)
    {
      assert v[..i + 1][..i] == v[..i];
      if v[i] != SPACE {
        if !(48 <= v[i] <= 57) || (ULLONG_MAX - 10) / 10 < len {
          NoLength(v, i + 1);
          return None;
        }
        len := (len * 10 + (v[i] - 48)) % 0x1_0000_0000_0000_0000;
      }
      i := i + 1;
    }
    assert v[..i] == v;
    r := Some(len);
  }

  /** A rejected prefix rejects the value. */
  lemma {:induction false} NoLength(v: seq<byte>, k: nat)
    requires 0 < k <= |v| && ContentLength(v[..k]) == None
    ensures ContentLength(v) == None
    decreases |v|
  {
    if k == |v| {
      assert v[..k] == v;
    } else {
      assert v[..|v| - 1][..k] == v[..k];
      NoLength(v[..|v| - 1], k);
    }
  }
}
