/** The body states of the HTTP parser, one byte at a time. */
module HttpBody {
  import opened Wrappers

  const SEMICOLON: byte := 59

  const HTTP_MAX_HEADER_SIZE := 80 * 1024
  const ULLONG_MAX := 0xffff_ffff_ffff_ffff

  /** `Start` stands for the first state of the next message, where the model ends. */
  datatype State =
    | HeadersAlmostDone
    | ChunkSizeStart | ChunkSize | ChunkParameters | ChunkSizeAlmostDone
    | ChunkData | ChunkDataAlmostDone | ChunkDataDone
    | BodyIdentity | BodyIdentityEof
    | HeaderFieldStart | Dead | Start

  datatype Errno =
    | HPE_OK | HPE_STRICT | HPE_HEADER_OVERFLOW | HPE_INVALID_CHUNK_SIZE | HPE_INVALID_CONTENT_LENGTH
    | HPE_UNEXPECTED_CONTENT_LENGTH | HPE_CLOSED_CONNECTION | HPE_INVALID_EOF_STATE
    | BeyondModel

  /** Notifications in order; every byte handed to `on_body` is one event. */
  datatype Event = HeadersComplete | ChunkHeader | ChunkComplete | MessageComplete | Body(b: byte)

  /** What the header section of the message has settled. */
  datatype Message = Message(isRequest: bool, noBodyStatus: bool, persistent: bool, skipBody: bool,
                             chunked: bool, hasLength: bool)

  datatype Parser = Parser(state: State, len: nat, nread: nat, trailing: bool, errno: Errno)

  function NeedsEof(m: Message, len: nat): bool {
    !m.isRequest && !m.noBodyStatus && !m.skipBody && !m.chunked && len == ULLONG_MAX
  }

  function NewMessage(m: Message, len: nat): (s: State)
    ensures s == Start || s == Dead
  {
    if m.persistent && !NeedsEof(m, len) then Start else Dead
  }

  predicate ParsingHeader(s: State) {
    !(s.ChunkData? || s.ChunkDataAlmostDone? || s.ChunkDataDone? || s.BodyIdentity? || s.BodyIdentityEof?)
  }

  /** `unhex`: the value of a hexadecimal digit, or -1. */
  function Unhex(c: byte): int {
    if 48 <= c <= 57 then c - 48
    else if 65 <= c <= 70 then c - 55
    else if 97 <= c <= 102 then c - 87
    else -1
  }

  /** The outcome of a byte; a byte that is not `ok` is not consumed. */
  datatype Taken = Taken(p: Parser, events: seq<Event>, ok: bool)

  function Ok(p: Parser, events: seq<Event>): Taken {
    Taken(p, events, true)
  }

  function Fail(p: Parser, e: Errno): Taken {
    Taken(p.(errno := e), [], false)
  }

  /** Where the end of the header section leads. */
  function AfterHeaders(m: Message, p: Parser): Taken {
    var done := Ok(p.(nread := 0, state := NewMessage(m, p.len)), [HeadersComplete, MessageComplete]);
    if m.skipBody then done
    else if m.chunked then Ok(p.(nread := 0, state := ChunkSizeStart), [HeadersComplete])
    else if p.len == 0 then done
    else if p.len != ULLONG_MAX then Ok(p.(nread := 0, state := BodyIdentity), [HeadersComplete])
    else if !NeedsEof(m, p.len) then done
    else Ok(p.(nread := 0, state := BodyIdentityEof), [HeadersComplete])
  }

  /** One more hexadecimal digit of a chunk size, in 64-bit arithmetic. */
  function PushHex(p: Parser, digit: nat): Taken {
    var t := (p.len * 16 + digit) % 0x1_0000_0000_0000_0000;
    if (ULLONG_MAX - 16) / 16 < p.len then Fail(p, HPE_INVALID_CONTENT_LENGTH) else Ok(p.(len := t), [])
  }

  /** The line feed that ends the header section, or the empty trailer. */
  function EndHeaders(m: Message, p: Parser, c: byte): Taken {
    if c != LF then Fail(p, HPE_STRICT)
    else if p.trailing then Ok(p.(state := NewMessage(m, p.len)), [ChunkComplete, MessageComplete])
    else if m.chunked && m.hasLength then Fail(p, HPE_UNEXPECTED_CONTENT_LENGTH)
    else AfterHeaders(m, p)
  }

  function TakeByte(m: Message, p: Parser, c: byte): (t: Taken)
    ensures p.errno == HPE_OK ==> (t.ok <==> t.p.errno == HPE_OK)
    ensures !t.ok ==> t.events == []
  {
    match p.state
    case Dead =>
      if c == CR || c == LF then Ok(p, []) else Fail(p, HPE_CLOSED_CONNECTION)
    case Start =>
      Fail(p, BeyondModel)
    case HeadersAlmostDone =>
      EndHeaders(m, p, c)
    case BodyIdentity =>
      if p.len == 1 then Ok(p.(len := 0, state := NewMessage(m, 0)), [Body(c), MessageComplete])
      else Ok(p.(len := Less(p.len)), [Body(c)])
    case BodyIdentityEof =>
      Ok(p, [Body(c)])
    case ChunkSizeStart =>
      if Unhex(c) == -1 then Fail(p, HPE_INVALID_CHUNK_SIZE)
      else Ok(p.(len := Unhex(c), state := ChunkSize), [])
    case ChunkSize =>
      if c == CR then Ok(p.(state := ChunkSizeAlmostDone), [])
      else if Unhex(c) != -1 then PushHex(p, Unhex(c))
      else if c == SEMICOLON || c == SPACE then Ok(p.(state := ChunkParameters), [])
      else Fail(p, HPE_INVALID_CHUNK_SIZE)
    case ChunkParameters =>
      Ok(if c == CR then p.(state := ChunkSizeAlmostDone) else p, [])
    case ChunkSizeAlmostDone =>
      if c != LF then Fail(p, HPE_STRICT)
      else if p.len == 0 then Ok(p.(nread := 0, trailing := true, state := HeaderFieldStart), [ChunkHeader])
      else Ok(p.(nread := 0, state := ChunkData), [ChunkHeader])
    case ChunkData =>
      Ok(p.(len := Less(p.len), state := if p.len <= 1 then ChunkDataAlmostDone else ChunkData), [Body(c)])
    case ChunkDataAlmostDone =>
      if c != CR then Fail(p, HPE_STRICT) else Ok(p.(state := ChunkDataDone), [])
    case ChunkDataDone =>
      if c != LF then Fail(p, HPE_STRICT)
      else Ok(p.(nread := 0, state := ChunkSizeStart), [ChunkComplete])
    case HeaderFieldStart =>
      if c == CR then Ok(p.(state := HeadersAlmostDone), [])
      else if c == LF then EndHeaders(m, p.(state := HeadersAlmostDone), c)
      else Fail(p, BeyondModel)
  }

  function Less(n: nat): nat {
    if n == 0 then 0 else n - 1
  }

  /** A byte counts towards the header size limit first. */
  function Byte(m: Message, p: Parser, c: byte): (t: Taken)
    ensures p.errno == HPE_OK ==> (t.ok <==> t.p.errno == HPE_OK)
    ensures !t.ok ==> t.events == []
  {
    if !ParsingHeader(p.state) then TakeByte(m, p, c)
    else
      var q := p.(nread := p.nread + 1);
      if q.nread > HTTP_MAX_HEADER_SIZE then Fail(q, HPE_HEADER_OVERFLOW) else TakeByte(m, q, c)
  }

  /** A whole input: the parser behind it, its events, and how many bytes it consumed. */
  datatype Fed = Fed(p: Parser, events: seq<Event>, n: nat)

  function Feed(m: Message, p: Parser, data: seq<byte>): (r: Fed)
    ensures r.n <= |data| && (r.p.errno == HPE_OK ==> r.n == |data|)
  {
    if data == [] then Fed(p, [], 0)
    else
      var r := Feed(m, p, data[..|data| - 1]);
      if r.p.errno != HPE_OK then r
      else
        var t := Byte(m, r.p, data[|data| - 1]);
        Fed(t.p, r.events + t.events, r.n + if t.ok then 1 else 0)
  }

  /** An empty buffer announces the end of the connection. */
  function AtEof(p: Parser): Fed {
    if p.errno != HPE_OK then Fed(p, [], 0)
    else
      match p.state
      case BodyIdentityEof => Fed(p, [MessageComplete], 0)
      case Dead => Fed(p, [], 0)
      case Start => Fed(p, [], 0)
      case _ => Fed(p.(errno := HPE_INVALID_EOF_STATE), [], 1)
  }

  // ---------------------------------------------------------------- splitting

  function Join(r: Fed, s: Fed): Fed {
    Fed(s.p, r.events + s.events, r.n + s.n)
  }

  /** Cutting the input in two changes nothing: the second part goes on where the
      first ended (and consumes nothing when the first failed). */
  lemma {:induction false} FeedSplit(m: Message, p: Parser, a: seq<byte>, b: seq<byte>)
    ensures Feed(m, p, a + b) == Join(Feed(m, p, a), Feed(m, Feed(m, p, a).p, b))
  {
    var r := Feed(m, p, a);
    if b == [] {
      assert a + b == a;
      assert r.events + [] == r.events;
    } else {
      hide Feed, Byte;
      var init, c := b[..|b| - 1], b[|b| - 1];
      FeedSplit(m, p, a, init);
      LastByte(a, b);
      FeedSnoc(m, p, a + init, c);
      FeedSnoc(m, r.p, init, c);
      var s := Feed(m, r.p, init);
      Associate(r.events, s.events, Byte(m, s.p, c).events);
    }
  }

  lemma LastByte(a: seq<byte>, b: seq<byte>)
    requires b != []
    ensures b == b[..|b| - 1] + [b[|b| - 1]] && a + b == (a + b[..|b| - 1]) + [b[|b| - 1]]
  {
  }

  lemma FeedSnoc(m: Message, p: Parser, data: seq<byte>, c: byte)
    ensures var r := Feed(m, p, data);
            var t := Byte(m, r.p, c);
            Feed(m, p, data + [c]) == if r.p.errno != HPE_OK then r
                                      else Fed(t.p, r.events + t.events, r.n + if t.ok then 1 else 0)
  {
    hide Byte;
    assert (data + [c])[..|data|] == data;
  }

  lemma {:induction false} FeedStuck(m: Message, p: Parser, data: seq<byte>)
    requires p.errno != HPE_OK
    ensures Feed(m, p, data) == Fed(p, [], 0)
  {
    if data != [] {
      FeedStuck(m, p, data[..|data| - 1]);
    }
  }

  /** The byte at `k` is the next one: it is taken, or it ends the run. */
  lemma FeedNext(m: Message, p: Parser, data: seq<byte>, k: nat)
    requires k < |data| && Feed(m, p, data[..k]).p.errno == HPE_OK
    ensures var r := Feed(m, p, data[..k]);
            var t := Byte(m, r.p, data[k]);
            && Feed(m, p, data[..k + 1]) == Fed(t.p, r.events + t.events, r.n + if t.ok then 1 else 0)
            && (!t.ok ==> Feed(m, p, data) == Fed(t.p, r.events + t.events, k))
  {
    hide Byte;
    assert data[..k + 1][..k] == data[..k];
    var t := Byte(m, Feed(m, p, data[..k]).p, data[k]);
    if !t.ok {
      FeedStuck(m, t.p, data[k + 1..]);
      hide Feed;
      assert data[..k + 1] + data[k + 1..] == data;
      FeedSplit(m, p, data[..k + 1], data[k + 1..]);
    }
  }

  /** Any number of cuts. */
  function Concat(parts: seq<seq<byte>>): seq<byte> {
    if parts == [] then [] else Concat(parts[..|parts| - 1]) + parts[|parts| - 1]
  }

  function FeedAll(m: Message, p: Parser, parts: seq<seq<byte>>): Fed {
    if parts == [] then Fed(p, [], 0)
    else
      var r := FeedAll(m, p, parts[..|parts| - 1]);
      Join(r, Feed(m, r.p, parts[|parts| - 1]))
  }

  lemma {:induction false} FeedInParts(m: Message, p: Parser, parts: seq<seq<byte>>)
    ensures FeedAll(m, p, parts) == Feed(m, p, Concat(parts))
  {
    if parts != [] {
      var init := parts[..|parts| - 1];
      FeedInParts(m, p, init);
      FeedSplit(m, p, Concat(init), parts[|parts| - 1]);
    }
  }

  // ---------------------------------------------------------------- invariant

  /** What the assertions in the parser rely on, at every byte boundary. */
  predicate Sound(m: Message, p: Parser) {
    && p.len <= ULLONG_MAX
    && (p.errno == HPE_OK ==> p.nread <= HTTP_MAX_HEADER_SIZE)
    && match p.state
       case ChunkSizeStart => m.chunked && (p.errno == HPE_OK ==> p.nread == 0)
       case ChunkSize => m.chunked && p.len < ULLONG_MAX
       case ChunkParameters => m.chunked && p.len < ULLONG_MAX
       case ChunkSizeAlmostDone => m.chunked && p.len < ULLONG_MAX
       case ChunkData => m.chunked && 0 < p.len < ULLONG_MAX
       case ChunkDataAlmostDone => m.chunked && p.len == 0
       case ChunkDataDone => m.chunked && p.len == 0
       case BodyIdentity => 0 < p.len < ULLONG_MAX
       case HeaderFieldStart => p.trailing
       case _ => true
  }

  /** The largest chunk size that is accepted; it lies below the sentinel `ULLONG_MAX`. */
  const MAX_CHUNK := 0xffff_ffff_ffff_ffef

  /** The 64-bit update never wraps: it is exact, or rejected first. */
  lemma PushHexExact(p: Parser, digit: nat)
    requires digit < 16
    ensures PushHex(p, digit) == if p.len * 16 + digit <= MAX_CHUNK then Ok(p.(len := p.len * 16 + digit), [])
                                 else Fail(p, HPE_INVALID_CONTENT_LENGTH)
  {
    assert (ULLONG_MAX - 16) / 16 == 0x0fff_ffff_ffff_fffe;
    var t := p.len * 16 + digit;
    if p.len <= 0x0fff_ffff_ffff_fffe {
      assert t % 0x1_0000_0000_0000_0000 == t;
    }
  }

  lemma UnhexRange(c: byte)
    ensures -1 <= Unhex(c) < 16
  {
  }

  lemma AfterHeadersSound(m: Message, p: Parser)
    requires p.len <= ULLONG_MAX && p.nread <= HTTP_MAX_HEADER_SIZE && p.errno == HPE_OK
    ensures Sound(m, AfterHeaders(m, p).p)
  {
    hide NewMessage, NeedsEof;
  }

  lemma EndHeadersSound(m: Message, p: Parser, c: byte)
    requires Sound(m, p) && p.errno == HPE_OK && (p.state == HeadersAlmostDone || p.state == HeaderFieldStart)
    ensures Sound(m, EndHeaders(m, p.(state := HeadersAlmostDone), c).p)
  {
    hide NewMessage, AfterHeaders;
    AfterHeadersSound(m, p.(state := HeadersAlmostDone));
  }

  lemma TakeByteSound(m: Message, p: Parser, c: byte)
    requires p.errno == HPE_OK && p.nread <= HTTP_MAX_HEADER_SIZE
    requires Sound(m, p.(nread := 0))
    ensures Sound(m, TakeByte(m, p, c).p)
  {
    hide Unhex, PushHex, EndHeaders, NewMessage;
    UnhexRange(c);
    if p.state == ChunkSize && Unhex(c) >= 0 {
      PushHexExact(p, Unhex(c));
    } else if p.state == HeadersAlmostDone || p.state == HeaderFieldStart {
      EndHeadersSound(m, p, c);
    }
  }

  lemma ByteSound(m: Message, p: Parser, c: byte)
    requires Sound(m, p) && p.errno == HPE_OK
    ensures Sound(m, Byte(m, p, c).p)
  {
    hide TakeByte, ParsingHeader;
    var q := if ParsingHeader(p.state) then p.(nread := p.nread + 1) else p;
    if q.nread <= HTTP_MAX_HEADER_SIZE {
      TakeByteSound(m, q, c);
    }
  }

  lemma {:induction false} FeedSound(m: Message, p: Parser, data: seq<byte>)
    requires Sound(m, p)
    ensures Sound(m, Feed(m, p, data).p)
  {
    hide Byte, Sound;
    if data != [] {
      FeedSound(m, p, data[..|data| - 1]);
      var r := Feed(m, p, data[..|data| - 1]);
      if r.p.errno == HPE_OK {
        ByteSound(m, r.p, data[|data| - 1]);
      }
    }
  }

  // ---------------------------------------------------------------- length accumulators

  predicate AllHex(ds: seq<byte>) {
    forall i | 0 <= i < |ds| :: Unhex(ds[i]) >= 0
  }

  function HexValue(ds: seq<byte>): nat
    requires AllHex(ds)
  {
    if ds == [] then 0 else HexValue(ds[..|ds| - 1]) * 16 + Unhex(ds[|ds| - 1])
  }

  predicate HexDigits(ds: seq<byte>) {
    |ds| > 0 && AllHex(ds)
  }

  lemma HexFirst(m: Message, p: Parser, c: byte)
    requires p.state == ChunkSizeStart && p.nread == 0 && Unhex(c) >= 0
    ensures Byte(m, p, c) == Ok(p.(state := ChunkSize, len := Unhex(c), nread := 1), [])
  {
  }

  lemma HexStep(m: Message, p: Parser, c: byte)
    requires p.state == ChunkSize && p.nread < HTTP_MAX_HEADER_SIZE && Unhex(c) >= 0
    ensures var v := p.len * 16 + Unhex(c);
            Byte(m, p, c) == if v <= MAX_CHUNK then Ok(p.(len := v, nread := p.nread + 1), [])
                             else Fail(p.(nread := p.nread + 1), HPE_INVALID_CONTENT_LENGTH)
  {
    PushHexExact(p.(nread := p.nread + 1), Unhex(c));
    hide PushHex;
    assert Unhex(CR) == -1;
  }

  lemma FeedNothing(m: Message, p: Parser)
    ensures Feed(m, p, []) == Fed(p, [], 0)
  {
  }

  lemma HexSnoc(ds: seq<byte>)
    requires HexDigits(ds)
    ensures var init, c := ds[..|ds| - 1], ds[|ds| - 1];
            && ds == init + [c] && AllHex(init) && Unhex(c) >= 0 && (|ds| == 1 ==> init == [] && HexValue(init) == 0)
            && HexValue(ds) == HexValue(init) * 16 + Unhex(c)
  {
  }

  /** Reading chunk size digits: within the header limit, the accumulator is the
      true value exactly when that does not exceed `MAX_CHUNK`; beyond, it fails. */
  lemma {:induction false} HexRun(m: Message, p: Parser, ds: seq<byte>)
    requires p.state == ChunkSizeStart && p.errno == HPE_OK && p.nread == 0
    requires HexDigits(ds) && |ds| <= HTTP_MAX_HEADER_SIZE
    ensures var r := Feed(m, p, ds);
            if HexValue(ds) <= MAX_CHUNK
            then r == Fed(p.(state := ChunkSize, len := HexValue(ds), nread := |ds|), [], |ds|)
            else r.p.errno == HPE_INVALID_CONTENT_LENGTH && r.events == []
  {
    hide Unhex, AllHex, PushHex, Byte, Feed, HexValue;
    var k := |ds| - 1;
    var init, c := ds[..k], ds[k];
    HexSnoc(ds);
    FeedSnoc(m, p, init, c);
    UnhexRange(c);
    if k == 0 {
      FeedNothing(m, p);
      HexFirst(m, p, c);
    } else {
      HexRun(m, p, init);
      if HexValue(init) <= MAX_CHUNK {
        HexStep(m, p.(state := ChunkSize, len := HexValue(init), nread := k), c);
      }
    }
  }

  /** One byte of a `Content-Length` value after the first digit; `None` rejects it. */
  function PushDecimal(len: nat, c: byte): Option<nat> {
    if c == SPACE then Some(len)
    else if !(48 <= c <= 57) then None
    else if (ULLONG_MAX - 10) / 10 < len then None
    else Some((len * 10 + (c - 48)) % 0x1_0000_0000_0000_0000)
  }

  /** The number of a `Content-Length` value, as the header states accumulate it. */
  function ContentLength(v: seq<byte>): Option<nat> {
    if v == [] then None
    else if |v| == 1 then if 48 <= v[0] <= 57 then Some(v[0] - 48) else None
    else
      var before := ContentLength(v[..|v| - 1]);
      if before.None? then None else PushDecimal(before.value, v[|v| - 1])
  }

  predicate DecimalText(v: seq<byte>) {
    && |v| > 0 && 48 <= v[0] <= 57
    && forall i | 0 <= i < |v| :: 48 <= v[i] <= 57 || v[i] == SPACE
  }

  function DecimalValue(v: seq<byte>): nat
    requires forall i | 0 <= i < |v| :: 48 <= v[i] <= 57 || v[i] == SPACE
  {
    if v == [] then 0
    else
      var before := DecimalValue(v[..|v| - 1]);
      if v[|v| - 1] == SPACE then before else before * 10 + (v[|v| - 1] - 48)
  }

  const MAX_LENGTH := 0xffff_ffff_ffff_fff9

  lemma PushDecimalExact(len: nat, c: byte)
    requires 48 <= c <= 57
    ensures var v := len * 10 + (c - 48);
            PushDecimal(len, c) == if v <= MAX_LENGTH then Some(v) else None
  {
    assert (ULLONG_MAX - 10) / 10 == 1844674407370955160;
    var v := len * 10 + (c - 48);
    if len <= 1844674407370955160 {
      assert v % 0x1_0000_0000_0000_0000 == v;
    }
  }

  /** The accumulator is the true decimal value exactly when that does not exceed
      `MAX_LENGTH`, which lies below the sentinel; a larger value is rejected. */
  lemma {:induction false} DecimalRun(v: seq<byte>)
    requires DecimalText(v)
    ensures ContentLength(v) == if DecimalValue(v) <= MAX_LENGTH then Some(DecimalValue(v)) else None
  {
    var k := |v| - 1;
    if k == 0 {
      assert v[..0] == [];
      assert DecimalValue([]) == 0;
    } else {
      DecimalRun(v[..k]);
      if v[k] != SPACE {
        PushDecimalExact(DecimalValue(v[..k]), v[k]);
      }
      hide PushDecimal;
      assert DecimalValue(v) >= DecimalValue(v[..k]);
      if v[k] == SPACE {
        SpaceSkipped(DecimalValue(v[..k]));
      }
    }
  }

  lemma {:induction false} DigitsOnly(v: seq<byte>)
    requires ContentLength(v).Some?
    ensures DecimalText(v)
  {
    if |v| > 1 {
      var init := v[..|v| - 1];
      DigitsOnly(init);
      assert forall i | 0 <= i < |init| :: v[i] == init[i];
    }
  }

  /** A value is accepted exactly when it is a digit, then digits and spaces, of a number
      within the limit. */
  lemma LengthAccepted(v: seq<byte>)
    ensures ContentLength(v).Some? <==> DecimalText(v) && DecimalValue(v) <= 0xffff_ffff_ffff_fff9
  {
    hide ContentLength, DecimalValue;
    if DecimalText(v) {
      DecimalRun(v);
    } else if ContentLength(v).Some? {
      DigitsOnly(v);
    }
  }

  /** `1 2` is taken for 12. */
  lemma SplitLength()
    ensures ContentLength([49, SPACE, 50]) == Some(12) && DecimalText([49, SPACE, 50])
  {
    var v: seq<byte> := [49, SPACE, 50];
    assert v[..2] == [49, SPACE] && v[..2][..1] == [49];
    assert ContentLength(v[..2]) == Some(1);
  }

  lemma SpaceSkipped(len: nat)
    ensures PushDecimal(len, SPACE) == Some(len)
  {
  }

  // ---------------------------------------------------------------- bodies

  function BodyEvents(data: seq<byte>): seq<Event> {
    if data == [] then [] else BodyEvents(data[..|data| - 1]) + [Body(data[|data| - 1])]
  }

  /** The bytes handed to `on_body`, in order. */
  function BodyBytes(events: seq<Event>): seq<byte> {
    if events == [] then []
    else BodyBytes(events[..|events| - 1])
         + match events[|events| - 1] case Body(b) => [b] case _ => []
  }

  lemma {:induction false} BodyBytesPlus(a: seq<Event>, b: seq<Event>)
    ensures BodyBytes(a + b) == BodyBytes(a) + BodyBytes(b)
  {
    if b == [] {
      assert a + b == a;
    } else {
      BodyBytesPlus(a, b[..|b| - 1]);
      assert (a + b)[..|a + b| - 1] == a + b[..|b| - 1];
    }
  }

  lemma {:induction false} BodyBytesBack(data: seq<byte>)
    ensures BodyBytes(BodyEvents(data)) == data
  {
    if data != [] {
      var k := |data| - 1;
      BodyBytesBack(data[..k]);
      var e := BodyEvents(data[..k]);
      assert (e + [Body(data[k])])[..|e|] == e;
    }
  }

  /** Bytes that do not exhaust the chunk, or just do. */
  lemma {:induction false} ChunkDataRun(m: Message, p: Parser, data: seq<byte>)
    requires p.state == ChunkData && p.errno == HPE_OK && 0 < |data| <= p.len
    ensures Feed(m, p, data) == Fed(p.(len := p.len - |data|,
                                       state := if |data| == p.len then ChunkDataAlmostDone else ChunkData),
                                    BodyEvents(data), |data|)
  {
    var k := |data| - 1;
    if k == 0 {
      assert data[..0] == [];
      assert Feed(m, p, []) == Fed(p, [], 0) && BodyEvents([]) == [];
    } else {
      ChunkDataRun(m, p, data[..k]);
    }
  }

  lemma {:induction false} IdentityRun(m: Message, p: Parser, data: seq<byte>)
    requires p.state == BodyIdentity && p.errno == HPE_OK && 0 < |data| <= p.len
    ensures Feed(m, p, data) ==
              if |data| < p.len then Fed(p.(len := p.len - |data|), BodyEvents(data), |data|)
              else Fed(p.(len := 0, state := NewMessage(m, 0)), BodyEvents(data) + [MessageComplete], |data|)
  {
    hide Byte, NewMessage;
    var k := |data| - 1;
    var p1 := p.(len := p.len - k);
    if k == 0 {
      assert data[..0] == [];
      assert Feed(m, p, []) == Fed(p, [], 0) && BodyEvents([]) == [];
    } else {
      IdentityRun(m, p, data[..k]);
    }
    hide BodyEvents;
    IdentityByte(m, p1, data[k]);
    BodySnoc(data);
    assert data == data[..k] + [data[k]];
    Associate(BodyEvents(data[..k]), [Body(data[k])], [MessageComplete]);
    FeedSnoc(m, p, data[..k], data[k]);
  }

  lemma IdentityByte(m: Message, p: Parser, c: byte)
    requires p.state == BodyIdentity && p.len > 0
    ensures Byte(m, p, c) ==
              if p.len == 1 then Ok(p.(len := 0, state := NewMessage(m, 0)), [Body(c)] + [MessageComplete])
              else Ok(p.(len := p.len - 1), [Body(c)])
  {
  }

  lemma BodySnoc(data: seq<byte>)
    requires data != []
    ensures BodyEvents(data) == BodyEvents(data[..|data| - 1]) + [Body(data[|data| - 1])]
  {
  }

  lemma {:induction false} EofRun(m: Message, p: Parser, data: seq<byte>)
    requires p.state == BodyIdentityEof && p.errno == HPE_OK
    ensures Feed(m, p, data) == Fed(p, BodyEvents(data), |data|)
  {
    if data != [] {
      EofRun(m, p, data[..|data| - 1]);
    }
  }

  // ---------------------------------------------------------------- pending body bytes

  /** The events in front of the body bytes that come last. */
  function Trim(events: seq<Event>): seq<Event> {
    if events != [] && events[|events| - 1].Body? then Trim(events[..|events| - 1]) else events
  }

  lemma TrimSnoc(events: seq<Event>, e: Event)
    ensures Trim(events + [e]) == if e.Body? then Trim(events) else events + [e]
  {
    assert (events + [e])[..|events|] == events;
  }

  lemma {:induction false} TrimBody(events: seq<Event>, data: seq<byte>)
    ensures Trim(events + BodyEvents(data)) == Trim(events)
  {
    if data == [] {
      assert events + BodyEvents(data) == events;
    } else {
      var init, c := data[..|data| - 1], data[|data| - 1];
      TrimBody(events, init);
      BodySnoc(data);
      hide Trim, BodyEvents;
      Associate(events, BodyEvents(init), [Body(c)]);
      TrimSnoc(events + BodyEvents(init), Body(c));
    }
  }

  lemma EndHeadersState(m: Message, p: Parser, c: byte)
    ensures var t := EndHeaders(m, p, c);
            if t.ok then t.p.state != ChunkDataAlmostDone && t.p.state != ChunkData else t.p.state == p.state
  {
    hide NewMessage, NeedsEof;
  }

  lemma OtherTake(m: Message, p: Parser, c: byte)
    requires !(p.state.BodyIdentity? || p.state.BodyIdentityEof? || p.state.ChunkData?)
    ensures var t := TakeByte(m, p, c);
            if t.ok then t.p.state != ChunkDataAlmostDone && (t.p.state == ChunkData ==> t.events == [ChunkHeader])
            else (t.p.state == ChunkDataAlmostDone <==> p.state == ChunkDataAlmostDone)
  {
    hide EndHeaders, Unhex, NewMessage;
    EndHeadersState(m, p.(state := HeadersAlmostDone), c);
  }

  /** Outside the body states, an accepted byte never leads behind chunk data, and only
      the end of a chunk header leads to it; a rejected byte does not change that. */
  lemma OtherByte(m: Message, p: Parser, c: byte)
    requires !(p.state.BodyIdentity? || p.state.BodyIdentityEof? || p.state.ChunkData?) && p.errno == HPE_OK
    ensures var t := Byte(m, p, c);
            if t.ok then t.p.state != ChunkDataAlmostDone && (t.p.state == ChunkData ==> t.events == [ChunkHeader])
            else (t.p.state == ChunkDataAlmostDone <==> p.state == ChunkDataAlmostDone)
  {
    hide TakeByte;
    OtherTake(m, if ParsingHeader(p.state) then p.(nread := p.nread + 1) else p, c);
  }

  /** The body bytes of an input that its end leaves without a notification when the
      next byte is rejected: those from `k` on. There are any exactly behind the data of
      a chunk that ends in this input. */
  lemma {:induction false} PendingBytes(m: Message, p: Parser, data: seq<byte>) returns (k: nat)
    requires p.errno == HPE_OK && Feed(m, p, data).p.errno == HPE_OK
    requires Feed(m, p, data).p.state == ChunkData || Feed(m, p, data).p.state == ChunkDataAlmostDone
    ensures k <= |data| && Feed(m, p, data).events == Trim(Feed(m, p, data).events) + BodyEvents(data[k..])
    ensures Feed(m, p, data).p.state == ChunkDataAlmostDone ==> (k < |data| <==> data != [])
  {
    hide Byte, Trim, BodyEvents;
    if data == [] {
      k := 0;
      TrimNothing();
    } else {
      var init, c := data[..|data| - 1], data[|data| - 1];
      var before := Feed(m, p, init);
      FeedEarlier(m, p, data);
      assert data == init + [c];
      FeedSnoc(m, p, init, c);
      hide Feed;
      if before.p.state == ChunkData {
        k := PendingBytes(m, p, init);
        ChunkByte(m, before.p, c);
        PendingMore(before.events, data, k);
      } else {
        ChunkEntered(m, before.p, c);
        k := |data|;
        PendingNone(before.events, data);
      }
    }
  }

  lemma PendingMore(events: seq<Event>, data: seq<byte>, k: nat)
    requires k < |data| && events == Trim(events) + BodyEvents(data[..|data| - 1][k..])
    ensures var e := Body(data[|data| - 1]); events + [e] == Trim(events + [e]) + BodyEvents(data[k..])
  {
    hide Trim, BodyEvents;
    var init, c := data[..|data| - 1], data[|data| - 1];
    BodySnoc(data[k..]);
    assert data[k..][..|data[k..]| - 1] == init[k..];
    TrimSnoc(events, Body(c));
    Associate(Trim(events), BodyEvents(init[k..]), [Body(c)]);
  }

  lemma PendingNone(events: seq<Event>, data: seq<byte>)
    ensures events + [ChunkHeader] == Trim(events + [ChunkHeader]) + BodyEvents(data[|data|..])
  {
    hide Trim, BodyEvents;
    TrimSnoc(events, ChunkHeader);
    TrimNothing();
    assert data[|data|..] == [];
  }

  lemma TrimNothing()
    ensures Trim([]) == [] && BodyEvents([]) == []
  {
  }

  lemma FeedEarlier(m: Message, p: Parser, data: seq<byte>)
    requires data != [] && Feed(m, p, data).p.errno == HPE_OK
    ensures Feed(m, p, data[..|data| - 1]).p.errno == HPE_OK
  {
  }

  lemma ChunkByte(m: Message, p: Parser, c: byte)
    requires p.state == ChunkData
    ensures Byte(m, p, c).events == [Body(c)]
  {
  }

  /** Chunk data begins behind the end of a chunk header, and nowhere else. */
  lemma ChunkEntered(m: Message, p: Parser, c: byte)
    requires p.errno == HPE_OK && p.state != ChunkData && Byte(m, p, c).ok
    ensures Byte(m, p, c).p.state != ChunkDataAlmostDone
    ensures Byte(m, p, c).p.state == ChunkData ==> Byte(m, p, c).events == [ChunkHeader]
  {
    hide NewMessage;
    if !(p.state.BodyIdentity? || p.state.BodyIdentityEof?) {
      OtherByte(m, p, c);
    }
  }

  /** A rejected byte behind chunk data loses the last body bytes in front of it in the
      same input, if the input did not begin with it. */
  lemma LostBytes(m: Message, p: Parser, data: seq<byte>) returns (k: nat)
    requires p.errno == HPE_OK && Feed(m, p, data).p.errno != HPE_OK
    requires Feed(m, p, data).p.state == ChunkDataAlmostDone
    ensures var r := Feed(m, p, data);
            && k <= r.n && r.events == Trim(r.events) + BodyEvents(data[k..r.n])
            && (k < r.n <==> r.n > 0)
  {
    var j := FirstReject(m, p, data);
    var r := Feed(m, p, data[..j]);
    FeedNext(m, p, data, j);
    hide Feed, Byte, Trim, BodyEvents;
    RejectedState(m, r.p, data[j]);
    assert r.events + [] == r.events;
    k := PendingBytes(m, p, data[..j]);
    assert data[..j][k..] == data[k..j];
  }

  lemma RejectedState(m: Message, p: Parser, c: byte)
    requires p.errno == HPE_OK && !Byte(m, p, c).ok
    ensures Byte(m, p, c).p.state == ChunkDataAlmostDone <==> p.state == ChunkDataAlmostDone
    ensures Byte(m, p, c).events == []
  {
    if !(p.state.BodyIdentity? || p.state.BodyIdentityEof? || p.state.ChunkData?) {
      OtherByte(m, p, c);
    }
    hide NewMessage, Unhex, PushHex, EndHeaders;
  }

  /** The byte that ends a failing run. */
  lemma {:induction false} FirstReject(m: Message, p: Parser, data: seq<byte>) returns (j: nat)
    requires p.errno == HPE_OK && Feed(m, p, data).p.errno != HPE_OK
    ensures j < |data| && j == Feed(m, p, data).n
    ensures Feed(m, p, data[..j]).p.errno == HPE_OK && !Byte(m, Feed(m, p, data[..j]).p, data[j]).ok
  {
    hide Byte;
    if data != [] {
      var init := data[..|data| - 1];
      if Feed(m, p, init).p.errno != HPE_OK {
        j := FirstReject(m, p, init);
        assert data[..j] == init[..j];
      } else {
        j := |init|;
      }
    }
  }

  /** Chunk data followed by a wrong byte in the same input: the data is lost. */
  lemma LostByte(m: Message)
    ensures var p := Parser(ChunkData, 1, 0, false, HPE_OK);
            var r := Feed(m, p, [65, 66]);
            && r == Fed(Parser(ChunkDataAlmostDone, 0, 0, false, HPE_STRICT), [Body(65)], 1)
            && Trim(r.events) == []
  {
    var p := Parser(ChunkData, 1, 0, false, HPE_OK);
    var q := Parser(ChunkDataAlmostDone, 0, 0, false, HPE_OK);
    hide Byte, Feed, Trim;
    LostSteps(m);
    FeedOne(m, p, 65);
    FeedOne(m, q, 66);
    FeedSplit(m, p, [65], [66]);
    TrimSnoc([], Body(65));
    TrimNothing();
    assert [65] + [66] == [65, 66] && [] + [Body(65)] == [Body(65)] && [Body(65)] + [] == [Body(65)];
  }

  lemma LostSteps(m: Message)
    ensures var q := Parser(ChunkDataAlmostDone, 0, 0, false, HPE_OK);
            && Byte(m, Parser(ChunkData, 1, 0, false, HPE_OK), 65) == Ok(q, [Body(65)])
            && Byte(m, q, 66) == Fail(q, HPE_STRICT)
  {
  }

  // ---------------------------------------------------------------- chunked messages

  /** A chunk as it is sent: size digits, an extension, and the data. */
  datatype Chunk = Chunk(size: seq<byte>, ext: seq<byte>, data: seq<byte>)

  predicate ChunkOk(c: Chunk) {
    && HexDigits(c.size) && HexValue(c.size) == |c.data| <= MAX_CHUNK
    && ExtensionOk(c.ext) && |c.size| + |c.ext| + 2 <= HTTP_MAX_HEADER_SIZE
  }

  predicate ExtensionOk(ext: seq<byte>) {
    ext != [] ==> (ext[0] == SEMICOLON || ext[0] == SPACE) && CR !in ext
  }

  function Head(c: Chunk): seq<byte> {
    c.size + c.ext + [CR] + [LF]
  }

  function Text(c: Chunk): seq<byte> {
    Head(c) + c.data + [CR] + [LF]
  }

  function TextOf(chunks: seq<Chunk>): seq<byte> {
    if chunks == [] then [] else TextOf(chunks[..|chunks| - 1]) + Text(chunks[|chunks| - 1])
  }

  function EventsOf(chunks: seq<Chunk>): seq<Event> {
    if chunks == [] then []
    else EventsOf(chunks[..|chunks| - 1]) + ([ChunkHeader] + BodyEvents(chunks[|chunks| - 1].data) + [ChunkComplete])
  }

  function Payload(chunks: seq<Chunk>): seq<byte> {
    if chunks == [] then [] else Payload(chunks[..|chunks| - 1]) + chunks[|chunks| - 1].data
  }

  lemma FeedOne(m: Message, p: Parser, c: byte)
    requires p.errno == HPE_OK
    ensures var t := Byte(m, p, c); Feed(m, p, [c]) == Fed(t.p, t.events, if t.ok then 1 else 0)
  {
    assert [c][..0] == [];
    assert Feed(m, p, []) == Fed(p, [], 0);
    assert [] + Byte(m, p, c).events == Byte(m, p, c).events;
  }

  lemma {:induction false} ExtensionRun(m: Message, p: Parser, ext: seq<byte>)
    requires p.state == ChunkSize && p.errno == HPE_OK && ext != [] && ExtensionOk(ext)
    requires p.nread + |ext| <= HTTP_MAX_HEADER_SIZE
    ensures Feed(m, p, ext) == Fed(p.(state := ChunkParameters, nread := p.nread + |ext|), [], |ext|)
  {
    hide Feed, Byte;
    var k := |ext| - 1;
    ExtensionByte(m, p, ext[0]);
    if k == 0 {
      assert ext == [ext[0]];
      FeedOne(m, p, ext[0]);
    } else {
      ExtensionRun(m, p, ext[..k]);
      assert ext[k] in ext && ext == ext[..k] + [ext[k]];
      FeedSnoc(m, p, ext[..k], ext[k]);
      ExtensionByte(m, p.(state := ChunkParameters, nread := p.nread + k), ext[k]);
    }
  }

  lemma ExtensionByte(m: Message, p: Parser, c: byte)
    requires p.nread < HTTP_MAX_HEADER_SIZE
    ensures p.state == ChunkSize && (c == SEMICOLON || c == SPACE) ==>
              Byte(m, p, c) == Ok(p.(state := ChunkParameters, nread := p.nread + 1), [])
    ensures p.state == ChunkParameters && c != CR ==> Byte(m, p, c) == Ok(p.(nread := p.nread + 1), [])
  {
  }

  lemma HeadRun(m: Message, p: Parser, c: Chunk)
    requires p.state == ChunkSizeStart && p.errno == HPE_OK && p.nread == 0 && ChunkOk(c)
    ensures Feed(m, p, Head(c)) ==
              Fed(if c.data == [] then p.(len := 0, nread := 0, trailing := true, state := HeaderFieldStart)
                  else p.(len := |c.data|, nread := 0, state := ChunkData), [ChunkHeader], |Head(c)|)
  {
    hide Feed, Byte, HexValue, HexDigits, ExtensionOk;
    var n := |c.size| + |c.ext|;
    var p2 := SizeRun(m, p, c);
    var p3 := p2.(state := ChunkSizeAlmostDone, nread := n + 1);
    EndOfSize(m, p2);
    FeedOne(m, p2, CR);
    FeedSplit(m, p, c.size + c.ext, [CR]);
    EndOfHead(m, p3);
    FeedOne(m, p3, LF);
    FeedSplit(m, p, c.size + c.ext + [CR], [LF]);
  }

  /** The size digits and the extension. */
  lemma SizeRun(m: Message, p: Parser, c: Chunk) returns (p2: Parser)
    requires p.state == ChunkSizeStart && p.errno == HPE_OK && p.nread == 0 && ChunkOk(c)
    ensures p2 == p.(state := if c.ext == [] then ChunkSize else ChunkParameters, len := |c.data|,
                     nread := |c.size| + |c.ext|)
    ensures Feed(m, p, c.size + c.ext) == Fed(p2, [], |c.size| + |c.ext|)
  {
    hide Feed, Byte, HexValue, HexDigits, ExtensionOk;
    HexRun(m, p, c.size);
    var p1 := p.(state := ChunkSize, len := |c.data|, nread := |c.size|);
    p2 := p1.(state := if c.ext == [] then ChunkSize else ChunkParameters, nread := |c.size| + |c.ext|);
    if c.ext == [] {
      assert c.size + c.ext == c.size;
    } else {
      FeedSplit(m, p, c.size, c.ext);
      ExtensionRun(m, p1, c.ext);
    }
  }

  lemma EndOfSize(m: Message, p: Parser)
    requires p.state == ChunkSize || p.state == ChunkParameters
    requires p.nread < HTTP_MAX_HEADER_SIZE
    ensures Byte(m, p, CR) == Ok(p.(state := ChunkSizeAlmostDone, nread := p.nread + 1), [])
  {
  }

  lemma EndOfHead(m: Message, p: Parser)
    requires p.state == ChunkSizeAlmostDone && p.nread < HTTP_MAX_HEADER_SIZE
    ensures Byte(m, p, LF) ==
              Ok(if p.len == 0 then p.(nread := 0, trailing := true, state := HeaderFieldStart)
                 else p.(nread := 0, state := ChunkData), [ChunkHeader])
  {
  }

  lemma EndOfChunk(m: Message, p: Parser)
    requires p.state == ChunkDataAlmostDone
    ensures Byte(m, p, CR) == Ok(p.(state := ChunkDataDone), [])
    ensures var p' := p.(state := ChunkDataDone);
            Byte(m, p', LF) == Ok(p'.(nread := 0, state := ChunkSizeStart), [ChunkComplete])
  {
  }

  /** A chunk with data: its header, its data and its end are notified in order. */
  lemma ChunkRun(m: Message, p: Parser, c: Chunk)
    requires p.state == ChunkSizeStart && p.errno == HPE_OK && p.nread == 0
    requires ChunkOk(c) && c.data != []
    ensures Feed(m, p, Text(c)) ==
              Fed(p.(len := 0), [ChunkHeader] + BodyEvents(c.data) + [ChunkComplete], |Text(c)|)
  {
    hide Feed, Byte, ChunkOk, Head, BodyEvents;
    HeadRun(m, p, c);
    var p1 := p.(len := |c.data|, nread := 0, state := ChunkData);
    ChunkDataRun(m, p1, c.data);
    FeedSplit(m, p, Head(c), c.data);
    var p2 := p1.(len := 0, state := ChunkDataAlmostDone);
    EndOfChunk(m, p2);
    FeedOne(m, p2, CR);
    FeedSplit(m, p, Head(c) + c.data, [CR]);
    var p3 := p2.(state := ChunkDataDone);
    FeedOne(m, p3, LF);
    FeedSplit(m, p, Head(c) + c.data + [CR], [LF]);
  }

  lemma {:induction false} ChunksRun(m: Message, p: Parser, chunks: seq<Chunk>)
    requires p.state == ChunkSizeStart && p.errno == HPE_OK && p.nread == 0
    requires forall c | c in chunks :: ChunkOk(c) && c.data != []
    ensures Feed(m, p, TextOf(chunks)) ==
              Fed(if chunks == [] then p else p.(len := 0), EventsOf(chunks), |TextOf(chunks)|)
  {
    if chunks != [] {
      hide ChunkOk, Text, BodyEvents;
      var k := |chunks| - 1;
      ChunksRun(m, p, chunks[..k]);
      ChunkRun(m, if k == 0 then p else p.(len := 0), chunks[k]);
      FeedSplit(m, p, TextOf(chunks[..k]), Text(chunks[k]));
    }
  }

  /** Chunked round trip: any non-empty chunks, then the zero chunk and the empty
      trailer, deliver exactly the payload and complete the message once. */
  lemma ChunkedRoundTrip(m: Message, p: Parser, chunks: seq<Chunk>, last: Chunk)
    requires p.state == ChunkSizeStart && p.errno == HPE_OK && p.nread == 0
    requires forall c | c in chunks :: ChunkOk(c) && c.data != []
    requires ChunkOk(last) && last.data == []
    ensures var text := TextOf(chunks) + Head(last) + [CR] + [LF];
            var r := Feed(m, p, text);
            && r.p.errno == HPE_OK && r.p.state == NewMessage(m, 0) && r.n == |text|
            && r.events == EventsOf(chunks) + [ChunkHeader, ChunkComplete, MessageComplete]
            && BodyBytes(r.events) == Payload(chunks)
  {
    hide Byte, Feed, ChunkOk, Head, TextOf, EventsOf, BodyBytes, Payload;
    ChunksRun(m, p, chunks);
    var p1 := if chunks == [] then p else p.(len := 0);
    HeadRun(m, p1, last);
    FeedSplit(m, p, TextOf(chunks), Head(last));
    var p2 := p1.(len := 0, nread := 0, trailing := true, state := HeaderFieldStart);
    TrailerRun(m, p2);
    FeedSplit(m, p, TextOf(chunks) + Head(last), [CR] + [LF]);
    assert TextOf(chunks) + Head(last) + [CR] + [LF] == TextOf(chunks) + Head(last) + ([CR] + [LF]);
    var tail := [ChunkHeader, ChunkComplete, MessageComplete];
    assert EventsOf(chunks) + [ChunkHeader] + [ChunkComplete, MessageComplete] == EventsOf(chunks) + tail;
    Delivered(chunks);
    BodyBytesPlus(EventsOf(chunks), tail);
    Notices(tail);
  }

  lemma TrailerRun(m: Message, p: Parser)
    requires p.state == HeaderFieldStart && p.trailing && p.nread == 0 && p.len == 0 && p.errno == HPE_OK
    ensures Feed(m, p, [CR] + [LF])
         == Fed(p.(nread := 2, state := NewMessage(m, 0)), [ChunkComplete, MessageComplete], 2)
  {
    hide Feed, Byte;
    TrailerBytes(m, p);
    FeedOne(m, p, CR);
    FeedOne(m, p.(nread := 1, state := HeadersAlmostDone), LF);
    FeedSplit(m, p, [CR], [LF]);
  }

  lemma TrailerBytes(m: Message, p: Parser)
    requires p.state == HeaderFieldStart && p.trailing && p.nread == 0 && p.len == 0
    ensures var p1 := p.(nread := 1, state := HeadersAlmostDone);
            && Byte(m, p, CR) == Ok(p1, [])
            && Byte(m, p1, LF) == Ok(p.(nread := 2, state := NewMessage(m, 0)), [ChunkComplete, MessageComplete])
  {
    hide NewMessage;
  }

  lemma {:induction false} Notices(events: seq<Event>)
    requires forall e | e in events :: !e.Body?
    ensures BodyBytes(events) == []
  {
    if events != [] {
      Notices(events[..|events| - 1]);
    }
  }

  lemma ChunkDelivered(data: seq<byte>)
    ensures BodyBytes([ChunkHeader] + BodyEvents(data) + [ChunkComplete]) == data
  {
    hide BodyBytes, BodyEvents;
    var b := BodyEvents(data);
    BodyBytesPlus([ChunkHeader] + b, [ChunkComplete]);
    BodyBytesPlus([ChunkHeader], b);
    BodyBytesBack(data);
    Notices([ChunkHeader]);
    Notices([ChunkComplete]);
  }

  lemma {:induction false} Delivered(chunks: seq<Chunk>)
    ensures BodyBytes(EventsOf(chunks)) == Payload(chunks)
  {
    if chunks == [] {
      Notices([]);
    } else {
      hide BodyBytes, BodyEvents;
      var k := |chunks| - 1;
      var data := chunks[k].data;
      Delivered(chunks[..k]);
      ChunkDelivered(data);
      BodyBytesPlus(EventsOf(chunks[..k]), [ChunkHeader] + BodyEvents(data) + [ChunkComplete]);
    }
  }
}
