/** Whole messages, from the line feed that ends the header section. */
module HttpMessages {
  import opened Wrappers
  import opened HttpBody

  /** The parser in front of the last line feed of a header section. */
  predicate HeadersEnd(m: Message, p: Parser) {
    && p.state == HeadersAlmostDone && !p.trailing && p.errno == HPE_OK
    && p.nread < 81920 && !(m.chunked && m.hasLength)
  }

  /** Between messages: only a connection that persists may carry another one. */
  function NextState(m: Message): State {
    if m.persistent then Start else Dead
  }

  /** Nothing follows the header section: because the caller said so, because the length
      is zero, or because there is none where none is needed. */
  predicate Bodiless(m: Message, length: nat) {
    m.skipBody ||
    (!m.chunked && (length == 0 || (length == 0xffff_ffff_ffff_ffff && (m.isRequest || m.noBodyStatus))))
  }

  /** A response without length runs to the end of the connection. */
  predicate Endless(m: Message, length: nat) {
    !m.skipBody && !m.chunked && length == 0xffff_ffff_ffff_ffff && !m.isRequest && !m.noBodyStatus
  }

  predicate Measured(m: Message, length: nat) {
    !m.skipBody && !m.chunked && 0 < length < 0xffff_ffff_ffff_ffff
  }

  lemma EveryMessage(m: Message, length: nat)
    requires length <= 0xffff_ffff_ffff_ffff
    ensures Bodiless(m, length) || Endless(m, length) || Measured(m, length) || (m.chunked && !m.skipBody)
  {
  }

  /** What the line feed does: the states behind it, and what it notifies. */
  lemma HeadersByte(m: Message, p: Parser)
    requires HeadersEnd(m, p)
    ensures var t := Byte(m, p, LF);
            && t.ok && t.p.errno == HPE_OK && t.p.len == p.len && t.p.nread == 0 && !t.p.trailing
            && (if Bodiless(m, p.len) then t.p.state == NextState(m) && t.events == [HeadersComplete, MessageComplete]
                else
                  && t.events == [HeadersComplete]
                  && (m.chunked ==> t.p.state == ChunkSizeStart)
                  && (Measured(m, p.len) ==> t.p.state == BodyIdentity)
                  && (Endless(m, p.len) ==> t.p.state == BodyIdentityEof))
  {
  }

  lemma HeadersFeed(m: Message, p: Parser, rest: seq<byte>)
    requires HeadersEnd(m, p)
    ensures var t := Byte(m, p, LF);
            Feed(m, p, [LF] + rest) == Join(Fed(t.p, t.events, 1), Feed(m, t.p, rest))
  {
    hide Byte, Feed;
    HeadersByte(m, p);
    FeedOne(m, p, LF);
    FeedSplit(m, p, [LF], rest);
  }

  /** The message completes right behind its header section exactly when it has no body. */
  lemma BodilessMessage(m: Message, p: Parser)
    requires HeadersEnd(m, p) && p.len <= 0xffff_ffff_ffff_ffff
    ensures var r := Feed(m, p, [LF]);
            && r.p.errno == HPE_OK && r.n == 1
            && (MessageComplete in r.events <==> Bodiless(m, p.len))
            && (Bodiless(m, p.len) ==>
                  r.events == [HeadersComplete, MessageComplete] && r.p.state == NextState(m))
  {
    hide Byte, Feed;
    HeadersByte(m, p);
    FeedOne(m, p, LF);
  }

  lemma {:induction false} OnlyBody(data: seq<byte>)
    ensures MessageComplete !in BodyEvents(data)
  {
    if data != [] {
      OnlyBody(data[..|data| - 1]);
    }
  }

  lemma NoData()
    ensures BodyEvents([]) == []
  {
  }

  lemma FirstEvent(events: seq<Event>)
    ensures [HeadersComplete] + events + [MessageComplete] == [HeadersComplete] + (events + [MessageComplete])
    ensures MessageComplete !in events ==> MessageComplete !in [HeadersComplete] + events
    ensures [HeadersComplete] + [] == [HeadersComplete]
  {
  }

  /** A message with a length delivers exactly that many bytes and completes with the
      last of them: not before, and the end of the connection in between is an error. */
  lemma MeasuredMessage(m: Message, p: Parser, data: seq<byte>)
    requires HeadersEnd(m, p) && Measured(m, p.len) && |data| <= p.len
    ensures var r := Feed(m, p, [LF] + data);
            && r.p.errno == HPE_OK && r.n == 1 + |data|
            && (MessageComplete in r.events <==> |data| == p.len)
            && (if |data| == p.len
                then r.events == [HeadersComplete] + BodyEvents(data) + [MessageComplete] && r.p.state == NextState(m)
                else
                  && r.events == [HeadersComplete] + BodyEvents(data)
                  && AtEof(r.p).p.errno == HPE_INVALID_EOF_STATE && AtEof(r.p).events == [])
  {
    var p1 := Byte(m, p, LF).p;
    HeadersByte(m, p);
    HeadersFeed(m, p, data);
    Persists(m, 0);
    hide Byte, Feed, BodyEvents, NewMessage;
    OnlyBody(data);
    FirstEvent(BodyEvents(data));
    if data == [] {
      NoData();
      FeedNothing(m, p1);
    } else {
      IdentityRun(m, p1, data);
    }
  }

  lemma Persists(m: Message, len: nat)
    requires len != 0xffff_ffff_ffff_ffff || m.chunked
    ensures NewMessage(m, len) == NextState(m)
  {
  }

  /** A message without a length is all that comes, and completes at the end of the
      connection. */
  lemma EndlessMessage(m: Message, p: Parser, data: seq<byte>)
    requires HeadersEnd(m, p) && Endless(m, p.len)
    ensures var r := Feed(m, p, [LF] + data);
            && r.p.errno == HPE_OK && r.n == 1 + |data|
            && r.events == [HeadersComplete] + BodyEvents(data) && MessageComplete !in r.events
            && AtEof(r.p).p.errno == HPE_OK && AtEof(r.p).events == [MessageComplete]
  {
    var p1 := Byte(m, p, LF).p;
    HeadersByte(m, p);
    HeadersFeed(m, p, data);
    hide Byte, Feed, BodyEvents;
    OnlyBody(data);
    FirstEvent(BodyEvents(data));
    EofRun(m, p1, data);
  }

  /** A chunked message delivers exactly its payload and completes once, behind the zero
      chunk and the empty trailer. */
  lemma ChunkedMessage(m: Message, p: Parser, chunks: seq<Chunk>, last: Chunk)
    requires HeadersEnd(m, p) && m.chunked && !m.skipBody
    requires forall c | c in chunks :: ChunkOk(c) && c.data != []
    requires ChunkOk(last) && last.data == []
    ensures var text := [LF] + (TextOf(chunks) + Head(last) + [CR] + [LF]);
            var r := Feed(m, p, text);
            && r.p.errno == HPE_OK && r.n == |text| && r.p.state == NextState(m)
            && r.events == [HeadersComplete] + (EventsOf(chunks) + [ChunkHeader, ChunkComplete, MessageComplete])
            && BodyBytes(r.events) == Payload(chunks)
  {
    var text := TextOf(chunks) + Head(last) + [CR] + [LF];
    var p1 := Byte(m, p, LF).p;
    HeadersByte(m, p);
    HeadersFeed(m, p, text);
    Persists(m, 0);
    hide Byte, Feed, ChunkOk, TextOf, EventsOf, Head, BodyBytes, Payload, NewMessage;
    ChunkedRoundTrip(m, p1, chunks, last);
    BodyBytesPlus([HeadersComplete], Feed(m, p1, text).events);
    Notices([HeadersComplete]);
  }

  /** It does not complete before the last byte. */
  lemma ChunkedIncomplete(m: Message, p: Parser, chunks: seq<Chunk>, last: Chunk, k: nat)
    requires HeadersEnd(m, p) && m.chunked && !m.skipBody
    requires forall c | c in chunks :: ChunkOk(c) && c.data != []
    requires ChunkOk(last) && last.data == []
    requires k < |[LF] + (TextOf(chunks) + Head(last) + [CR] + [LF])|
    ensures var text := [LF] + (TextOf(chunks) + Head(last) + [CR] + [LF]);
            MessageComplete !in Feed(m, p, text[..k]).events
  {
    var front := TextOf(chunks) + Head(last) + [CR];
    HeadersByte(m, p);
    HeadersFeed(m, p, front);
    hide *;
    FrontEvents(m, Byte(m, p, LF).p, chunks, last);
    FrontCut([LF], front, [LF], k);
    Earlier(m, p, ([LF] + front)[..k], ([LF] + front)[k..]);
  }

  /** What a part has notified, the whole has. */
  lemma Earlier(m: Message, p: Parser, a: seq<byte>, b: seq<byte>)
    ensures MessageComplete in Feed(m, p, a).events ==> MessageComplete in Feed(m, p, a + b).events
  {
    hide Feed;
    FeedSplit(m, p, a, b);
  }

  lemma FrontCut(a: seq<byte>, b: seq<byte>, c: seq<byte>, k: nat)
    requires |c| == 1 && k < |a + (b + c)|
    ensures k <= |a + b| && (a + (b + c))[..k] == (a + b)[..k] && (a + b)[..k] + (a + b)[k..] == a + b
  {
    Associate(a, b, c);
  }

  lemma FrontEvents(m: Message, p: Parser, chunks: seq<Chunk>, last: Chunk)
    requires p.state == ChunkSizeStart && p.errno == HPE_OK && p.nread == 0
    requires forall c | c in chunks :: ChunkOk(c) && c.data != []
    requires ChunkOk(last) && last.data == []
    ensures MessageComplete !in Feed(m, p, TextOf(chunks) + Head(last) + [CR]).events
  {
    hide Byte, Feed, ChunkOk, TextOf, EventsOf, Head;
    ChunksRun(m, p, chunks);
    var p1 := if chunks == [] then p else p.(len := 0);
    HeadRun(m, p1, last);
    FeedSplit(m, p, TextOf(chunks), Head(last));
    var p2 := p1.(len := 0, nread := 0, trailing := true, state := HeaderFieldStart);
    TrailerStart(m, p2);
    FeedOne(m, p2, CR);
    FeedSplit(m, p, TextOf(chunks) + Head(last), [CR]);
    ChunkEvents(chunks);
  }

  lemma TrailerStart(m: Message, p: Parser)
    requires p.state == HeaderFieldStart && p.nread == 0
    ensures Byte(m, p, CR).events == []
  {
  }

  lemma {:induction false} ChunkEvents(chunks: seq<Chunk>)
    ensures MessageComplete !in EventsOf(chunks)
  {
    if chunks != [] {
      ChunkEvents(chunks[..|chunks| - 1]);
      OnlyBody(chunks[|chunks| - 1].data);
    }
  }

  /** Both framings at once, or another byte in place of the line feed, are errors. */
  lemma WrongHeadersEnd(m: Message, p: Parser, c: byte)
    requires p.state == HeadersAlmostDone && !p.trailing && p.errno == HPE_OK && p.nread < 81920
    ensures var r := Feed(m, p, [c]);
            && (r.p.errno != HPE_OK ==> r.events == [] && r.n == 0)
            && (r.p.errno == HPE_STRICT <==> c != 10)
            && (r.p.errno == HPE_UNEXPECTED_CONTENT_LENGTH <==> c == 10 && m.chunked && m.hasLength)
  {
    FeedOne(m, p, c);
    hide Feed, NewMessage;
  }

  /** The end of the connection completes a message without length, is quiet between
      messages, and an error anywhere else. */
  lemma Closed(p: Parser)
    requires p.errno == HPE_OK
    ensures var r := AtEof(p);
            && (MessageComplete in r.events <==> p.state == BodyIdentityEof)
            && (r.p.errno == HPE_OK <==> p.state == BodyIdentityEof || p.state == Dead || p.state == Start)
            && (r.p.errno != HPE_OK ==> r.p.errno == HPE_INVALID_EOF_STATE && r.events == [])
  {
  }

  // ---------------------------------------------------------------- rejected bytes

  const DIGITS: string := "0123456789abcdef"
  const CAPITALS: string := "0123456789ABCDEF"

  /** A digit in either case has its value, and no other byte has one. */
  lemma HexDigitValues(c: byte)
    ensures forall i | 0 <= i < 16 :: Unhex(CAPITALS[i] as int) == i == Unhex(DIGITS[i] as int)
    ensures Unhex(c) == -1 <==> forall i | 0 <= i < 16 :: CAPITALS[i] as int != c && DIGITS[i] as int != c
  {
    DigitCodes();
    if Unhex(c) >= 0 {
      var i := Unhex(c);
      assert CAPITALS[i] as int == c || DIGITS[i] as int == c;
    }
  }

  lemma DigitCodes()
    ensures forall i | 0 <= i < 16 ::
              && CAPITALS[i] as int == (if i < 10 then 48 + i else 55 + i)
              && DIGITS[i] as int == (if i < 10 then 48 + i else 87 + i)
  {
    assert CAPITALS[..10] == "0123456789" == DIGITS[..10];
    assert CAPITALS[10..] == "ABCDEF" && DIGITS[10..] == "abcdef";
  }

  /** Which bytes the framing of a chunk rejects, and as what. */
  lemma ChunkRejects(m: Message, p: Parser, c: byte)
    requires p.errno == HPE_OK && p.nread < 81920 && p.len < 0x0fff_ffff_ffff_ffff
    ensures var hex := Unhex(c) != -1;
            var e := Byte(m, p, c).p.errno;
            && (p.state == ChunkSizeStart ==> e == if hex then HPE_OK else HPE_INVALID_CHUNK_SIZE)
            && (p.state == ChunkSize ==>
                  e == if hex || c == 13 || c == 32 || c == 59 then HPE_OK else HPE_INVALID_CHUNK_SIZE)
            && (p.state == ChunkParameters || p.state == ChunkData ==> e == HPE_OK)
            && (p.state == ChunkSizeAlmostDone || p.state == ChunkDataDone ==>
                  e == if c == 10 then HPE_OK else HPE_STRICT)
            && (p.state == ChunkDataAlmostDone ==> e == if c == 13 then HPE_OK else HPE_STRICT)
            && (p.state == Dead ==> e == if c == 10 || c == 13 then HPE_OK else HPE_CLOSED_CONNECTION)
  {
    hide NewMessage, Unhex;
    UnhexRange(c);
  }

  /** The bytes of one stretch of framing are counted, and the first one above 80 KiB is
      rejected; body bytes are not counted. */
  lemma HeaderLimit(m: Message, p: Parser, c: byte)
    requires p.errno == HPE_OK && p.nread <= 81920
    ensures var body := p.state == ChunkData || p.state == BodyIdentity || p.state == BodyIdentityEof
                     || p.state == ChunkDataAlmostDone || p.state == ChunkDataDone;
            Byte(m, p, c).p.errno == HPE_HEADER_OVERFLOW <==> !body && p.nread == 81920
  {
    hide NewMessage, Unhex;
  }
}
