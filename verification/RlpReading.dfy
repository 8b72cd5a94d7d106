/** How bytes are read as trees: Appendix B of the Ethereum Yellow Paper, by the range of
    the first byte, without reference to the encoder. */
module RlpReading {
  import opened Wrappers
  import opened Rlp

  /** The bytes behind the prefix: as many as it says, in the prefix or in the one to
      eight bytes that follow it. */
  ghost predicate Framed(b: bytes, low: nat, rest: bytes) {
    && b != []
    && if low <= b[0] <= low + 55 then |rest| == b[0] - low && b == [b[0]] + rest
       else
         && low + 56 <= b[0] <= low + 63
         && var w := b[0] - (low + 55);
            |b| == 1 + w + |rest| && b[1 + w..] == rest && FromBigEndian(b[1..1 + w]) == |rest|
  }

  ghost predicate Denotes(b: bytes, t: Tree)
    decreases t
  {
    match t
    case Item(s) => (|b| == 1 && b[0] <= 0x7f && s == b) || Framed(b, 0x80, s)
    case List(items) => exists rest :: Framed(b, 0xc0, rest) && DenotesAll(rest, items)
  }

  ghost predicate DenotesAll(b: bytes, items: Trees)
    decreases items
  {
    match items
    case Nil => b == []
    case Snoc(init, last) =>
      exists k: nat :: k <= |b| && DenotesAll(b[..k], init) && Denotes(b[k..], last)
  }

  /** Every byte up to 7f is the encoding of the item that consists of it. */
  lemma OneByte(x: byte)
    ensures x <= 0x7f <==> Encode(Item([x])) == [x]
    ensures x > 0x7f ==> Encode(Item([x])) == [0x81, x]
  {
  }

  /** The first bytes of the standard: 80 and c0 for nothing, b7 and f7 at most with the
      length in the prefix, and b8 and f8 at least with a length behind it. */
  lemma FirstBytes(t: Tree)
    requires Fits(|Encode(t)|)
    ensures match t
            case Item(s) =>
              (|s| == 1 && s[0] <= 0x7f) || (|s| <= 55 && Encode(t)[0] == 0x80 + |s|) || 0xb8 <= Encode(t)[0] <= 0xbb
            case List(items) =>
              var n := |Payload(items)|; (n <= 55 && Encode(t)[0] == 0xc0 + n) || 0xf8 <= Encode(t)[0] <= 0xfb
  {
    hide Header;
    match t
    case Item(s) => HeaderRange(0x80, |s|);
    case List(items) => HeaderRange(0xc0, |Payload(items)|);
  }

  lemma HeaderRange(low: byte, n: nat)
    requires (low == 0x80 || low == 0xc0) && Fits(n)
    ensures if n <= 55 then Header(low, n)[0] == low + n else low + 0x38 <= Header(low, n)[0] <= low + 0x3b
  {
    BigEndianWidth(n);
    hide BigEndian;
    var first: int := low + if n <= 55 then n else 55 + |BigEndian(n)|;
    assert first % 256 == first;
  }

  // ---------------------------------------------------------------- encodings denote

  lemma HeaderFrames(low: byte, rest: bytes)
    requires (low == 0x80 || low == 0xc0) && Fits(|rest|)
    ensures Framed(Header(low, |rest|) + rest, low, rest)
  {
    BigEndianWidth(|rest|);
    BigEndianInverse(|rest|);
    hide BigEndian, FromBigEndian;
    var n := |rest|;
    var b := Header(low, n) + rest;
    if n <= 55 {
      assert (low + n) % 256 == low + n;
    } else {
      var w := |BigEndian(n)|;
      var first: int := low + 55 + w;
      assert first % 256 == first;
      assert b[1..1 + w] == BigEndian(n) && b[1 + w..] == rest;
    }
  }

  /** The encoding of a tree denotes it. */
  lemma {:induction false} EncodeDenotes(t: Tree)
    requires Fits(|Encode(t)|)
    ensures Denotes(Encode(t), t)
  {
    hide Header, Framed;
    match t
    case Item(s) =>
      if !Small(s) {
        HeaderFrames(0x80, s);
      }
    case List(items) =>
      PayloadDenotes(items);
      HeaderFrames(0xc0, Payload(items));
      assert Framed(Encode(t), 0xc0, Payload(items)) && DenotesAll(Payload(items), items);
  }

  lemma {:induction false} PayloadDenotes(items: Trees)
    requires Fits(|Payload(items)|)
    ensures DenotesAll(Payload(items), items)
  {
    hide Encode, Denotes;
    if items.Snoc? {
      PayloadDenotes(items.init);
      EncodeDenotes(items.last);
      var b, k := Payload(items), |Payload(items.init)|;
      assert b[..k] == Payload(items.init) && b[k..] == Encode(items.last);
    }
  }

  // ---------------------------------------------------------------- nothing shorter does

  /** Leading zero bytes only make a number longer. */
  lemma {:induction false} ShortestNumber(s: bytes)
    requires s != []
    ensures var m := BigEndian(FromBigEndian(s)); |m| < |s| || m == s
  {
    var init, x := s[..|s| - 1], s[|s| - 1];
    var n := FromBigEndian(init);
    assert (n * 256 + x) / 256 == n && (n * 256 + x) % 256 == x;
    if init == [] {
      assert FromBigEndian(init) == 0 && s == [x];
    } else {
      ShortestNumber(init);
      assert s == init + [x];
    }
  }

  lemma HeaderShortest(b: bytes, low: byte, rest: bytes)
    requires (low == 0x80 || low == 0xc0) && Framed(b, low, rest) && Fits(|rest|)
    ensures var e := Header(low, |rest|) + rest; |e| < |b| || e == b
  {
    hide BigEndian, FromBigEndian;
    var n := |rest|;
    var e := Header(low, n) + rest;
    BigEndianWidth(n);
    if low <= b[0] <= low + 55 {
      assert (low + n) % 256 == low + n;
    } else {
      var w := b[0] - (low + 55);
      assert b == [b[0]] + b[1..1 + w] + rest;
      if n > 55 {
        ShortestNumber(b[1..1 + w]);
        var first: int := low + 55 + |BigEndian(n)|;
        assert first % 256 == first;
      }
    }
  }

  /** A byte string that denotes the tree is its encoding, or longer. */
  lemma {:induction false} EncodeShortest(b: bytes, t: Tree)
    requires Denotes(b, t) && Fits(|b|)
    ensures |Encode(t)| < |b| || Encode(t) == b
    decreases t
  {
    hide Header, Framed;
    FrameFits(b);
    match t
    case Item(s) =>
      if Framed(b, 0x80, s) {
        HeaderShortest(b, 0x80, s);
        SmallHeader(s);
      }
    case List(items) =>
      var rest :| Framed(b, 0xc0, rest) && DenotesAll(rest, items);
      PayloadShortest(rest, items);
      HeaderShortest(b, 0xc0, rest);
      HeaderGrows(0xc0, |Payload(items)|, |rest|);
  }

  lemma FrameFits(b: bytes)
    requires Fits(|b|)
    ensures forall low, rest | Framed(b, low, rest) :: Fits(|rest|)
  {
  }

  lemma SmallHeader(s: bytes)
    ensures |s| < |Header(0x80, |s|) + s|
  {
  }

  lemma {:induction false} WidthGrows(m: nat, n: nat)
    requires m <= n
    ensures |BigEndian(m)| <= |BigEndian(n)|
  {
    if m >= 256 {
      WidthGrows(m / 256, n / 256);
    }
  }

  lemma HeaderGrows(low: byte, m: nat, n: nat)
    requires m <= n
    ensures |Header(low, m)| <= |Header(low, n)|
  {
    WidthGrows(m, n);
  }

  lemma {:induction false} PayloadShortest(b: bytes, items: Trees)
    requires DenotesAll(b, items) && Fits(|b|)
    ensures |Payload(items)| < |b| || Payload(items) == b
    decreases items
  {
    hide Encode, Denotes;
    if items.Snoc? {
      var k: nat :| k <= |b| && DenotesAll(b[..k], items.init) && Denotes(b[k..], items.last);
      PayloadShortest(b[..k], items.init);
      EncodeShortest(b[k..], items.last);
      assert b == b[..k] + b[k..];
    }
  }

  /** The encoding is the one shortest byte string that denotes the tree. */
  lemma EncodeExact(t: Tree, b: bytes)
    requires Fits(|Encode(t)|)
    ensures b == Encode(t) <==>
              Denotes(b, t) && |b| <= |Encode(t)|
  {
    hide Encode, Denotes;
    EncodeDenotes(t);
    if Denotes(b, t) && |b| <= |Encode(t)| {
      EncodeShortest(b, t);
    }
  }
}
