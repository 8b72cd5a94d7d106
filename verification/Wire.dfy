/** The request and response messages of the USB link, as RLP lists. */
module Wire {
  import opened Wrappers
  import opened Rlp
  import opened RlpNode

  const WIRE_TERMINATE: byte := 10

  /** A message body may be absent, which differs from an empty one. */
  datatype Request = Request(vers: nat, kind: nat, meth: Option<bytes>, path: Option<bytes>, data: Option<bytes>)

  datatype Response = Response(vers: nat, kind: nat, code: nat, mesg: Option<bytes>)

  function Append(list: Tree, item: bytes): (t: Tree)
    requires list.List?
    ensures t.List?
  {
    List(Snoc(list.items, Item(item)))
  }

  function RequestTree(meth: bytes, path: bytes, data: Option<bytes>): (t: Tree)
    ensures t.List?
  {
    var t := Append(Append(Append(Append(List(Nil), BigEndian(0)), BigEndian(0)), meth), path);
    if data.None? then t else Append(t, data.value)
  }

  function ResponseTree(code: nat, mesg: bytes): (t: Tree)
    ensures t.List?
  {
    Append(Append(Append(Append(List(Nil), BigEndian(0)), BigEndian(0)), BigEndian(code)), mesg)
  }

  /** A C string read from bytes with a zero byte behind them. */
  function CString(s: bytes): bytes {
    if s == [] || s[0] == 0 then [] else [s[0]] + CString(s[1..])
  }

  lemma {:induction false} CStringWhole(s: bytes)
    ensures CString(s) == s <==> 0 !in s
  {
    if s != [] && s[0] != 0 {
      CStringWhole(s[1..]);
      assert s == [s[0]] + s[1..];
    }
  }

  function StrOf(t: Tree): Option<bytes> {
    if t.Item? then Some(CString(t.s)) else None
  }

  /** What a parsed message means; `None` when it is rejected. */
  function RequestOf(t: Tree): Option<Request> {
    if t.List? && Len(t.items) >= 4 then
      Some(Request(IntOf(Nth(t.items, 0), 1), IntOf(Nth(t.items, 1), 1), StrOf(Nth(t.items, 2)),
                   StrOf(Nth(t.items, 3)), if Len(t.items) > 4 then StrOf(Nth(t.items, 4)) else None))
    else None
  }

  function ResponseOf(t: Tree): Option<Response> {
    if t.List? && Len(t.items) >= 4 then
      Some(Response(IntOf(Nth(t.items, 0), 1), IntOf(Nth(t.items, 1), 1), IntOf(Nth(t.items, 2), 2),
                    StrOf(Nth(t.items, 3))))
    else None
  }

  lemma Appended(list: Tree, item: bytes)
    requires list.List?
    ensures var l := Append(list, item);
            && Len(l.items) == Len(list.items) + 1 && Nth(l.items, Len(list.items)) == Item(item)
            && forall k: nat | k < Len(list.items) :: Nth(l.items, k) == Nth(list.items, k)
  {
  }

  /** Parsing gives back what was printed, exactly when no string contains a zero byte. */
  lemma RequestRoundTrip(meth: bytes, path: bytes, data: Option<bytes>)
    ensures RequestOf(RequestTree(meth, path, data)) == Some(Request(0, 0, Some(meth), Some(path), data))
       <==> 0 !in meth && 0 !in path && (data.Some? ==> 0 !in data.value)
  {
    BigEndianInverse(0);
    CStringWhole(meth);
    CStringWhole(path);
    var zero := BigEndian(0);
    var t0 := List(Nil);
    var t1 := Append(t0, zero);
    var t2 := Append(t1, zero);
    var t3 := Append(t2, meth);
    var t4 := Append(t3, path);
    Appended(t0, zero);
    Appended(t1, zero);
    Appended(t2, meth);
    Appended(t3, path);
    hide Nth, Len, Append, CString, FromBigEndian;
    if data.Some? {
      CStringWhole(data.value);
      Appended(t4, data.value);
    }
  }

  lemma ResponseRoundTrip(code: nat, mesg: bytes)
    requires code < 0x1_0000
    ensures ResponseOf(ResponseTree(code, mesg)) == Some(Response(0, 0, code, Some(mesg))) <==> 0 !in mesg
  {
    BigEndianInverse(0);
    BigEndianInverse(code);
    BigEndianWidth(code);
    CStringWhole(mesg);
    var zero := BigEndian(0);
    var t0 := List(Nil);
    var t1 := Append(t0, zero);
    var t2 := Append(t1, zero);
    var t3 := Append(t2, BigEndian(code));
    Appended(t0, zero);
    Appended(t1, zero);
    Appended(t2, BigEndian(code));
    Appended(t3, mesg);
    hide Nth, Len, Append, CString, FromBigEndian;
  }

  /** The string ends in front of the first zero byte. */
  lemma {:induction false} CStringEnds(s: bytes, k: nat)
    requires k <= |s| && 0 !in s[..k] && (k < |s| ==> s[k] == 0)
    ensures CString(s) == s[..k]
    decreases k
  {
    if k > 0 {
      assert s[..k] == [s[0]] + s[1..][..k - 1] && s[0] in s[..k];
      CStringEnds(s[1..], k - 1);
    }
  }

  /** An integer item is read if it fits the width, and is 0 if it does not. */
  lemma WideInt(n: nat)
    requires Fits(n)
    ensures IntOf(Item(BigEndian(n)), 1) == if n < 0x100 then n else 0
    ensures IntOf(Item(BigEndian(n)), 2) == if n < 0x1_0000 then n else 0
  {
    BigEndianWidth(n);
    BigEndianInverse(n);
    hide BigEndian, FromBigEndian;
  }

  function Five(a: bytes, b: bytes, c: bytes, d: bytes, e: Option<bytes>): Tree {
    var four := Snoc(Snoc(Snoc(Snoc(Nil, Item(a)), Item(b)), Item(c)), Item(d));
    List(if e.None? then four else Snoc(four, Item(e.value)))
  }

  lemma FiveItems(a: bytes, b: bytes, c: bytes, d: bytes, e: Option<bytes>)
    ensures var items := Five(a, b, c, d, e).items;
            && Len(items) == (if e.None? then 4 else 5)
            && Nth(items, 0) == Item(a) && Nth(items, 1) == Item(b) && Nth(items, 2) == Item(c)
            && Nth(items, 3) == Item(d) && (e.Some? ==> Nth(items, 4) == Item(e.value))
  {
    var t1, t2 := Snoc(Nil, Item(a)), Snoc(Snoc(Nil, Item(a)), Item(b));
    var t3 := Snoc(t2, Item(c));
    var t4 := Snoc(t3, Item(d));
    assert Len(t1) == 1 && Len(t2) == 2;
    assert Len(t3) == 3 && Len(t4) == 4;
    assert Nth(t1, 0) == Item(a);
    assert Nth(t2, 0) == Item(a) && Nth(t2, 1) == Item(b);
    assert Nth(t3, 0) == Item(a) && Nth(t3, 1) == Item(b) && Nth(t3, 2) == Item(c);
    assert Nth(t4, 0) == Item(a) && Nth(t4, 1) == Item(b) && Nth(t4, 2) == Item(c) && Nth(t4, 3) == Item(d);
    if e.Some? {
      var t5 := Snoc(t4, Item(e.value));
      assert Len(t5) == 5;
    }
  }

  /** The fields of a request by their place in the list, whatever they hold. */
  lemma RequestFields(vers: nat, kind: nat, meth: bytes, path: bytes, data: Option<bytes>)
    requires vers < 0x100 && kind < 0x100
    ensures RequestOf(Five(BigEndian(vers), BigEndian(kind), meth, path, data))
         == Some(Request(vers, kind, Some(CString(meth)), Some(CString(path)),
                         if data.None? then None else Some(CString(data.value))))
  {
    FiveItems(BigEndian(vers), BigEndian(kind), meth, path, data);
    WideInt(vers);
    WideInt(kind);
    hide Five, BigEndian, IntOf, CString, Nth, Len;
  }

  lemma ResponseFields(vers: nat, kind: nat, code: nat, mesg: bytes)
    requires vers < 0x100 && kind < 0x100 && code < 0x1_0000
    ensures ResponseOf(Five(BigEndian(vers), BigEndian(kind), BigEndian(code), mesg, None))
         == Some(Response(vers, kind, code, Some(CString(mesg))))
  {
    FiveItems(BigEndian(vers), BigEndian(kind), BigEndian(code), mesg, None);
    WideInt(vers);
    WideInt(kind);
    WideInt(code);
    hide Five, BigEndian, IntOf, CString, Nth, Len;
  }

  /** A message is rejected exactly when it is no list, or one of less than four items. */
  lemma TooFew(t: Tree)
    ensures RequestOf(t) == None <==> t.Item? || Len(t.items) < 4
    ensures ResponseOf(t) == None <==> t.Item? || Len(t.items) < 4
  {
    hide Nth, IntOf;
  }

  /** The bytes of a message behind its prefix: version and type are zero bytes. */
  lemma MessageBytes(meth: bytes, path: bytes, data: Option<bytes>, code: nat, mesg: bytes)
    ensures Payload(RequestTree(meth, path, data).items)
         == [0, 0] + EncodeItem(meth) + EncodeItem(path) + if data.None? then [] else EncodeItem(data.value)
    ensures Payload(ResponseTree(code, mesg).items)
         == [0, 0] + EncodeItem(BigEndian(code)) + EncodeItem(mesg)
  {
    Zeros();
    hide BigEndian, EncodeItem;
    var zeros := Snoc(Snoc(Nil, Item(BigEndian(0))), Item(BigEndian(0)));
    PayloadItem(zeros, meth);
    PayloadItem(Snoc(zeros, Item(meth)), path);
    if data.Some? {
      PayloadItem(Snoc(Snoc(zeros, Item(meth)), Item(path)), data.value);
    }
    PayloadItem(zeros, BigEndian(code));
    PayloadItem(Snoc(zeros, Item(BigEndian(code))), mesg);
    hide Payload;
    var front := [0, 0] + EncodeItem(meth) + EncodeItem(path);
    assert front + [] == front;
  }

  lemma PayloadItem(items: Trees, s: bytes)
    ensures Payload(Snoc(items, Item(s))) == Payload(items) + EncodeItem(s)
  {
    hide EncodeItem;
  }

  lemma Zeros()
    ensures Payload(Snoc(Snoc(Nil, Item(BigEndian(0))), Item(BigEndian(0)))) == [0, 0]
  {
    assert EncodeItem(BigEndian(0)) == [0];
    hide EncodeItem, BigEndian;
    PayloadItem(Nil, BigEndian(0));
    PayloadItem(Snoc(Nil, Item(BigEndian(0))), BigEndian(0));
    assert Payload(Nil) == [];
    hide Payload;
    assert [] + [0] + [0] == [0, 0];
  }

  // ---------------------------------------------------------------- printing

  /** An integer item: big-endian, without leading zero bytes. */
  method ItemInt(value: nat, width: nat) returns (r: Node)
    requires 0 < width <= 4 && Shifted(value, width) == 0 && Fits(value)
    ensures Whole(r) && fresh(r.all) && r.val == Item(BigEndian(value))
  {
    BigEndianWidth(value);
    var mem := new byte[4];
    var n := WriteBigEndian(mem, 0, value, width);
    assert mem[..n] == BigEndian(value);
    r := RlpItem(mem[..n]);
  }

  method PushBytes(list: Node, s: bytes)
    requires Whole(list) && list.val.List? && Short(s)
    modifies list
    ensures Whole(list) && fresh(list.all - old(list.all))
    ensures list.val == Append(old(list.val), s)
  {
    var item := RlpItem(s);
    var _ := RlpPush(list, item);
  }

  method PushInt(list: Node, value: nat, width: nat)
    requires Whole(list) && list.val.List?
    requires 0 < width <= 4 && Shifted(value, width) == 0 && Fits(value)
    modifies list
    ensures Whole(list) && fresh(list.all - old(list.all))
    ensures list.val == Append(old(list.val), BigEndian(value))
  {
    var item := ItemInt(value, width);
    var _ := RlpPush(list, item);
  }

  /** A `uint32_t` sum */
  function Plus32(a: nat, b: nat): nat {
    (a + b) % 0x1_0000_0000
  }

  /** Puts the terminator behind the message if there is room, and counts it anyway. */
  method AddTerminator(spot: array<byte>, l0: nat, sz: nat) returns (l: nat)
    requires sz <= spot.Length && Fits(l0) && Fits(sz)
    modifies spot
    ensures l == Plus32(l0, 1)
    ensures spot[..] == if l0 < sz then old(spot[..])[l0 := 10] else old(spot[..])
  {
    if l0 < sz {
      spot[l0] := WIRE_TERMINATE;
    }
    l := Plus32(l0, 1);
  }

  /** Whether a message of `n` bytes is printed: it must fit the given buffer, or one
      byte less than 2^32 when the buffer is to be allocated. */
  predicate Printable(n: nat, allocate: bool, l0: nat) {
    if allocate then n + 1 < 0x1_0000_0000 else n <= l0
  }

  /** The encoding stands in the buffer, and the terminator behind it if there is room. */
  ghost predicate Printed(b: bytes, sz: nat, t: Tree) {
    && StartsWith(b, 0, Encode(t))
    && (|Encode(t)| < sz && |Encode(t)| < |b| ==> b[|Encode(t)|] == WIRE_TERMINATE)
  }

  /** Prints a message and its terminator; a missing buffer is allocated to size. */
  method Print(r: Node, buf0: array?<byte>, l0: nat) returns (err: int, l: nat, buf: array<byte>)
    requires Whole(r) && Fits(|Encode(r.val)|) && r.val.List? && r.val.items.Snoc?
    requires Fits(l0) && (buf0 != null ==> l0 <= buf0.Length)
    modifies buf0
    ensures if buf0 == null then fresh(buf) && buf.Length == Plus32(|Encode(r.val)|, 1) else buf == buf0
    ensures l == Plus32(|Encode(r.val)|, 1)
    ensures err == if Printable(|Encode(r.val)|, buf0 == null, l0) then 0 else -1
    ensures err == 0 ==> Printed(buf[..], if buf0 == null then buf.Length else l0, r.val)
    ensures err != 0 && buf0 != null ==> buf[..] == old(buf0[..])
  {
    hide Encode, Payload, Header, Replaced, Printed, StartsWith, Node.Valid;
    RootParts(r);
    var sz := l0;
    if buf0 == null {
      var size, _ := PrintWalk(r.child, null, 0);
      sz := Plus32(size, 1);
      buf := new byte[sz];
    } else {
      buf := buf0;
    }
    ghost var was := buf[..];
    err, l := RlpPrint(r, buf, sz);
    ghost var printed := buf[..];
    l := AddTerminator(buf, l, sz);
    if err == 0 {
      Terminated(was, printed, buf[..], sz, r.val);
    }
  }

  lemma RootParts(r: Node)
    requires Whole(r) && r.val.List? && r.val.items.Snoc?
    ensures |r.b| == 0 && r.child != null && r.child.Valid() && r.val == List(r.child.chain)
  {
  }

  lemma Terminated(was: bytes, printed: bytes, b: bytes, sz: nat, t: Tree)
    requires Replaced(printed, was, 0, Encode(t)) && |Encode(t)| <= sz <= |was|
    requires b == if |Encode(t)| < sz then printed[|Encode(t)| := WIRE_TERMINATE] else printed
    ensures Printed(b, sz, t)
  {
    hide Encode;
  }

  method PrintRequest(buf0: array?<byte>, l0: nat, meth: bytes, path: bytes, data: Option<bytes>)
    returns (err: int, l: nat, buf: array<byte>)
    requires Fits(|Encode(RequestTree(meth, path, data))|)
    requires Short(meth) && Short(path) && (data.Some? ==> Short(data.value))
    requires Fits(l0) && (buf0 != null ==> l0 <= buf0.Length)
    modifies buf0
    ensures var t := RequestTree(meth, path, data);
            && (if buf0 == null then fresh(buf) && buf.Length == Plus32(|Encode(t)|, 1) else buf == buf0)
            && l == Plus32(|Encode(t)|, 1)
            && err == (if Printable(|Encode(t)|, buf0 == null, l0) then 0 else -1)
            && (err == 0 ==> Printed(buf[..], if buf0 == null then buf.Length else l0, t))
    ensures err != 0 && buf0 != null ==> buf[..] == old(buf0[..])
  {
    hide Encode, Printed, BigEndian;
    var r := RlpList();
    PushInt(r, 0, 1);
    PushInt(r, 0, 1);
    PushBytes(r, meth);
    PushBytes(r, path);
    if data.Some? {
      PushBytes(r, data.value);
    }
    err, l, buf := Print(r, buf0, l0);
  }

  method PrintResponse(buf0: array?<byte>, l0: nat, code: nat, mesg: bytes)
    returns (err: int, l: nat, buf: array<byte>)
    requires code < 0x1_0000 && Fits(|Encode(ResponseTree(code, mesg))|) && Short(mesg)
    requires Fits(l0) && (buf0 != null ==> l0 <= buf0.Length)
    modifies buf0
    ensures var t := ResponseTree(code, mesg);
            && (if buf0 == null then fresh(buf) && buf.Length == Plus32(|Encode(t)|, 1) else buf == buf0)
            && l == Plus32(|Encode(t)|, 1)
            && err == (if Printable(|Encode(t)|, buf0 == null, l0) then 0 else -1)
            && (err == 0 ==> Printed(buf[..], if buf0 == null then buf.Length else l0, t))
    ensures err != 0 && buf0 != null ==> buf[..] == old(buf0[..])
  {
    hide Encode, Printed, BigEndian;
    var r := RlpList();
    TwoBytes(code);
    PushInt(r, 0, 1);
    PushInt(r, 0, 1);
    PushInt(r, code, 2);
    PushBytes(r, mesg);
    err, l, buf := Print(r, buf0, l0);
  }

  lemma TwoBytes(code: nat)
    requires code < 0x1_0000
    ensures Shifted(code, 2) == 0
  {
    assert Shifted(code, 1) == code / 256 < 256;
  }

  // ---------------------------------------------------------------- parsing

  lemma {:induction false} NthSmaller(items: Trees, k: nat)
    requires k < Len(items)
    ensures |Encode(Nth(items, k))| <= |Payload(items)|
  {
    if k + 1 < Len(items) {
      NthSmaller(items.init, k);
    }
  }

  method IntAt(root: Node, k: nat, width: nat) returns (v: nat)
    requires root.Valid() && root.val.List? && k < Len(root.val.items)
    requires Fits(|Encode(root.val)|) && Fits(root.n)
    ensures v == IntOf(Nth(root.val.items, k), width)
  {
    NthSmaller(root.val.items, k);
    var node := RlpAt(root, k);
    v := RlpAsInt(node, width);
  }

  method StrAt(root: Node, k: nat) returns (s: Option<bytes>)
    requires root.Valid() && root.val.List? && k < Len(root.val.items)
    requires Fits(|Encode(root.val)|) && Fits(root.n)
    ensures s == StrOf(Nth(root.val.items, k))
  {
    NthSmaller(root.val.items, k);
    var node := RlpAt(root, k);
    if |node.b| == 0 {
      return None;
    }
    var data := RlpRef(node);
    s := Some(CString(data));
  }

  method ParseRequest(b: bytes, ghost t: Tree) returns (r: Option<Request>)
    requires StartsWith(b, 0, Encode(t)) && Fits(|Encode(t)|) && AllShort(t)
    ensures r == RequestOf(t)
  {
    var root := RlpParse(b, t);
    if |root.b| != 0 || root.n < 4 {
      return None;
    }
    LenFits(t.items);
    var vers := IntAt(root, 0, 1);
    var kind := IntAt(root, 1, 1);
    var meth := StrAt(root, 2);
    var path := StrAt(root, 3);
    var data := None;
    if root.n > 4 {
      data := StrAt(root, 4);
    }
    r := Some(Request(vers, kind, meth, path, data));
  }

  method ParseResponse(b: bytes, ghost t: Tree) returns (r: Option<Response>)
    requires StartsWith(b, 0, Encode(t)) && Fits(|Encode(t)|) && AllShort(t)
    ensures r == ResponseOf(t)
  {
    var root := RlpParse(b, t);
    if |root.b| != 0 || root.n < 4 {
      return None;
    }
    LenFits(t.items);
    var vers := IntAt(root, 0, 1);
    var kind := IntAt(root, 1, 1);
    var code := IntAt(root, 2, 2);
    var mesg := StrAt(root, 3);
    r := Some(Response(vers, kind, code, mesg));
  }

  lemma PrintedStarts(b: bytes, sz: nat, t: Tree)
    ensures Printed(b, sz, t) ==> StartsWith(b, 0, Encode(t))
  {
  }

  lemma WholeBuffer(n: nat, l0: nat)
    ensures Printable(n, false, l0) <==> n <= l0
  {
  }

  lemma ShortAppend(list: Tree, item: bytes)
    requires list.List? && AllShort(list) && Short(item)
    ensures AllShort(Append(list, item))
  {
  }

  lemma RequestShort(meth: bytes, path: bytes, data: Option<bytes>)
    requires Short(meth) && Short(path) && (data.Some? ==> Short(data.value))
    ensures AllShort(RequestTree(meth, path, data))
  {
    BigEndianWidth(0);
    hide AllShort, Append, BigEndian;
    var t0 := List(Nil);
    ShortNothing();
    ShortAppend(t0, BigEndian(0));
    var t1 := Append(t0, BigEndian(0));
    ShortAppend(t1, BigEndian(0));
    var t2 := Append(t1, BigEndian(0));
    ShortAppend(t2, meth);
    ShortAppend(Append(t2, meth), path);
    if data.Some? {
      ShortAppend(Append(Append(t2, meth), path), data.value);
    }
  }

  lemma ResponseShort(code: nat, mesg: bytes)
    requires code < 0x1_0000 && Short(mesg)
    ensures AllShort(ResponseTree(code, mesg))
  {
    BigEndianWidth(0);
    BigEndianWidth(code);
    hide AllShort, Append, BigEndian;
    var t0 := List(Nil);
    ShortNothing();
    ShortAppend(t0, BigEndian(0));
    var t1 := Append(t0, BigEndian(0));
    ShortAppend(t1, BigEndian(0));
    var t2 := Append(t1, BigEndian(0));
    ShortAppend(t2, BigEndian(code));
    ShortAppend(Append(t2, BigEndian(code)), mesg);
  }

  lemma ShortNothing()
    ensures AllShort(List(Nil))
  {
  }

  /** A request printed into a buffer and parsed from it is the same request, exactly
      when it fits and no string contains a zero byte. */
  method RequestTrip(buf: array<byte>, meth: bytes, path: bytes, data: Option<bytes>)
    returns (err: int, r: Option<Request>)
    requires Fits(|Encode(RequestTree(meth, path, data))|)
    requires Short(meth) && Short(path) && (data.Some? ==> Short(data.value)) && Fits(buf.Length)
    modifies buf
    ensures err == 0 <==> |Encode(RequestTree(meth, path, data))| <= buf.Length
    ensures err == 0 ==>
              (r == Some(Request(0, 0, Some(meth), Some(path), data)) <==>
               0 !in meth && 0 !in path && (data.Some? ==> 0 !in data.value))
  {
    hide *;
    RequestRoundTrip(meth, path, data);
    RequestShort(meth, path, data);
    r := None;
    var l, b;
    err, l, b := PrintRequest(buf, buf.Length, meth, path, data);
    PrintedStarts(b[..], buf.Length, RequestTree(meth, path, data));
    WholeBuffer(|Encode(RequestTree(meth, path, data))|, buf.Length);
    if err == 0 {
      r := ParseRequest(b[..], RequestTree(meth, path, data));
    }
  }

  method ResponseTrip(buf: array<byte>, code: nat, mesg: bytes) returns (err: int, r: Option<Response>)
    requires code < 0x1_0000 && Fits(|Encode(ResponseTree(code, mesg))|) && Short(mesg) && Fits(buf.Length)
    modifies buf
    ensures err == 0 <==> |Encode(ResponseTree(code, mesg))| <= buf.Length
    ensures err == 0 ==> (r == Some(Response(0, 0, code, Some(mesg))) <==> 0 !in mesg)
  {
    hide *;
    ResponseRoundTrip(code, mesg);
    ResponseShort(code, mesg);
    r := None;
    var l, b;
    err, l, b := PrintResponse(buf, buf.Length, code, mesg);
    PrintedStarts(b[..], buf.Length, ResponseTree(code, mesg));
    WholeBuffer(|Encode(ResponseTree(code, mesg))|, buf.Length);
    if err == 0 {
      r := ParseResponse(b[..], ResponseTree(code, mesg));
    }
  }

  lemma {:induction false} LenFits(items: Trees)
    ensures Len(items) <= |Payload(items)|
  {
    if items.Snoc? {
      LenFits(items.init);
      EncodeSome(items.last);
    }
  }
}
