/** The linked nodes that hold an RLP tree: the children of a list are chained
    through `next`, the last one first. */
module RlpNode {
  import opened Wrappers
  import opened Rlp

  class Node {
    var next: Node?
    var child: Node?
    var n: nat
    const b: bytes

    ghost var val: Tree        // the tree below this node
    ghost var chain: Trees     // this tree, preceded by those of the nodes behind `next`
    ghost var down: set<Node>  // this node and everything below it
    ghost var all: set<Node>   // those, and everything reachable through `next`

    ghost predicate Valid()
      reads this, all
      decreases all
    {
      && this in down && down <= all
      && (if child == null then down == {this}
          else child in down && child.all == down - {this} && child.Valid())
      && (if next == null then all == down
          else next in all && next.all == all - down && next.Valid())
      && n == Len(Chain(child))
      && (if |b| == 0 then val == List(Chain(child))
          else child == null && val.Item? && b == EncodeItem(val.s))
      && chain == Snoc(Chain(next), val)
    }

    constructor (b: bytes, ghost val: Tree)
      requires if |b| == 0 then val == List(Nil) else val.Item? && b == EncodeItem(val.s)
      ensures Valid() && fresh(all) && all == {this}
      ensures this.b == b && this.val == val && next == null && child == null
    {
      this.b, this.next, this.child, this.n := b, null, null, 0;
      this.val, this.chain := val, Snoc(Nil, val);
      this.down, this.all := {this}, {this};
    }
  }

  ghost function Chain(p: Node?): Trees
    reads p
  {
    if p == null then Nil else p.chain
  }

  /** An item or a list that is not (or not yet) among the children of another. */
  ghost predicate Whole(p: Node)
    reads p, p.all
  {
    p.Valid() && p.next == null
  }

  method RlpList() returns (r: Node)
    ensures Whole(r) && fresh(r.all) && r.val == List(Nil)
  {
    r := new Node([], List(Nil));
  }

  method RlpPush(parent0: Node?, child: Node) returns (parent: Node)
    requires Whole(child)
    requires parent0 != null ==> Whole(parent0) && parent0.all !! child.all
    modifies if parent0 == null then {} else {parent0}, child
    ensures Whole(parent) && fresh(parent.all - old(child.all) - if parent0 == null then {} else old(parent0.all))
    ensures parent0 != null && old(parent0.val.List?) ==> parent == parent0
    ensures parent.val == List(Snoc(if parent0 == null then Nil
                                    else if old(parent0.val.List?) then old(parent0.val.items)
                                    else Snoc(Nil, old(parent0.val)),
                                    old(child.val)))
  {
    if parent0 == null {
      parent := RlpList();
    } else if |parent0.b| != 0 {
      var list := RlpList();
      Link(list, parent0);
      parent := list;
    } else {
      parent := parent0;
    }
    Link(parent, child);
  }

  /** The relinking of `rlp_push`, on a parent that is a list. */
  method Link(parent: Node, child: Node)
    requires Whole(parent) && |parent.b| == 0 && Whole(child) && parent.all !! child.all
    modifies parent, child
    ensures Whole(parent) && parent.all == old(parent.all) + child.down
    ensures child.down == old(child.down)
    ensures parent.val == List(Snoc(old(parent.val.items), old(child.val)))
  {
    ListParts(parent);
    hide Node.Valid;
    Prepend(child, parent.child);
    Adopt(parent, child);
  }

  lemma ListParts(parent: Node)
    requires Whole(parent) && |parent.b| == 0
    ensures parent.val == List(Chain(parent.child)) && parent.n == Len(Chain(parent.child))
    ensures parent.child != null ==> parent.child.Valid()
    ensures parent in parent.all
    ensures parent.all == {parent} + (if parent.child == null then {} else parent.child.all)
    ensures parent.child != null ==> parent !in parent.child.all
  {
  }

  /** The child becomes the first of the chain below a list. */
  method Adopt(parent: Node, child: Node)
    requires parent.next == null && |parent.b| == 0 && child.Valid() && parent !in child.all
    requires parent.n + 1 == Len(child.chain)
    modifies parent
    ensures Whole(parent) && parent.all == {parent} + child.all && parent.val == List(child.chain)
  {
    parent.child := child;
    parent.n := parent.n + 1;
    parent.val := List(child.chain);
    parent.chain := Snoc(Nil, parent.val);
    parent.down := {parent} + child.all;
    parent.all := parent.down;
  }

  /** Puts a node in front of the children there are. */
  method Prepend(child: Node, rest: Node?)
    requires Whole(child) && (rest != null ==> rest.Valid() && rest.all !! child.all)
    modifies child
    ensures child.Valid() && child.down == old(child.down) && child.val == old(child.val)
    ensures child.all == child.down + if rest == null then {} else rest.all
    ensures child.chain == Snoc(Chain(rest), child.val)
  {
    if rest != null {
      child.next := rest;
      child.all := child.down + rest.all;
      child.chain := Snoc(rest.chain, child.val);
    }
  }

  // ---------------------------------------------------------------- printing

  /** `value >> 8 * k` */
  function Shifted(value: nat, k: nat): nat {
    if k == 0 then value else Shifted(value, k - 1) / 256
  }

  lemma {:induction false} ShiftedWidth(value: nat, k: nat)
    ensures |BigEndian(Shifted(value, k))| <= |BigEndian(value)|
  {
    if k > 0 {
      ShiftedWidth(value, k - 1);
      assert |BigEndian(Shifted(value, k - 1) / 256)| <= |BigEndian(Shifted(value, k - 1))|;
    }
  }

  /** What has been written when `left` bytes are still to be looked at. */
  ghost function Written(value: nat, left: nat): bytes {
    if left > 0 && Shifted(value, left) == 0 then [] else BigEndian(Shifted(value, left))
  }

  /** The bytes of a buffer around a replaced stretch. */
  ghost predicate Replaced(now: bytes, was: bytes, at: nat, s: bytes) {
    at + |s| <= |was| && now == was[..at] + s + was[at + |s|..]
  }

  /** Big-endian bytes of a `width`-byte integer from position `at` on, without
      leading zero bytes; the number of bytes written. */
  method WriteBigEndian(buf: array<byte>, at: nat, value: nat, width: nat) returns (c: nat)
    requires 0 < width && Shifted(value, width) == 0
    requires at + |BigEndian(value)| <= buf.Length
    modifies buf
    ensures c == |BigEndian(value)| && Replaced(buf[..], old(buf[..]), at, BigEndian(value))
  {
    hide BigEndian, Replaced, Written, Shifted;
    var left, hit := width, false;
    c := 0;
    StartWritten(buf[..], at, value, width);
    while left > 0
      invariant left <= width && (hit <==> Shifted(value, left) != 0)
      invariant c == |Written(value, left)| <= |BigEndian(value)|
      invariant Replaced(buf[..], old(buf[..]), at, Written(value, left))
    {
      left := left - 1;
      var x: byte := Shifted(value, left) % 256;
      MoreWritten(value, left);
      if x != 0 {
        hit := true;
      }
      if hit || left == 0 {
        ghost var mid := buf[..];
        buf[at + c] := x;
        ReplacedBack(old(buf[..]), mid, buf[..], at, Written(value, left + 1), x);
        c := c + 1;
      }
    }
    AllWritten(value);
  }

  lemma AllWritten(value: nat)
    ensures Written(value, 0) == BigEndian(value)
  {
  }

  lemma StartWritten(was: bytes, at: nat, value: nat, width: nat)
    requires width > 0 && Shifted(value, width) == 0 && at <= |was|
    ensures Written(value, width) == [] && Replaced(was, was, at, [])
  {
  }

  /** The byte of the next lower position is appended, unless it is a leading zero. */
  lemma MoreWritten(value: nat, left: nat)
    ensures var x := Shifted(value, left) % 256;
            var hit := Shifted(value, left + 1) != 0 || x != 0;
            && (hit <==> Shifted(value, left) != 0)
            && Written(value, left) == if hit || left == 0 then Written(value, left + 1) + [x] else []
    ensures !(Shifted(value, left + 1) != 0) ==> Written(value, left + 1) == []
    ensures |Written(value, left)| <= |BigEndian(value)|
  {
    ShiftedWidth(value, left);
    assert Shifted(value, left + 1) == Shifted(value, left) / 256;
  }

  /** One byte more behind a replaced stretch. */
  lemma ReplacedBack(was: bytes, mid: bytes, now: bytes, at: nat, s: bytes, x: byte)
    requires Replaced(mid, was, at, s) && at + |s| < |was| && now == mid[at + |s| := x]
    ensures Replaced(now, was, at, s + [x])
  {
  }

  /** A second stretch written right in front of the first. */
  lemma ReplacedFront(was: bytes, mid: bytes, now: bytes, at: nat, s: bytes, e: bytes)
    requires Replaced(mid, was, at, s) && |e| <= at && Replaced(now, mid, at - |e|, e)
    ensures Replaced(now, was, at - |e|, e + s)
  {
    assert mid[..at - |e|] == was[..at - |e|];
    assert mid[at..] == s + was[at + |s|..];
    assert now == was[..at - |e|] + (e + s) + was[at + |s|..];
  }

  lemma ReplacedOne(was: bytes, now: bytes, at: nat, x: byte)
    requires at < |was| && now == was[at := x]
    ensures Replaced(now, was, at, [x])
  {
  }

  lemma ReplacedNothing(was: bytes, at: nat)
    requires at <= |was|
    ensures Replaced(was, was, at, [])
  {
  }

  /** The prefix that `rlp_write_sz` writes: none for the length 0. */
  function Prefix(s: nat, isList: bool): bytes {
    if s == 0 then [] else Header(if isList then 0xc0 else 0x80, s)
  }

  /** Writes a length prefix in front of `spot0`, unless the length is 0. */
  method WriteSz(buf: array?<byte>, spot0: nat, s: nat, isList: bool) returns (sz: nat, spot: nat)
    requires Fits(s)
    requires buf != null ==> |Prefix(s, isList)| <= spot0 <= buf.Length
    modifies buf
    ensures sz == |Prefix(s, isList)|
    ensures buf != null ==> spot == spot0 - sz && Replaced(buf[..], old(buf[..]), spot, Prefix(s, isList))
  {
    hide BigEndian, Replaced, SizeOfSize, Shifted, Header;
    HeaderParts(if isList then 0xc0 else 0x80, s);
    spot := spot0;
    if s < 1 {
      sz := 0;
      if buf != null {
        ReplacedNothing(buf[..], spot0);
      }
    } else if s <= 55 {
      if buf != null {
        ghost var was := buf[..];
        spot := spot - 1;
        buf[spot] := s + if isList then 0xc0 else 0x80;
        ReplacedOne(was, buf[..], spot, buf[spot]);
      }
      sz := 1;
    } else {
      SizeOfSizeIsWidth(s);
      var szsz := SizeOfSize(s);
      if buf != null {
        ghost var was := buf[..];
        spot := spot - szsz;
        FourBytes(s);
        var _ := WriteBigEndian(buf, spot, s, 4);
        spot := spot - 1;
        ghost var mid := buf[..];
        buf[spot] := szsz + if isList then 0xf7 else 0xb7;
        ReplacedOne(mid, buf[..], spot, buf[spot]);
        ReplacedFront(was, mid, buf[..], spot + 1, BigEndian(s), [buf[spot]]);
      }
      sz := szsz + 1;
    }
  }

  lemma FourBytes(s: nat)
    requires Fits(s)
    ensures Shifted(s, 4) == 0
  {
    assert Shifted(s, 1) == s / 256;
    assert Shifted(s, 2) == s / 256 / 256;
    assert Shifted(s, 3) == s / 256 / 256 / 256 < 256;
  }

  /** Copies the encoded bytes of an item in front of `spot0`, last byte first. */
  method CopyBack(buf: array<byte>, spot0: nat, b: bytes) returns (spot: nat)
    requires |b| <= spot0 <= buf.Length
    modifies buf
    ensures spot == spot0 - |b| && Replaced(buf[..], old(buf[..]), spot, b)
  {
    spot := spot0;
    var left := |b|;
    while left > 0
      invariant 0 <= left <= |b| && spot == spot0 - |b| + left
      invariant Replaced(buf[..], old(buf[..]), spot, b[left..])
    {
      ghost var mid := buf[..];
      left := left - 1;
      spot := spot - 1;
      buf[spot] := b[left];
      assert buf[..] == mid[spot := b[left]];
      assert Replaced(buf[..], mid, spot, [b[left]]);
      ReplacedFront(old(buf[..]), mid, buf[..], spot + 1, b[left + 1..], [b[left]]);
      assert [b[left]] + b[left + 1..] == b[left..];
    }
    assert b[0..] == b;
  }

  lemma NextValid(node: Node)
    requires node.Valid()
    ensures node.next != null ==> node.next.Valid() && node.next.all < node.all
    ensures node in node.all && Chain(node) == node.chain && node.chain.Snoc? && Chain(null) == Nil
  {
  }

  lemma PayloadLast(node: Node, done: bytes, total: bytes)
    requires node.Valid() && total == Payload(node.chain) + done
    ensures total == Payload(Chain(node.next)) + (Encode(node.val) + done)
    ensures |Encode(node.val)| + |done| <= |total|
  {
    assert node.chain == Snoc(Chain(node.next), node.val);
  }

  /** Prints one child in front of `spot0`. */
  method PrintNode(node: Node, buf: array?<byte>, spot0: nat) returns (sz: nat, spot: nat)
    requires node.Valid() && Fits(|Encode(node.val)|)
    requires buf != null ==> |Encode(node.val)| <= spot0 <= buf.Length
    modifies buf
    ensures sz == |Encode(node.val)|
    ensures buf != null ==>
              spot == spot0 - sz && Replaced(buf[..], old(buf[..]), spot, Encode(node.val))
    decreases node.all, 0
  {
    sz, spot := 0, spot0;
    if |node.b| == 0 {
      if node.child != null {
        sz, spot := PrintWalk(node.child, buf, spot);
      } else {
        sz := 1;
        if buf != null {
          spot := spot - 1;
          buf[spot] := 0xc0;
          assert Encode(List(Nil)) == [0xc0];
        }
      }
    } else {
      if buf != null {
        spot := CopyBack(buf, spot, node.b);
      }
      sz := |node.b|;
    }
  }

  /** Prints the list whose last child is `node` in front of `spot0`; without a
      buffer it only computes the size. */
  method PrintWalk(node: Node, buf: array?<byte>, spot0: nat) returns (sz: nat, spot: nat)
    requires node.Valid() && Fits(|Encode(List(node.chain))|)
    requires buf != null ==> |Encode(List(node.chain))| <= spot0 <= buf.Length
    modifies buf
    ensures sz == |Encode(List(node.chain))|
    ensures buf != null ==>
              spot == spot0 - sz && Replaced(buf[..], old(buf[..]), spot, Encode(List(node.chain)))
    decreases node.all, 2
  {
    hide *;
    NextValid(node);
    ListEncoding(node.chain);
    PayloadFits(node.chain);
    sz, spot := PrintItems(node, buf, spot0);
    ghost var mid, was := if buf == null then [] else buf[..], spot;
    var h;
    h, spot := WriteSz(buf, spot, sz, true);
    if buf != null {
      ReplacedFront(old(buf[..]), mid, buf[..], was, Payload(node.chain), Prefix(sz, true));
    }
    sz := sz + h;
  }

  /** The loop over the children, last one first. */
  method PrintItems(node: Node, buf: array?<byte>, spot0: nat) returns (sz: nat, spot: nat)
    requires node.Valid() && Fits(|Payload(node.chain)|)
    requires buf != null ==> |Payload(node.chain)| <= spot0 <= buf.Length
    modifies buf
    ensures sz == |Payload(node.chain)|
    ensures buf != null ==>
              spot == spot0 - sz && Replaced(buf[..], old(buf[..]), spot, Payload(node.chain))
    decreases node.all, 1
  {
    hide Replaced, Header, Payload, Encode, Len, Node.Valid;
    var cur: Node? := node;
    ghost var done: bytes, total := [], Payload(node.chain);
    sz, spot := 0, spot0;
    if buf != null {
      ReplacedNothing(buf[..], spot0);
    }
    FirstPayload(node);
    while cur != null
      invariant cur != null ==> cur.Valid() && cur.all <= node.all
      invariant total == Payload(Chain(cur)) + done && sz == |done|
      invariant buf != null ==>
                  spot == spot0 - |done| && Replaced(buf[..], old(buf[..]), spot, done)
      decreases if cur == null then {} else cur.all
    {
      PayloadLast(cur, done, total);
      NextValid(cur);
      ghost var mid, was := if buf == null then [] else buf[..], spot;
      var e;
      e, spot := PrintNode(cur, buf, spot);
      if buf != null {
        ReplacedFront(old(buf[..]), mid, buf[..], was, done, Encode(cur.val));
      }
      done := Encode(cur.val) + done;
      sz := sz + e;
      cur := cur.next;
    }
    EmptyPayload(done);
  }

  lemma PayloadFits(items: Trees)
    ensures Fits(|Encode(List(items))|) ==> Fits(|Payload(items)|)
  {
  }

  lemma FirstPayload(node: Node)
    ensures Payload(node.chain) == Payload(Chain(node)) + []
  {
  }

  lemma ListEncoding(items: Trees)
    requires items.Snoc?
    ensures Encode(List(items)) == Prefix(|Payload(items)|, true) + Payload(items)
  {
  }

  lemma EmptyPayload(done: bytes)
    ensures Payload(Chain(null)) + done == done
  {
  }

  /** Prints a whole tree if its encoding fits into `l` bytes, and reports its size. A
      single item of more than 2^31 bytes is reported as printed without being copied. */
  method RlpPrint(root: Node, buf: array?<byte>, l: nat) returns (err: int, size: nat)
    requires Whole(root) && Fits(|Encode(root.val)|)
    requires buf != null ==> l <= buf.Length
    modifies buf
    ensures size == |Encode(root.val)|
    ensures err == if size <= l then 0 else -1
    ensures buf != null ==>
              if err == 0 && (root.val.List? || size <= 0x8000_0000)
              then Replaced(buf[..], old(buf[..]), 0, Encode(root.val))
              else buf[..] == old(buf[..])
  {
    err := -1;
    if |root.b| != 0 {
      if |root.b| <= l {
        // from here on an int index: below zero for more than 2^31 bytes
        if buf != null && |root.b| - 1 < 0x8000_0000 {
          var _ := CopyBack(buf, |root.b|, root.b);
        }
        err := 0;
      }
      size := |root.b|;
    } else if root.child != null {
      var spot;
      size, spot := PrintWalk(root.child, null, 0);
      if size <= l {
        if buf != null {
          var _, at := PrintWalk(root.child, buf, size);
        }
        err := 0;
      }
    } else {
      assert Encode(List(Nil)) == [0xc0];
      if l > 0 {
        if buf != null {
          buf[0] := 0xc0;
        }
        err := 0;
      }
      size := 1;
    }
  }

  // ---------------------------------------------------------------- items

  /** An item node: its encoding is laid out from the last byte to the first. */
  method RlpItem(s: bytes) returns (r: Node)
    requires Short(s)
    ensures Whole(r) && fresh(r.all) && r.val == Item(s)
  {
    hide Replaced, Header;
    var b: array<byte>;
    HeaderSize(|s|);
    if |s| == 0 {
      b := new byte[1];
      b[0] := 0x80;
      assert b[..] == EncodeItem(s);
    } else if |s| == 1 && s[0] < 0x80 {
      b := new byte[1];
      b[0] := s[0];
      assert b[..] == EncodeItem(s);
    } else {
      if |s| <= 55 {
        b := new byte[|s| + 1];
        ghost var was := b[..];
        var spot := CopyBack(b, |s| + 1, s);
        ghost var mid := b[..];
        b[spot - 1] := 0x80 + |s|;
        ReplacedOne(mid, b[..], 0, b[0]);
        ReplacedFront(was, mid, b[..], 1, s, [b[0]]);
        ReplacedAll(was, b[..], [b[0]] + s);
      } else {
        b := new byte[SizeOfSize(|s|) + 1 + |s|];
        ghost var was := b[..];
        var spot := CopyBack(b, b.Length, s);
        ghost var mid := b[..];
        var _, _ := WriteSz(b, spot, |s|, false);
        ReplacedFront(was, mid, b[..], spot, s, Header(0x80, |s|));
        ReplacedAll(was, b[..], Header(0x80, |s|) + s);
      }
    }
    r := new Node(b[..], Item(s));
  }

  lemma HeaderSize(n: nat)
    requires Fits(n)
    ensures if n <= 55 then Header(0x80, n) == [0x80 + n]
            else |Header(0x80, n)| == SizeOfSize(n) + 1
    ensures EncodeItem([]) == [0x80]
  {
    if n > 55 {
      SizeOfSizeIsWidth(n);
    }
  }

  lemma ReplacedAll(was: bytes, now: bytes, s: bytes)
    requires Replaced(now, was, 0, s) && |s| == |was|
    ensures now == s
  {
  }

  // ---------------------------------------------------------------- reading

  ghost predicate StartsWith(b: bytes, at: nat, s: bytes) {
    at + |s| <= |b| && b[at..at + |s|] == s
  }

  lemma StartsSplit(b: bytes, at: nat, s: bytes, t: bytes)
    requires StartsWith(b, at, s + t)
    ensures StartsWith(b, at, s) && StartsWith(b, at + |s|, t)
  {
    var all := b[at..at + |s + t|];
    assert s == all[..|s|] == b[at..at + |s|];
    assert t == all[|s|..] == b[at + |s|..at + |s| + |t|];
  }

  method ReadBigEndian(b: bytes, at: nat, width: nat) returns (v: nat)
    requires at + width <= |b|
    ensures v == FromBigEndian(b[at..at + width])
  {
    v := 0;
    for k := 0 to width
      invariant v == FromBigEndian(b[at..at + k])
    {
      assert b[at..at + k + 1][..k] == b[at..at + k];
      v := v * 256 + b[at + k];
    }
  }

  /** The length a prefix announces: a small item and the empty list are their own
      single byte. */
  ghost function Announced(t: Tree): nat {
    match t
    case Item(s) => |s|
    case List(items) => if items.Nil? then 1 else |Payload(items)|
  }

  /** The number of prefix bytes in front of the announced ones. */
  ghost function PrefixSize(t: Tree): nat {
    |Encode(t)| - Announced(t)
  }

  /** The bytes at `at` are a length prefix of `size` bytes that announces `n`. */
  ghost predicate Announces(b: bytes, at: nat, base: byte, n: nat, size: nat) {
    && at < |b|
    && if n <= 55 then b[at] == base + n && size == 1
       else
         var w := b[at] - base - 55;
         && 1 <= w <= 4 && size == 1 + w && at + size <= |b|
         && FromBigEndian(b[at + 1..at + 1 + w]) == n
  }

  lemma HeaderRead(b: bytes, at: nat, base: byte, n: nat, rest: bytes)
    requires StartsWith(b, at, Header(base, n) + rest) && Fits(n) && (base == 0x80 || base == 0xc0)
    ensures Announces(b, at, base, n, |Header(base, n)|)
  {
    hide StartsWith, BigEndian, FromBigEndian, Header;
    StartsSplit(b, at, Header(base, n), rest);
    HeaderParts(base, n);
    if n <= 55 {
      StartsOne(b, at, base + n);
    } else {
      BigEndianInverse(n);
      var w := |BigEndian(n)|;
      StartsSplit(b, at, [base + 55 + w], BigEndian(n));
      StartsOne(b, at, base + 55 + w);
      StartsText(b, at + 1, BigEndian(n));
    }
  }

  lemma HeaderParts(base: byte, n: nat)
    requires Fits(n) && (base == 0x80 || base == 0xc0)
    ensures if n <= 55 then Header(base, n) == [base + n]
            else |BigEndian(n)| <= 4 && Header(base, n) == [base + 55 + |BigEndian(n)|] + BigEndian(n)
  {
    BigEndianWidth(n);
    hide BigEndian;
    var top: int := base + if n <= 55 then n else 55 + |BigEndian(n)|;
    assert top % 256 == top;
  }

  lemma StartsOne(b: bytes, at: nat, x: byte)
    requires StartsWith(b, at, [x])
    ensures at < |b| && b[at] == x
  {
    assert b[at] == b[at..at + 1][0];
  }

  lemma StartsText(b: bytes, at: nat, s: bytes)
    requires StartsWith(b, at, s)
    ensures at + |s| <= |b| && b[at..at + |s|] == s
  {
  }

  /** What the first byte of an encoding tells. */
  lemma PrefixRead(b: bytes, at: nat, t: Tree)
    requires StartsWith(b, at, Encode(t)) && Fits(|Encode(t)|)
    ensures at < |b|
    ensures if Announced(t) == |Encode(t)| == 1
            then b[at] < 0x80 || b[at] == 0xc0
            else (Announces(b, at, if t.Item? then 0x80 else 0xc0, Announced(t), PrefixSize(t))
                  && (t.List? ==> Announced(t) > 0))
    ensures b[at] < 0xc0 <==> t.Item?
    ensures b[at] == 0xc0 <==> t == List(Nil)
  {
    hide BigEndian, FromBigEndian;
    var e := Encode(t);
    EncodeSome(t);
    EncodeKind(t);
    assert b[at] == b[at..at + |e|][0] == e[0];
    match t
    case Item(s) =>
      if !Small(s) {
        HeaderRead(b, at, 0x80, |s|, s);
      }
    case List(items) =>
      if items.Snoc? {
        EncodeSome(items.last);
        HeaderRead(b, at, 0xc0, |Payload(items)|, Payload(items));
      }
  }

  /** Reads a length prefix: the length it announces, and how many bytes to skip. */
  method ReadSz(b: bytes, at: nat, ghost t: Tree) returns (result: nat, sz: nat)
    requires StartsWith(b, at, Encode(t)) && Fits(|Encode(t)|)
    ensures result == Announced(t) && sz == PrefixSize(t)
  {
    hide Header, BigEndian, FromBigEndian, Payload, Encode, StartsWith, Announced;
    PrefixRead(b, at, t);
    var x := b[at];
    if x < 0x80 {
      result, sz := 1, 0;
    } else if x <= 0xb7 {
      result, sz := x - 0x80, 1;
    } else if x <= 0xbf {
      var szsz := x - 0xb7;
      result := ReadBigEndian(b, at + 1, szsz);
      sz := 1 + szsz;
    } else if x == 0xc0 {
      result, sz := 1, 0;
    } else if x <= 0xf7 {
      result, sz := x - 0xc0, 1;
    } else {
      var szsz := x - 0xf7;
      result := ReadBigEndian(b, at + 1, szsz);
      sz := 1 + szsz;
    }
  }

  // ---------------------------------------------------------------- parsing

  lemma PayloadNext(items: Trees, m: nat)
    requires m < Len(items)
    ensures Take(items, m + 1).Snoc? && Take(items, m + 1).init == Take(items, m)
    ensures Payload(Take(items, m + 1)) == Payload(Take(items, m)) + Encode(Take(items, m + 1).last)
  {
    TakeNext(items, m);
  }

  function Rest(items: Trees, m: nat): (rest: bytes)
    requires m <= Len(items)
    ensures Payload(items) == Payload(Take(items, m)) + rest
    ensures |rest| == 0 <==> m == Len(items)
  {
    if m == Len(items) then []
    else
      EncodeSome(items.last);
      var rest := Rest(items.init, m);
      Associate(Payload(Take(items, m)), rest, Encode(items.last));
      rest + Encode(items.last)
  }

  /** Item number `m` is encoded right behind the first `m` items. */
  lemma NextItem(b: bytes, at: nat, items: Trees, m: nat) returns (t: Tree)
    requires StartsWith(b, at, Payload(items)) && m < Len(items)
    ensures Take(items, m + 1) == Snoc(Take(items, m), t)
    ensures StartsWith(b, at + |Payload(Take(items, m))|, Encode(t))
    ensures |Payload(Take(items, m))| + |Encode(t)| == |Payload(Take(items, m + 1))| <= |Payload(items)|
  {
    hide Encode, Payload, StartsWith, Take;
    PayloadNext(items, m);
    t := Take(items, m + 1).last;
    StartsSplit(b, at, Payload(Take(items, m + 1)), Rest(items, m + 1));
    StartsSplit(b, at, Payload(Take(items, m)), Encode(t));
  }

  /** The bytes of an item, or the payload of a list, behind the prefix. */
  lemma Behind(b: bytes, at: nat, t: Tree)
    requires StartsWith(b, at, Encode(t)) && Fits(|Encode(t)|)
    ensures match t
            case Item(s) => StartsWith(b, at + PrefixSize(t), s)
            case List(items) => items.Snoc? ==> StartsWith(b, at + PrefixSize(t), Payload(items))
  {
    hide StartsWith, Header;
    match t
    case Item(s) =>
      if !Small(s) {
        StartsSplit(b, at, Header(0x80, |s|), s);
      }
    case List(items) =>
      StartsSplit(b, at, Header(0xc0, |Payload(items)|), Payload(items));
  }

  method RlpParse(b: bytes, ghost t: Tree) returns (r: Node)
    requires StartsWith(b, 0, Encode(t)) && Fits(|Encode(t)|) && AllShort(t)
    ensures Whole(r) && fresh(r.all) && r.val == t
  {
    hide Encode, Payload, Header, FromBigEndian, BigEndian, AllShort, Announces;
    PrefixRead(b, 0, t);
    Behind(b, 0, t);
    ShortParts(t);
    if b[0] < 0xc0 {
      var sz, skip := ReadSz(b, 0, t);
      r := RlpItem(b[skip..skip + sz]);
    } else if b[0] > 0xc0 {
      var sz, skip := ReadSz(b, 0, t);
      r := RlpParseWalk(b, skip, sz, t.items);
    } else {
      r := RlpList();
    }
  }

  lemma ShortParts(t: Tree)
    requires AllShort(t)
    ensures match t case Item(s) => Short(s) case List(items) => EachShort(items)
    ensures t.List? && Fits(|Encode(t)|) ==> Fits(|Payload(t.items)|) && |Payload(t.items)| < |Encode(t)|
    ensures |Encode(List(Nil))| == 1
  {
  }

  /** One round of the loop of `rlp_parse_walk`: the node at `pos`, and the next position. */
  method RlpParseNext(b: bytes, pos: nat, ghost t: Tree) returns (node: Node, next: nat)
    requires StartsWith(b, pos, Encode(t)) && Fits(|Encode(t)|) && AllShort(t)
    ensures Whole(node) && fresh(node.all) && node.val == t && next == pos + |Encode(t)|
    decreases |Encode(t)|, 0
  {
    hide Encode, Payload, Header, FromBigEndian, BigEndian, AllShort, Announces;
    PrefixRead(b, pos, t);
    Behind(b, pos, t);
    ShortParts(t);
    if b[pos] >= 0xc0 {
      if b[pos] == 0xc0 {
        node := RlpList();
        next := pos + 1;
      } else {
        var sz, skip := ReadSz(b, pos, t);
        node := RlpParseWalk(b, pos + skip, sz, t.items);
        next := pos + skip + sz;
      }
    } else {
      var sz, skip := ReadSz(b, pos, t);
      node := RlpItem(b[pos + skip..pos + skip + sz]);
      next := pos + skip + sz;
    }
  }

  method RlpParseWalk(b: bytes, at: nat, l: nat, ghost items: Trees) returns (r: Node)
    requires items.Snoc? && l == |Payload(items)| && Fits(l) && StartsWith(b, at, Payload(items))
    requires EachShort(items)
    ensures Whole(r) && fresh(r.all) && r.val == List(items)
    decreases l, 1
  {
    hide Encode, Payload, StartsWith;
    var root: Node?, pos := null, at;
    ghost var m := 0;
    NoItems(items);
    while pos < at + l
      invariant m <= Len(items) && pos == at + |Payload(Take(items, m))|
      invariant root == null <==> m == 0
      invariant root != null ==> Whole(root) && fresh(root.all) && root.val == List(Take(items, m))
    {
      MoreItems(items, m);
      ghost var t := NextItem(b, at, items, m);
      EncodeSome(t);
      ShortItem(items, m);
      var node;
      node, pos := RlpParseNext(b, pos, t);
      root := RlpPush(root, node);
      m := m + 1;
    }
    MoreItems(items, m);
    r := root;
  }

  lemma {:induction false} ShortItem(items: Trees, m: nat)
    requires m < Len(items) && EachShort(items)
    ensures Take(items, m + 1).Snoc? && AllShort(Take(items, m + 1).last)
  {
    if m + 1 < Len(items) {
      ShortItem(items.init, m);
    }
  }

  lemma MoreItems(items: Trees, m: nat)
    requires m <= Len(items)
    ensures m < Len(items) <==> |Payload(Take(items, m))| < |Payload(items)|
    ensures m == Len(items) ==> Take(items, m) == items
  {
    assert |Rest(items, m)| >= 0;
  }

  lemma NoItems(items: Trees)
    ensures Take(items, 0) == Nil && Payload(Nil) == []
  {
  }

  /** The prefix tells the kind of the tree, the announced length and its own size. */
  lemma SamePrefix(b: bytes, at: nat, t: Tree, u: Tree)
    requires StartsWith(b, at, Encode(t)) && Fits(|Encode(t)|)
    requires StartsWith(b, at, Encode(u)) && Fits(|Encode(u)|)
    ensures t.Item? <==> u.Item?
    ensures t == List(Nil) <==> u == List(Nil)
    ensures Announced(t) == Announced(u) && PrefixSize(t) == PrefixSize(u)
  {
    hide Encode, StartsWith, Announced, FromBigEndian;
    PrefixRead(b, at, t);
    PrefixRead(b, at, u);
  }

  /** No two trees have encodings of which one begins with the other. */
  lemma {:induction false} EncodeUnique(b: bytes, at: nat, t: Tree, u: Tree)
    requires StartsWith(b, at, Encode(t)) && Fits(|Encode(t)|)
    requires StartsWith(b, at, Encode(u)) && Fits(|Encode(u)|)
    ensures t == u
    decreases |Encode(t)|, 0
  {
    hide StartsWith, PrefixSize, Header, Encode, Payload, Take, Fits;
    SamePrefix(b, at, t, u);
    Behind(b, at, t);
    Behind(b, at, u);
    FitsPayload(t);
    match t
    case Item(s) =>
      StartsText(b, at + PrefixSize(t), s);
      StartsText(b, at + PrefixSize(t), u.s);
    case List(items) =>
      if items.Snoc? {
        ItemsUnique(b, at + PrefixSize(t), items, u.items, Len(items));
        MoreItems(items, Len(items));
        MoreItems(u.items, Len(items));
      }
  }

  lemma FitsPayload(t: Tree)
    ensures t.List? && Fits(|Encode(t)|) ==> Fits(|Payload(t.items)|) && |Payload(t.items)| < |Encode(t)|
    ensures Announced(t) == match t case Item(s) => |s| case List(items) => if items.Nil? then 1 else |Payload(items)|
  {
  }

  lemma {:induction false} ItemsUnique(b: bytes, at: nat, items: Trees, others: Trees, m: nat)
    requires StartsWith(b, at, Payload(items)) && StartsWith(b, at, Payload(others))
    requires |Payload(items)| == |Payload(others)| && Fits(|Payload(items)|) && m <= Len(items)
    ensures m <= Len(others) && Take(items, m) == Take(others, m)
    decreases |Payload(items)|, 1 + m
  {
    hide StartsWith, Encode, Payload;
    if m == 0 {
      NoItems(items);
      NoItems(others);
    } else {
      ItemsUnique(b, at, items, others, m - 1);
      MoreItems(items, m - 1);
      MoreItems(others, m - 1);
      var t := NextItem(b, at, items, m - 1);
      var u := NextItem(b, at, others, m - 1);
      EncodeUnique(b, at + |Payload(Take(items, m - 1))|, t, u);
    }
  }

  /** `rlp_copy`: prints into a buffer of fixed size and parses it back. */
  method RlpCopy(root: Node) returns (r: Node?)
    requires Whole(root) && Fits(|Encode(root.val)|)
    ensures r == null <==> |Encode(root.val)| > 4098
    ensures r != null ==> Whole(r) && fresh(r.all) && r.val == old(root.val)
  {
    var buf := new byte[4098];
    var err, size := RlpPrint(root, buf, 4098);
    if err != 0 {
      return null;
    }
    var b := buf[..];
    assert StartsWith(b, 0, Encode(root.val));
    SmallIsShort(root.val);
    r := RlpParse(b, root.val);
  }

  /** A tree printed into a buffer and parsed from it is the same tree, if it fits. A
      single item of more than 2^31 bytes is not copied by `RlpPrint`. */
  method RlpTrip(root: Node, buf: array<byte>) returns (err: int, r: Node?)
    requires Whole(root) && Fits(|Encode(root.val)|) && AllShort(root.val)
    requires root.val.List? || |Encode(root.val)| <= 0x8000_0000
    modifies buf
    ensures err == if |Encode(root.val)| <= buf.Length then 0 else -1
    ensures if err == 0 then r != null && Whole(r) && fresh(r.all) && r.val == old(root.val) else r == null
    ensures err != 0 ==> buf[..] == old(buf[..])
  {
    hide Encode, Node.Valid, AllShort;
    ghost var was := buf[..];
    var size;
    err, size := RlpPrint(root, buf, buf.Length);
    r := null;
    if err == 0 {
      ReplacedStarts(buf[..], was, Encode(root.val));
      r := RlpParse(buf[..], root.val);
    }
  }

  lemma ReplacedStarts(now: bytes, was: bytes, s: bytes)
    requires Replaced(now, was, 0, s)
    ensures StartsWith(now, 0, s)
  {
  }

  // ---------------------------------------------------------------- access

  function Nth(items: Trees, k: nat): Tree
    requires k < Len(items)
  {
    if k + 1 == Len(items) then items.last else Nth(items.init, k)
  }

  /** Child number `where` of a list, counted from the first; the children are
      stored last first. An item has none. */
  method RlpAt(node: Node, where: nat) returns (r: Node?)
    requires node.Valid() && Fits(node.n) && Fits(where)
    ensures r == null <==> node.val.Item? || where >= Len(node.val.items)
    ensures r != null ==> r.Valid() && r in node.all && r.val == Nth(node.val.items, where)
  {
    var n: nat := (node.n - (where + 1)) % 0x1_0000_0000;
    r := node.child;
    if r == null {
      return;
    }
    while r != null && n > 0
      invariant r != null ==> r.Valid() && r.all <= node.all
      invariant where < Len(node.val.items) ==>
                  r != null && Len(Chain(r)) == where + 1 + n && Nth(Chain(r), where) == Nth(node.val.items, where)
      invariant where >= Len(node.val.items) ==> n >= Len(Chain(r))
      decreases n
    {
      n := n - 1;
      r := r.next;
    }
  }

  /** `rlp_ref`: the payload of an item; a list has none. */
  method RlpRef(node: Node) returns (data: bytes)
    requires node.Valid() && Fits(|Encode(node.val)|)
    ensures data == if node.val.Item? then node.val.s else []
  {
    if |node.b| == 0 {
      return [];
    }
    assert StartsWith(node.b, 0, Encode(node.val));
    var sz, skip := ReadSz(node.b, 0, node.val);
    Behind(node.b, 0, node.val);
    data := node.b[skip..skip + sz];
  }

  /** The unsigned integer in an item of at most `width` bytes; 0 for anything else. */
  function IntOf(t: Tree, width: nat): nat {
    if t.Item? && |t.s| <= width then FromBigEndian(t.s) else 0
  }

  method RlpAsInt(node: Node, width: nat) returns (v: nat)
    requires node.Valid() && Fits(|Encode(node.val)|)
    ensures v == IntOf(node.val, width)
  {
    var data := RlpRef(node);
    if |node.b| == 0 || |data| > width {
      return 0;
    }
    v := ReadBigEndian(data, 0, |data|);
    assert data[0..0 + |data|] == data;
  }
}
