/** Recursive length prefix encoding: Appendix B of the Ethereum Yellow Paper. */
module Rlp {
  import opened Wrappers

  datatype Tree = Item(s: bytes) | List(items: Trees)

  /** The items of a list, in order; the last one outermost. */
  type Trees = Snocs<Tree>

  /** The shortest big-endian form; one zero byte for 0. */
  function BigEndian(n: nat): (s: bytes)
    ensures |s| > 0
  {
    if n < 256 then [n] else BigEndian(n / 256) + [n % 256]
  }

  function FromBigEndian(s: bytes): nat {
    if s == [] then 0 else FromBigEndian(s[..|s| - 1]) * 256 + s[|s| - 1]
  }

  lemma {:induction false} BigEndianInverse(n: nat)
    ensures FromBigEndian(BigEndian(n)) == n
  {
    var s := BigEndian(n);
    if n < 256 {
      assert s[..0] == [];
      assert FromBigEndian([]) == 0;
    } else {
      BigEndianInverse(n / 256);
      assert s[..|s| - 1] == BigEndian(n / 256);
    }
  }

  predicate Fits(n: nat) {
    n < 0x1_0000_0000
  }

  lemma BigEndianWidth(n: nat)
    requires Fits(n)
    ensures |BigEndian(n)| <= 4
    ensures n < 0x100 <==> |BigEndian(n)| == 1
    ensures 0x100 <= n < 0x1_0000 <==> |BigEndian(n)| == 2
    ensures 0x1_0000 <= n < 0x100_0000 <==> |BigEndian(n)| == 3
    ensures 0x100_0000 <= n <==> |BigEndian(n)| == 4
  {
    assert n / 256 / 256 / 256 < 256;
  }

  /** The length prefix of a string (`base` 0x80) or of a list (`base` 0xc0). The
      standard defines it up to 8 length bytes; beyond them the sum would wrap. */
  function Header(base: byte, n: nat): (h: bytes)
    ensures |h| > 0
  {
    if n <= 55 then [(base + n) % 256] else [(base + 55 + |BigEndian(n)|) % 256] + BigEndian(n)
  }

  predicate Small(s: bytes) {
    |s| == 1 && s[0] < 0x80
  }

  function EncodeItem(s: bytes): bytes {
    if Small(s) then s else Header(0x80, |s|) + s
  }

  function Encode(t: Tree): bytes {
    match t
    case Item(s) => EncodeItem(s)
    case List(items) => Header(0xc0, |Payload(items)|) + Payload(items)
  }

  function Payload(items: Trees): bytes {
    if items.Nil? then [] else Payload(items.init) + Encode(items.last)
  }

  /** The loops that copy a single item count its bytes with an `int`. */
  predicate Short(s: bytes) {
    |s| < 0x8000_0000
  }

  predicate AllShort(t: Tree) {
    match t
    case Item(s) => Short(s)
    case List(items) => EachShort(items)
  }

  predicate EachShort(items: Trees) {
    items.Snoc? ==> EachShort(items.init) && AllShort(items.last)
  }

  /** An encoding below 2^31 bytes has no room for a longer item. */
  lemma {:induction false} SmallIsShort(t: Tree)
    requires |Encode(t)| < 0x8000_0000
    ensures AllShort(t)
  {
    hide Header;
    if t.List? {
      EachSmall(t.items);
    }
  }

  lemma {:induction false} EachSmall(items: Trees)
    requires |Payload(items)| < 0x8000_0000
    ensures EachShort(items)
  {
    hide Encode;
    if items.Snoc? {
      EachSmall(items.init);
      SmallIsShort(items.last);
    }
  }

  lemma EncodeSome(t: Tree)
    ensures |Encode(t)| > 0
  {
  }

  lemma HeaderFirst(base: byte, n: nat)
    requires Fits(n) && (base == 0x80 || base == 0xc0)
    ensures if n == 0 then Header(base, n)[0] == base else base < Header(base, n)[0] < base + 60
  {
    BigEndianWidth(n);
    hide BigEndian;
  }

  lemma EncodeKind(t: Tree)
    requires Fits(|Encode(t)|)
    ensures |Encode(t)| > 0
    ensures t.Item? <==> Encode(t)[0] < 0xc0
    ensures t.List? && Encode(t)[0] == 0xc0 <==> t == List(Nil)
  {
    hide Header, Payload;
    match t
    case Item(s) =>
      if !Small(s) {
        HeaderFirst(0x80, |s|);
      }
    case List(items) =>
      HeaderFirst(0xc0, |Payload(items)|);
      PayloadSome(items);
  }

  lemma PayloadSome(items: Trees)
    ensures |Payload(items)| == 0 <==> items.Nil?
  {
    hide Encode;
    if items.Snoc? {
      EncodeSome(items.last);
    }
  }

  // ---------------------------------------------------------------- sizes of sizes

  /** The number of significant bits. */
  function BitLength(n: nat): nat {
    if n == 0 then 0 else BitLength(n / 2) + 1
  }

  /** `__builtin_clz` on 32 bits. */
  function LeadingZeros(n: nat): int {
    32 - BitLength(n)
  }

  function SizeOfSize(n: nat): int {
    4 - LeadingZeros(n) / 8
  }

  lemma BitLengthNibble(n: nat)
    ensures 0 < n < 16 ==> 1 <= BitLength(n) <= 4
    ensures n >= 16 ==> BitLength(n) == BitLength(n / 16) + 4
  {
    assert n / 2 / 2 == n / 4 && n / 4 / 2 == n / 8 && n / 8 / 2 == n / 16;
    if n >= 16 {
      assert BitLength(n) == BitLength(n / 2) + 1;
      assert BitLength(n / 2) == BitLength(n / 4) + 1;
      assert BitLength(n / 4) == BitLength(n / 8) + 1;
      assert BitLength(n / 8) == BitLength(n / 16) + 1;
    }
  }

  lemma BitLengthByte(n: nat)
    ensures 0 < n < 256 ==> 1 <= BitLength(n) <= 8
    ensures n >= 256 ==> BitLength(n) == BitLength(n / 256) + 8
  {
    hide BitLength;
    BitLengthNibble(n);
    BitLengthNibble(n / 16);
    assert n / 16 / 16 == n / 256;
  }

  /** The bit-counting size agrees with the number of bytes written. */
  lemma SizeOfSizeIsWidth(n: nat)
    requires Fits(n) && n > 0
    ensures SizeOfSize(n) == |BigEndian(n)|
  {
    BitLengthByte(n);
    BitLengthByte(n / 256);
    BitLengthByte(n / 256 / 256);
    BitLengthByte(n / 256 / 256 / 256);
    assert n / 256 / 256 / 256 < 256;
  }
}
