/** JSON texts in the grammar of RFC 8259 sections 2 to 7, with any white space,
    and the tokens that the tokenizer makes of them. */
module JsonText {
  import opened Wrappers
  import opened Jsmn
  import opened JsonForest

  // ---------------------------------------------------------------- characters

  /** Section 2: space, horizontal tab, line feed, carriage return. */
  predicate White(c: char) {
    c as int == 0x20 || c as int == 0x09 || c as int == 0x0a || c as int == 0x0d
  }

  /** Section 7: what may follow a backslash by itself. */
  predicate EscapeLetter(c: char) {
    c in "\"\\/bfnrt"
  }

  predicate HexDigit(c: char) {
    || 0x30 <= c as int <= 0x39
    || 0x41 <= c as int <= 0x46
    || 0x61 <= c as int <= 0x66
  }

  /** The characters that the tokenizer skips, takes behind a backslash and takes as
      hexadecimal digits are exactly those of the grammar. */
  lemma SameClasses(c: char)
    ensures IsSpace(c) <==> White(c)
    ensures IsEscape(c) <==> EscapeLetter(c)
    ensures IsHex(c) <==> HexDigit(c)
  {
  }

  // ---------------------------------------------------------------- texts

  /** One character of a string, as it is written. */
  datatype Ch = Plain(c: char) | Escape(e: char) | Unicode(h: string) {
    predicate Ok() {
      match this
      case Plain(c) => c != '\"' && c != '\\' && c != '\0'
      case Escape(e) => EscapeLetter(e)
      case Unicode(h) => |h| == 4 && forall i | 0 <= i < 4 :: HexDigit(h[i])
    }

    function Text(): string {
      match this
      case Plain(c) => [c]
      case Escape(e) => ['\\', e]
      case Unicode(h) => ['\\', 'u'] + h
    }
  }

  datatype Value =
    | Literal(text: string)
    | Str(chars: seq<Ch>)
    | Arr(pad: string, items: Items)
    | Obj(pad: string, members: Members)

  datatype Items = NoItem | AndItem(init: Items, before: string, v: Value, after: string)

  datatype Members =
    | NoMember
    | AndMember(init: Members, before: string, key: seq<Ch>, colon: (string, string), v: Value, after: string)

  function CharsText(chars: seq<Ch>): string {
    if chars == [] then "" else chars[0].Text() + CharsText(chars[1..])
  }

  function Text(v: Value): string {
    match v
    case Literal(text) => text
    case Str(chars) => "\"" + CharsText(chars) + "\""
    case Arr(pad, items) => "[" + pad + ItemsText(items) + "]"
    case Obj(pad, members) => "{" + pad + MembersText(members) + "}"
  }

  function Comma(first: bool): string {
    if first then "" else ","
  }

  function ItemsText(items: Items): string {
    match items
    case NoItem => ""
    case AndItem(init, before, v, after) =>
      ItemsText(init) + (Comma(init.NoItem?) + before) + Text(v) + after
  }

  function KeyText(before: string, key: seq<Ch>, colon: (string, string)): string {
    before + ("\"" + CharsText(key) + "\"") + colon.0 + ":" + colon.1
  }

  function MembersText(members: Members): string {
    match members
    case NoMember => ""
    case AndMember(init, before, key, colon, v, after) =>
      MembersText(init) + (Comma(init.NoMember?) + KeyText(before, key, colon)) + Text(v) + after
  }

  predicate Blank(w: string) {
    forall i | 0 <= i < |w| :: White(w[i])
  }

  predicate NumberChar(c: char) {
    '0' <= c <= '9' || c == '+' || c == '-' || c == '.' || c == 'e' || c == 'E'
  }

  /** `true`, `false`, `null`, or a text over the characters of numbers. */
  predicate IsLiteral(text: string) {
    || text == "true" || text == "false" || text == "null"
    || (|text| > 0 && forall i | 0 <= i < |text| :: NumberChar(text[i]))
  }

  predicate Chars(chars: seq<Ch>) {
    forall i | 0 <= i < |chars| :: chars[i].Ok()
  }

  predicate Ok(v: Value) {
    match v
    case Literal(text) => IsLiteral(text)
    case Str(chars) => Chars(chars)
    case Arr(pad, items) => Blank(pad) && ItemsOk(items)
    case Obj(pad, members) => Blank(pad) && MembersOk(members)
  }

  predicate ItemsOk(items: Items) {
    items.AndItem? ==> ItemsOk(items.init) && Blank(items.before) && Ok(items.v) && Blank(items.after)
  }

  predicate MembersOk(members: Members) {
    members.AndMember? ==>
      && MembersOk(members.init) && Blank(members.before) && Chars(members.key)
      && Blank(members.colon.0) && Blank(members.colon.1) && Ok(members.v) && Blank(members.after)
  }

  // ---------------------------------------------------------------- their tokens

  /** The tree of the value whose text starts at position `p`. */
  function TreeOf(v: Value, p: nat): Tree {
    match v
    case Literal(text) => Node(Primitive, p, p + |text|, Nil)
    case Str(chars) => KeyTree(chars, p, Nil)
    case Arr(pad, items) => Node(Array, p, p + |Text(v)|, ItemTrees(items, p + 1 + |pad|))
    case Obj(pad, members) => Node(Object, p, p + |Text(v)|, MemberTrees(members, p + 1 + |pad|))
  }

  function KeyTree(key: seq<Ch>, p: nat, kids: Forest): Tree {
    Node(String, p + 1, p + 1 + |CharsText(key)|, kids)
  }

  function ItemStart(items: Items, q: nat): nat
    requires items.AndItem?
  {
    q + |ItemsText(items.init)| + |Comma(items.init.NoItem?) + items.before|
  }

  function ItemTrees(items: Items, q: nat): Forest {
    if items.NoItem? then Nil
    else Snoc(ItemTrees(items.init, q), TreeOf(items.v, ItemStart(items, q)))
  }

  function KeyStart(members: Members, q: nat): nat
    requires members.AndMember?
  {
    q + |MembersText(members.init)| + |Comma(members.init.NoMember?)| + |members.before|
  }

  function ValueStart(members: Members, q: nat): nat
    requires members.AndMember?
  {
    q + |MembersText(members.init)|
      + |Comma(members.init.NoMember?) + KeyText(members.before, members.key, members.colon)|
  }

  function MemberTrees(members: Members, q: nat): Forest {
    if members.NoMember? then Nil
    else Snoc(MemberTrees(members.init, q),
              KeyTree(members.key, KeyStart(members, q), Snoc(Nil, TreeOf(members.v, ValueStart(members, q)))))
  }

  /** The number of values and keys. */
  function Nodes(v: Value): nat {
    match v
    case Literal(_) => 1
    case Str(_) => 1
    case Arr(_, items) => 1 + ItemNodes(items)
    case Obj(_, members) => 1 + MemberNodes(members)
  }

  function ItemNodes(items: Items): nat {
    if items.NoItem? then 0 else ItemNodes(items.init) + Nodes(items.v)
  }

  function MemberNodes(members: Members): nat {
    if members.NoMember? then 0 else MemberNodes(members.init) + 1 + Nodes(members.v)
  }

  lemma {:induction false} TokensAreNodes(v: Value, p: nat)
    ensures |FlatTree(TreeOf(v, p))| == Nodes(v) && AllClosed(FlatTree(TreeOf(v, p)))
  {
    hide Text, CharsText, Flat, FlatTree, AllClosed;
    TreeTokens(TreeOf(v, p));
    match v
    case Literal(_) =>
    case Str(_) =>
    case Arr(pad, items) => ItemTokens(items, p + 1 + |pad|);
    case Obj(pad, members) => MemberTokens(members, p + 1 + |pad|);
  }

  lemma TreeTokens(t: Tree)
    ensures |FlatTree(t)| == 1 + |Flat(t.kids)|
    ensures t.kids.Nil? ==> Flat(t.kids) == []
    ensures t.end >= 0 && (t.kids.Nil? || AllClosed(Flat(t.kids))) ==> AllClosed(FlatTree(t))
  {
  }

  lemma {:induction false} ItemTokens(items: Items, q: nat)
    ensures |Flat(ItemTrees(items, q))| == ItemNodes(items) && AllClosed(Flat(ItemTrees(items, q)))
  {
    if items.AndItem? {
      ItemTokens(items.init, q);
      TokensAreNodes(items.v, ItemStart(items, q));
      FlatSnoc(ItemTrees(items.init, q), TreeOf(items.v, ItemStart(items, q)));
    }
  }

  lemma {:induction false} MemberTokens(members: Members, q: nat)
    ensures |Flat(MemberTrees(members, q))| == MemberNodes(members)
    ensures AllClosed(Flat(MemberTrees(members, q)))
  {
    if members.AndMember? {
      MemberTokens(members.init, q);
      var t := TreeOf(members.v, ValueStart(members, q));
      TokensAreNodes(members.v, ValueStart(members, q));
      FlatOnly(t);
      FlatSnoc(MemberTrees(members.init, q), KeyTree(members.key, KeyStart(members, q), Snoc(Nil, t)));
    }
  }
}
