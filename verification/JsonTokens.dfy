/** The tokenizer on JSON texts: its tokens mirror the value. */
module JsonTokens {
  import opened Wrappers
  import opened Jsmn
  import opened JsonForest
  import opened JsonText

  ghost predicate At(js: string, p: nat, s: string) {
    p + |s| <= |js| && js[p..p + |s|] == s
  }

  lemma AtSplit(js: string, p: nat, a: string, b: string)
    requires At(js, p, a + b)
    ensures At(js, p, a) && At(js, p + |a|, b)
  {
    var t := js[p..p + |a + b|];
    assert a == t[..|a|] && b == t[|a|..];
  }

  lemma AtChar(js: string, p: nat, c: char, s: string)
    requires At(js, p, [c] + s)
    ensures p < |js| && js[p] == c && At(js, p + 1, s)
  {
    AtSplit(js, p, [c], s);
    assert js[p..p + 1][0] == c;
  }

  // ---------------------------------------------------------------- single rounds

  lemma Advance(js: string, st: State, cap: nat)
    requires st.Sane() && More(js, st.pos) && Step(js, st, cap).Next?
    ensures Run(js, st, cap) == Run(js, Step(js, st, cap).st, cap)
  {
  }

  lemma {:induction false} SkipBlank(js: string, st: State, cap: nat, w: string)
    requires st.Sane() && At(js, st.pos, w) && Blank(w)
    ensures Run(js, st, cap) == Run(js, st.(pos := st.pos + |w|), cap)
    decreases |w|
  {
    hide Run, At, ScanString, ScanPrimitive, LastOpen, LastOpenBracket, Bump;
    if w != "" {
      assert w == [w[0]] + w[1..];
      AtChar(js, st.pos, w[0], w[1..]);
      Advance(js, st, cap);
      SkipBlank(js, st.(pos := st.pos + 1), cap, w[1..]);
    }
  }

  // ---------------------------------------------------------------- leaves

  lemma {:induction false} ScanChars(js: string, p: nat, chars: seq<Ch>)
    requires At(js, p, CharsText(chars) + "\"") && Chars(chars)
    ensures ScanString(js, p) == End(p + |CharsText(chars)|)
    decreases |chars|
  {
    hide At, CharsText;
    CharsParts(chars);
    if chars == [] {
      AtChar(js, p, '\"', "");
    } else {
      hide ScanString, Ch.Text, Ch.Ok;
      var c, rest := chars[0], CharsText(chars[1..]);
      AtSplit(js, p, c.Text(), rest + "\"");
      ScanChars(js, p + |c.Text()|, chars[1..]);
      ScanChar(js, p, c);
    }
  }

  lemma CharsParts(chars: seq<Ch>)
    ensures chars == [] ==> CharsText(chars) == "" && CharsText(chars) + "\"" == ['\"'] + ""
    ensures chars != [] ==>
              && |CharsText(chars)| == |chars[0].Text()| + |CharsText(chars[1..])|
              && CharsText(chars) + "\"" == chars[0].Text() + (CharsText(chars[1..]) + "\"")
  {
  }

  lemma ScanChar(js: string, p: nat, c: Ch)
    requires At(js, p, c.Text()) && c.Ok() && p + |c.Text()| < |js|
    ensures ScanString(js, p) == ScanString(js, p + |c.Text()|)
  {
    hide At, ScanString, ScanHex, IsHex, IsEscape;
    match c
    case Plain(x) =>
      assert c.Text() == [x] + "";
      AtChar(js, p, x, "");
      ScanPlain(js, p);
    case Escape(e) =>
      assert c.Text() == ['\\'] + [e] && [e] == [e] + "";
      AtChar(js, p, '\\', [e]);
      AtChar(js, p + 1, e, "");
      SameClasses(e);
      ScanEscape(js, p);
    case Unicode(h) =>
      assert c.Text() == ['\\'] + (['u'] + h);
      AtChar(js, p, '\\', ['u'] + h);
      AtChar(js, p + 1, 'u', h);
      HexAt(js, p + 2, h);
      ScanUnicode(js, p);
  }

  lemma HexAt(js: string, p: nat, h: string)
    requires At(js, p, h) && |h| == 4 && forall i | 0 <= i < 4 :: HexDigit(h[i])
    ensures ScanHex(js, p, 4) == End(p + 4)
  {
    hide ScanHex;
    AtChars(js, p, h);
    forall j | p <= j < p + 4
      ensures More(js, j) && IsHex(js[j])
    {
      assert js[j] == h[j - p];
      SameClasses(js[j]);
    }
    ScanHexAll(js, p, 4);
  }

  lemma AtChars(js: string, p: nat, s: string)
    requires At(js, p, s)
    ensures p + |s| <= |js| && forall j | p <= j < p + |s| :: js[j] == s[j - p]
  {
    assert forall j | p <= j < p + |s| :: js[p..p + |s|][j - p] == js[j];
  }

  lemma ScanPlain(js: string, p: nat)
    requires More(js, p) && js[p] != '\"' && js[p] != '\\'
    ensures ScanString(js, p) == ScanString(js, p + 1)
  {
  }

  lemma ScanEscape(js: string, p: nat)
    requires p + 1 < |js| && js[p] == '\\' && IsEscape(js[p + 1])
    ensures ScanString(js, p) == ScanString(js, p + 2)
  {
  }

  lemma ScanUnicode(js: string, p: nat)
    requires p + 1 < |js| && js[p] == '\\' && js[p + 1] == 'u' && ScanHex(js, p + 2, 4).End?
    ensures ScanString(js, p) == ScanString(js, ScanHex(js, p + 2, 4).at)
  {
    hide ScanHex;
  }

  lemma {:induction false} ScanHexAll(js: string, i: nat, k: nat)
    requires forall j | i <= j < i + k :: More(js, j) && IsHex(js[j])
    ensures ScanHex(js, i, k) == End(i + k)
    decreases k
  {
    if k > 0 {
      ScanHexAll(js, i + 1, k - 1);
    }
  }

  /** The text at `p` cannot continue an unquoted value. */
  ghost predicate Ends(js: string, p: nat) {
    More(js, p) ==> EndsPrimitive(js[p])
  }

  lemma {:induction false} ScanLiteral(js: string, p: nat, text: string)
    requires At(js, p, text) && Ends(js, p + |text|)
    requires forall i | 0 <= i < |text| :: ' ' <= text[i] < 127 as char && !EndsPrimitive(text[i])
    ensures ScanPrimitive(js, p) == End(p + |text|)
    decreases |text|
  {
    if text != "" {
      assert text == [text[0]] + text[1..];
      AtChar(js, p, text[0], text[1..]);
      ScanLiteral(js, p + 1, text[1..]);
    }
  }

  lemma LiteralRun(js: string, st: State, cap: nat, text: string)
    requires st.Sane() && IsLiteral(text) && At(js, st.pos, text) && Ends(js, st.pos + |text|)
    requires |st.toks| < cap
    ensures var tok := Token(Primitive, st.pos, st.pos + |text|, 0);
            Run(js, st, cap) == Run(js, State(st.pos + |text|, Bump(st.toks, st.super) + [tok], st.super), cap)
  {
    hide LastOpen, LastOpenBracket, ScanString, ScanPrimitive, Run, At;
    ScanLiteral(js, st.pos, text);
    assert text == [text[0]] + text[1..];
    AtChar(js, st.pos, text[0], text[1..]);
    Advance(js, st, cap);
  }

  lemma StringRun(js: string, st: State, cap: nat, chars: seq<Ch>)
    requires st.Sane() && Chars(chars) && At(js, st.pos, "\"" + CharsText(chars) + "\"")
    requires |st.toks| < cap
    ensures var n := |CharsText(chars)|;
            var tok := Token(String, st.pos + 1, st.pos + 1 + n, 0);
            Run(js, st, cap) == Run(js, State(st.pos + n + 2, Bump(st.toks, st.super) + [tok], st.super), cap)
  {
    hide LastOpen, LastOpenBracket, ScanString, ScanPrimitive, Run, At, CharsText, Chars;
    assert "\"" + CharsText(chars) + "\"" == ['\"'] + (CharsText(chars) + "\"");
    AtChar(js, st.pos, '\"', CharsText(chars) + "\"");
    ScanChars(js, st.pos + 1, chars);
    Advance(js, st, cap);
  }

  // ---------------------------------------------------------------- brackets

  /** Token `b` is the innermost object or array that is still open. */
  ghost predicate Inside(toks: seq<Token>, b: nat) {
    && b < |toks| && toks[b].IsOpen() && toks[b].IsBracket()
    && forall j | b < j < |toks| :: !toks[j].IsOpen()
  }

  /** The superior token is that bracket, or a key inside it. */
  ghost predicate SuperIn(toks: seq<Token>, b: nat, s: int) {
    s == b || (b < s < |toks| && !toks[s].IsBracket())
  }

  lemma SuperSelf(toks: seq<Token>, b: nat)
    ensures SuperIn(toks, b, b)
  {
  }

  lemma CommaRun(js: string, st: State, cap: nat, b: nat)
    requires st.Sane() && st.pos < |js| && js[st.pos] == ','
    requires Inside(st.toks, b) && SuperIn(st.toks, b, st.super)
    ensures Run(js, st, cap) == Run(js, st.(pos := st.pos + 1, super := b), cap)
  {
    assert LastOpenBracket(st.toks, |st.toks|) == b;
    Advance(js, st, cap);
  }

  /** Between two elements: an optional comma, and blanks. */
  lemma SeparatorRun(js: string, st: State, cap: nat, b: nat, first: bool, blank: string)
    requires st.Sane() && At(js, st.pos, Comma(first) + blank) && Blank(blank)
    requires Inside(st.toks, b) && SuperIn(st.toks, b, st.super) && (first ==> st.super == b)
    ensures Run(js, st, cap) == Run(js, st.(pos := st.pos + |Comma(first) + blank|, super := b), cap)
  {
    hide Run, Step;
    AtSplit(js, st.pos, Comma(first), blank);
    if !first {
      AtChar(js, st.pos, ',', "");
      CommaRun(js, st, cap, b);
    }
    SkipBlank(js, st.(pos := st.pos + |Comma(first)|, super := b), cap, blank);
  }

  lemma OpenRun(js: string, st: State, cap: nat)
    requires st.Sane() && More(js, st.pos) && (js[st.pos] == '{' || js[st.pos] == '[')
    requires |st.toks| < cap
    ensures var open := OpenToken(js[st.pos], st.pos);
            Run(js, st, cap) == Run(js, State(st.pos + 1, Bump(st.toks, st.super) + [open], |st.toks|), cap)
  {
    Advance(js, st, cap);
  }

  lemma LastOpenIs(base: seq<Token>, open: Token, inner: seq<Token>)
    requires open.IsOpen() && AllClosed(inner)
    ensures var toks := base + [open] + inner; LastOpen(toks, |toks|) == |base|
    ensures var toks := base + [open] + inner;
            open.IsBracket() ==> Inside(toks, |base|)
  {
    var toks, b := base + [open] + inner, |base|;
    assert toks[b] == open;
    forall j | b < j < |toks|
      ensures !toks[j].IsOpen()
    {
      assert toks[j] == inner[j - b - 1];
    }
  }

  lemma CloseRun(js: string, st: State, cap: nat, base: seq<Token>, open: Token, inner: seq<Token>)
    requires st.Sane() && More(js, st.pos) && (js[st.pos] == '}' || js[st.pos] == ']')
    requires st.toks == base + [open] + inner && open.IsOpen() && AllClosed(inner)
    requires open.kind == ClosedKind(js[st.pos])
    ensures Run(js, st, cap)
         == Run(js, State(st.pos + 1, base + [open.(end := st.pos + 1)] + inner, LastOpen(base, |base|)), cap)
  {
    hide Run, ScanString, ScanPrimitive, LastOpenBracket, AllClosed;
    var toks, b := st.toks, |base|;
    LastOpenIs(base, open, inner);
    var closed := toks[b := toks[b].(end := st.pos + 1)];
    assert closed == base + [open.(end := st.pos + 1)] + inner;
    SameOpens(closed, base, b);
    Advance(js, st, cap);
  }

  lemma {:induction false} SameOpens(a: seq<Token>, b: seq<Token>, n: nat)
    requires n <= |a| && n <= |b| && forall i | 0 <= i < n :: a[i].IsOpen() == b[i].IsOpen()
    ensures LastOpen(a, n) == LastOpen(b, n)
  {
    if n > 0 {
      SameOpens(a, b, n - 1);
    }
  }

  // ---------------------------------------------------------------- values

  /** The superior token after a value: a closed bracket resets it to the innermost open one. */
  function SuperAfter(v: Value, toks: seq<Token>, super: int): int {
    if v.Arr? || v.Obj? then LastOpen(toks, |toks|) else super
  }

  function AfterValue(st: State, v: Value): (st': State)
    requires st.Sane()
    ensures st'.Sane()
  {
    State(st.pos + |Text(v)|, Bump(st.toks, st.super) + FlatTree(TreeOf(v, st.pos)),
          SuperAfter(v, st.toks, st.super))
  }

  /** Inside a bracket token, with the given elements already listed. */
  function Within(pos: nat, base: seq<Token>, open: Token, kids: Forest, super: int): State {
    State(pos, base + [open.(size := Len(kids))] + Flat(kids), super)
  }

  lemma WithinInside(base: seq<Token>, open: Token, kids: Forest)
    requires open.IsOpen() && open.IsBracket() && AllClosed(Flat(kids))
    ensures Inside(Within(0, base, open, kids, 0).toks, |base|)
    ensures var toks := Within(0, base, open, kids, 0).toks; LastOpen(toks, |toks|) == |base|
  {
    LastOpenIs(base, open.(size := Len(kids)), Flat(kids));
  }

  /** One more element with the tokens `t`. */
  lemma WithinGrows(base: seq<Token>, open: Token, kids: Forest, t: Tree)
    ensures Bump(Within(0, base, open, kids, 0).toks, |base|) + FlatTree(t)
         == Within(0, base, open, Snoc(kids, t), 0).toks
  {
    FlatSnoc(kids, t);
  }

  /** Reading a value appends exactly its tokens, and counts one child of the superior token. */
  lemma {:induction false} ValueRun(js: string, st: State, cap: nat, v: Value)
    requires st.Sane() && Ok(v) && At(js, st.pos, Text(v)) && Ends(js, st.pos + |Text(v)|)
    requires |st.toks| + Nodes(v) <= cap
    ensures Run(js, st, cap) == Run(js, AfterValue(st, v), cap)
    decreases v, 0
  {
    hide Run, Step, At, IsLiteral;
    match v
    case Literal(text) =>
      LiteralRun(js, st, cap, text);
      ChildlessFlat(TreeOf(v, st.pos));
    case Str(chars) =>
      StringRun(js, st, cap, chars);
      ChildlessFlat(TreeOf(v, st.pos));
    case Arr(pad, items) => ArrayRun(js, st, cap, pad, items);
    case Obj(pad, members) => ObjectRun(js, st, cap, pad, members);
  }

  lemma ChildlessFlat(t: Tree)
    requires t.kids.Nil?
    ensures FlatTree(t) == [Root(t)]
  {
  }

  /** From an opening bracket, over the blanks behind it, to the first element. */
  lemma EnterRun(js: string, st: State, cap: nat, open: Token, pad: string)
    requires st.Sane() && More(js, st.pos) && (js[st.pos] == '{' || js[st.pos] == '[')
    requires |st.toks| < cap && open == OpenToken(js[st.pos], st.pos) && At(js, st.pos + 1, pad) && Blank(pad)
    ensures var base := Bump(st.toks, st.super);
            Run(js, st, cap) == Run(js, Within(st.pos + 1 + |pad|, base, open, Nil, |base|), cap)
  {
    hide Run, Step, At, Bump;
    var base := Bump(st.toks, st.super);
    OpenRun(js, st, cap);
    assert Within(st.pos + 1, base, open, Nil, |base|).toks == base + [open];
    SkipBlank(js, Within(st.pos + 1, base, open, Nil, |base|), cap, pad);
  }

  lemma ArrayRun(js: string, st: State, cap: nat, pad: string, items: Items)
    requires st.Sane() && Ok(Arr(pad, items)) && At(js, st.pos, Text(Arr(pad, items)))
    requires |st.toks| + 1 + ItemNodes(items) <= cap
    ensures Run(js, st, cap) == Run(js, AfterValue(st, Arr(pad, items)), cap)
    decreases items, 2
  {
    hide Run, Step, At, Flat, LastOpen, AllClosed, ItemsText, MembersText, ItemTrees, MemberTrees;
    var p, base, q := st.pos, Bump(st.toks, st.super), st.pos + 1 + |pad|;
    var open, kids := Token(Array, p, -1, 0), ItemTrees(items, q);
    SameOpens(base, st.toks, |base|);
    BracketText(js, p, '[', pad, ItemsText(items), ']', Text(Arr(pad, items)));
    EnterRun(js, st, cap, open, pad);
    ItemsRun(js, q, base, open, cap, items);
    ItemTokens(items, q);
    CloseRun(js, Within(q + |ItemsText(items)|, base, open, kids, |base|), cap,
             base, open.(size := Len(kids)), Flat(kids));
    BracketTokens(base, TreeOf(Arr(pad, items), p));
  }

  lemma ObjectRun(js: string, st: State, cap: nat, pad: string, members: Members)
    requires st.Sane() && Ok(Obj(pad, members)) && At(js, st.pos, Text(Obj(pad, members)))
    requires |st.toks| + 1 + MemberNodes(members) <= cap
    ensures Run(js, st, cap) == Run(js, AfterValue(st, Obj(pad, members)), cap)
    decreases members, 2
  {
    hide Run, Step, At, Flat, LastOpen, AllClosed, ItemsText, MembersText, ItemTrees, MemberTrees;
    var p, base, q := st.pos, Bump(st.toks, st.super), st.pos + 1 + |pad|;
    var open, kids := Token(Object, p, -1, 0), MemberTrees(members, q);
    SameOpens(base, st.toks, |base|);
    BracketText(js, p, '{', pad, MembersText(members), '}', Text(Obj(pad, members)));
    EnterRun(js, st, cap, open, pad);
    var s := MembersRun(js, q, base, open, cap, members);
    MemberTokens(members, q);
    CloseRun(js, Within(q + |MembersText(members)|, base, open, kids, s), cap,
             base, open.(size := Len(kids)), Flat(kids));
    BracketTokens(base, TreeOf(Obj(pad, members), p));
  }

  lemma BracketTokens(base: seq<Token>, t: Tree)
    ensures base + FlatTree(t) == base + [Root(t)] + Flat(t.kids)
  {
  }

  lemma BracketText(js: string, p: nat, open: char, pad: string, body: string, close: char, text: string)
    requires text == [open] + pad + body + [close] && At(js, p, text)
    requires close == ']' || close == '}'
    ensures p < |js| && js[p] == open && At(js, p + 1, pad) && At(js, p + 1 + |pad|, body)
    ensures var e := p + 1 + |pad| + |body|;
            e < |js| && js[e] == close && e + 1 == p + |text| && Ends(js, e)
  {
    hide At;
    assert text == [open] + (pad + (body + [close]));
    AtChar(js, p, open, pad + (body + [close]));
    AtSplit(js, p + 1, pad, body + [close]);
    AtSplit(js, p + 1 + |pad|, body, [close]);
    AtChar(js, p + 1 + |pad| + |body|, close, "");
  }

  /** Reading the items of an array: one child of the array each. */
  lemma {:induction false} ItemsRun(js: string, q: nat, base: seq<Token>, open: Token, cap: nat, items: Items)
    requires open.IsOpen() && open.IsBracket()
    requires ItemsOk(items) && At(js, q, ItemsText(items)) && Ends(js, q + |ItemsText(items)|)
    requires |base| + 1 + ItemNodes(items) <= cap
    ensures Run(js, Within(q, base, open, Nil, |base|), cap)
         == Run(js, Within(q + |ItemsText(items)|, base, open, ItemTrees(items, q), |base|), cap)
    decreases items, 1
  {
    hide Run, Step, At, Flat, LastOpen, AllClosed, Inside, Text, TreeOf, Ends;
    if items.AndItem? {
      var AndItem(init, before, v, after) := items;
      var b, kids, r := |base|, ItemTrees(init, q), q + |ItemsText(init)|;
      var p := ItemStart(items, q);
      ItemPieces(js, q, items);
      if init.AndItem? {
        ItemsRun(js, q, base, open, cap, init);
      }
      ItemTokens(init, q);
      WithinInside(base, open, kids);
      SeparatorRun(js, Within(r, base, open, kids, b), cap, b, init.NoItem?, before);
      var here := Within(p, base, open, kids, b);
      ValueRun(js, here, cap, v);
      WithinGrows(base, open, kids, TreeOf(v, p));
      SkipBlank(js, AfterValue(here, v), cap, after);
    }
  }

  lemma ItemPieces(js: string, q: nat, items: Items)
    requires items.AndItem? && ItemsOk(items)
    requires At(js, q, ItemsText(items)) && Ends(js, q + |ItemsText(items)|)
    ensures var AndItem(init, before, v, after) := items;
            && At(js, q, ItemsText(init)) && (init.AndItem? ==> Ends(js, q + |ItemsText(init)|))
            && At(js, q + |ItemsText(init)|, Comma(init.NoItem?) + before)
            && At(js, ItemStart(items, q), Text(v)) && Ends(js, ItemStart(items, q) + |Text(v)|)
            && At(js, ItemStart(items, q) + |Text(v)|, after)
            && q + |ItemsText(items)| == ItemStart(items, q) + |Text(v)| + |after|
  {
    hide At, Ends, Text, Ok, Blank;
    var AndItem(init, before, v, after) := items;
    Pieces(js, q, ItemsText(init), init.NoItem?, before, Text(v), after, ItemsText(items));
  }

  lemma Pieces(js: string, q: nat, a: string, first: bool, s: string, t: string, w: string, all: string)
    requires all == a + (Comma(first) + s) + t + w && At(js, q, all)
    requires Blank(w) && Ends(js, q + |all|)
    ensures At(js, q, a) && (!first ==> Ends(js, q + |a|)) && At(js, q + |a|, Comma(first) + s)
    ensures var p := q + |a| + |Comma(first) + s|;
            At(js, p, t) && Ends(js, p + |t|) && At(js, p + |t|, w) && q + |all| == p + |t| + |w|
  {
    hide At, Ends, Blank;
    var c := Comma(first) + s;
    Regroup(a, c, t, w);
    AtSplit(js, q, a, c + (t + w));
    AtSplit(js, q + |a|, c, t + w);
    AtSplit(js, q + |a| + |c|, t, w);
    BlankEnds(js, q + |a| + |c| + |t|, w);
    if !first {
      AtChar(js, q + |a|, ',', s);
      EndsAt(js, q + |a|);
    }
  }

  lemma Regroup(a: string, b: string, c: string, d: string)
    ensures a + b + c + d == a + (b + (c + d))
  {
  }

  lemma EndsAt(js: string, p: nat)
    requires p < |js| && EndsPrimitive(js[p])
    ensures Ends(js, p)
  {
  }

  lemma BlankEnds(js: string, p: nat, w: string)
    requires At(js, p, w) && Blank(w) && Ends(js, p + |w|)
    ensures Ends(js, p)
  {
    if w != "" {
      assert w == [w[0]] + w[1..];
      AtChar(js, p, w[0], w[1..]);
    }
  }

  /** Reading a key and its colon: the key becomes the superior token. */
  lemma KeyRun(js: string, st: State, cap: nat, b: nat, first: bool, before: string, key: seq<Ch>,
               colon: (string, string))
    requires st.Sane() && At(js, st.pos, Comma(first) + KeyText(before, key, colon))
    requires Blank(before) && Chars(key) && Blank(colon.0) && Blank(colon.1)
    requires Inside(st.toks, b) && SuperIn(st.toks, b, st.super) && (first ==> st.super == b)
    requires |st.toks| < cap
    ensures var p := st.pos + |Comma(first)| + |before|;
            var toks := Bump(st.toks, b) + [Root(KeyTree(key, p, Nil))];
            Run(js, st, cap)
              == Run(js, State(st.pos + |Comma(first) + KeyText(before, key, colon)|, toks, |st.toks|), cap)
  {
    hide Run, Step, At, Inside, CharsText;
    var k, p := "\"" + CharsText(key) + "\"", st.pos + |Comma(first) + before|;
    assert Comma(first) + KeyText(before, key, colon)
        == (Comma(first) + before) + (k + (colon.0 + ":" + colon.1));
    AtSplit(js, st.pos, Comma(first) + before, k + (colon.0 + ":" + colon.1));
    AtSplit(js, p, k, colon.0 + ":" + colon.1);
    SeparatorRun(js, st, cap, b, first, before);
    StringRun(js, st.(pos := p, super := b), cap, key);
    ColonRun(js, State(p + |k|, Bump(st.toks, b) + [Root(KeyTree(key, p, Nil))], b), cap, colon);
  }

  lemma ColonStep(js: string, st: State, cap: nat)
    requires st.Sane() && st.pos < |js| && js[st.pos] == ':'
    ensures Run(js, st, cap) == Run(js, st.(pos := st.pos + 1, super := |st.toks| - 1), cap)
  {
    Advance(js, st, cap);
  }

  lemma ColonRun(js: string, st: State, cap: nat, colon: (string, string))
    requires st.Sane() && At(js, st.pos, colon.0 + ":" + colon.1) && Blank(colon.0) && Blank(colon.1)
    ensures Run(js, st, cap)
         == Run(js, st.(pos := st.pos + |colon.0 + ":" + colon.1|, super := |st.toks| - 1), cap)
  {
    hide Run, Step, At;
    var e := st.pos + |colon.0|;
    assert colon.0 + ":" + colon.1 == colon.0 + ([':'] + colon.1);
    AtSplit(js, st.pos, colon.0, [':'] + colon.1);
    AtChar(js, e, ':', colon.1);
    SkipBlank(js, st, cap, colon.0);
    ColonStep(js, st.(pos := e), cap);
    SkipBlank(js, st.(pos := e + 1, super := |st.toks| - 1), cap, colon.1);
  }

  /** Reading the members of an object: one child of the object each, its key,
      and one child of the key, the value. */
  lemma {:induction false} MembersRun(js: string, q: nat, base: seq<Token>, open: Token, cap: nat, members: Members)
    returns (s: int)
    requires open.IsOpen() && open.IsBracket()
    requires MembersOk(members) && At(js, q, MembersText(members)) && Ends(js, q + |MembersText(members)|)
    requires |base| + 1 + MemberNodes(members) <= cap
    ensures var end := Within(q + |MembersText(members)|, base, open, MemberTrees(members, q), s);
            && end.Sane() && SuperIn(end.toks, |base|, s)
            && Run(js, Within(q, base, open, Nil, |base|), cap) == Run(js, end, cap)
    decreases members, 1
  {
    hide Run, Step, At, Flat, LastOpen, AllClosed, Inside, SuperIn, Text, TreeOf, Ends, KeyText, CharsText,
      Ok, Blank, Chars, Nodes, Root, Bump, FlatTree, KeyTree;
    s := |base|;
    SuperSelf(Within(q, base, open, Nil, s).toks, s);
    if members.AndMember? {
      var AndMember(init, before, key, colon, v, after) := members;
      var b, kids, r := |base|, MemberTrees(init, q), q + |MembersText(init)|;
      var p := ValueStart(members, q);
      Pieces(js, q, MembersText(init), init.NoMember?, KeyText(before, key, colon), Text(v), after,
             MembersText(members));
      if init.AndMember? {
        s := MembersRun(js, q, base, open, cap, init);
      }
      MemberTokens(init, q);
      WithinInside(base, open, kids);
      KeyRun(js, Within(r, base, open, kids, s), cap, b, init.NoMember?, before, key, colon);
      s := MemberValueRun(js, base, open, kids, cap, key, KeyStart(members, q), p, v);
      var all := Snoc(kids, KeyTree(key, KeyStart(members, q), Snoc(Nil, TreeOf(v, p))));
      SkipBlank(js, Within(p + |Text(v)|, base, open, all, s), cap, after);
    }
  }

  /** Behind the colon: the value becomes the one child of its key. */
  lemma MemberValueRun(js: string, base: seq<Token>, open: Token, kids: Forest, cap: nat, key: seq<Ch>,
                       k: nat, p: nat, v: Value) returns (s: int)
    requires open.IsOpen() && open.IsBracket() && AllClosed(Flat(kids))
    requires Ok(v) && At(js, p, Text(v)) && Ends(js, p + |Text(v)|)
    requires |base| + 2 + |Flat(kids)| + Nodes(v) <= cap
    ensures var toks := Within(0, base, open, kids, 0).toks;
            var end := Within(p + |Text(v)|, base, open, Snoc(kids, KeyTree(key, k, Snoc(Nil, TreeOf(v, p)))), s);
            && end.Sane() && SuperIn(end.toks, |base|, s)
            && Run(js, State(p, Bump(toks, |base|) + [Root(KeyTree(key, k, Nil))], |toks|), cap)
            == Run(js, end, cap)
    decreases v, 1
  {
    hide Run, Step, At, Flat, Text, CharsText, TreeOf, Ends;
    var toks := Within(0, base, open, kids, 0).toks;
    var t, leaf := TreeOf(v, p), KeyTree(key, k, Nil);
    var whole := KeyTree(key, k, Snoc(Nil, t));
    var st := State(p, Bump(toks, |base|) + [Root(leaf)], |toks|);
    ValueRun(js, st, cap, v);
    ChildlessFlat(leaf);
    WithinGrows(base, open, kids, leaf);
    FlatSnoc(kids, leaf);
    WithinInside(base, open, Snoc(kids, leaf));
    FlatOnly(t);
    WithinGrows(base, open, kids, whole);
    s := AfterValue(st, v).super;
    KeyGrows(Bump(toks, |base|), Root(leaf), Root(whole), FlatTree(t));
  }

  lemma KeyGrows(toks: seq<Token>, leaf: Token, whole: Token, t: seq<Token>)
    requires whole == leaf.(size := leaf.size + 1)
    ensures Bump(toks + [leaf], |toks|) + t == toks + ([whole] + t)
    ensures (toks + ([whole] + t))[|toks|] == whole
  {
  }

  // ---------------------------------------------------------------- whole texts

  /** One value with blanks around it: the tokenizer returns the number of its
      values and keys, and the tokens of its tree. */
  lemma Document(left: string, v: Value, right: string, cap: nat)
    requires TextFits(left + Text(v) + right)
    requires Blank(left) && Ok(v) && Blank(right) && Nodes(v) <= cap
    ensures var js := left + Text(v) + right;
            var (code, st) := Run(js, INIT, cap);
            code == Count(Nodes(v)) && st.toks == FlatTree(TreeOf(v, |left|)) && st.pos == |js|
  {
    hide Run, Step, Text, TreeOf, Ok, FlatTree, AllClosed, Blank, At;
    var js, p := left + Text(v) + right, |left|;
    ThreeParts(js, left, Text(v), right);
    BlankEnds(js, p + |Text(v)|, right);
    SkipBlank(js, INIT, cap, left);
    ValueRun(js, State(p, [], -1), cap, v);
    var st := AfterValue(State(p, [], -1), v);
    SkipBlank(js, st, cap, right);
    TokensAreNodes(v, p);
    assert st.toks == FlatTree(TreeOf(v, p));
    AtEnd(js, st.(pos := |js|), cap);
  }

  lemma ThreeParts(js: string, a: string, b: string, c: string)
    requires js == a + b + c
    ensures At(js, 0, a) && At(js, |a|, b) && At(js, |a| + |b|, c) && |js| == |a| + |b| + |c|
  {
  }

  lemma AtEnd(js: string, st: State, cap: nat)
    requires st.Sane() && st.pos == |js| && AllClosed(st.toks)
    ensures Run(js, st, cap) == (Count(|st.toks|), st)
  {
  }

  /** Room for fewer tokens than the text has values and keys does not suffice;
      with a null array the call returns just that number. */
  lemma DocumentRoom(left: string, v: Value, right: string, cap: nat)
    requires TextFits(left + Text(v) + right)
    requires Blank(left) && Ok(v) && Blank(right)
    ensures var js := left + Text(v) + right;
            && (Run(js, INIT, cap).0 == if cap < Nodes(v) then NoMemory else Count(Nodes(v)))
            && CountRun(js, 0, 0) == Count(Nodes(v))
  {
    var js := left + Text(v) + right;
    Document(left, v, right, Nodes(v));
    ExactRoom(js, Nodes(v), Nodes(v), cap);
    CountAgrees(js, INIT, Nodes(v), Nodes(v));
  }
}
