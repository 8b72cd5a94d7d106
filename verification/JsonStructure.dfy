/** What holds of the tokens on any input whatsoever, well-formed or not. */
module JsonStructure {
  import opened Wrappers
  import opened Jsmn
  import opened JsonForest

  /** The tokens list the forest `forest`, the superior token is -1 or on its rightmost
      spine (an ancestor of the last token, or that token itself), and so are all
      open tokens, none of them below the superior one. */
  ghost predicate Listed(st: State, forest: Forest, k: nat) {
    && st.toks == Flat(forest) && k <= Depth(forest) && st.super == Super(forest, k)
    && OpensOnSpine(st.toks, forest, k)
    && forall i | 0 <= i < |st.toks| && st.toks[i].IsOpen() :: st.toks[i].IsBracket()
  }

  ghost predicate OpensOnSpine(toks: seq<Token>, forest: Forest, k: nat)
    requires k <= Depth(forest)
  {
    forall i | 0 <= i < |toks| && toks[i].IsOpen() :: OnSpine(forest, k, i)
  }

  ghost predicate OnSpine(forest: Forest, k: nat, i: nat)
    requires k <= Depth(forest)
  {
    exists d: nat :: d < k && Spine(forest, d) == i
  }

  function Leaf(tok: Token): Tree {
    Node(tok.kind, tok.start, tok.end, Nil)
  }

  lemma LeafFlat(tok: Token)
    requires tok.size == 0
    ensures FlatTree(Leaf(tok)) == [tok]
  {
  }

  lemma BumpOpens(toks: seq<Token>, super: int)
    requires -1 <= super < |toks|
    ensures forall i | 0 <= i < |toks| ::
              var r := Bump(toks, super)[i]; r.IsOpen() == toks[i].IsOpen() && r.kind == toks[i].kind
  {
  }

  /** The tokens that are open stay on the spine, and a new open one joins it. */
  lemma GraftOpens(toks: seq<Token>, forest: Forest, k: nat, tok: Token, toks': seq<Token>)
    requires toks == Flat(forest) && k <= Depth(forest) && OpensOnSpine(toks, forest, k)
    requires |toks'| == |toks| + 1 && toks'[|toks|] == tok
    requires forall i | 0 <= i < |toks| :: toks'[i].IsOpen() == toks[i].IsOpen()
    ensures var grown, k' := Graft(forest, k, Leaf(tok)), if tok.IsOpen() then k + 1 else k;
            Depth(grown) == k + 1 && OpensOnSpine(toks', grown, k')
  {
    GraftShape(forest, k, Leaf(tok));
    hide Flat, Depth, Spine, Graft, Leaf;
    var grown, k' := Graft(forest, k, Leaf(tok)), if tok.IsOpen() then k + 1 else k;
    forall i | 0 <= i < |toks'| && toks'[i].IsOpen()
      ensures OnSpine(grown, k', i)
    {
      if i < |toks| {
        assert OnSpine(forest, k, i);
        var d: nat :| d < k && Spine(forest, d) == i;
        assert Spine(grown, d) == i;
      } else {
        assert Spine(grown, k) == i;
      }
    }
  }

  lemma GraftListed(st: State, forest: Forest, k: nat, tok: Token, st': State)
    requires Listed(st, forest, k) && tok.size == 0 && (tok.IsOpen() ==> tok.IsBracket())
    requires st'.toks == Bump(st.toks, st.super) + [tok]
    requires st'.super == if tok.IsOpen() then |st.toks| else st.super
    ensures Listed(st', Graft(forest, k, Leaf(tok)), if tok.IsOpen() then k + 1 else k)
  {
    hide Flat, FlatTree, Depth, Spine, Graft, OpensOnSpine, Bump, Leaf, Super;
    GraftSuper(forest, k, tok);
    GraftFlat(forest, k, Leaf(tok));
    LeafFlat(tok);
    BumpOpens(st.toks, st.super);
    assert forall i | 0 <= i < |st.toks| :: st'.toks[i] == Bump(st.toks, st.super)[i];
    GraftOpens(st.toks, forest, k, tok, st'.toks);
  }

  lemma GraftSuper(forest: Forest, k: nat, tok: Token)
    requires k <= Depth(forest)
    ensures Leaf(tok).kids.Nil?
    ensures var grown := Graft(forest, k, Leaf(tok));
            && Depth(grown) == k + 1
            && Super(grown, k) == Super(forest, k) && Super(grown, k + 1) == |Flat(forest)|
  {
    GraftShape(forest, k, Leaf(tok));
  }

  /** The superior token moves up to the last open token. */
  lemma AscendListed(toks: seq<Token>, forest: Forest, k: nat, i: int) returns (k': nat)
    requires toks == Flat(forest) && k <= Depth(forest) && OpensOnSpine(toks, forest, k)
    requires -1 <= i < |toks| && (i >= 0 ==> toks[i].IsOpen())
    requires forall j | i < j < |toks| :: !toks[j].IsOpen()
    ensures k' <= k && Super(forest, k') == i && OpensOnSpine(toks, forest, k')
  {
    if i == -1 {
      k' := 0;
    } else {
      assert OnSpine(forest, k, i);
      var d: nat :| d < k && Spine(forest, d) == i;
      k' := d + 1;
      forall j | 0 <= j < |toks| && toks[j].IsOpen()
        ensures OnSpine(forest, k', j)
      {
        assert OnSpine(forest, k, j);
        var e: nat :| e < k && Spine(forest, e) == j;
        if e > d {
          SpineIncreases(forest, d, e);
        }
      }
    }
  }

  lemma CloseListed(st: State, forest: Forest, k: nat, i: nat, end: nat) returns (grown: Forest)
    requires Listed(st, forest, k) && i < |st.toks| && st.toks[i].IsOpen()
    ensures var closed := st.toks[i := st.toks[i].(end := end)];
            closed == Flat(grown) && k <= Depth(grown) && OpensOnSpine(closed, grown, k)
  {
    assert OnSpine(forest, k, i);
    var d: nat :| d < k && Spine(forest, d) == i;
    grown := Close(forest, d, end);
    CloseFlat(forest, d, end);
    CloseShape(forest, d, end);
    hide Flat, Close, Spine, Depth;
    var closed := st.toks[i := st.toks[i].(end := end)];
    forall j | 0 <= j < |closed| && closed[j].IsOpen()
      ensures OnSpine(grown, k, j)
    {
      assert st.toks[j].IsOpen() && OnSpine(forest, k, j);
      var e: nat :| e < k && Spine(forest, e) == j;
      CloseSpine(forest, d, end, e);
    }
  }

  /** After a colon the last token is the superior one. */
  lemma ColonListed(toks: seq<Token>, forest: Forest, k: nat)
    requires toks == Flat(forest) && k <= Depth(forest) && OpensOnSpine(toks, forest, k)
    ensures Super(forest, Depth(forest)) == |toks| - 1 && OpensOnSpine(toks, forest, Depth(forest))
  {
    if forest.Snoc? {
      SpineEnds(forest);
    }
    forall j | 0 <= j < |toks| && toks[j].IsOpen()
      ensures OnSpine(forest, Depth(forest), j)
    {
      assert OnSpine(forest, k, j);
    }
  }

  lemma StepListed(js: string, st: State, cap: nat, forest: Forest, k: nat) returns (grown: Forest, k': nat)
    requires Listed(st, forest, k) && More(js, st.pos) && Step(js, st, cap).Next?
    ensures Listed(Step(js, st, cap).st, grown, k')
  {
    hide Flat, Depth, Spine, Super, Graft, Close, OpensOnSpine, ScanString, ScanPrimitive, Bump, LastOpen,
      LastOpenBracket;
    var c, n, st' := js[st.pos], |st.toks|, Step(js, st, cap).st;
    grown, k' := forest, k;
    if c == '{' || c == '[' {
      GraftListed(st, forest, k, OpenToken(c, st.pos), st');
      grown, k' := Graft(forest, k, Leaf(OpenToken(c, st.pos))), k + 1;
    } else if c == '}' || c == ']' {
      var i := LastOpen(st.toks, n);
      grown := CloseListed(st, forest, k, i, st.pos + 1);
      k' := AscendListed(st'.toks, grown, k, st'.super);
    } else if c == ':' {
      ColonListed(st.toks, forest, k);
      k' := Depth(forest);
    } else if c == ',' {
      if st'.super != st.super {
        k' := AscendListed(st.toks, forest, k, st'.super);
      }
    } else if |st'.toks| > n {
      var tok := st'.toks[n];
      GraftListed(st, forest, k, tok, st');
      grown := Graft(forest, k, Leaf(tok));
    }
  }

  lemma {:induction false} RunListed(js: string, st: State, cap: nat, forest: Forest, k: nat)
    returns (grown: Forest, k': nat)
    requires Listed(st, forest, k)
    ensures Listed(Run(js, st, cap).1, grown, k')
    decreases |js| - st.pos
  {
    grown, k' := forest, k;
    if More(js, st.pos) {
      var o := Step(js, st, cap);
      if o.Next? {
        grown, k' := StepListed(js, st, cap, forest, k);
        grown, k' := RunListed(js, o.st, cap, grown, k');
      }
    }
  }

  // ---------------------------------------------------------------- spans

  function OpenChar(k: Kind): char {
    if k == Object then '{' else '['
  }

  function CloseChar(k: Kind): char {
    if k == Object then '}' else ']'
  }

  /** A token delimits text of its own kind before `pos`. */
  ghost predicate Delimits(js: string, t: Token, pos: nat) {
    if t.IsOpen() then
      t.IsBracket() && 0 <= t.start < pos <= |js| && js[t.start] == OpenChar(t.kind)
    else
      && 0 <= t.start <= t.end <= pos <= |js|
      && match t.kind
         case String => 0 < t.start && t.end < pos && js[t.start - 1] == '\"' && js[t.end] == '\"'
         case Primitive => t.start < t.end && forall i | t.start <= i < t.end :: !EndsPrimitive(js[i])
         case _ => t.start + 2 <= t.end && js[t.start] == OpenChar(t.kind) && js[t.end - 1] == CloseChar(t.kind)
  }

  /** Of two tokens in order, the later starts later, and lies behind the earlier or inside it. */
  ghost predicate Ordered(a: Token, b: Token) {
    && a.start < b.start
    && (a.IsOpen() || a.end <= b.start || (a.IsBracket() && !b.IsOpen() && b.end <= a.end))
  }

  ghost predicate Spanned(js: string, toks: seq<Token>, pos: nat) {
    && pos <= |js|
    && (forall i | 0 <= i < |toks| :: Delimits(js, toks[i], pos))
    && (forall i, j | 0 <= i < j < |toks| :: Ordered(toks[i], toks[j]))
  }

  lemma BumpSpanned(js: string, toks: seq<Token>, pos: nat, super: int)
    requires Spanned(js, toks, pos) && -1 <= super < |toks|
    ensures Spanned(js, Bump(toks, super), pos)
  {
    var r := Bump(toks, super);
    forall i | 0 <= i < |r|
      ensures Delimits(js, r[i], pos)
    {
      assert Delimits(js, toks[i], pos);
    }
    forall i, j | 0 <= i < j < |r|
      ensures Ordered(r[i], r[j])
    {
      assert Ordered(toks[i], toks[j]);
    }
  }

  lemma LaterDelimits(js: string, t: Token, pos: nat, next: nat)
    requires Delimits(js, t, pos) && pos <= next <= |js|
    ensures Delimits(js, t, next)
  {
  }

  lemma AppendSpanned(js: string, toks: seq<Token>, pos: nat, tok: Token, next: nat)
    requires Spanned(js, toks, pos)
    requires pos < next <= |js| && pos <= tok.start && Delimits(js, tok, next)
    ensures Spanned(js, toks + [tok], next)
  {
    var r := toks + [tok];
    forall i | 0 <= i < |r|
      ensures Delimits(js, r[i], next)
    {
      if i < |toks| {
        LaterDelimits(js, toks[i], pos, next);
      }
    }
    forall i, j | 0 <= i < j < |r|
      ensures Ordered(r[i], r[j])
    {
      assert Delimits(js, toks[i], pos);
    }
  }

  lemma CloseSpanned(js: string, toks: seq<Token>, pos: nat, i: nat)
    requires Spanned(js, toks, pos) && pos < |js| && i < |toks| && toks[i].IsOpen()
    requires js[pos] == CloseChar(toks[i].kind)
    requires forall j | i < j < |toks| :: !toks[j].IsOpen()
    ensures Spanned(js, toks[i := toks[i].(end := pos + 1)], pos + 1)
  {
    var r := toks[i := toks[i].(end := pos + 1)];
    forall j | 0 <= j < |r|
      ensures Delimits(js, r[j], pos + 1)
    {
      assert Delimits(js, toks[j], pos);
    }
    forall j, l | 0 <= j < l < |r|
      ensures Ordered(r[j], r[l])
    {
      assert Ordered(toks[j], toks[l]) && Delimits(js, toks[l], pos);
    }
  }

  lemma WaitSpanned(js: string, toks: seq<Token>, pos: nat)
    requires Spanned(js, toks, pos) && pos < |js|
    ensures Spanned(js, toks, pos + 1)
  {
    forall i | 0 <= i < |toks|
      ensures Delimits(js, toks[i], pos + 1)
    {
      assert Delimits(js, toks[i], pos);
    }
  }

  lemma {:induction false} PrimitiveChars(js: string, i: nat)
    ensures ScanPrimitive(js, i).End? ==>
              forall j | i <= j < ScanPrimitive(js, i).at && j < |js| :: !EndsPrimitive(js[j])
    decreases |js| - i
  {
    if More(js, i) && !EndsPrimitive(js[i]) {
      PrimitiveChars(js, i + 1);
    }
  }

  lemma StepSpanned(js: string, st: State, cap: nat)
    requires st.Sane() && More(js, st.pos) && Step(js, st, cap).Next?
    requires Spanned(js, st.toks, st.pos)
    ensures var st' := Step(js, st, cap).st; Spanned(js, st'.toks, st'.pos)
  {
    hide Spanned, ScanString, ScanPrimitive;
    var c, n, st' := js[st.pos], |st.toks|, Step(js, st, cap).st;
    if c == '{' || c == '[' {
      BumpSpanned(js, st.toks, st.pos, st.super);
      AppendSpanned(js, Bump(st.toks, st.super), st.pos, OpenToken(c, st.pos), st'.pos);
    } else if c == '}' || c == ']' {
      var i := LastOpen(st.toks, n);
      CloseSpanned(js, st.toks, st.pos, i);
    } else if |st'.toks| > n {
      PrimitiveChars(js, st.pos);
      BumpSpanned(js, st.toks, st.pos, st.super);
      AppendSpanned(js, Bump(st.toks, st.super), st.pos, st'.toks[n], st'.pos);
    } else {
      WaitSpanned(js, st.toks, st.pos);
    }
  }

  lemma {:induction false} RunSpanned(js: string, st: State, cap: nat)
    requires st.Sane() && Spanned(js, st.toks, st.pos)
    ensures var st' := Run(js, st, cap).1; Spanned(js, st'.toks, st'.pos)
    decreases |js| - st.pos
  {
    if More(js, st.pos) {
      var o := Step(js, st, cap);
      if o.Next? {
        StepSpanned(js, st, cap);
        RunSpanned(js, o.st, cap);
      }
    }
  }

  /** Spans never leave the range of an `int`. */
  lemma SpansFit(js: string, toks: seq<Token>, pos: nat)
    requires TextFits(js) && Spanned(js, toks, pos)
    ensures forall i | 0 <= i < |toks| ::
              0 <= toks[i].start <= 0x7fff_ffff && -1 <= toks[i].end <= 0x7fff_ffff
  {
    forall i | 0 <= i < |toks|
      ensures 0 <= toks[i].start <= 0x7fff_ffff && -1 <= toks[i].end <= 0x7fff_ffff
    {
      assert Delimits(js, toks[i], pos);
    }
  }

  /** On any input the tokens list a forest, and their spans are nested or disjoint.
      When the call succeeds, every bracket is closed by one of its own kind. */
  lemma AnyInput(js: string, cap: nat) returns (forest: Forest)
    requires TextFits(js)
    ensures var (code, st) := Run(js, INIT, cap);
            && st.toks == Flat(forest)
            && Spanned(js, st.toks, st.pos)
            && (forall i | 0 <= i < |st.toks| ::
                  0 <= st.toks[i].start <= 0x7fff_ffff && -1 <= st.toks[i].end <= 0x7fff_ffff)
            && (code.Count? ==> forall i | 0 <= i < |st.toks| :: !st.toks[i].IsOpen())
  {
    var k;
    forest, k := RunListed(js, INIT, cap, Nil, 0);
    RunSpanned(js, INIT, cap);
    CountCloses(js, INIT, cap);
    SpansFit(js, Run(js, INIT, cap).1.toks, Run(js, INIT, cap).1.pos);
  }

  lemma {:induction false} CountCloses(js: string, st: State, cap: nat)
    requires st.Sane()
    ensures var (code, st') := Run(js, st, cap);
            code.Count? ==> forall i | 0 <= i < |st'.toks| :: !st'.toks[i].IsOpen()
    decreases |js| - st.pos
  {
    if More(js, st.pos) {
      var o := Step(js, st, cap);
      if o.Next? {
        CountCloses(js, o.st, cap);
      }
    }
  }
}
