/** The flat token array as the preorder listing of a forest. */
module JsonForest {
  import opened Wrappers
  import opened Jsmn

  datatype Tree = Node(kind: Kind, start: int, end: int, kids: Forest)

  /** Trees from left to right, the last one outermost. */
  type Forest = Snocs<Tree>

  function Root(t: Tree): Token {
    Token(t.kind, t.start, t.end, Len(t.kids))
  }

  /** The tokens of the trees, in preorder; `size` counts the children. */
  function Flat(forest: Forest): seq<Token> {
    if forest.Nil? then [] else Flat(forest.init) + [Root(forest.last)] + Flat(forest.last.kids)
  }

  function FlatTree(t: Tree): seq<Token> {
    [Root(t)] + Flat(t.kids)
  }

  lemma FlatSnoc(forest: Forest, t: Tree)
    ensures Flat(Snoc(forest, t)) == Flat(forest) + FlatTree(t)
  {
  }

  lemma FlatOnly(t: Tree)
    ensures Flat(Snoc(Nil, t)) == FlatTree(t)
  {
    FlatSnoc(Nil, t);
  }

  ghost predicate AllClosed(toks: seq<Token>) {
    forall i | 0 <= i < |toks| :: !toks[i].IsOpen()
  }

  // ---------------------------------------------------------------- the rightmost spine

  /** The number of nodes from the last root down to the last token. */
  function Depth(forest: Forest): nat {
    if forest.Nil? then 0 else 1 + Depth(forest.last.kids)
  }

  /** The index of the spine node at depth `d`. */
  function Spine(forest: Forest, d: nat): (i: nat)
    requires d < Depth(forest)
    ensures i < |Flat(forest)|
  {
    if d == 0 then |Flat(forest.init)| else |Flat(forest.init)| + 1 + Spine(forest.last.kids, d - 1)
  }

  /** A new last child for the spine node above depth `d`. */
  function Graft(forest: Forest, d: nat, t: Tree): Forest
    requires d <= Depth(forest)
  {
    if d == 0 then Snoc(forest, t) else forest.(last := forest.last.(kids := Graft(forest.last.kids, d - 1, t)))
  }

  /** The spine node at depth `d` gets its end. */
  function Close(forest: Forest, d: nat, end: int): Forest
    requires d < Depth(forest)
  {
    if d == 0 then forest.(last := forest.last.(end := end))
    else forest.(last := forest.last.(kids := Close(forest.last.kids, d - 1, end)))
  }

  /** The value of `toksuper` when the superior token is the spine node above depth `d`. */
  function Super(forest: Forest, d: nat): (i: int)
    requires d <= Depth(forest)
    ensures -1 <= i < |Flat(forest)|
  {
    if d == 0 then -1 else Spine(forest, d - 1)
  }

  lemma {:induction false} SpineIncreases(forest: Forest, d: nat, e: nat)
    requires d < e < Depth(forest)
    ensures Spine(forest, d) < Spine(forest, e)
  {
    if d > 0 {
      SpineIncreases(forest.last.kids, d - 1, e - 1);
    }
  }

  lemma {:induction false} SpineEnds(forest: Forest)
    requires forest.Snoc?
    ensures Spine(forest, Depth(forest) - 1) == |Flat(forest)| - 1
  {
    if forest.last.kids.Snoc? {
      SpineEnds(forest.last.kids);
    }
  }

  lemma {:induction false} GraftShape(forest: Forest, d: nat, t: Tree)
    requires d <= Depth(forest) && t.kids.Nil?
    ensures Depth(Graft(forest, d, t)) == d + 1
    ensures forall e: nat | e < d :: Spine(Graft(forest, d, t), e) == Spine(forest, e)
    ensures Spine(Graft(forest, d, t), d) == |Flat(forest)|
    ensures Len(Graft(forest, d, t)) == Len(forest) + if d == 0 then 1 else 0
  {
    if d > 0 {
      GraftShape(forest.last.kids, d - 1, t);
    }
  }

  lemma FlatParts(forest: Forest)
    requires forest.Snoc?
    ensures Flat(forest) == Flat(forest.init) + [Root(forest.last)] + Flat(forest.last.kids)
  {
  }

  lemma {:induction false} GraftFlat(forest: Forest, d: nat, t: Tree)
    requires d <= Depth(forest) && t.kids.Nil?
    ensures Flat(Graft(forest, d, t)) == Bump(Flat(forest), Super(forest, d)) + FlatTree(t)
  {
    hide Flat, FlatTree, Bump;
    if d == 0 {
      FlatSnoc(forest, t);
      BumpNone(Flat(forest));
    } else {
      var last := forest.last;
      GraftFlat(last.kids, d - 1, t);
      GraftShape(last.kids, d - 1, t);
      FlatParts(forest);
      FlatParts(Graft(forest, d, t));
      GraftGlue(Flat(forest.init), Root(last), Flat(last.kids), Super(last.kids, d - 1), FlatTree(t));
    }
  }

  lemma BumpNone(toks: seq<Token>)
    ensures Bump(toks, -1) == toks
  {
  }

  /** Counting a child at an index of the last tree of a listing. */
  lemma GraftGlue(init: seq<Token>, tok: Token, kids: seq<Token>, super: int, t: seq<Token>)
    requires -1 <= super < |kids|
    ensures var tok' := if super == -1 then tok.(size := tok.size + 1) else tok;
            Bump(init + [tok] + kids, |init| + 1 + super) + t == init + [tok'] + (Bump(kids, super) + t)
  {
    var all, at := init + [tok] + kids, |init| + 1 + super;
    if super == -1 {
      assert Bump(all, at) == init + [tok.(size := tok.size + 1)] + kids;
    } else {
      assert all[at] == kids[super];
      assert Bump(all, at) == init + [tok] + Bump(kids, super);
    }
  }

  lemma {:induction false} CloseShape(forest: Forest, d: nat, end: int)
    requires d < Depth(forest)
    ensures Depth(Close(forest, d, end)) == Depth(forest) && Len(Close(forest, d, end)) == Len(forest)
  {
    if d > 0 {
      CloseShape(forest.last.kids, d - 1, end);
    }
  }

  lemma {:induction false} CloseFlat(forest: Forest, d: nat, end: int)
    requires d < Depth(forest)
    ensures var i := Spine(forest, d); Flat(Close(forest, d, end)) == Flat(forest)[i := Flat(forest)[i].(end := end)]
  {
    hide Flat;
    FlatParts(forest);
    FlatParts(Close(forest, d, end));
    var last := forest.last;
    if d == 0 {
      CloseRoot(Flat(forest.init), Root(last), Flat(last.kids), end);
    } else {
      CloseFlat(last.kids, d - 1, end);
      CloseShape(last.kids, d - 1, end);
      CloseGlue(Flat(forest.init), Root(last), Flat(last.kids), Spine(last.kids, d - 1), end);
    }
  }

  lemma {:induction false} CloseSpine(forest: Forest, d: nat, end: int, e: nat)
    requires d < Depth(forest) && e < Depth(forest)
    ensures e < Depth(Close(forest, d, end)) && Spine(Close(forest, d, end), e) == Spine(forest, e)
  {
    CloseShape(forest, d, end);
    if d > 0 && e > 0 {
      CloseSpine(forest.last.kids, d - 1, end, e - 1);
    } else if e > 0 {
      assert Close(forest, d, end).last.kids == forest.last.kids;
    }
  }

  lemma CloseRoot(init: seq<Token>, tok: Token, kids: seq<Token>, end: int)
    ensures var all, i := init + [tok] + kids, |init|;
            all[i := all[i].(end := end)] == init + [tok.(end := end)] + kids
  {
  }

  lemma CloseGlue(init: seq<Token>, tok: Token, kids: seq<Token>, i: nat, end: int)
    requires i < |kids|
    ensures var all, at := init + [tok] + kids, |init| + 1 + i;
            all[at := all[at].(end := end)] == init + [tok] + kids[i := kids[i].(end := end)]
  {
    var all := init + [tok] + kids;
    assert all[|init| + 1 + i] == kids[i];
  }
}
