/** Walking the flat token array as a tree, by child counts alone. */
module JsonNav {
  import opened Wrappers
  import opened Jsmn
  import opened JsonForest
  import opened JsonText
  import opened JsonTokens
  import opened JsonStructure

  /** The tokens `s` stand in the array from index `i` on. */
  ghost predicate Lists(toks: seq<Token>, i: nat, s: seq<Token>) {
    i + |s| <= |toks| && toks[i..i + |s|] == s
  }

  lemma ListsSplit(toks: seq<Token>, i: nat, a: seq<Token>, b: seq<Token>)
    requires Lists(toks, i, a + b)
    ensures Lists(toks, i, a) && Lists(toks, i + |a|, b)
  {
    var all := toks[i..i + |a + b|];
    assert a == all[..|a|] == toks[i..i + |a|];
    assert b == all[|a|..] == toks[i + |a|..i + |a| + |b|];
  }

  lemma ListsPart(toks: seq<Token>, i: nat, a: seq<Token>, b: seq<Token>, c: seq<Token>)
    requires Lists(toks, i, a + b + c)
    ensures Lists(toks, i, a) && Lists(toks, i + |a|, b) && Lists(toks, i + |a| + |b|, c)
  {
    hide Lists;
    ListsSplit(toks, i, a + b, c);
    ListsSplit(toks, i, a, b);
  }

  function TakeFlatRest(forest: Forest, m: nat): (rest: seq<Token>)
    requires m <= Len(forest)
    ensures Flat(forest) == Flat(Take(forest, m)) + rest
  {
    if m == Len(forest) then [] else TakeFlatRest(forest.init, m) + FlatTree(forest.last)
  }

  /** Tree number `m` is listed right behind the first `m` trees. */
  lemma NthListed(toks: seq<Token>, i: nat, forest: Forest, m: nat) returns (t: Tree)
    requires Lists(toks, i, Flat(forest)) && m < Len(forest)
    ensures Take(forest, m + 1) == Snoc(Take(forest, m), t)
    ensures Lists(toks, i + |Flat(Take(forest, m))|, FlatTree(t))
    ensures |Flat(Take(forest, m))| + |FlatTree(t)| == |Flat(Take(forest, m + 1))| <= |Flat(forest)|
  {
    hide Lists, Flat, FlatTree, Take;
    TakeNext(forest, m);
    t := Take(forest, m + 1).last;
    FlatSnoc(Take(forest, m), t);
    ListsPart(toks, i, Flat(Take(forest, m)), FlatTree(t), TakeFlatRest(forest, m + 1));
  }

  /** Every index of a forest's listing is where some subtree is listed. */
  lemma {:induction false} SubtreeAt(forest: Forest, i: nat) returns (t: Tree)
    requires i < |Flat(forest)|
    ensures Lists(Flat(forest), i, FlatTree(t))
  {
    FlatParts(forest);
    hide Flat, Lists;
    var init, root, kids := Flat(forest.init), [Root(forest.last)], Flat(forest.last.kids);
    var n := |init|;
    if i < n {
      t := SubtreeAt(forest.init, i);
      ListsFront(init, root, kids, i, FlatTree(t));
    } else if i == n {
      t := forest.last;
      ListsRest(init, root, kids);
    } else {
      t := SubtreeAt(forest.last.kids, i - n - 1);
      ListsBack(init, root, kids, i - n - 1, FlatTree(t));
    }
  }

  lemma ListsFront(a: seq<Token>, b: seq<Token>, c: seq<Token>, i: nat, s: seq<Token>)
    requires Lists(a, i, s)
    ensures Lists(a + b + c, i, s)
  {
    assert (a + b + c)[..|a|] == a;
  }

  lemma ListsRest(a: seq<Token>, b: seq<Token>, c: seq<Token>)
    ensures Lists(a + b + c, |a|, b + c)
  {
  }

  lemma ListsBack(a: seq<Token>, b: seq<Token>, c: seq<Token>, i: nat, s: seq<Token>)
    requires Lists(c, i, s)
    ensures Lists(a + b + c, |a| + |b| + i, s)
  {
    assert (a + b + c)[|a| + |b|..] == c;
  }

  /** Whatever the input was, and however the call ended: every token is the root of a
      subtree listed from its own index on, so `JsonNext` can step over it. */
  lemma AnyToken(js: string, cap: nat, i: nat) returns (t: Tree)
    requires TextFits(js) && i < |Run(js, INIT, cap).1.toks|
    ensures Lists(Run(js, INIT, cap).1.toks, i, FlatTree(t))
  {
    hide *;
    var forest := AnyInput(js, cap);
    t := SubtreeAt(forest, i);
  }

  /** Steps over the token at `i` and everything below it. */
  method JsonNext(toks: seq<Token>, i: nat, ghost t: Tree) returns (j: nat)
    requires Lists(toks, i, FlatTree(t))
    ensures j == i + |FlatTree(t)|
    decreases |FlatTree(t)|
  {
    hide Lists, Flat, FlatTree, Take;
    RootListed(toks, i, t);
    NoneTaken(t.kids);
    j := i + 1;
    var m := 0;
    while m < toks[i].size
      invariant m <= Len(t.kids)
      invariant j == i + 1 + |Flat(Take(t.kids, m))|
    {
      ghost var kid := NthListed(toks, i + 1, t.kids, m);
      j := JsonNext(toks, j, kid);
      m := m + 1;
    }
  }

  lemma NoneTaken(kids: Forest)
    ensures Take(kids, 0) == Nil && Flat(Nil) == [] && Take(kids, Len(kids)) == kids
  {
  }

  method JsonGetArr(toks: seq<Token>, i: nat, index: nat, ghost t: Tree) returns (r: int)
    requires Lists(toks, i, FlatTree(t))
    ensures r == if t.kind == Array && index < Len(t.kids)
                 then i + 1 + |Flat(Take(t.kids, index))| else -1
    ensures r >= 0 ==> Take(t.kids, index + 1).Snoc? && Lists(toks, r, FlatTree(Take(t.kids, index + 1).last))
  {
    hide Lists, Flat, FlatTree, Take;
    RootListed(toks, i, t);
    NoneTaken(t.kids);
    if toks[i].kind != Array {
      return -1;
    }
    var j, m, left := i + 1, 0, index;
    while m < toks[i].size
      invariant m <= Len(t.kids) && left == index - m
      invariant j == i + 1 + |Flat(Take(t.kids, m))|
    {
      ghost var kid := NthListed(toks, i + 1, t.kids, m);
      if left == 0 {
        return j;
      }
      left := left - 1;
      j := JsonNext(toks, j, kid);
      m := m + 1;
    }
    r := -1;
  }

  predicate JsonTokStreq(js: string, tok: Token, str: string)
    requires tok.kind == String ==> 0 <= tok.start <= tok.end <= |js|
  {
    tok.kind == String && tok.end - tok.start == |str| && js[tok.start..tok.end] == str
  }

  /** Character by character, without reading escapes. */
  lemma StreqExact(js: string, tok: Token, str: string)
    requires tok.kind == String ==> 0 <= tok.start <= tok.end <= |js|
    ensures JsonTokStreq(js, tok, str) <==>
              && tok.kind == String && tok.end - tok.start == |str|
              && forall k | 0 <= k < |str| :: js[tok.start + k] == str[k]
  {
    if tok.kind == String && tok.end - tok.start == |str| {
      var s := js[tok.start..tok.end];
      assert forall k | 0 <= k < |str| :: s[k] == js[tok.start + k];
    }
  }

  // ---------------------------------------------------------------- members of objects

  /** Every child has exactly one child: it is a key with its value. */
  predicate Keyed(kids: Forest) {
    kids.Snoc? ==> Keyed(kids.init) && Len(kids.last.kids) == 1
  }

  /** The children that are strings are spans of the text. */
  predicate KeysIn(js: string, kids: Forest) {
    kids.Snoc? ==>
      && KeysIn(js, kids.init)
      && (kids.last.kind == String ==> 0 <= kids.last.start <= kids.last.end <= |js|)
  }

  /** The value of the first key that reads `name`: its offset in the listing of the
      children, and its tree. */
  function FindMember(js: string, kids: Forest, name: string): Option<(nat, Tree)>
    requires Keyed(kids) && KeysIn(js, kids)
  {
    if kids.Nil? then None
    else
      var before := FindMember(js, kids.init, name);
      if before.Some? then before
      else if JsonTokStreq(js, Root(kids.last), name) then Some((|Flat(kids.init)| + 1, kids.last.kids.last))
      else None
  }

  lemma {:induction false} FindUpto(js: string, kids: Forest, name: string, m: nat)
    requires m <= Len(kids) && Keyed(kids) && KeysIn(js, kids)
    ensures Keyed(Take(kids, m)) && KeysIn(js, Take(kids, m))
    ensures FindMember(js, Take(kids, m), name).Some? ==>
              FindMember(js, kids, name) == FindMember(js, Take(kids, m), name)
  {
    hide JsonTokStreq;
    if m < Len(kids) {
      FindUpto(js, kids.init, name, m);
    }
  }

  /** The loop over the members meets child number `m` as a key in front of its value. */
  lemma KeyMet(js: string, toks: seq<Token>, j: nat, kids: Forest, m: nat, name: string)
    returns (key: Tree, value: Tree)
    requires m < Len(kids) && Keyed(kids) && KeysIn(js, kids) && Lists(toks, j, Flat(kids))
    requires Keyed(Take(kids, m)) && KeysIn(js, Take(kids, m))
    ensures var k := j + |Flat(Take(kids, m))|;
            && k < |toks| && toks[k] == Root(key)
            && (toks[k].kind == String ==> 0 <= toks[k].start <= toks[k].end <= |js|)
            && Lists(toks, k + 1, FlatTree(value))
            && k + 1 + |FlatTree(value)| == j + |Flat(Take(kids, m + 1))|
    ensures Keyed(Take(kids, m + 1)) && KeysIn(js, Take(kids, m + 1))
    ensures FindMember(js, Take(kids, m), name).None? ==>
              FindMember(js, Take(kids, m + 1), name)
                == if JsonTokStreq(js, Root(key), name) then Some((|Flat(Take(kids, m))| + 1, value)) else None
  {
    hide JsonTokStreq, Lists, Flat, Take;
    key := NthListed(toks, j, kids, m);
    FindUpto(js, kids, name, m + 1);
    value := key.kids.last;
    assert Len(key.kids.init) == 0;
    FlatOnly(value);
    assert FlatTree(key) == [Root(key)] + FlatTree(value) + [];
    ListsPart(toks, j + |Flat(Take(kids, m))|, [Root(key)], FlatTree(value), []);
    ListsOne(toks, j + |Flat(Take(kids, m))|, Root(key));
  }

  lemma ListsOne(toks: seq<Token>, i: nat, tok: Token)
    requires Lists(toks, i, [tok])
    ensures i < |toks| && toks[i] == tok
  {
    assert toks[i] == toks[i..i + 1][0];
  }

  lemma RootListed(toks: seq<Token>, i: nat, t: Tree)
    requires Lists(toks, i, FlatTree(t))
    ensures i < |toks| && toks[i] == Root(t) && Lists(toks, i + 1, Flat(t.kids))
    ensures |FlatTree(t)| == 1 + |Flat(t.kids)|
  {
    assert FlatTree(t) == [Root(t)] + Flat(t.kids) + [];
    ListsPart(toks, i, [Root(t)], Flat(t.kids), []);
    assert toks[i] == toks[i..i + 1][0];
  }

  /** Looks for a key among the children of an object that are all keys with a value. */
  method JsonGetMember(js: string, toks: seq<Token>, i: nat, name: string, ghost t: Tree) returns (r: int)
    requires Lists(toks, i, FlatTree(t)) && (t.kind == Object ==> Keyed(t.kids) && KeysIn(js, t.kids))
    ensures if t.kind != Object then r == -1
            else match FindMember(js, t.kids, name)
                 case None => r == -1
                 case Some((k, value)) => r == i + 1 + k && Lists(toks, r, FlatTree(value))
  {
    hide *;
    RootListed(toks, i, t);
    RootOf(t);
    if toks[i].kind != Object {
      return -1;
    }
    NoneTaken(t.kids);
    NoneFound(js, name);
    var j, m := i + 1, 0;
    while m < toks[i].size
      invariant m <= Len(t.kids) && j == i + 1 + |Flat(Take(t.kids, m))|
      invariant Keyed(Take(t.kids, m)) && KeysIn(js, Take(t.kids, m))
      invariant FindMember(js, Take(t.kids, m), name).None?
    {
      ghost var key, value := KeyMet(js, toks, i + 1, t.kids, m, name);
      FindUpto(js, t.kids, name, m + 1);
      if JsonTokStreq(js, toks[j], name) {
        return j + 1;
      }
      j := JsonNext(toks, j + 1, value);
      m := m + 1;
    }
    r := -1;
  }

  lemma RootOf(t: Tree)
    ensures Root(t).kind == t.kind && Root(t).size == Len(t.kids)
  {
  }

  lemma NoneFound(js: string, name: string)
    ensures Keyed(Nil) && KeysIn(js, Nil) && FindMember(js, Nil, name).None?
  {
  }

  // ---------------------------------------------------------------- objects of any accepted text

  /** The tree listed from index `i` on. */
  function TreeAt(forest: Forest, i: nat): Tree
    requires i < |Flat(forest)|
  {
    var n := |Flat(forest.init)|;
    if i < n then TreeAt(forest.init, i)
    else if i == n then forest.last
    else TreeAt(forest.last.kids, i - n - 1)
  }

  /** Where the loop over the members stands after `m` rounds, counted from the first
      child: each round goes from a token behind the tree of the token after it. It is
      -1 once there is no such token among the children's. */
  function Cursor(kids: Forest, m: nat): int {
    if m == 0 then 0
    else
      var at := Cursor(kids, m - 1);
      if 0 <= at && at + 1 < |Flat(kids)| then at + 1 + |FlatTree(TreeAt(kids, at + 1))| else -1
  }

  function Kid(kids: Forest, m: nat): Tree
    requires m < Len(kids)
  {
    if m + 1 == Len(kids) then kids.last else Kid(kids.init, m)
  }

  lemma {:induction false} TreeAtKid(kids: Forest, m: nat)
    requires m < Len(kids)
    ensures var at, key := |Flat(Take(kids, m))|, Kid(kids, m);
            && |Flat(Take(kids, m + 1))| == at + 1 + |Flat(key.kids)| <= |Flat(kids)|
            && (key.kids.Snoc? ==> at + 1 < |Flat(kids)| && TreeAt(kids, at + 1) == TreeAt(key.kids, 0))
  {
    hide TreeAt;
    if m + 1 == Len(kids) {
      LastKid(kids);
    } else {
      TreeAtKid(kids.init, m);
      TreeAtInit(kids);
    }
  }

  lemma TreeAtInit(kids: Forest)
    requires kids.Snoc?
    ensures |Flat(kids.init)| < |Flat(kids)|
    ensures forall i: nat | i < |Flat(kids.init)| :: TreeAt(kids, i) == TreeAt(kids.init, i)
  {
  }

  lemma LastKid(kids: Forest)
    requires kids.Snoc?
    ensures var at := |Flat(kids.init)|;
            && at < |Flat(kids)| == at + 1 + |Flat(kids.last.kids)|
            && TreeAt(kids, at) == kids.last
            && (kids.last.kids.Snoc? ==> at + 1 < |Flat(kids)| && TreeAt(kids, at + 1) == TreeAt(kids.last.kids, 0))
  {
    assert kids.last.kids.Snoc? ==> |Flat(kids.last.kids)| > 0;
  }

  /** The tree at the front fills a forest exactly when it is the only one. */
  lemma {:induction false} FrontFills(kids: Forest)
    requires kids.Snoc?
    ensures |Flat(kids)| > 0 && |FlatTree(TreeAt(kids, 0))| <= |Flat(kids)|
    ensures |FlatTree(TreeAt(kids, 0))| == |Flat(kids)| <==> Len(kids) == 1
  {
    if kids.init.Snoc? {
      FrontFills(kids.init);
    }
  }

  /** From a key, one round reaches the next child exactly when the key has one child. */
  lemma RoundLands(kids: Forest, m: nat)
    requires m < Len(kids) && Cursor(kids, m) == |Flat(Take(kids, m))|
    ensures Cursor(kids, m + 1) == |Flat(Take(kids, m + 1))| <==> Len(Kid(kids, m).kids) == 1
  {
    hide TreeAt, Flat, FlatTree, Take, Kid;
    TreeAtKid(kids, m);
    var key := Kid(kids, m);
    if key.kids.Snoc? {
      FrontFills(key.kids);
    } else {
      NoTokens(kids, |Flat(Take(kids, m))| + 1);
      NoTokens(key.kids, 0);
    }
  }

  lemma NoTokens(kids: Forest, i: nat)
    ensures kids.Nil? ==> |Flat(kids)| == 0
    ensures i < |Flat(kids)| ==> |FlatTree(TreeAt(kids, i))| > 0
  {
  }

  lemma {:induction false} KeyedKids(kids: Forest)
    ensures Keyed(kids) <==> forall m: nat | m < Len(kids) :: Len(Kid(kids, m).kids) == 1
  {
    if kids.Snoc? {
      var n := Len(kids.init);
      KeyedKids(kids.init);
      forall m: nat | m < n
        ensures Kid(kids, m) == Kid(kids.init, m)
      {
      }
      assert Kid(kids, n) == kids.last;
      if Keyed(kids) {
        forall m: nat | m < Len(kids)
          ensures Len(Kid(kids, m).kids) == 1
        {
          assert m < n ==> Len(Kid(kids.init, m).kids) == 1;
        }
      } else if Len(kids.last.kids) != 1 {
        assert Len(Kid(kids, n).kids) != 1;
      } else {
        var m: nat :| m < n && Len(Kid(kids.init, m).kids) != 1;
        assert Len(Kid(kids, m).kids) != 1;
      }
    }
  }

  /** The loop over the members goes from child to child, and ends behind the last
      one, exactly when every child has exactly one child. */
  lemma KeysVisited(kids: Forest)
    ensures (forall m: nat | m <= Len(kids) :: Cursor(kids, m) == |Flat(Take(kids, m))|) <==> Keyed(kids)
  {
    KeyedKids(kids);
    hide TreeAt, Flat, Take, Cursor, Keyed, Kid, Len;
    if Keyed(kids) {
      forall m: nat | m <= Len(kids)
        ensures Cursor(kids, m) == |Flat(Take(kids, m))|
      {
        CursorKeyed(kids, m);
      }
    } else {
      var m: nat :| m < Len(kids) && Len(Kid(kids, m).kids) != 1;
      if Cursor(kids, m) == |Flat(Take(kids, m))| {
        RoundLands(kids, m);
        assert m + 1 <= Len(kids) && Cursor(kids, m + 1) != |Flat(Take(kids, m + 1))|;
      } else {
        assert m <= Len(kids) && Cursor(kids, m) != |Flat(Take(kids, m))|;
      }
    }
  }

  lemma {:induction false} CursorKeyed(kids: Forest, m: nat)
    requires m <= Len(kids) && forall k: nat | k < Len(kids) :: Len(Kid(kids, k).kids) == 1
    ensures Cursor(kids, m) == |Flat(Take(kids, m))|
  {
    hide TreeAt, Flat, Take, Kid;
    if m == 0 {
      NoneTaken(kids);
      assert Cursor(kids, 0) == 0;
    } else {
      CursorKeyed(kids, m - 1);
      RoundLands(kids, m - 1);
    }
  }

  /** In any input, the keys of an object are spans of it, so that a member can be
      looked up in the object as soon as its children are keys with a value. */
  lemma AnyObject(js: string, cap: nat, i: nat) returns (t: Tree)
    requires TextFits(js) && i < |Run(js, INIT, cap).1.toks|
    ensures Lists(Run(js, INIT, cap).1.toks, i, FlatTree(t)) && KeysIn(js, t.kids)
  {
    var st := Run(js, INIT, cap).1;
    hide *;
    t := AnyToken(js, cap, i);
    var _ := AnyInput(js, cap);
    RootListed(st.toks, i, t);
    SpannedKeys(js, st.toks, st.pos, i + 1, t.kids);
  }

  lemma {:induction false} SpannedKeys(js: string, toks: seq<Token>, pos: nat, j: nat, kids: Forest)
    requires Spanned(js, toks, pos) && Lists(toks, j, Flat(kids))
    ensures KeysIn(js, kids)
  {
    hide Spanned, Lists;
    if kids.Snoc? {
      ListsPart(toks, j, Flat(kids.init), [Root(kids.last)], Flat(kids.last.kids));
      SpannedKeys(js, toks, pos, j, kids.init);
      ListsOne(toks, j + |Flat(kids.init)|, Root(kids.last));
      if kids.last.kind == String {
        SpannedString(js, toks, pos, j + |Flat(kids.init)|);
      }
    }
  }

  lemma SpannedString(js: string, toks: seq<Token>, pos: nat, k: nat)
    requires Spanned(js, toks, pos) && k < |toks| && toks[k].kind == String
    ensures 0 <= toks[k].start <= toks[k].end <= |js|
  {
    assert Delimits(js, toks[k], pos);
  }

  /** The tokenizer accepts an object with a bare key, whose lookup leaves the tokens. */
  lemma BareKey()
    ensures var js := "{\"a\"}";
            var kids := Snoc(Nil, Node(String, 2, 3, Nil));
            && Run(js, INIT, 2) == (Count(2), State(5, FlatTree(Node(Object, 0, 5, kids)), -1))
            && !Keyed(kids) && Cursor(kids, 1) == -1
  {
    var js := "{\"a\"}";
    var open, key := Token(Object, 0, -1, 0), Token(String, 2, 3, 0);
    var st1, st2 := State(1, [open], 0), State(4, [open.(size := 1), key], 0);
    var kids := Snoc(Nil, Node(String, 2, 3, Nil));
    assert Step(js, INIT, 2) == Next(st1);
    assert ScanString(js, 2) == End(3) by { assert ScanString(js, 3) == End(3); }
    assert Step(js, st1, 2) == Next(st2);
    var toks := st2.toks[0 := st2.toks[0].(end := 5)];
    assert LastOpen(st2.toks, 1) == 0 && LastOpen(st2.toks, 2) == 0;
    assert LastOpen(toks, 0) == -1 && LastOpen(toks, 1) == -1 && LastOpen(toks, 2) == -1;
    assert Step(js, st2, 2) == Next(State(5, toks, -1));
    FlatOnly(Node(String, 2, 3, Nil));
    assert Flat(kids) == [key] && toks == FlatTree(Node(Object, 0, 5, kids));
  }

  // ---------------------------------------------------------------- members of texts

  function MemberCount(members: Members): nat {
    if members.NoMember? then 0 else MemberCount(members.init) + 1
  }

  /** The first `m` members. */
  function Upto(members: Members, m: nat): Members
    requires m <= MemberCount(members)
  {
    if m == MemberCount(members) then members else Upto(members.init, m)
  }

  /** The members up to the first one with the given key, if there is one. */
  function FirstMatch(members: Members, name: string): (r: Members)
    ensures r.AndMember? ==> CharsText(r.key) == name
  {
    if members.NoMember? then NoMember
    else if FirstMatch(members.init, name).AndMember? then FirstMatch(members.init, name)
    else if CharsText(members.key) == name then members
    else NoMember
  }

  /** It is the first: none before it has the key, and there is none only if no member has it. */
  lemma {:induction false} FirstMatchIsFirst(members: Members, name: string)
    ensures var r := FirstMatch(members, name);
            && MemberCount(r) <= MemberCount(members) && (r.AndMember? ==> r == Upto(members, MemberCount(r)))
            && forall m: nat | 0 < m <= MemberCount(members) && (r.AndMember? ==> m < MemberCount(r)) ::
                 Upto(members, m).AndMember? && CharsText(Upto(members, m).key) != name
  {
    if members.AndMember? {
      FirstMatchIsFirst(members.init, name);
      var r := FirstMatch(members, name);
      forall m: nat | 0 < m <= MemberCount(members) && (r.AndMember? ==> m < MemberCount(r))
        ensures Upto(members, m).AndMember? && CharsText(Upto(members, m).key) != name
      {
        assert m < MemberCount(members) ==> Upto(members, m) == Upto(members.init, m);
      }
    }
  }

  /** The token of the value of the last of these members, counted from the first key. */
  function ValueOffset(members: Members, q: nat): nat
    requires members.AndMember?
  {
    |Flat(MemberTrees(members.init, q))| + 1
  }

  lemma MemberTextAt(js: string, members: Members, q: nat)
    requires members.AndMember? && At(js, q, MembersText(members))
    ensures At(js, KeyStart(members, q) + 1, CharsText(members.key))
    ensures At(js, ValueStart(members, q), Text(members.v))
  {
    hide At, Text, CharsText, KeyText;
    var AndMember(init, before, key, colon, v, after) := members;
    var first := Comma(init.NoMember?);
    TextPieces(js, q, MembersText(init), first + KeyText(before, key, colon), Text(v), after);
    KeyAt(js, q + |MembersText(init)|, first, before, key, colon);
  }

  lemma TextPieces(js: string, q: nat, a: string, b: string, c: string, d: string)
    requires At(js, q, a + b + c + d)
    ensures At(js, q + |a|, b) && At(js, q + |a + b|, c)
  {
    hide At;
    AtSplit(js, q, a + b + c, d);
    AtSplit(js, q, a + b, c);
    AtSplit(js, q, a, b);
  }

  lemma KeyAt(js: string, p: nat, s: string, before: string, key: seq<Ch>, colon: (string, string))
    requires At(js, p, s + KeyText(before, key, colon))
    ensures At(js, p + |s| + |before| + 1, CharsText(key))
  {
    hide At, CharsText;
    var k, rest := CharsText(key), "\"" + (colon.0 + ":" + colon.1);
    assert s + KeyText(before, key, colon) == (s + before) + (['\"'] + (k + rest));
    AtSplit(js, p, s + before, ['\"'] + (k + rest));
    AtChar(js, p + |s + before|, '\"', k + rest);
    AtSplit(js, p + |s + before| + 1, k, rest);
  }

  /** The text of the members before the last. */
  lemma InitText(js: string, members: Members, q: nat)
    requires members.AndMember? && At(js, q, MembersText(members))
    ensures At(js, q, MembersText(members.init))
  {
    hide At, Text, KeyText;
    var AndMember(init, before, key, colon, v, after) := members;
    var k := Comma(init.NoMember?) + KeyText(before, key, colon);
    assert MembersText(members) == MembersText(init) + (k + Text(v) + after);
    AtSplit(js, q, MembersText(init), k + Text(v) + after);
  }

  /** The children that are listed for members are keys with a value, and looking for a
      key finds the value of the first member with it. */
  lemma {:induction false} MembersFind(js: string, members: Members, q: nat, name: string)
    requires MembersOk(members) && At(js, q, MembersText(members))
    ensures var kids, m := MemberTrees(members, q), FirstMatch(members, name);
            && Keyed(kids) && KeysIn(js, kids)
            && FindMember(js, kids, name) == (if m.NoMember? then None
                                              else Some((ValueOffset(m, q), TreeOf(m.v, ValueStart(m, q)))))
            && (m.AndMember? ==> Ok(m.v) && At(js, ValueStart(m, q), Text(m.v)))
  {
    hide At, Text, CharsText, TreeOf, Flat, KeyText, KeyStart, ValueStart, MembersText, JsonTokStreq;
    if members.AndMember? {
      InitText(js, members, q);
      MembersFind(js, members.init, q, name);
      MemberTextAt(js, members, q);
      assert Len(Snoc(Nil, TreeOf(members.v, ValueStart(members, q)))) == 1;
      KeyRead(js, members.key, KeyStart(members, q), Snoc(Nil, TreeOf(members.v, ValueStart(members, q))), name);
    }
  }

  lemma KeyRead(js: string, key: seq<Ch>, p: nat, kids: Forest, name: string)
    requires At(js, p + 1, CharsText(key))
    ensures var t := KeyTree(key, p, kids);
            && t.kind == String && t.kids == kids && 0 <= t.start <= t.end <= |js|
            && (JsonTokStreq(js, Root(t), name) <==> CharsText(key) == name)
  {
  }

  /** The text of an object is its members' text between braces. */
  lemma ObjectBody(js: string, p: nat, v: Value)
    requires v.Obj? && At(js, p, Text(v))
    ensures At(js, p + 1 + |v.pad|, MembersText(v.members))
  {
    hide At, MembersText;
    Regroup("{", v.pad, MembersText(v.members), "}");
    assert "{" + (v.pad + (MembersText(v.members) + "}")) == ("{" + v.pad) + (MembersText(v.members) + "}");
    AtSplit(js, p, "{" + v.pad, MembersText(v.members) + "}");
    AtSplit(js, p + 1 + |v.pad|, MembersText(v.members), "}");
  }

  /** Looking up a member of a value finds the value of its first member with that key. */
  lemma MemberOfText(js: string, v: Value, p: nat, name: string)
    requires v.Obj? && Ok(v) && At(js, p, Text(v))
    ensures var kids, q, m := TreeOf(v, p).kids, p + 1 + |v.pad|, FirstMatch(v.members, name);
            && TreeOf(v, p).kind == Object && Keyed(kids) && KeysIn(js, kids)
            && FindMember(js, kids, name) == (if m.NoMember? then None
                                              else Some((ValueOffset(m, q), TreeOf(m.v, ValueStart(m, q)))))
            && (m.AndMember? ==> Ok(m.v) && At(js, ValueStart(m, q), Text(m.v)))
  {
    hide At, Text, MembersText, FindMember;
    ObjectBody(js, p, v);
    MembersFind(js, v.members, p + 1 + |v.pad|, name);
  }

  // ---------------------------------------------------------------- paths

  /** The length of the path segment that starts at `from`: up to the next dot. */
  function Segment(guide: string, from: nat): (n: nat)
    requires from <= |guide|
    ensures from + n <= |guide|
    ensures forall k | from <= k < from + n :: guide[k] != '.'
    ensures from + n < |guide| ==> guide[from + n] == '.'
    decreases |guide| - from
  {
    if from == |guide| || guide[from] == '.' then 0 else 1 + Segment(guide, from + 1)
  }

  /** What `json_delve` does not survive: no dot, or a segment too long for its buffer. */
  predicate Aborts(guide: string)
    requires guide != ""
  {
    guide[0] != '.' || Segment(guide, 1) >= 128
  }

  datatype Delved = Found(t: Tree, i: nat) | Missing | Aborted

  /** The children of the objects on the path are keys with a value, inside the text. */
  predicate Walkable(js: string, t: Tree, guide: string)
    decreases |guide|
  {
    guide != "" && !Aborts(guide) && t.kind == Object ==>
      && Keyed(t.kids) && KeysIn(js, t.kids)
      && var n := Segment(guide, 1);
         var found := FindMember(js, t.kids, guide[1..1 + n]);
         found.Some? ==> Walkable(js, found.value.1, guide[1 + n..])
  }

  /** The tree that a dotted path leads to from the tree of token `i`. */
  function Delve(js: string, t: Tree, i: nat, guide: string): Delved
    requires Walkable(js, t, guide)
    decreases |guide|
  {
    if guide == "" then Found(t, i)
    else if Aborts(guide) then Aborted
    else if t.kind != Object then Missing
    else
      var n := Segment(guide, 1);
      match FindMember(js, t.kids, guide[1..1 + n])
      case None => Missing
      case Some((k, value)) => Delve(js, value, i + 1 + k, guide[1 + n..])
  }

  method JsonDelve(js: string, toks: seq<Token>, i: nat, guide: string, ghost t: Tree)
    returns (r: int, aborted: bool)
    requires Lists(toks, i, FlatTree(t)) && Walkable(js, t, guide)
    ensures match Delve(js, t, i, guide)
            case Found(t', i') => r == i' && !aborted && Lists(toks, i', FlatTree(t'))
            case Missing => r == -1 && !aborted
            case Aborted => aborted
  {
    hide Lists, FlatTree, FindMember, Keyed, KeysIn, Segment;
    r, aborted := i, false;
    var rest := guide;
    ghost var at := t;
    while rest != ""
      invariant r >= 0 && Lists(toks, r, FlatTree(at)) && Walkable(js, at, rest)
      invariant !aborted && Delve(js, at, r, rest) == Delve(js, t, i, guide)
      decreases |rest|
    {
      var n := Segment(rest, 1);
      if n >= 128 || rest[0] != '.' {
        return r, true;
      }
      RootListed(toks, r, at);
      RootOf(at);
      if toks[r].kind != Object {
        return -1, false;
      }
      ghost var found := FindMember(js, at.kids, rest[1..1 + n]);
      var child := JsonGetMember(js, toks, r, rest[1..1 + n], at);
      if child < 0 {
        return -1, false;
      }
      at := found.value.1;
      r := child;
      rest := rest[1 + n..];
    }
  }

  // ---------------------------------------------------------------- paths in texts

  /** A value inside a text: where it is written, and the index of its token. */
  datatype Place = Nowhere | Astray | Place(v: Value, p: nat, i: nat)

  /** The value of the first member with the given key. */
  function Enter(at: Place, name: string): Place {
    if !at.Place? || !at.v.Obj? || FirstMatch(at.v.members, name).NoMember? then Nowhere
    else
      var m, q := FirstMatch(at.v.members, name), at.p + 1 + |at.v.pad|;
      Place(m.v, ValueStart(m, q), at.i + 1 + ValueOffset(m, q))
  }

  /** The place that a dotted path leads to. */
  function Follow(at: Place, guide: string): Place
    decreases |guide|
  {
    if guide == "" || !at.Place? then at
    else if Aborts(guide) then Astray
    else
      var n := Segment(guide, 1);
      Follow(Enter(at, guide[1..1 + n]), guide[1 + n..])
  }

  lemma FollowStep(at: Place, guide: string)
    requires at.Place?
    ensures guide == "" ==> Follow(at, guide) == at
    ensures guide != "" && Aborts(guide) ==> Follow(at, guide) == Astray
    ensures guide != "" && !Aborts(guide) ==>
              var n := Segment(guide, 1);
              var next := Enter(at, guide[1..1 + n]);
              Follow(at, guide) == if next.Place? then Follow(next, guide[1 + n..]) else Nowhere
  {
    hide FirstMatch, Segment;
  }

  lemma DelveEnds(js: string, t: Tree, i: nat, guide: string)
    requires guide == "" || Aborts(guide) || t.kind != Object
    ensures Walkable(js, t, guide)
    ensures Delve(js, t, i, guide) == if guide == "" then Found(t, i) else if Aborts(guide) then Aborted else Missing
  {
  }

  lemma DelveStep(js: string, t: Tree, i: nat, guide: string)
    requires guide != "" && !Aborts(guide) && t.kind == Object && Keyed(t.kids) && KeysIn(js, t.kids)
    requires var n := Segment(guide, 1);
             var found := FindMember(js, t.kids, guide[1..1 + n]);
             found.Some? ==> Walkable(js, found.value.1, guide[1 + n..])
    ensures Walkable(js, t, guide)
    ensures var n := Segment(guide, 1);
            var found := FindMember(js, t.kids, guide[1..1 + n]);
            Delve(js, t, i, guide) == if found.None? then Missing
                                      else Delve(js, found.value.1, i + 1 + found.value.0, guide[1 + n..])
  {
    hide Segment, FindMember, Keyed, KeysIn;
  }

  /** In the text of a value, a dotted path leads to the tree of the value that it
      names, member by member, or is found missing or broken where it is. */
  lemma {:induction false} DelveOfText(js: string, at: Place, guide: string)
    requires at.Place? && Ok(at.v) && At(js, at.p, Text(at.v))
    ensures var t := TreeOf(at.v, at.p);
            && Walkable(js, t, guide)
            && match Follow(at, guide)
               case Nowhere => Delve(js, t, at.i, guide) == Missing
               case Astray => Delve(js, t, at.i, guide) == Aborted
               case Place(v, p, i) =>
                 Delve(js, t, at.i, guide) == Found(TreeOf(v, p), i) && Ok(v) && At(js, p, Text(v))
    decreases |guide|
  {
    hide At, Text, TreeOf, Ok, FindMember, Keyed, KeysIn, FirstMatch, ValueOffset, ValueStart, Segment, Aborts,
      Walkable, Delve, Follow;
    TreeKind(at.v, at.p);
    FollowStep(at, guide);
    if guide == "" || Aborts(guide) || !at.v.Obj? {
      DelveEnds(js, TreeOf(at.v, at.p), at.i, guide);
    } else {
      var n := Segment(guide, 1);
      var next := Enter(at, guide[1..1 + n]);
      MemberOfText(js, at.v, at.p, guide[1..1 + n]);
      if next.Place? {
        DelveOfText(js, next, guide[1 + n..]);
      }
      DelveStep(js, TreeOf(at.v, at.p), at.i, guide);
    }
  }

  lemma TreeKind(v: Value, p: nat)
    ensures TreeOf(v, p).kind == Object <==> v.Obj?
  {
  }

  function PathText(keys: seq<string>): string {
    if keys == [] then "" else "." + keys[0] + PathText(keys[1..])
  }

  function EnterAll(at: Place, keys: seq<string>): Place
    decreases |keys|
  {
    if keys == [] then at else EnterAll(Enter(at, keys[0]), keys[1..])
  }

  lemma SegmentIs(key: string, rest: string)
    requires '.' !in key && (rest != "" ==> rest[0] == '.')
    ensures var guide := "." + key + rest;
            Segment(guide, 1) == |key| && guide[1..1 + |key|] == key && guide[1 + |key|..] == rest
  {
    var guide := "." + key + rest;
    assert guide[1..1 + |key|] == key && guide[1 + |key|..] == rest;
    assert forall k | 0 <= k < |key| :: guide[1 + k] == key[k];
    assert rest != "" ==> guide[1 + |key|] == rest[0];
    assert forall k | 1 <= k < 1 + |key| :: guide[k] == key[k - 1] && guide[k] != '.';
  }

  lemma PathStart(keys: seq<string>)
    ensures PathText(keys) != "" ==> PathText(keys)[0] == '.'
  {
  }

  /** Keys without dots, of less than 128 characters, each behind a dot: the path enters
      them one after the other. */
  lemma {:induction false} FollowKeys(at: Place, keys: seq<string>)
    requires !at.Astray? && forall k | k in keys :: |k| < 128 && '.' !in k
    ensures Follow(at, PathText(keys)) == EnterAll(at, keys)
    decreases |keys|
  {
    hide Segment, FirstMatch, ValueOffset, ValueStart;
    if keys != [] {
      var key, rest := keys[0], PathText(keys[1..]);
      PathStart(keys[1..]);
      SegmentIs(key, rest);
      FollowKeys(Enter(at, key), keys[1..]);
      if at.Place? {
        assert Follow(at, PathText(keys)) == Follow(Enter(at, key), rest);
      }
    }
  }

  /** Where a value has been reached, a path that goes on without a dot, or with a key of
      128 characters or more, aborts. */
  lemma LongKey(at: Place, guide: string, key: string, rest: string)
    requires at.Place? && guide != "" && '.' !in key && (rest != "" ==> rest[0] == '.')
    ensures guide[0] != '.' ==> Follow(at, guide) == Astray
    ensures guide == "." + key + rest && |key| >= 128 ==> Follow(at, guide) == Astray
  {
    SegmentIs(key, rest);
  }

  /** The tokens of a text are the listing of its value's tree, so that navigation can start there. */
  lemma DocumentPlaced(left: string, v: Value, right: string, cap: nat)
    requires TextFits(left + Text(v) + right)
    requires Blank(left) && Ok(v) && Blank(right) && Nodes(v) <= cap
    ensures var js := left + Text(v) + right;
            At(js, |left|, Text(v)) && Lists(Run(js, INIT, cap).1.toks, 0, FlatTree(TreeOf(v, |left|)))
  {
    hide Run, Text, TreeOf, Ok;
    var js := left + Text(v) + right;
    Document(left, v, right, cap);
    assert js[|left|..|left| + |Text(v)|] == Text(v);
    var toks := FlatTree(TreeOf(v, |left|));
    assert toks[0..|toks|] == toks;
  }

  /** The element that `json_get_arr` finds is the item of that number. */
  lemma {:induction false} ItemNumber(items: Items, q: nat, index: nat) returns (here: Items)
    requires index < Len(ItemTrees(items, q))
    ensures here.AndItem? && Take(ItemTrees(items, q), index + 1) == ItemTrees(here, q)
    ensures Len(ItemTrees(here.init, q)) == index
    ensures Take(ItemTrees(items, q), index + 1).last == TreeOf(here.v, ItemStart(here, q))
  {
    here := items;
    if index + 1 < Len(ItemTrees(items, q)) {
      here := ItemNumber(items.init, q, index);
    }
  }
}
