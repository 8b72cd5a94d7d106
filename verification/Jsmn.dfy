/** What the JSON tokenizer computes: its scanning loop as a function on states. */
module Jsmn {

  datatype Kind = Object | Array | String | Primitive

  /** `end == -1` marks an object or array whose closing bracket has not been met. */
  datatype Token = Token(kind: Kind, start: int, end: int, size: nat) {
    predicate IsOpen() {
      start != -1 && end == -1
    }

    predicate IsBracket() {
      kind == Object || kind == Array
    }
  }

  /** `pos` and `toksuper` of the parser, and the tokens filled so far. */
  datatype State = State(pos: nat, toks: seq<Token>, super: int) {
    predicate Sane() {
      -1 <= super < |toks|
    }
  }

  datatype Code = NoMemory | Invalid | Partial | Count(n: nat)

  const INIT: State := State(0, [], -1)

  /** `start`, `end`, `size` and the count returned are `int`: every position of the
      text has to fit. */
  predicate TextFits(js: string) {
    |js| < 0x8000_0000
  }

  // ---------------------------------------------------------------- scanning

  predicate More(js: string, i: nat) {
    i < |js| && js[i] != '\0'
  }

  predicate IsSpace(c: char) {
    c == '\t' || c == '\r' || c == '\n' || c == ' '
  }

  predicate EndsPrimitive(c: char) {
    c == ':' || IsSpace(c) || c == ',' || c == ']' || c == '}'
  }

  predicate IsHex(c: char) {
    '0' <= c <= '9' || 'A' <= c <= 'F' || 'a' <= c <= 'f'
  }

  predicate IsEscape(c: char) {
    c == '\"' || c == '/' || c == '\\' || c == 'b' || c == 'f' || c == 'r' || c == 'n' || c == 't'
  }

  datatype Scan = End(at: nat) | BadChar | Cut

  /** The end of the unquoted value that continues at `i`. */
  function ScanPrimitive(js: string, i: nat): (r: Scan)
    ensures !r.Cut? && (r.End? ==> i <= r.at && (i <= |js| ==> r.at <= |js|))
    decreases |js| - i
  {
    if !More(js, i) || EndsPrimitive(js[i]) then End(i)
    else if js[i] < ' ' || js[i] >= 127 as char then BadChar
    else ScanPrimitive(js, i + 1)
  }

  /** Up to `k` hexadecimal digits. */
  function ScanHex(js: string, i: nat, k: nat): (r: Scan)
    ensures !r.Cut? && (r.End? ==> i <= r.at)
    ensures r.End? && i <= |js| ==> r.at <= |js|
    decreases k
  {
    if k == 0 || !More(js, i) then End(i)
    else if !IsHex(js[i]) then BadChar
    else ScanHex(js, i + 1, k - 1)
  }

  /** The closing quote of the string that continues at `i`. */
  function ScanString(js: string, i: nat): (r: Scan)
    ensures r.End? ==> i <= r.at < |js| && js[r.at] == '\"'
    decreases |js| - i
  {
    if !More(js, i) then Cut
    else if js[i] == '\"' then End(i)
    else if js[i] == '\\' && i + 1 < |js| then
      if IsEscape(js[i + 1]) then ScanString(js, i + 2)
      else if js[i + 1] == 'u' then
        var h := ScanHex(js, i + 2, 4);
        if h.BadChar? then BadChar else ScanString(js, h.at)
      else BadChar
    else ScanString(js, i + 1)
  }

  /** A string, one character further, unless it is an escape. */
  lemma ScanOne(js: string, i: nat)
    ensures !More(js, i) ==> ScanString(js, i) == Cut
    ensures More(js, i) && js[i] == '\"' ==> ScanString(js, i) == End(i)
    ensures More(js, i) && js[i] != '\"' && !(js[i] == '\\' && i + 1 < |js|) ==>
              ScanString(js, i) == ScanString(js, i + 1)
  {
  }

  // ---------------------------------------------------------------- tokens

  /** The last open token below `n`, or -1. */
  function LastOpen(toks: seq<Token>, n: nat): (i: int)
    requires n <= |toks|
    ensures -1 <= i < n
    ensures i >= 0 ==> toks[i].IsOpen()
    ensures forall j | i < j < n :: !toks[j].IsOpen()
  {
    if n == 0 then -1
    else if toks[n - 1].IsOpen() then n - 1
    else LastOpen(toks, n - 1)
  }

  /** The same search, restricted to objects and arrays. */
  function LastOpenBracket(toks: seq<Token>, n: nat): (i: int)
    requires n <= |toks|
    ensures -1 <= i < n
    ensures i >= 0 ==> toks[i].IsOpen() && toks[i].IsBracket()
    ensures forall j | i < j < n :: !(toks[j].IsOpen() && toks[j].IsBracket())
  {
    if n == 0 then -1
    else if toks[n - 1].IsBracket() && toks[n - 1].IsOpen() then n - 1
    else LastOpenBracket(toks, n - 1)
  }

  /** One more child for the superior token. */
  function Bump(toks: seq<Token>, super: int): (r: seq<Token>)
    requires -1 <= super < |toks|
    ensures |r| == |toks|
  {
    if super == -1 then toks else toks[super := toks[super].(size := toks[super].size + 1)]
  }

  function OpenToken(c: char, pos: nat): Token {
    Token(if c == '{' then Object else Array, pos, -1, 0)
  }

  function ClosedKind(c: char): Kind {
    if c == '}' then Object else Array
  }

  datatype Outcome = Next(st: State) | Stop(code: Code, st: State)

  /** A finished leaf token: stored if there is room, and counted by its superior. */
  function AddLeaf(st: State, cap: nat, tok: Token, next: nat): (o: Outcome)
    requires st.Sane()
    ensures o.st.Sane()
  {
    if |st.toks| >= cap then Stop(NoMemory, st)
    else Next(State(next, Bump(st.toks, st.super) + [tok], st.super))
  }

  /** One round of the main loop, with room for `cap` tokens. */
  function Step(js: string, st: State, cap: nat): (o: Outcome)
    requires st.Sane() && More(js, st.pos)
    ensures o.st.Sane()
    ensures if o.Next? then st.pos < o.st.pos <= |js| else o.st == st
  {
    var c, toks, n := js[st.pos], st.toks, |st.toks|;
    if c == '{' || c == '[' then
      if n >= cap then Stop(NoMemory, st)
      else Next(State(st.pos + 1, Bump(toks, st.super) + [OpenToken(c, st.pos)], n))
    else if c == '}' || c == ']' then
      var i := LastOpen(toks, n);
      if i == -1 || toks[i].kind != ClosedKind(c) then Stop(Invalid, st)
      else
        var closed := toks[i := toks[i].(end := st.pos + 1)];
        Next(State(st.pos + 1, closed, LastOpen(closed, i)))
    else if c == '\"' then
      match ScanString(js, st.pos + 1)
      case BadChar => Stop(Invalid, st)
      case Cut => Stop(Partial, st)
      case End(e) => AddLeaf(st, cap, Token(String, st.pos + 1, e, 0), e + 1)
    else if IsSpace(c) then
      Next(st.(pos := st.pos + 1))
    else if c == ':' then
      Next(st.(pos := st.pos + 1, super := n - 1))
    else if c == ',' then
      var i := LastOpenBracket(toks, n);
      if st.super != -1 && !toks[st.super].IsBracket() && i >= 0 then
        Next(st.(pos := st.pos + 1, super := i))
      else
        Next(st.(pos := st.pos + 1))
    else
      match ScanPrimitive(js, st.pos)
      case End(e) =>
        assert e == st.pos ==> false;
        AddLeaf(st, cap, Token(Primitive, st.pos, e, 0), e)
      case _ => Stop(Invalid, st)
  }

  /** The whole call: the code returned, and the state it leaves behind. */
  function Run(js: string, st: State, cap: nat): (r: (Code, State))
    requires st.Sane()
    ensures r.1.Sane()
    decreases |js| - st.pos
  {
    if !More(js, st.pos) then
      (if LastOpen(st.toks, |st.toks|) >= 0 then Partial else Count(|st.toks|), st)
    else
      match Step(js, st, cap)
      case Stop(code, st') => (code, st')
      case Next(st') => Run(js, st', cap)
  }

  // ---------------------------------------------------------------- counting only

  /** One round without a token array: the next position, and how many tokens it counts. */
  function CountStep(js: string, pos: nat): (r: (Scan, nat))
    requires More(js, pos)
    ensures r.0.End? ==> pos < r.0.at <= |js|
  {
    var c := js[pos];
    if c == '{' || c == '[' then (End(pos + 1), 1)
    else if c == '}' || c == ']' || IsSpace(c) || c == ':' || c == ',' then (End(pos + 1), 0)
    else if c == '\"' then
      match ScanString(js, pos + 1)
      case End(e) => (End(e + 1), 1)
      case r => (r, 0)
    else
      assert !EndsPrimitive(c);
      (ScanPrimitive(js, pos), 1)
  }

  /** The call with a null token array, having counted `n` tokens before `pos`. */
  function CountRun(js: string, pos: nat, n: nat): Code
    decreases |js| - pos
  {
    if !More(js, pos) then Count(n)
    else
      match CountStep(js, pos)
      case (End(e), k) => CountRun(js, e, n + k)
      case (BadChar, _) => Invalid
      case (Cut, _) => Partial
  }

  // ---------------------------------------------------------------- resumption

  lemma StepMoreRoom(js: string, st: State, cap: nat, cap': nat)
    requires st.Sane() && More(js, st.pos) && |st.toks| <= cap <= cap'
    ensures var o := Step(js, st, cap);
            if o.Stop? && o.code == NoMemory
            then && o.st == st && |st.toks| == cap
                 && (cap' > cap && Step(js, st, cap').Next? ==> |Step(js, st, cap').st.toks| == cap + 1)
                 && (cap' > cap ==> Step(js, st, cap').Next?)
            else Step(js, st, cap') == o && (o.Next? ==> |o.st.toks| <= cap)
  {
  }

  /** A call that ran out of tokens is resumed, with more room, exactly where the
      roomier call would have been; any other call is not changed by more room. */
  lemma {:induction false} Resume(js: string, st: State, cap: nat, cap': nat)
    requires st.Sane() && |st.toks| <= cap <= cap'
    ensures var (code, st') := Run(js, st, cap);
            && |st'.toks| <= cap
            && if code == NoMemory
               then && |st'.toks| == cap && Run(js, st', cap') == Run(js, st, cap')
                    && More(js, st'.pos) && Step(js, st', cap) == Stop(NoMemory, st')
               else Run(js, st, cap') == (code, st')
    decreases |js| - st.pos
  {
    if More(js, st.pos) {
      StepMoreRoom(js, st, cap, cap');
      var o := Step(js, st, cap);
      if o.Next? {
        Resume(js, o.st, cap, cap');
      }
    }
  }

  lemma {:induction false} CountIsLength(js: string, st: State, cap: nat)
    requires st.Sane()
    ensures var (code, st') := Run(js, st, cap);
            |st.toks| <= |st'.toks| && (code.Count? ==> code.n == |st'.toks|)
    decreases |js| - st.pos
  {
    if More(js, st.pos) {
      var o := Step(js, st, cap);
      if o.Next? {
        CountIsLength(js, o.st, cap);
      }
    }
  }

  /** A successful count is exactly the room that the call needs: with less room
      it reports that the tokens do not suffice, with as much it succeeds. */
  lemma ExactRoom(js: string, cap: nat, n: nat, cap': nat)
    requires Run(js, INIT, cap).0 == Count(n)
    ensures if cap' < n then Run(js, INIT, cap').0 == NoMemory
            else Run(js, INIT, cap') == Run(js, INIT, cap)
  {
    CountIsLength(js, INIT, cap);
    if cap' <= cap {
      Resume(js, INIT, cap', cap);
      var (code, st') := Run(js, INIT, cap');
      if code == NoMemory && cap' >= n {
        StepMoreRoom(js, st', cap', cap);
        if cap > cap' {
          CountIsLength(js, Step(js, st', cap).st, cap);
        }
      }
    } else {
      Resume(js, INIT, cap, cap');
    }
  }

  /** Without a token array the call returns the count of the successful call. */
  lemma {:induction false} CountAgrees(js: string, st: State, cap: nat, n: nat)
    requires st.Sane() && Run(js, st, cap).0 == Count(n)
    ensures CountRun(js, st.pos, |st.toks|) == Count(n)
    decreases |js| - st.pos
  {
    hide ScanString, ScanPrimitive, Bump, LastOpen, LastOpenBracket;
    if More(js, st.pos) {
      var o := Step(js, st, cap);
      assert CountStep(js, st.pos) == (End(o.st.pos), |o.st.toks| - |st.toks|);
      CountAgrees(js, o.st, cap, n);
    }
  }

  /** It finds the same errors in strings and unquoted values, but takes no notice of
      brackets: where only closing ones are missing, it counts the tokens there are. */
  lemma {:induction false} CountFails(js: string, st: State, cap: nat)
    requires st.Sane()
    ensures var (code, st') := Run(js, st, cap);
            var counted := CountRun(js, st.pos, |st.toks|);
            && (code == Partial ==> counted == if More(js, st'.pos) then Partial else Count(|st'.toks|))
            && (code == Invalid && More(js, st'.pos) && js[st'.pos] != '}' && js[st'.pos] != ']' ==> counted == Invalid)
    decreases |js| - st.pos
  {
    hide ScanString, ScanPrimitive, Bump, LastOpen, LastOpenBracket;
    if More(js, st.pos) {
      var o := Step(js, st, cap);
      if o.Next? {
        assert CountStep(js, st.pos) == (End(o.st.pos), |o.st.toks| - |st.toks|);
        CountFails(js, o.st, cap);
      }
    }
  }
}
