/** The tokenizer itself: a parser object that scans in place and fills an array. */
module JsmnParser {
  import opened Jsmn

  const JSMN_ERROR_NOMEM := -1
  const JSMN_ERROR_INVAL := -2
  const JSMN_ERROR_PART := -3

  function ReturnCode(code: Code): int {
    match code
    case NoMemory => JSMN_ERROR_NOMEM
    case Invalid => JSMN_ERROR_INVAL
    case Partial => JSMN_ERROR_PART
    case Count(n) => n
  }

  lemma ReturnCodes(n: nat)
    ensures ReturnCode(NoMemory) == -1 && ReturnCode(Invalid) == -2 && ReturnCode(Partial) == -3
    ensures ReturnCode(Count(n)) == n
  {
  }

  class Parser {
    var pos: nat
    var toknext: nat
    var toksuper: int

    constructor ()
      ensures pos == 0 && toknext == 0 && toksuper == -1 && Narrow()
    {
      pos, toknext, toksuper := 0, 0, -1;
    }

    /** The parser and the filled part of the array, as a value. */
    ghost function Abs(tokens: array<Token>): State
      requires toknext <= tokens.Length
      reads this, tokens
    {
      State(pos, tokens[..toknext], toksuper)
    }

    ghost predicate Valid(tokens: array?<Token>)
      reads this
    {
      tokens != null ==> toknext <= tokens.Length && -1 <= toksuper < toknext
    }

    /** The state after one round of the loop body, before its `pos++`. */
    ghost predicate Did(tokens: array<Token>, r: int, o: Outcome)
      requires toknext <= tokens.Length
      reads this, tokens
    {
      match o
      case Stop(code, st) => r == ReturnCode(code) < 0 && Abs(tokens) == st
      case Next(st) => r == 0 && Abs(tokens).(pos := pos + 1) == st
    }

    method AllocToken(tokens: array<Token>) returns (ok: bool)
      requires toknext <= tokens.Length
      modifies this`toknext, tokens
      ensures ok <==> old(toknext) < tokens.Length
      ensures toknext == old(toknext) + (if ok then 1 else 0)
      ensures tokens[..old(toknext)] == old(tokens[..toknext])
      ensures ok ==> var t := tokens[toknext - 1]; t.start == -1 && t.end == -1 && t.size == 0
    {
      if toknext >= tokens.Length {
        return false;
      }
      tokens[toknext] := tokens[toknext].(start := -1, end := -1, size := 0);
      toknext := toknext + 1;
      ok := true;
    }

    /** `tokens[toksuper].size++`, when there is a superior token. */
    method CountChild(tokens: array<Token>)
      requires Valid(tokens)
      modifies tokens
      ensures tokens[..toknext] == Bump(old(tokens[..toknext]), toksuper)
    {
      if toksuper != -1 {
        tokens[toksuper] := tokens[toksuper].(size := tokens[toksuper].size + 1);
      }
    }

    /** Takes a token for the span from `from` to `pos`; without one, `pos` goes back. */
    method StoreToken(tokens: array<Token>, kind: Kind, start: nat, from: nat) returns (r: int)
      requires toknext <= tokens.Length
      modifies this`pos, this`toknext, tokens
      ensures toknext <= tokens.Length && old(toknext) <= toknext
      ensures if old(toknext) == tokens.Length
              then r == JSMN_ERROR_NOMEM && pos == start && toknext == old(toknext) && tokens[..] == old(tokens[..])
              else
                && r == 0 && pos == old(pos)
                && tokens[..toknext] == old(tokens[..toknext]) + [Token(kind, from, pos, 0)]
    {
      ghost var was := tokens[..];
      var ok := AllocToken(tokens);
      if !ok {
        pos := start;
        assert tokens[..] == tokens[..toknext] && was == was[..toknext];
        return JSMN_ERROR_NOMEM;
      }
      tokens[toknext - 1] := Token(kind, from, pos, 0);
      r := 0;
    }

    method ParsePrimitive(js: string, tokens: array?<Token>) returns (r: int)
      requires Valid(tokens) && More(js, pos) && !EndsPrimitive(js[pos])
      modifies this`pos, this`toknext, tokens
      ensures Valid(tokens) && (tokens == null ==> toknext == old(toknext))
      ensures match ScanPrimitive(js, old(pos))
              case End(e) =>
                if tokens != null && old(toknext) == tokens.Length then
                  r == JSMN_ERROR_NOMEM && pos == old(pos) && Abs(tokens) == old(Abs(tokens))
                else
                  && r == 0 && pos + 1 == e
                  && (tokens != null ==>
                      tokens[..toknext] == old(tokens[..toknext]) + [Token(Primitive, old(pos), e, 0)])
              case _ =>
                && r == JSMN_ERROR_INVAL && pos == old(pos)
                && (tokens != null ==> Abs(tokens) == old(Abs(tokens)))
    {
      var start := pos;
      while More(js, pos) && !EndsPrimitive(js[pos])
        invariant start <= pos <= |js|
        invariant ScanPrimitive(js, pos) == ScanPrimitive(js, start)
        invariant pos == start ==> More(js, pos) && !EndsPrimitive(js[pos])
        modifies `pos
        decreases |js| - pos
      {
        if js[pos] < ' ' || js[pos] >= 127 as char {
          pos := start;
          return JSMN_ERROR_INVAL;
        }
        pos := pos + 1;
      }
      if tokens == null {
        pos := pos - 1;
        return 0;
      }
      r := StoreToken(tokens, Primitive, start, start);
      if r == 0 {
        pos := pos - 1;
      }
    }

    method ParseString(js: string, tokens: array?<Token>) returns (r: int)
      requires Valid(tokens) && More(js, pos)
      modifies this`pos, this`toknext, tokens
      ensures Valid(tokens) && (tokens == null ==> toknext == old(toknext))
      ensures match ScanString(js, old(pos) + 1)
              case End(e) =>
                if tokens != null && old(toknext) == tokens.Length then
                  r == JSMN_ERROR_NOMEM && pos == old(pos) && Abs(tokens) == old(Abs(tokens))
                else
                  && r == 0 && pos == e
                  && (tokens != null ==>
                      tokens[..toknext] == old(tokens[..toknext]) + [Token(String, old(pos) + 1, e, 0)])
              case bad =>
                && r == (if bad.Cut? then JSMN_ERROR_PART else JSMN_ERROR_INVAL) && pos == old(pos)
                && (tokens != null ==> Abs(tokens) == old(Abs(tokens)))
    {
      hide ScanString;
      var start := pos;
      pos := pos + 1;
      while More(js, pos)
        invariant start < pos && toknext == old(toknext)
        invariant tokens != null ==> tokens[..] == old(tokens[..])
        invariant ScanString(js, pos) == ScanString(js, start + 1)
        modifies `pos, `toknext, tokens
        decreases |js| - pos
      {
        var c := js[pos];
        ScanOne(js, pos);
        if c == '\"' {
          if tokens == null {
            return 0;
          }
          r := StoreToken(tokens, String, start, start + 1);
          return;
        }
        if c == '\\' && pos + 1 < |js| {
          var ok := ParseEscape(js);
          if !ok {
            pos := start;
            return JSMN_ERROR_INVAL;
          }
        }
        pos := pos + 1;
      }
      ScanOne(js, pos);
      pos := start;
      r := JSMN_ERROR_PART;
    }

    method ParseHex(js: string) returns (ok: bool)
      modifies `pos
      ensures if ok then ScanHex(js, old(pos), 4) == End(pos) else ScanHex(js, old(pos), 4) == BadChar
    {
      var i := 0;
      while i < 4 && More(js, pos)
        invariant 0 <= i <= 4 && old(pos) <= pos
        invariant ScanHex(js, pos, 4 - i) == ScanHex(js, old(pos), 4)
        modifies `pos
      {
        if !IsHex(js[pos]) {
          return false;
        }
        pos := pos + 1;
        i := i + 1;
      }
      ok := true;
    }

    /** The character behind a backslash, and up to four hexadecimal digits. */
    method ParseEscape(js: string) returns (ok: bool)
      requires More(js, pos) && js[pos] == '\\' && pos + 1 < |js|
      modifies `pos
      ensures if ok then old(pos) <= pos && ScanString(js, old(pos)) == ScanString(js, pos + 1)
              else ScanString(js, old(pos)) == BadChar
    {
      hide ScanHex;
      pos := pos + 1;
      if js[pos] == 'u' {
        pos := pos + 1;
        ok := ParseHex(js);
        if !ok {
          return;
        }
        pos := pos - 1;
      } else if !IsEscape(js[pos]) {
        return false;
      }
      ok := true;
    }

    /** `{` and `[`. */
    method Open(js: string, tokens: array<Token>) returns (r: int)
      requires Valid(tokens) && More(js, pos) && (js[pos] == '{' || js[pos] == '[')
      modifies this`toknext, this`toksuper, tokens
      ensures Valid(tokens) && Did(tokens, r, Step(js, old(Abs(tokens)), tokens.Length))
    {
      hide Step, Bump;
      StepOpen(js, Abs(tokens), tokens.Length);
      var super := toksuper;
      var ok := AllocToken(tokens);
      if !ok {
        return JSMN_ERROR_NOMEM;
      }
      tokens[toknext - 1] := OpenToken(js[pos], pos);
      assert tokens[..toknext] == old(tokens[..toknext]) + [OpenToken(js[pos], pos)];
      BumpSnoc(old(tokens[..toknext]), tokens[toknext - 1], toksuper);
      CountChild(tokens);
      toksuper := toknext - 1;
      r := 0;
    }

    /** Searches down from `n` for an open token. */
    method FindOpen(tokens: array<Token>, n: nat) returns (i: int)
      requires n <= toknext <= tokens.Length
      ensures i == LastOpen(tokens[..toknext], n)
    {
      ghost var toks := tokens[..toknext];
      i := n - 1;
      while i >= 0 && !tokens[i].IsOpen()
        invariant -1 <= i < n
        invariant LastOpen(toks, n) == LastOpen(toks, i + 1)
      {
        assert tokens[i] == toks[i];
        i := i - 1;
      }
    }

    /** `}` and `]`: closes the last open token, and looks for the one around it. */
    method Close(js: string, tokens: array<Token>) returns (r: int)
      requires Valid(tokens) && More(js, pos) && (js[pos] == '}' || js[pos] == ']')
      modifies this`toksuper, tokens
      ensures Valid(tokens) && Did(tokens, r, Step(js, old(Abs(tokens)), tokens.Length))
    {
      hide Step, LastOpen, LastOpenBracket;
      StepClose(js, Abs(tokens), tokens.Length);
      ghost var toks := tokens[..toknext];
      var i := FindOpen(tokens, toknext);
      if i == -1 || tokens[i].kind != ClosedKind(js[pos]) {
        return JSMN_ERROR_INVAL;
      }
      tokens[i] := tokens[i].(end := pos + 1);
      assert tokens[..toknext] == toks[i := toks[i].(end := pos + 1)];
      toksuper := FindOpen(tokens, i);
      r := 0;
    }

    method Comma(js: string, tokens: array<Token>)
      requires Valid(tokens) && More(js, pos) && js[pos] == ','
      modifies this`toksuper
      ensures Valid(tokens) && Did(tokens, 0, Step(js, old(Abs(tokens)), tokens.Length))
    {
      hide Step, LastOpen, Bump;
      StepComma(js, Abs(tokens), tokens.Length);
      ghost var toks := tokens[..toknext];
      if toksuper != -1 && tokens[toksuper].kind != Array && tokens[toksuper].kind != Object {
        var i := toknext - 1;
        while i >= 0
          invariant -1 <= i < toknext && toksuper == old(toksuper)
          invariant LastOpenBracket(toks, toknext) == LastOpenBracket(toks, i + 1)
        {
          if tokens[i].kind == Array || tokens[i].kind == Object {
            if tokens[i].IsOpen() {
              toksuper := i;
              break;
            }
          }
          i := i - 1;
        }
      }
    }

    method Leaf(js: string, tokens: array<Token>) returns (r: int)
      requires Valid(tokens) && More(js, pos)
      requires js[pos] == '\"' || !(EndsPrimitive(js[pos]) || js[pos] in "{[")
      modifies this, tokens
      ensures Valid(tokens) && Did(tokens, r, Step(js, old(Abs(tokens)), tokens.Length))
    {
      hide Step, ScanString, ScanPrimitive, Bump;
      StepLeaf(js, Abs(tokens), tokens.Length);
      ghost var toks := tokens[..toknext];
      if js[pos] == '\"' {
        r := ParseString(js, tokens);
      } else {
        r := ParsePrimitive(js, tokens);
      }
      if r < 0 {
        return;
      }
      ghost var tok := tokens[toknext - 1];
      assert tokens[..toknext] == toks + [tok];
      BumpSnoc(toks, tok, toksuper);
      CountChild(tokens);
      assert tokens[..toknext] == Bump(toks, toksuper) + [tok];
    }

    /** One round of the loop over a token array. */
    method Round(js: string, tokens: array<Token>) returns (r: int)
      requires Valid(tokens) && More(js, pos)
      modifies this, tokens
      ensures Valid(tokens) && Did(tokens, r, Step(js, old(Abs(tokens)), tokens.Length))
    {
      var c := js[pos];
      r := 0;
      if c == '{' || c == '[' {
        r := Open(js, tokens);
      } else if c == '}' || c == ']' {
        r := Close(js, tokens);
      } else if IsSpace(c) {
      } else if c == ':' {
        toksuper := toknext - 1;
      } else if c == ',' {
        Comma(js, tokens);
      } else {
        r := Leaf(js, tokens);
      }
    }

    /** One round of the loop without a token array. */
    method CountingRound(js: string) returns (r: int)
      requires More(js, pos)
      modifies this
      ensures toknext == old(toknext)
      ensures match CountStep(js, old(pos)).0
              case End(e) => r == 0 && pos + 1 == e
              case BadChar => r == JSMN_ERROR_INVAL && pos == old(pos)
              case Cut => r == JSMN_ERROR_PART && pos == old(pos)
    {
      var c := js[pos];
      r := 0;
      if c == '{' || c == '[' || c == '}' || c == ']' || IsSpace(c) || c == ',' {
      } else if c == ':' {
        toksuper := toknext - 1;
      } else if c == '\"' {
        r := ParseString(js, null);
      } else {
        r := ParsePrimitive(js, null);
      }
    }

    /** The counters of a parser that was used on texts of int range. */
    ghost predicate Narrow()
      reads this
    {
      toknext <= pos < 0x8000_0000
    }

    method Parse(js: string, tokens: array?<Token>) returns (r: int)
      requires Valid(tokens) && Narrow() && TextFits(js)
      requires tokens != null ==> tokens.Length < 0x1_0000_0000
      modifies this, tokens
      ensures Valid(tokens) && Narrow() && r < 0x8000_0000
      ensures tokens != null ==>
                var (code, st) := Run(js, old(Abs(tokens)), tokens.Length);
                r == ReturnCode(code) && Abs(tokens) == st
      ensures tokens == null ==> r == ReturnCode(CountRun(js, old(pos), old(toknext)))
    {
      hide Step, CountStep, Run, CountRun, LastOpen;
      var count: nat := toknext;
      while More(js, pos)
        invariant Valid(tokens) && Narrow() && count <= pos
        invariant tokens != null ==>
                    && count == toknext
                    && Run(js, Abs(tokens), tokens.Length) == Run(js, old(Abs(tokens)), tokens.Length)
        invariant tokens == null ==>
                    CountRun(js, pos, count) == CountRun(js, old(pos), old(toknext))
        decreases |js| - pos
      {
        var c := js[pos];
        ghost var before := if tokens == null then INIT else Abs(tokens);
        if tokens == null {
          CountAdvance(js, pos, count);
          r := CountingRound(js);
        } else {
          RunAdvance(js, before, tokens.Length);
          r := Round(js, tokens);
          CountsTokens(js, before, tokens.Length);
        }
        if r < 0 {
          return;
        }
        if StartsToken(c) {
          count := count + 1;
        }
        pos := pos + 1;
      }
      ghost var end := if tokens == null then State(pos, [], -1) else Abs(tokens);
      AtTheEnd(js, end, if tokens == null then 0 else tokens.Length, count);
      if tokens != null {
        var i := FindOpen(tokens, toknext);
        if i >= 0 {
          return JSMN_ERROR_PART;
        }
      }
      r := count;
    }
  }

  lemma BumpSnoc(toks: seq<Token>, tok: Token, super: int)
    requires -1 <= super < |toks|
    ensures Bump(toks + [tok], super) == Bump(toks, super) + [tok]
  {
  }

  lemma StepOpen(js: string, st: State, cap: nat)
    requires st.Sane() && More(js, st.pos) && (js[st.pos] == '{' || js[st.pos] == '[')
    ensures Step(js, st, cap) ==
              if |st.toks| >= cap then Stop(NoMemory, st)
              else Next(State(st.pos + 1, Bump(st.toks, st.super) + [OpenToken(js[st.pos], st.pos)], |st.toks|))
  {
  }

  lemma StepClose(js: string, st: State, cap: nat)
    requires st.Sane() && More(js, st.pos) && (js[st.pos] == '}' || js[st.pos] == ']')
    ensures var i := LastOpen(st.toks, |st.toks|);
            Step(js, st, cap) ==
              if i == -1 || st.toks[i].kind != ClosedKind(js[st.pos]) then Stop(Invalid, st)
              else
                var closed := st.toks[i := st.toks[i].(end := st.pos + 1)];
                Next(State(st.pos + 1, closed, LastOpen(closed, i)))
  {
  }

  lemma StepComma(js: string, st: State, cap: nat)
    requires st.Sane() && More(js, st.pos) && js[st.pos] == ','
    ensures var i := LastOpenBracket(st.toks, |st.toks|);
            var s := if st.super != -1 && !st.toks[st.super].IsBracket() && i >= 0 then i else st.super;
            Step(js, st, cap) == Next(st.(pos := st.pos + 1, super := s))
  {
  }

  lemma StepLeaf(js: string, st: State, cap: nat)
    requires st.Sane() && More(js, st.pos) && !(js[st.pos] in "{[" || EndsPrimitive(js[st.pos]))
    ensures var quoted := js[st.pos] == '\"';
            Step(js, st, cap) ==
              match (if quoted then ScanString(js, st.pos + 1) else ScanPrimitive(js, st.pos))
              case BadChar => Stop(Invalid, st)
              case Cut => Stop(Partial, st)
              case End(e) =>
                if quoted then AddLeaf(st, cap, Token(String, st.pos + 1, e, 0), e + 1)
                else AddLeaf(st, cap, Token(Primitive, st.pos, e, 0), e)
  {
  }

  lemma RunAdvance(js: string, st: State, cap: nat)
    requires st.Sane() && More(js, st.pos)
    ensures var o := Step(js, st, cap);
            Run(js, st, cap) == if o.Stop? then (o.code, o.st) else Run(js, o.st, cap)
  {
  }

  lemma CountAdvance(js: string, pos: nat, n: nat)
    requires More(js, pos)
    ensures var o, k := CountStep(js, pos).0, if StartsToken(js[pos]) then 1 else 0;
            CountRun(js, pos, n) ==
              if o.End? then CountRun(js, o.at, n + k) else if o.BadChar? then Invalid else Partial
    ensures CountStep(js, pos).0.End? ==> pos < CountStep(js, pos).0.at <= |js|
  {
  }

  lemma AtTheEnd(js: string, st: State, cap: nat, n: nat)
    requires st.Sane() && !More(js, st.pos)
    ensures Run(js, st, cap) == (if LastOpen(st.toks, |st.toks|) >= 0 then Partial else Count(|st.toks|), st)
    ensures CountRun(js, st.pos, n) == Count(n)
  {
  }

  predicate StartsToken(c: char) {
    !(c == '}' || c == ']' || IsSpace(c) || c == ':' || c == ',')
  }

  /** The running count keeps up with the number of tokens. */
  lemma CountsTokens(js: string, st: State, cap: nat)
    requires st.Sane() && More(js, st.pos)
    ensures Step(js, st, cap).Next? ==>
              |Step(js, st, cap).st.toks| == |st.toks| + if StartsToken(js[st.pos]) then 1 else 0
  {
  }
}
