/** What the tokenizer accepts and rejects, character by character, on any input. */
module JsonVerdict {
  import opened Wrappers
  import opened Jsmn
  import opened JsonText
  import opened JsonTokens

  /** The text ends here: at its length, or at a zero character. */
  predicate AtStop(js: string, i: nat) {
    i >= |js| || js[i] as int == 0
  }

  // ---------------------------------------------------------------- strings

  /** One more character in front. */
  lemma CharRead(js: string, p: nat, c: Ch, rest: seq<Ch>, e: nat) returns (chars: seq<Ch>)
    requires c.Ok() && Chars(rest)
    requires p + |c.Text()| <= e <= |js| && js[p..p + |c.Text()|] == c.Text()
    requires js[p + |c.Text()|..e] == CharsText(rest)
    ensures Chars(chars) && js[p..e] == CharsText(chars)
  {
    chars := [c] + rest;
    assert chars[1..] == rest;
    assert js[p..e] == js[p..p + |c.Text()|] + js[p + |c.Text()|..e];
  }

  lemma {:induction false} HexRead(js: string, i: nat, k: nat)
    requires ScanHex(js, i, k).End?
    ensures var e := ScanHex(js, i, k).at;
            && i <= e <= i + k && (forall j | i <= j < e :: j < |js| && HexDigit(js[j]))
            && (e < i + k ==> AtStop(js, e))
    decreases k
  {
    if k > 0 && More(js, i) {
      SameClasses(js[i]);
      HexRead(js, i + 1, k - 1);
    }
  }

  /** A backslash in front of something else than an escape: neither one of the eight
      letters, nor `u` and hexadecimal digits up to four or to the end of the text. */
  ghost predicate BadEscape(js: string, q: nat) {
    && q + 1 < |js| && js[q] == '\\' && !EscapeLetter(js[q + 1])
    && (js[q + 1] == 'u' ==> BadDigits(js, q + 2))
  }

  ghost predicate BadDigits(js: string, i: nat) {
    exists k: nat :: BadDigit(js, i, k)
  }

  predicate BadDigit(js: string, i: nat, k: nat) {
    && k < 4 && !AtStop(js, i + k) && !HexDigit(js[i + k])
    && forall j | i <= j < i + k :: !AtStop(js, j) && HexDigit(js[j])
  }

  lemma {:induction false} BadHex(js: string, i: nat, done: nat)
    requires done <= 4 && forall j | i <= j < i + done :: !AtStop(js, j) && HexDigit(js[j])
    ensures ScanHex(js, i + done, 4 - done).BadChar? <==> exists k: nat :: BadDigit(js, i, k)
    decreases 4 - done
  {
    assert forall k: nat | BadDigit(js, i, k) :: k >= done;
    if done < 4 && !AtStop(js, i + done) {
      SameClasses(js[i + done]);
      if HexDigit(js[i + done]) {
        BadHex(js, i, done + 1);
      } else {
        assert BadDigit(js, i, done);
      }
    }
  }

  lemma BadEscapeScan(js: string, q: nat)
    requires More(js, q) && js[q] == '\\' && q + 1 < |js|
    ensures BadEscape(js, q) ==> ScanString(js, q) == BadChar
    ensures !BadEscape(js, q) ==>
              if EscapeLetter(js[q + 1]) then ScanString(js, q) == ScanString(js, q + 2)
              else ScanHex(js, q + 2, 4).End? && ScanString(js, q) == ScanString(js, ScanHex(js, q + 2, 4).at)
  {
    SameClasses(js[q + 1]);
    BadHex(js, q + 2, 0);
    hide ScanHex;
  }

  lemma PlainText(js: string, p: nat)
    requires More(js, p) && js[p] != '\"' && js[p] != '\\'
    ensures var c := Plain(js[p]); c.Ok() && |c.Text()| == 1 && js[p..p + 1] == c.Text()
  {
  }

  lemma EscapeText(js: string, p: nat)
    requires p + 1 < |js| && js[p] == '\\' && EscapeLetter(js[p + 1])
    ensures var c := Escape(js[p + 1]); c.Ok() && |c.Text()| == 2 && js[p..p + 2] == c.Text()
  {
  }

  lemma UnicodeText(js: string, p: nat, h: nat)
    requires p + 1 < |js| && js[p] == '\\' && js[p + 1] == 'u' && h == p + 6 <= |js|
    requires forall j | p + 2 <= j < h :: HexDigit(js[j])
    ensures var c := Unicode(js[p + 2..h]); c.Ok() && |c.Text()| == 6 && js[p..h] == c.Text()
  {
    var t := js[p + 2..h];
    assert forall i | 0 <= i < 4 :: t[i] == js[p + 2 + i];
    assert js[p..h] == ['\\', 'u'] + t;
  }

  /** A string that is scanned to a quote consists of characters of the grammar; one
      that is rejected, of some of them and a bad escape. */
  lemma {:induction false} StringRead(js: string, p: nat) returns (chars: seq<Ch>, q: nat)
    requires p <= |js| && !ScanString(js, p).Cut?
    ensures p <= q <= |js| && Chars(chars) && js[p..q] == CharsText(chars)
    ensures ScanString(js, p).End? ==> q == ScanString(js, p).at < |js| && js[q] == '\"'
    ensures ScanString(js, p).BadChar? ==> BadEscape(js, q)
    decreases |js| - p
  {
    hide Ch.Ok, Ch.Text, ScanHex, ScanString, BadEscape, CharsText, Chars;
    ScanOne(js, p);
    NoChars();
    chars, q := [], p;
    assert js[p..p] == "";
    if js[p] == '\\' && p + 1 < |js| {
      BadEscapeScan(js, p);
      if BadEscape(js, p) {
      } else if EscapeLetter(js[p + 1]) {
        chars, q := StringRead(js, p + 2);
        EscapeText(js, p);
        chars := CharRead(js, p, Escape(js[p + 1]), chars, q);
      } else {
        IsUnicode(js, p);
        var h := ScanHex(js, p + 2, 4).at;
        HexRead(js, p + 2, 4);
        ScanOne(js, h);
        chars, q := StringRead(js, h);
        UnicodeText(js, p, h);
        chars := CharRead(js, p, Unicode(js[p + 2..h]), chars, q);
      }
    } else if js[p] != '\"' {
      ScanOne(js, p + 1);
      PlainText(js, p);
      chars, q := StringRead(js, p + 1);
      chars := CharRead(js, p, Plain(js[p]), chars, q);
    }
  }

  lemma IsUnicode(js: string, q: nat)
    requires q + 1 < |js| && js[q] == '\\' && !BadEscape(js, q) && !EscapeLetter(js[q + 1])
    ensures js[q + 1] == 'u'
  {
  }

  lemma NoChars()
    ensures Chars([]) && CharsText([]) == ""
  {
  }

  /** A string is scanned to the quote at `e` exactly when the grammar derives what
      stands in front of it. */
  lemma StringExact(js: string, p: nat, e: nat)
    ensures ScanString(js, p) == End(e) <==>
              p <= e < |js| && js[e] == '\"' && exists chars :: Chars(chars) && js[p..e] == CharsText(chars)
  {
    hide ScanString, Chars, CharsText, At;
    if p <= |js| && ScanString(js, p) == End(e) {
      var chars, _ := StringRead(js, p);
    }
    if p <= e < |js| && js[e] == '\"' && exists chars :: Chars(chars) && js[p..e] == CharsText(chars) {
      var chars :| Chars(chars) && js[p..e] == CharsText(chars);
      QuoteAt(js, p, e, CharsText(chars));
      ScanChars(js, p, chars);
    }
    OutOfText(js, p);
  }

  lemma QuoteAt(js: string, p: nat, e: nat, t: string)
    requires p <= e < |js| && js[e] == '\"' && js[p..e] == t
    ensures At(js, p, t + "\"") && p + |t| == e
  {
    assert js[p..e + 1] == t + "\"";
  }

  lemma OutOfText(js: string, p: nat)
    ensures p > |js| ==> ScanString(js, p) == Cut
  {
  }

  /** Characters of the grammar, and then a bad escape. */
  ghost predicate Spoilt(js: string, p: nat, q: nat) {
    p <= q <= |js| && BadEscape(js, q) && exists chars :: Chars(chars) && js[p..q] == CharsText(chars)
  }

  lemma {:induction false} SpoiltScan(js: string, p: nat, chars: seq<Ch>, q: nat)
    requires p <= q <= |js| && BadEscape(js, q) && Chars(chars) && js[p..q] == CharsText(chars)
    ensures ScanString(js, p) == BadChar
    decreases |chars|
  {
    hide ScanString, Ch.Ok, Ch.Text, BadEscape, CharsText, Chars, At;
    CharsParts(chars);
    CharsTail(chars);
    if chars == [] {
      BadStart(js, q);
      BadEscapeScan(js, q);
    } else {
      var c := chars[0];
      BadStart(js, q);
      FrontChar(js, p, q, c.Text(), CharsText(chars[1..]));
      ScanChar(js, p, c);
      SpoiltScan(js, p + |c.Text()|, chars[1..], q);
    }
  }

  lemma CharsTail(chars: seq<Ch>)
    requires Chars(chars)
    ensures chars != [] ==> chars[0].Ok() && Chars(chars[1..])
  {
    hide Ch.Ok;
  }

  lemma BadStart(js: string, q: nat)
    requires BadEscape(js, q)
    ensures q + 1 < |js| && js[q] == '\\' && More(js, q)
  {
  }

  lemma FrontChar(js: string, p: nat, q: nat, t: string, rest: string)
    requires p <= q < |js| && |js[p..q]| == |t| + |rest| && js[p..q] + "\"" == t + (rest + "\"")
    ensures At(js, p, t) && p + |t| <= q && js[p + |t|..q] == rest
  {
    var s := js[p..q] + "\"";
    assert t == s[..|t|] == js[p..p + |t|];
    assert rest == s[|t|..|s| - 1] == js[p + |t|..q];
  }

  /** A string is rejected exactly when a bad escape follows characters of the grammar;
      when there is neither that nor a closing quote, it is cut off. */
  lemma StringRejected(js: string, p: nat)
    ensures ScanString(js, p) == BadChar <==> exists q: nat :: Spoilt(js, p, q)
    ensures ScanString(js, p) == Cut <==>
              !(exists q: nat :: Spoilt(js, p, q)) && !(exists e: nat :: ScanString(js, p) == End(e))
  {
    if p <= |js| && ScanString(js, p) == BadChar {
      var chars, q := StringRead(js, p);
      assert Spoilt(js, p, q);
    }
    if exists q: nat :: Spoilt(js, p, q) {
      var q: nat :| Spoilt(js, p, q);
      var chars :| Chars(chars) && js[p..q] == CharsText(chars);
      SpoiltScan(js, p, chars, q);
    }
  }

  // ---------------------------------------------------------------- unquoted values

  /** What ends an unquoted value. */
  predicate Delimiter(c: char) {
    c in "\t\r\n :,]}"
  }

  /** From `i` to `e` there are only printable characters that are no delimiters. */
  predicate Inner(js: string, i: nat, e: nat)
    decreases e - i
  {
    i < e ==> i < |js| && 0x20 < js[i] as int < 0x7f && !Delimiter(js[i]) && Inner(js, i + 1, e)
  }

  /** An unquoted value ends at `e` exactly when a delimiter or the end of the text is the
      first thing in it that is no printable character; it is rejected exactly when a
      control character, or one above 126, is. */
  lemma {:induction false} PrimitiveExact(js: string, i: nat, e: nat)
    requires i <= |js|
    ensures ScanPrimitive(js, i) == End(e) <==>
              i <= e <= |js| && Inner(js, i, e) && (AtStop(js, e) || Delimiter(js[e]))
    ensures ScanPrimitive(js, i) == BadChar <==> exists q: nat :: BadValue(js, i, q)
    decreases |js| - i
  {
    forall q: nat | i < q
      ensures Inner(js, i, q) <==>
                i < |js| && 0x20 < js[i] as int < 0x7f && !Delimiter(js[i]) && Inner(js, i + 1, q)
    {
    }
    assert Inner(js, i, i);
    hide Inner;
    if AtStop(js, i) || Delimiter(js[i]) {
    } else if js[i] as int < 0x20 || js[i] as int >= 0x7f {
      assert BadValue(js, i, i);
    } else {
      PrimitiveExact(js, i + 1, e);
      if ScanPrimitive(js, i + 1) == BadChar {
        var q: nat :| BadValue(js, i + 1, q);
        assert BadValue(js, i, q);
      }
      if exists q: nat :: BadValue(js, i, q) {
        var q: nat :| BadValue(js, i, q);
        assert BadValue(js, i + 1, q);
      }
    }
  }

  /** A control character or one above 126 in the value. */
  predicate BadValue(js: string, i: nat, q: nat) {
    && i <= q < |js| && Inner(js, i, q) && !AtStop(js, q) && !Delimiter(js[q])
    && (js[q] as int < 0x20 || js[q] as int >= 0x7f)
  }

  // ---------------------------------------------------------------- codes

  predicate OpensToken(c: char) {
    c == '{' || c == '[' || c == '\"' || !(c in "}]:, \t\r\n")
  }

  /** A bracket that closes nothing, or something of the other kind. */
  ghost predicate Mismatched(c: char, toks: seq<Token>) {
    && c in "}]"
    && ((forall i | 0 <= i < |toks| :: !toks[i].IsOpen())
        || exists i :: LastIs(toks, i) && toks[i].kind != if c == '}' then Object else Array)
  }

  predicate LastIs(toks: seq<Token>, i: int) {
    0 <= i < |toks| && toks[i].IsOpen() && forall j | i < j < |toks| :: !toks[j].IsOpen()
  }

  /** Why a call returns, at the character where it stops. */
  ghost predicate Reason(js: string, st: State, cap: nat, code: Code) {
    match code
    case Count(n) => AtStop(js, st.pos) && n == |st.toks| && forall i | 0 <= i < n :: !st.toks[i].IsOpen()
    case Partial =>
      if AtStop(js, st.pos) then exists i :: 0 <= i < |st.toks| && st.toks[i].IsOpen()
      else js[st.pos] == '\"' && ScanString(js, st.pos + 1) == Cut
    case Invalid =>
      && !AtStop(js, st.pos)
      && var c := js[st.pos];
         if c in "}]" then Mismatched(c, st.toks)
         else if c == '\"' then ScanString(js, st.pos + 1) == BadChar
         else OpensToken(c) && c != '{' && c != '[' && ScanPrimitive(js, st.pos) == BadChar
    case NoMemory => !AtStop(js, st.pos) && OpensToken(js[st.pos]) && |st.toks| >= cap
  }

  lemma {:induction false} Verdict(js: string, st: State, cap: nat)
    requires st.Sane()
    ensures var (code, st') := Run(js, st, cap); Reason(js, st', cap, code)
    decreases |js| - st.pos
  {
    hide Reason;
    if More(js, st.pos) {
      var o := Step(js, st, cap);
      if o.Next? {
        Verdict(js, o.st, cap);
      } else {
        StopReason(js, st, cap);
      }
    } else {
      EndReason(js, st, cap);
    }
  }

  lemma EndReason(js: string, st: State, cap: nat)
    requires st.Sane() && !More(js, st.pos)
    ensures Reason(js, st, cap, Run(js, st, cap).0)
  {
    hide LastOpen;
    var i := LastOpen(st.toks, |st.toks|);
  }

  lemma StopReason(js: string, st: State, cap: nat)
    requires st.Sane() && More(js, st.pos) && Step(js, st, cap).Stop?
    ensures Reason(js, st, cap, Step(js, st, cap).code)
  {
    hide ScanString, ScanPrimitive, LastOpen, LastOpenBracket, Bump;
    var c := js[st.pos];
    if c == '}' || c == ']' {
      var i := LastOpen(st.toks, |st.toks|);
      assert i >= 0 ==> LastIs(st.toks, i);
    }
  }

  // ---------------------------------------------------------------- longer texts

  lemma {:induction false} HexLonger(js: string, s: string, i: nat, k: nat)
    ensures var h := ScanHex(js, i, k);
            h.BadChar? || AtStop(js, i + k) || h == End(i + k) || AtStop(js, h.at)
    ensures ScanHex(js, i, k).BadChar? ==> ScanHex(js + s, i, k).BadChar?
    ensures ScanHex(js, i, k).End? && ScanHex(js, i, k).at < |js| ==> ScanHex(js + s, i, k) == ScanHex(js, i, k)
    decreases k
  {
    if k > 0 && More(js, i) {
      HexLonger(js, s, i + 1, k - 1);
    }
  }

  lemma {:induction false} StringLonger(js: string, s: string, p: nat)
    ensures !ScanString(js, p).Cut? ==> ScanString(js + s, p) == ScanString(js, p)
    decreases |js| - p
  {
    if More(js, p) && js[p] != '\"' {
      if js[p] == '\\' && p + 1 < |js| {
        if js[p + 1] == 'u' && !IsEscape(js[p + 1]) {
          HexLonger(js, s, p + 2, 4);
          var h := ScanHex(js, p + 2, 4);
          if h.End? {
            StringLonger(js, s, h.at);
          }
        } else if IsEscape(js[p + 1]) {
          StringLonger(js, s, p + 2);
        }
      } else {
        StringLonger(js, s, p + 1);
      }
    }
  }

  lemma {:induction false} PrimitiveLonger(js: string, s: string, i: nat)
    ensures ScanPrimitive(js, i).BadChar? ==> ScanPrimitive(js + s, i).BadChar?
    ensures ScanPrimitive(js, i).End? && ScanPrimitive(js, i).at < |js| ==>
              ScanPrimitive(js + s, i) == ScanPrimitive(js, i)
    decreases |js| - i
  {
    if More(js, i) && !EndsPrimitive(js[i]) {
      PrimitiveLonger(js, s, i + 1);
    }
  }

  lemma StepLonger(js: string, s: string, st: State, cap: nat)
    requires st.Sane() && More(js, st.pos)
    ensures var o := Step(js, st, cap);
            (o.Next? && o.st.pos < |js|) || (o.Stop? && o.code == Invalid) ==> Step(js + s, st, cap) == o
  {
    StringLonger(js, s, st.pos + 1);
    PrimitiveLonger(js, s, st.pos);
    hide ScanString, ScanPrimitive, LastOpen, LastOpenBracket, Bump;
  }

  /** Text that is invalid stays invalid, and at the same place, whatever follows it. */
  lemma {:induction false} InvalidStays(js: string, s: string, st: State, cap: nat)
    requires st.Sane() && Run(js, st, cap).0 == Invalid
    ensures Run(js + s, st, cap) == Run(js, st, cap)
    decreases |js| - st.pos
  {
    hide Step;
    if More(js, st.pos) {
      StepLonger(js, s, st, cap);
      var o := Step(js, st, cap);
      if o.Next? {
        InvalidStays(js, s, o.st, cap);
      }
    }
  }
}
