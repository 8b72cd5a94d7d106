/** Base64 (section 5.2 of RFC 1521): what encoding and decoding compute. */
module Base64 {
  import opened Wrappers

  const PAD: byte := 61

  /** `base64_enc_map` */
  function EncMap(i: int): byte
    requires 0 <= i < 64
  {
    if i < 26 then 65 + i
    else if i < 52 then 97 + i - 26
    else if i < 62 then 48 + i - 52
    else if i == 62 then 43
    else 47
  }

  /** `base64_dec_map`: 64 for the padding, 127 for anything that is not in the alphabet. */
  function DecMap(c: byte): int {
    if 65 <= c <= 90 then c - 65
    else if 97 <= c <= 122 then c - 97 + 26
    else if 48 <= c <= 57 then c - 48 + 52
    else if c == 43 then 62
    else if c == 47 then 63
    else if c == PAD then 64
    else 127
  }

  lemma MapsInverse(i: int)
    requires 0 <= i < 64
    ensures DecMap(EncMap(i)) == i && EncMap(i) != PAD
  {
  }

  // ---------------------------------------------------------------- encoding

  function Quad(a: byte, b: byte, c: byte): (q: bytes)
    ensures |q| == 4
  {
    [EncMap(a / 4), EncMap(a % 4 * 16 + b / 16), EncMap(b % 16 * 4 + c / 64), EncMap(c % 64)]
  }

  /** One to three bytes, padded to four characters. */
  function Group(g: bytes): (q: bytes)
    requires 0 < |g| <= 3
    ensures |q| == 4
  {
    if |g| == 3 then Quad(g[0], g[1], g[2])
    else if |g| == 2 then Quad(g[0], g[1], 0)[..3] + [PAD]
    else Quad(g[0], 0, 0)[..2] + [PAD, PAD]
  }

  /** Where the last, possibly shorter, group of three starts. */
  function LastGroup(n: nat): (k: nat)
    requires n > 0
    ensures k < n <= k + 3 && k % 3 == 0
  {
    if n % 3 == 0 then n - 3 else n - n % 3
  }

  /** The text of a byte string, group by group. */
  function Encode(s: bytes): (t: bytes)
    ensures |t| == (|s| + 2) / 3 * 4
  {
    if s == [] then []
    else
      var k := LastGroup(|s|);
      assert (|s| + 2) / 3 == k / 3 + 1 && (k + 2) / 3 == k / 3;
      Encode(s[..k]) + Group(s[k..])
  }

  // ---------------------------------------------------------------- first pass

  function SkipSpaces(src: bytes, i: nat): (k: nat)
    requires i <= |src|
    ensures i <= k <= |src|
    ensures forall m | i <= m < k :: src[m] == SPACE
    ensures k < |src| ==> src[k] != SPACE
    decreases |src| - i
  {
    if i < |src| && src[i] == SPACE then SkipSpaces(src, i + 1) else i
  }

  datatype Check = Invalid | Valid(n: nat, j: nat)

  predicate EndOfLine(src: bytes, i: nat)
    requires i < |src|
  {
    src[i] == LF || (src[i] == CR && i + 1 < |src| && src[i + 1] == LF)
  }

  /** Validates the text from position `i` on, after `n` significant characters of
      which `j` were padding. */
  function FirstPass(src: bytes, i: nat, n: nat, j: nat): Check
    requires i <= |src|
    decreases |src| - i
  {
    if i == |src| then Valid(n, j)
    else
      var k := SkipSpaces(src, i);
      if k == |src| then Valid(n, j)
      else if EndOfLine(src, k) then FirstPass(src, k + 1, n, j)
      else if k > i then Invalid
      else
        var c := src[k];
        var j' := if c == PAD then j + 1 else j;
        if j' > 2 || DecMap(c) == 127 || (DecMap(c) < 64 && j' != 0) then Invalid
        else FirstPass(src, k + 1, n + 1, j')
  }

  // ---------------------------------------------------------------- second pass

  predicate Skipped(c: byte) {
    c == CR || c == LF || c == SPACE
  }

  /** The significant characters. */
  function Significant(src: bytes): bytes {
    if src == [] then []
    else
      var before := Significant(src[..|src| - 1]);
      if Skipped(src[|src| - 1]) then before else before + [src[|src| - 1]]
  }

  function Pads(sig: bytes): nat {
    if sig == [] then 0 else Pads(sig[..|sig| - 1]) + if sig[|sig| - 1] == PAD then 1 else 0
  }

  /** `base64_dec_map[c] & 0x3F` */
  function Sextet(c: byte): (v: int)
    ensures 0 <= v < 64
  {
    DecMap(c) % 64
  }

  /** The number in base 64 that the characters spell. */
  function Pack(sig: bytes): nat {
    if sig == [] then 0 else Pack(sig[..|sig| - 1]) * 64 + Sextet(sig[|sig| - 1])
  }

  /** The bytes of a group of four, as far as padding leaves them. */
  function Emit(v: nat, left: int): bytes {
    (if left > 0 then [v / 0x1_0000 % 0x100] else [])
    + (if left > 1 then [v / 0x100 % 0x100] else [])
    + (if left > 2 then [v % 0x100] else [])
  }

  /** What the last of the given significant characters adds: the bytes of the
      group of four that it completes, if it completes one. */
  function Output(sig: bytes): bytes {
    if |sig| >= 4 && |sig| % 4 == 0 then Emit(Pack(sig[|sig| - 4..]), 3 - Pads(sig)) else []
  }

  /** The bytes decoded once the given significant characters have been read. */
  function Decoded(sig: bytes): bytes {
    if sig == [] then [] else Decoded(sig[..|sig| - 1]) + Output(sig)
  }

  // ---------------------------------------------------------------- round trip

  lemma PackSnoc(s: bytes, c: byte)
    ensures Pack(s + [c]) == Pack(s) * 64 + Sextet(c)
  {
    assert (s + [c])[..|s|] == s;
  }

  lemma PackFour(a: byte, b: byte, c: byte, d: byte)
    ensures Pack([a, b, c, d]) == ((Sextet(a) * 64 + Sextet(b)) * 64 + Sextet(c)) * 64 + Sextet(d)
  {
    hide Sextet;
    PackSnoc([], a);
    PackSnoc([a], b);
    PackSnoc([a, b], c);
    PackSnoc([a, b, c], d);
    assert Pack([]) == 0;
    hide Pack;
    assert [] + [a] == [a] && [a] + [b] == [a, b] && [a, b] + [c] == [a, b, c] && [a, b, c] + [d] == [a, b, c, d];
  }

  lemma DecodedSnoc(s: bytes, c: byte)
    ensures Decoded(s + [c]) == Decoded(s) + Output(s + [c])
  {
    hide Output;
    assert (s + [c])[..|s|] == s;
  }

  lemma NoOutput(s: bytes)
    requires |s| % 4 != 0
    ensures Output(s) == []
  {
  }

  lemma GroupOutput(s: bytes, q: bytes)
    requires |s| % 4 == 0 && |q| == 4
    ensures Output(s + q) == Emit(Pack(q), 3 - Pads(s + q))
  {
    hide Emit, Pack, Pads;
    var t := s + q;
    assert |t| >= 4 && |t| % 4 == 0;
    assert t[|t| - 4..] == q;
  }

  /** A group decodes by itself behind complete groups. */
  lemma DecodeGroup(s: bytes, q: bytes)
    requires |s| % 4 == 0 && |q| == 4
    ensures Decoded(s + q) == Decoded(s) + Emit(Pack(q), 3 - Pads(s + q))
  {
    hide Decoded, Pack, Pads, Emit, Output;
    var s1, s2, s3 := s + q[..1], s + q[..2], s + q[..3];
    GroupOutput(s, q);
    NoOutput(s1);
    NoOutput(s2);
    NoOutput(s3);
    DecodedSnoc(s, q[0]);
    DecodedSnoc(s1, q[1]);
    DecodedSnoc(s2, q[2]);
    DecodedSnoc(s3, q[3]);
    assert s + [q[0]] == s1 && s1 + [q[1]] == s2 && s2 + [q[2]] == s3 && s3 + [q[3]] == s + q;
  }

  lemma {:induction false} PadsPlus(a: bytes, b: bytes)
    ensures Pads(a + b) == Pads(a) + Pads(b)
  {
    if b == [] {
      assert a + b == a;
    } else {
      PadsPlus(a, b[..|b| - 1]);
      assert (a + b)[..|a + b| - 1] == a + b[..|b| - 1];
    }
  }

  lemma {:induction false} NoPads(s: bytes)
    requires forall i | 0 <= i < |s| :: s[i] != PAD
    ensures Pads(s) == 0
  {
    if s != [] {
      NoPads(s[..|s| - 1]);
    }
  }

  lemma SextetOf(i: int)
    requires 0 <= i < 64
    ensures Sextet(EncMap(i)) == i
  {
    MapsInverse(i);
  }

  lemma QuadPacks(a: byte, b: byte, c: byte)
    ensures Pack(Quad(a, b, c)) == a * 0x1_0000 + b * 0x100 + c
    ensures Sextet(PAD) == 0
  {
    SextetOf(a / 4);
    SextetOf(a % 4 * 16 + b / 16);
    SextetOf(b % 16 * 4 + c / 64);
    SextetOf(c % 64);
    hide EncMap, DecMap, Sextet;
    PackFour(EncMap(a / 4), EncMap(a % 4 * 16 + b / 16), EncMap(b % 16 * 4 + c / 64), EncMap(c % 64));
  }

  lemma EmitFull(a: byte, b: byte, c: byte)
    ensures var v := a * 0x1_0000 + b * 0x100 + c;
            Emit(v, 3) == [a, b, c] && Emit(v, 2) == [a, b] && Emit(v, 1) == [a]
  {
    var v: int := a * 0x1_0000 + b * 0x100 + c;
    assert v / 0x100 == a * 0x100 + b;
    assert v / 0x1_0000 == a;
  }

  /** Padding a group instead of its last characters does not change the number
      they stand for when those were zero digits. */
  lemma PaddedGroups(a: byte, b: byte)
    ensures Pack(Quad(a, b, 0)[..3] + [PAD]) == a * 0x1_0000 + b * 0x100
    ensures Pack(Quad(a, 0, 0)[..2] + [PAD, PAD]) == a * 0x1_0000
  {
    QuadPacks(a, b, 0);
    QuadPacks(a, 0, 0);
    SextetOf(0);
    var p, q := Quad(a, b, 0), Quad(a, 0, 0);
    PackFour(p[0], p[1], p[2], p[3]);
    PackFour(p[0], p[1], p[2], PAD);
    PackFour(q[0], q[1], q[2], q[3]);
    PackFour(q[0], q[1], PAD, PAD);
    hide Pack, Sextet;
    assert p == [p[0], p[1], p[2], p[3]] && p[..3] + [PAD] == [p[0], p[1], p[2], PAD];
    assert q == [q[0], q[1], q[2], q[3]] && q[..2] + [PAD, PAD] == [q[0], q[1], PAD, PAD];
    assert p[3] == EncMap(0) && q[2] == EncMap(0) && q[3] == EncMap(0);
  }

  lemma AlphabetChar(i: int)
    requires 0 <= i < 64
    ensures DecMap(EncMap(i)) < 64 && !Skipped(EncMap(i)) && EncMap(i) != PAD
    ensures DecMap(PAD) == 64 && !Skipped(PAD)
  {
  }

  lemma GroupChars(g: bytes)
    requires 0 < |g| <= 3
    ensures forall i | 0 <= i < 4 :: DecMap(Group(g)[i]) <= 64 && !Skipped(Group(g)[i])
    ensures forall i | 0 <= i < 4 :: Group(g)[i] == PAD <==> i > |g|
  {
    hide EncMap, DecMap, Skipped;
    var a, b, c := g[0], if |g| > 1 then g[1] else 0, if |g| > 2 then g[2] else 0;
    AlphabetChar(a / 4);
    AlphabetChar(a % 4 * 16 + b / 16);
    AlphabetChar(b % 16 * 4 + c / 64);
    AlphabetChar(c % 64);
  }

  lemma QuadPads(a: byte, b: byte, c: byte)
    ensures Pads(Quad(a, b, c)) == 0
    ensures Pads(Quad(a, b, 0)[..3] + [PAD]) == 1
    ensures Pads(Quad(a, 0, 0)[..2] + [PAD, PAD]) == 2
  {
    NoPads(Quad(a, b, c));
    NoPads(Quad(a, b, 0)[..3]);
    NoPads(Quad(a, 0, 0)[..2]);
    PadsPlus(Quad(a, b, 0)[..3], [PAD]);
    PadsPlus(Quad(a, 0, 0)[..2], [PAD, PAD]);
    PadsPlus([PAD], [PAD]);
    assert [PAD][..0] == [] && Pads([PAD]) == Pads([]) + 1 == 1;
    assert [PAD] + [PAD] == [PAD, PAD];
  }

  lemma GroupBack(g: bytes)
    requires 0 < |g| <= 3
    ensures Pads(Group(g)) == 3 - |g| && Emit(Pack(Group(g)), |g|) == g
  {
    var a, b, c := g[0], if |g| > 1 then g[1] else 0, if |g| > 2 then g[2] else 0;
    QuadPads(a, b, c);
    QuadPacks(a, b, c);
    PaddedGroups(a, b);
    EmitFull(a, b, c);
    hide Pack, Pads, Quad;
    assert g == if |g| == 3 then [a, b, c] else if |g| == 2 then [a, b] else [a];
  }

  /** Only the last group is padded, and only when it is short. */
  lemma {:induction false} EncodePads(s: bytes)
    ensures Pads(Encode(s)) == if s == [] then 0 else LastGroup(|s|) + 3 - |s|
  {
    hide Pads, Group;
    if s == [] {
      NoPads([]);
    } else {
      var k := LastGroup(|s|);
      EncodePads(s[..k]);
      GroupBack(s[k..]);
      PadsPlus(Encode(s[..k]), Group(s[k..]));
    }
  }

  /** An encoding is that of the groups in front, and the last group. */
  lemma EncodeParts(s: bytes)
    ensures s == [] ==> Decoded(Encode(s)) == []
    ensures s != [] ==>
              var k := LastGroup(|s|);
              var a, g := s[..k], s[k..];
              && k < |s| && 0 < |g| <= 3 && |Encode(a)| % 4 == 0
              && Encode(s) == Encode(a) + Group(g) && Pads(Encode(s)) == 3 - |g|
  {
    hide Decoded, Pads, Group;
    EncodePads(s);
    if s == [] {
      NothingDecoded();
    } else {
      WholeGroups(LastGroup(|s|));
    }
  }

  lemma NothingDecoded()
    ensures Decoded([]) == []
  {
  }

  /** Decoding the significant characters of an encoding gives back the bytes. */
  lemma {:induction false} RoundTrip(s: bytes)
    ensures Decoded(Encode(s)) == s
  {
    hide *;
    EncodeParts(s);
    if s != [] {
      var k := LastGroup(|s|);
      var a, g := s[..k], s[k..];
      RoundTrip(a);
      GroupBack(g);
      DecodeGroup(Encode(a), Group(g));
      assert s == a + g;
    }
  }

  lemma WholeGroups(k: nat)
    requires k % 3 == 0
    ensures (k + 2) / 3 * 4 % 4 == 0
  {
  }

  // ---------------------------------------------------------------- accepted texts

  lemma SignificantSnoc(s: bytes, c: byte)
    ensures Significant(s + [c]) == Significant(s) + if Skipped(c) then [] else [c]
    ensures Significant([]) == []
  {
    assert (s + [c])[..|s|] == s;
  }

  lemma {:induction false} SignificantFront(c: byte, s: bytes)
    ensures Significant([c] + s) == (if Skipped(c) then [] else [c]) + Significant(s)
  {
    hide Significant, Skipped;
    if s == [] {
      SignificantSnoc([], c);
      assert [] + [c] == [c] == [c] + [];
    } else {
      var init, last := s[..|s| - 1], s[|s| - 1];
      SignificantFront(c, init);
      SignificantSnoc(init, last);
      SignificantSnoc([c] + init, last);
      assert s == init + [last] && [c] + s == ([c] + init) + [last];
    }
  }

  lemma SignificantAt(src: bytes, i: nat)
    requires i < |src|
    ensures Significant(src[i..]) == (if Skipped(src[i]) then [] else [src[i]]) + Significant(src[i + 1..])
  {
    assert src[i..] == [src[i]] + src[i + 1..];
    SignificantFront(src[i], src[i + 1..]);
  }

  lemma {:induction false} SpacesSkipped(src: bytes, i: nat, k: nat)
    requires i <= k <= |src| && forall m | i <= m < k :: src[m] == SPACE
    ensures Significant(src[i..]) == Significant(src[k..])
    decreases k - i
  {
    if i < k {
      SignificantAt(src, i);
      SpacesSkipped(src, i + 1, k);
    }
  }

  predicate PadsLast(sig: bytes) {
    forall i, k | 0 <= i < k < |sig| && sig[i] == PAD :: sig[k] == PAD
  }

  /** Only characters of the alphabet, the padding last. */
  predicate Proper(sig: bytes, padded: bool) {
    && PadsLast(sig)
    && forall i | 0 <= i < |sig| :: DecMap(sig[i]) <= 64 && (padded ==> sig[i] == PAD)
  }

  lemma ProperFront(c: byte, rest: bytes, padded: bool)
    ensures Proper([c] + rest, padded)
       <==> DecMap(c) <= 64 && (padded ==> c == PAD) && Proper(rest, padded || c == PAD)
  {
    hide DecMap;
    var sig := [c] + rest;
    assert forall i | 0 <= i < |rest| :: rest[i] == sig[i + 1];
    if Proper(sig, padded) {
      assert sig[0] == c;
    }
    if DecMap(c) <= 64 && (padded ==> c == PAD) && Proper(rest, padded || c == PAD) {
      forall i, k | 0 <= i < k < |sig| && sig[i] == PAD
        ensures sig[k] == PAD
      {
        assert sig[k] == rest[k - 1] && (i > 0 ==> sig[i] == rest[i - 1]);
      }
    }
  }

  lemma {:induction false} PadsFront(c: byte, s: bytes)
    ensures Pads([c] + s) == (if c == PAD then 1 else 0) + Pads(s)
  {
    PadsPlus([c], s);
    assert [c][..0] == [] && Pads([c]) == Pads([]) + (if c == PAD then 1 else 0);
  }

  /** The outcome of the first pass describes these significant characters. */
  predicate Describes(r: Check, n: nat, j: nat, sig: bytes) {
    r.Valid? ==> r.n == n + |sig| && r.j == j + Pads(sig) <= 2 && Proper(sig, j > 0)
  }

  lemma DescribesNothing(n: nat, j: nat)
    requires j <= 2
    ensures Describes(Valid(n, j), n, j, [])
  {
    NoPads([]);
  }

  /** One significant character in front. */
  lemma DescribesMore(r: Check, n: nat, j: nat, c: byte, rest: bytes)
    requires var j' := if c == PAD then j + 1 else j;
             DecMap(c) <= 64 && (DecMap(c) < 64 ==> j' == 0) && Describes(r, n + 1, j', rest)
    ensures Describes(r, n, j, [c] + rest)
  {
    PadsFront(c, rest);
    ProperFront(c, rest, j > 0);
    assert DecMap(c) == 64 ==> c == PAD;
  }

  /** One round of the first pass: at the end of the text, at an end of line, or at a
      character. */
  lemma PassEnd(src: bytes, i: nat, n: nat, j: nat)
    requires i <= |src| && SkipSpaces(src, i) == |src|
    ensures FirstPass(src, i, n, j) == Valid(n, j) && Significant(src[i..]) == []
  {
    SpacesSkipped(src, i, |src|);
    Nothing(src);
  }

  lemma PassLine(src: bytes, i: nat, n: nat, j: nat)
    requires i <= |src| && SkipSpaces(src, i) < |src| && EndOfLine(src, SkipSpaces(src, i))
    ensures var k := SkipSpaces(src, i);
            FirstPass(src, i, n, j) == FirstPass(src, k + 1, n, j) && Significant(src[i..]) == Significant(src[k + 1..])
  {
    hide Significant;
    var k := SkipSpaces(src, i);
    SpacesSkipped(src, i, k);
    SignificantAt(src, k);
    assert [] + Significant(src[k + 1..]) == Significant(src[k + 1..]);
  }

  function AfterPad(c: byte, j: nat): nat {
    if c == PAD then j + 1 else j
  }

  predicate Rejected(c: byte, j: nat) {
    AfterPad(c, j) > 2 || DecMap(c) == 127 || (DecMap(c) < 64 && AfterPad(c, j) != 0)
  }

  lemma PassChar(src: bytes, i: nat, n: nat, j: nat)
    requires i <= |src| && SkipSpaces(src, i) < |src| && !EndOfLine(src, SkipSpaces(src, i))
    ensures var k := SkipSpaces(src, i);
            FirstPass(src, i, n, j) == if k > i || Rejected(src[k], j) then Invalid
                                       else FirstPass(src, i + 1, n + 1, AfterPad(src[i], j))
    ensures SkipSpaces(src, i) == i && !Skipped(src[i]) ==>
              Significant(src[i..]) == [src[i]] + Significant(src[i + 1..])
  {
    hide Significant;
    if SkipSpaces(src, i) == i {
      SignificantAt(src, i);
    }
  }

  /** What the first pass establishes about the significant characters. */
  lemma {:induction false} FirstPassSound(src: bytes, i: nat, n: nat, j: nat)
    requires i <= |src| && j <= 2
    ensures Describes(FirstPass(src, i, n, j), n, j, Significant(src[i..]))
    decreases |src| - i
  {
    hide Describes, Significant, SkipSpaces, FirstPass, EndOfLine, DecMap, Skipped;
    var k := SkipSpaces(src, i);
    if k == |src| {
      PassEnd(src, i, n, j);
      DescribesNothing(n, j);
    } else if EndOfLine(src, k) {
      PassLine(src, i, n, j);
      FirstPassSound(src, k + 1, n, j);
    } else {
      PassChar(src, i, n, j);
      var c := src[k];
      if k > i || Rejected(c, j) {
        NotDescribed(n, j, Significant(src[i..]));
      } else {
        FirstPassSound(src, i + 1, n + 1, AfterPad(c, j));
        OutsideSkipped(c);
        DescribesMore(FirstPass(src, i, n, j), n, j, c, Significant(src[i + 1..]));
      }
    }
  }

  lemma Nothing(src: bytes)
    ensures Significant(src[|src|..]) == []
  {
  }

  lemma NotDescribed(n: nat, j: nat, sig: bytes)
    ensures Describes(Invalid, n, j, sig)
  {
  }

  /** Characters of the alphabet and the padding are significant. */
  lemma OutsideSkipped(c: byte)
    ensures DecMap(c) != 127 ==> DecMap(c) <= 64 && !Skipped(c)
  {
  }

  // ---------------------------------------------------------------- line breaks

  /** The text from `i` on is `e` with line ends inserted anywhere, each possibly
      behind spaces, and possibly spaces at the end. */
  predicate Broken(src: bytes, i: nat, e: bytes)
    requires i <= |src|
    decreases |src| - i
  {
    var k := SkipSpaces(src, i);
    if k == |src| then e == []
    else if EndOfLine(src, k) then Broken(src, k + 1, e)
    else k == i && e != [] && src[i] == e[0] && Broken(src, i + 1, e[1..])
  }

  lemma BrokenStep(src: bytes, i: nat, e: bytes)
    requires i <= |src| && Broken(src, i, e)
    ensures var k := SkipSpaces(src, i);
            if k == |src| then e == []
            else if EndOfLine(src, k) then Broken(src, k + 1, e)
            else k == i && e != [] && src[i] == e[0] && Broken(src, i + 1, e[1..])
  {
  }

  lemma {:induction false} BrokenAccepted(src: bytes, i: nat, e: bytes, n: nat, j: nat)
    requires i <= |src| && Broken(src, i, e)
    requires Proper(e, j > 0) && j + Pads(e) <= 2
    ensures FirstPass(src, i, n, j) == Valid(n + |e|, j + Pads(e)) && Significant(src[i..]) == e
    decreases |src| - i
  {
    hide Significant, SkipSpaces, Proper, Pads, FirstPass, EndOfLine, DecMap, Skipped, Broken;
    var k := SkipSpaces(src, i);
    BrokenStep(src, i, e);
    if k == |src| {
      PassEnd(src, i, n, j);
      NoPads([]);
    } else if EndOfLine(src, k) {
      PassLine(src, i, n, j);
      BrokenAccepted(src, k + 1, e, n, j);
    } else {
      PassChar(src, i, n, j);
      var c, rest := e[0], e[1..];
      assert e == [c] + rest;
      PadsFront(c, rest);
      ProperFront(c, rest, j > 0);
      AlphabetOrPad(c);
      BrokenAccepted(src, i + 1, rest, n + 1, AfterPad(c, j));
    }
  }

  lemma AlphabetOrPad(c: byte)
    requires DecMap(c) <= 64
    ensures DecMap(c) == 64 <==> c == PAD
    ensures !Skipped(c)
  {
  }

  lemma GroupProper(g: bytes)
    requires 0 < |g| <= 3
    ensures Proper(Group(g), false) && (|g| == 3 ==> PAD !in Group(g))
  {
    GroupChars(g);
    hide Group, DecMap;
  }

  lemma {:induction false} EncodeProper(s: bytes)
    ensures Proper(Encode(s), false) && (|s| % 3 == 0 ==> PAD !in Encode(s))
  {
    if s != [] {
      var k := LastGroup(|s|);
      hide Group, DecMap;
      EncodeProper(s[..k]);
      GroupProper(s[k..]);
    }
  }

  lemma EncodeAccepted(s: bytes)
    ensures Proper(Encode(s), false) && Pads(Encode(s)) <= 2
  {
    hide Encode, Proper, Pads, Group;
    EncodeProper(s);
    EncodePads(s);
  }

  /** Round trip: decoding the text of a byte string, with line ends inserted
      anywhere, validates it and gives back the bytes. */
  lemma BrokenRoundTrip(s: bytes, src: bytes)
    requires Broken(src, 0, Encode(s))
    ensures FirstPass(src, 0, 0, 0) == Valid((|s| + 2) / 3 * 4, Pads(Encode(s)))
    ensures Decoded(Significant(src)) == s
  {
    hide Broken, FirstPass, Significant, Decoded, Proper, Pads, Encode;
    EncodeAccepted(s);
    BrokenAccepted(src, 0, Encode(s), 0, 0);
    assert src[0..] == src;
    RoundTrip(s);
  }

  /** `src` is `e` with LF or CRLF inserted anywhere. */
  predicate LineBroken(src: bytes, e: bytes) {
    if src == [] then e == []
    else if src[0] == LF then LineBroken(src[1..], e)
    else if src[0] == CR then |src| > 1 && src[1] == LF && LineBroken(src[2..], e)
    else e != [] && src[0] == e[0] && LineBroken(src[1..], e[1..])
  }

  lemma {:induction false} LineBrokenIsBroken(src: bytes, i: nat, e: bytes)
    requires i <= |src| && LineBroken(src[i..], e) && SPACE !in e
    ensures Broken(src, i, e)
    decreases |src| - i
  {
    if i < |src| {
      var t := src[i..];
      assert t[0] == src[i] && t[1..] == src[i + 1..];
      if src[i] == LF {
        LineBrokenIsBroken(src, i + 1, e);
      } else if src[i] == CR {
        assert t[2..] == src[i + 2..] && t[1] == src[i + 1];
        LineBrokenIsBroken(src, i + 2, e);
      } else {
        LineBrokenIsBroken(src, i + 1, e[1..]);
      }
    }
  }

  /** Round trip with LF or CRLF inserted anywhere: every accepted byte string comes
      back, and the first pass counts exactly the encoded characters. */
  lemma LineBrokenRoundTrip(s: bytes, src: bytes)
    requires LineBroken(src, Encode(s))
    ensures FirstPass(src, 0, 0, 0) == Valid((|s| + 2) / 3 * 4, Pads(Encode(s)))
    ensures Decoded(Significant(src)) == s
  {
    EncodeAccepted(s);
    assert SPACE !in Encode(s) by {
      if SPACE in Encode(s) {
        var i :| 0 <= i < |Encode(s)| && Encode(s)[i] == SPACE;
        AlphabetOrPad(Encode(s)[i]);
      }
    }
    hide *;
    assert src[0..] == src;
    LineBrokenIsBroken(src, 0, Encode(s));
    BrokenRoundTrip(s, src);
  }

  // ---------------------------------------------------------------- lengths

  /** The length that the first pass announces. */
  function Announced(n: nat, j: nat): int {
    (n * 6 + 7) / 8 - j
  }

  /** Padding behind the last complete group takes nothing away from it. */
  function Excess(n: nat, j: nat): nat {
    if j > n % 4 then j - n % 4 else 0
  }

  lemma {:induction false} DecodedLength(sig: bytes)
    requires PadsLast(sig) && Pads(sig) <= 2
    ensures |Decoded(sig)| == |sig| / 4 * 3 - Excess(|sig|, Pads(sig))
  {
    hide *;
    if sig == [] {
      NoLength();
    } else {
      var n := |sig| - 1;
      LengthParts(sig);
      DecodedLength(sig[..n]);
      LengthStep(n, Pads(sig[..n]), Pads(sig));
    }
  }

  lemma NoLength()
    ensures Decoded([]) == [] && Pads([]) == 0 && Excess(0, 0) == 0
  {
  }

  lemma PadsSnoc(s: bytes, c: byte)
    ensures Pads(s + [c]) == Pads(s) + if c == PAD then 1 else 0
  {
    assert (s + [c])[..|s|] == s;
  }

  lemma OutputLength(sig: bytes)
    requires sig != [] && Pads(sig) <= 2
    ensures |Output(sig)| == if |sig| % 4 == 0 then 3 - Pads(sig) else 0
  {
    hide Pads, Pack;
  }

  lemma PadsLastInit(init: bytes, c: byte)
    requires PadsLast(init + [c])
    ensures PadsLast(init) && (c != PAD ==> forall i | 0 <= i < |init| :: init[i] != PAD)
  {
    var sig := init + [c];
    assert forall i | 0 <= i < |init| :: sig[i] == init[i];
    assert sig[|init|] == c;
  }

  lemma LengthParts(sig: bytes)
    requires sig != [] && PadsLast(sig) && Pads(sig) <= 2
    ensures var init := sig[..|sig| - 1];
            && PadsLast(init)
            && (Pads(sig) == Pads(init) + 1 || Pads(sig) == Pads(init) == 0)
            && |Decoded(sig)| == |Decoded(init)| + if |sig| % 4 == 0 then 3 - Pads(sig) else 0
  {
    hide Decoded, Pads, Output, PadsLast;
    var init, c := sig[..|sig| - 1], sig[|sig| - 1];
    assert sig == init + [c];
    DecodedSnoc(init, c);
    PadsSnoc(init, c);
    OutputLength(sig);
    PadsLastInit(init, c);
    if c != PAD {
      NoPads(init);
    }
  }

  lemma LengthStep(n: nat, j: nat, j': nat)
    requires j' <= 2 && (j' == j + 1 || j' == j == 0)
    ensures if (n + 1) % 4 == 0 then (n + 1) / 4 * 3 - Excess(n + 1, j') == n / 4 * 3 - Excess(n, j) + 3 - j'
            else (n + 1) / 4 * 3 - Excess(n + 1, j') == n / 4 * 3 - Excess(n, j)
  {
  }

  /** For every accepted text the second pass writes at most the announced length,
      and exactly that if and only if the significant characters that do not fill a
      group are all padding. */
  lemma SecondPassLength(src: bytes)
    requires FirstPass(src, 0, 0, 0).Valid?
    ensures var r := FirstPass(src, 0, 0, 0);
            && |Decoded(Significant(src))| <= Announced(r.n, r.j)
            && (|Decoded(Significant(src))| == Announced(r.n, r.j) <==> r.n % 4 <= r.j)
  {
    hide FirstPass, Significant, Decoded, Pads, Announced, Excess;
    FirstPassSound(src, 0, 0, 0);
    assert src[0..] == src;
    var sig := Significant(src);
    DecodedLength(sig);
    AnnouncedLength(|sig|, Pads(sig));
  }

  /** A group cut after two characters without padding: two bytes are announced, none
      is written. */
  lemma CutText()
    ensures FirstPass([81, 81], 0, 0, 0) == Valid(2, 0) && Announced(2, 0) == 2
    ensures Decoded(Significant([81, 81])) == []
  {
    CutPass([81, 81]);
    CutDecoded();
  }

  lemma CutPass(src: bytes)
    requires src == [81, 81]
    ensures FirstPass(src, 0, 0, 0) == Valid(2, 0) && Announced(2, 0) == 2
  {
    assert SkipSpaces(src, 0) == 0 && SkipSpaces(src, 1) == 1 && SkipSpaces(src, 2) == 2;
    assert DecMap(81) == 16;
    hide SkipSpaces, FirstPass, DecMap, Significant;
    PassChar(src, 0, 0, 0);
    PassChar(src, 1, 1, 0);
    PassEnd(src, 2, 2, 0);
  }

  lemma CutDecoded()
    ensures Decoded(Significant([81, 81])) == []
  {
    SignificantSnoc([], 81);
    SignificantSnoc([81], 81);
    NothingDecoded();
    hide Decoded, Significant, Output;
    assert [] + [81] == [81] && [81] + [81] == [81, 81];
    NoOutput([81]);
    NoOutput([81, 81]);
    DecodedSnoc([], 81);
    DecodedSnoc([81], 81);
  }

  lemma AnnouncedLength(n: nat, j: nat)
    requires j <= 2
    ensures Announced(n, j) == n / 4 * 3 - Excess(n, j) + if n % 4 > j then n % 4 - j else 0
  {
    var q, r := n / 4, n % 4;
    assert n * 6 + 7 == 8 * (3 * q) + (6 * r + 7);
  }
}
