/** `b64_encode` and `b64_decode` over caller buffers. */
module Base64Codec {
  import opened Wrappers
  import opened Base64
  import opened Probing

  const BUFFER_TOO_SMALL := -0x002A
  const INVALID_CHARACTER := -0x002C

  // ---------------------------------------------------------------- output buffers

  /** A buffer after its start has been overwritten with `done`. */
  ghost function Over(done: bytes, was: bytes): (r: bytes)
    ensures |r| == |was|
  {
    if |done| <= |was| then done + was[|done|..] else was
  }

  lemma OverNothing(was: bytes)
    ensures Over([], was) == was
  {
  }

  lemma OverMore(done: bytes, was: bytes, c: byte)
    requires |done| < |was|
    ensures Over(done, was)[|done| := c] == Over(done + [c], was)
  {
  }

  /** `*p++ = c` */
  method Emplace(dst: array<byte>, p: nat, c: byte, ghost done: bytes, ghost was: bytes)
    requires p == |done| < dst.Length == |was| && dst[..] == Over(done, was)
    modifies dst
    ensures dst[..] == Over(done + [c], was)
  {
    hide Over;
    OverMore(done, was, c);
    dst[p] := c;
  }

  // ---------------------------------------------------------------- encoding

  predicate GroupStart(i: nat) {
    i % 3 == 0
  }

  lemma WholeGroups(n: nat)
    ensures var k := n / 3 * 3; k <= n < k + 3 && GroupStart(0) && GroupStart(k)
  {
  }

  lemma NextStart(i: nat, k: nat)
    requires GroupStart(i) && GroupStart(k) && i < k
    ensures i + 3 <= k && GroupStart(i + 3)
  {
  }

  lemma NextGroup(n: nat, i: nat)
    requires i < n && GroupStart(i)
    ensures var k := if i + 3 <= n then i + 3 else n;
            i < k <= n && LastGroup(k) == i && (i + 2) / 3 * 4 + 4 == (k + 2) / 3 * 4 <= (n + 2) / 3 * 4
  {
    var k := if i + 3 <= n then i + 3 else n;
    assert (k + 2) / 3 == i / 3 + 1 && (i + 2) / 3 == i / 3;
  }

  lemma EncodeNext(s: bytes, i: nat)
    requires i < |s| && GroupStart(i)
    ensures var k := if i + 3 <= |s| then i + 3 else |s|;
            && i < k <= |s| && k <= i + 3
            && Encode(s[..k]) == Encode(s[..i]) + Group(s[i..k])
            && |Encode(s[..i])| + 4 == |Encode(s[..k])| <= |Encode(s)|
  {
    hide Group, LastGroup, GroupStart;
    NextGroup(|s|, i);
    var k := if i + 3 <= |s| then i + 3 else |s|;
    assert s[..k] != [] && s[..k][..i] == s[..i] && s[..k][i..] == s[i..k];
  }

  /** The character count: 8 bits a byte, 6 bits a character, then the padding. */
  function TextLength(slen: nat): (n: nat)
    ensures n == (slen + 2) / 3 * 4
  {
    var n := slen * 8 / 6;
    match slen * 8 - n * 6
    case 2 => n + 3
    case 4 => n + 2
    case _ => n
  }

  /** Writes the full groups, then the padded one if bytes are left. */
  method Fill(dst: array<byte>, src: bytes) returns (p: nat)
    requires |Encode(src)| < dst.Length
    modifies dst
    ensures p == |Encode(src)| && dst[..] == Over(Encode(src), old(dst[..]))
  {
    hide *;
    ghost var was := dst[..];
    var n := |src| / 3 * 3;
    var i := 0;
    p := 0;
    WholeGroups(|src|);
    EncodeNone(src);
    OverNothing(was);
    while i < n
      invariant i <= n && GroupStart(i)
      invariant p == |Encode(src[..i])| && dst[..] == Over(Encode(src[..i]), was)
    {
      NextStart(i, n);
      EncodeNext(src, i);
      WholeGroup(src[i..i + 3]);
      Four(dst, p, Quad(src[i], src[i + 1], src[i + 2]), Encode(src[..i]), was);
      i, p := i + 3, p + 4;
    }
    assert src[..|src|] == src;
    if i < |src| {
      var c2 := if i + 1 < |src| then src[i + 1] else 0;
      var q := Quad(src[i], c2, 0);
      q := [q[0], q[1], if i + 1 < |src| then q[2] else PAD, PAD];
      EncodeNext(src, i);
      ShortGroup(src[i..]);
      Four(dst, p, q, Encode(src[..i]), was);
      p := p + 4;
    }
  }

  lemma EncodeNone(src: bytes)
    ensures Encode(src[..0]) == []
  {
  }

  lemma WholeGroup(g: bytes)
    requires |g| == 3
    ensures Group(g) == Quad(g[0], g[1], g[2])
  {
  }

  lemma ShortGroup(g: bytes)
    requires 0 < |g| <= 2
    ensures var q := Quad(g[0], if |g| == 2 then g[1] else 0, 0);
            Group(g) == [q[0], q[1], if |g| == 2 then q[2] else PAD, PAD]
  {
    hide Quad;
  }

  method Four(dst: array<byte>, p: nat, q: bytes, ghost done: bytes, ghost was: bytes)
    requires |q| == 4 && p + 4 <= dst.Length == |was| && p == |done|
    requires dst[..] == Over(done, was)
    modifies dst
    ensures dst[..] == Over(done + q, was)
  {
    hide Over;
    Emplace(dst, p, q[0], done, was);
    Emplace(dst, p + 1, q[1], done + [q[0]], was);
    Emplace(dst, p + 2, q[2], done + [q[0]] + [q[1]], was);
    Emplace(dst, p + 3, q[3], done + [q[0]] + [q[1]] + [q[2]], was);
    assert done + [q[0]] + [q[1]] + [q[2]] + [q[3]] == done + q;
  }

  method B64Encode(dst: array<byte>, dlen: nat, src: bytes) returns (ret: int, dlen': nat)
    requires dlen <= dst.Length
    modifies dst
    ensures src == [] ==> ret == 0 && dlen' == dlen && dst[..] == old(dst[..])
    ensures src != [] && dlen <= |Encode(src)| ==>
              ret == -0x002A && dlen' == |Encode(src)| + 1 && dst[..] == old(dst[..])
    ensures src != [] && dlen > |Encode(src)| ==>
              ret == 0 && dlen' == |Encode(src)| && dst[..] == Over(Encode(src) + [0], old(dst[..]))
  {
    hide Encode, Over;
    if |src| == 0 {
      return 0, dlen;
    }
    var n := TextLength(|src|);
    if dlen < n + 1 {
      return BUFFER_TOO_SMALL, n + 1;
    }
    ghost var was := dst[..];
    var p := Fill(dst, src);
    Emplace(dst, p, 0, Encode(src), was);
    return 0, p;
  }

  // ---------------------------------------------------------------- first pass

  method CheckText(src: bytes) returns (r: Check)
    ensures r == FirstPass(src, 0, 0, 0)
  {
    hide SkipSpaces, DecMap;
    var i, n, j := 0, 0, 0;
    while i < |src|
      invariant i <= |src|
      invariant FirstPass(src, i, n, j) == FirstPass(src, 0, 0, 0)
    {
      var k, x := i, 0;
      while k < |src| && src[k] == SPACE
        invariant i <= k <= |src| && x == k - i
        invariant SkipSpaces(src, k) == SkipSpaces(src, i)
      {
        SpaceAt(src, k);
        k, x := k + 1, x + 1;
      }
      SpacesEnd(src, k);
      if k == |src| {
        return Valid(n, j);
      }
      if |src| - k >= 2 && src[k] == CR && src[k + 1] == LF {
        i := k + 1;
        continue;
      }
      if src[k] == LF {
        i := k + 1;
        continue;
      }
      if x != 0 {
        return Invalid;
      }
      if src[k] == PAD {
        j := j + 1;
        if j > 2 {
          return Invalid;
        }
      }
      OutsideMap(src[k]);
      if src[k] > 127 || DecMap(src[k]) == 127 {
        return Invalid;
      }
      if DecMap(src[k]) < 64 && j != 0 {
        return Invalid;
      }
      i, n := k + 1, n + 1;
    }
    return Valid(n, j);
  }

  lemma SpaceAt(src: bytes, k: nat)
    requires k < |src| && src[k] == SPACE
    ensures SkipSpaces(src, k) == SkipSpaces(src, k + 1)
  {
  }

  lemma SpacesEnd(src: bytes, k: nat)
    requires k <= |src| && (k < |src| ==> src[k] != SPACE)
    ensures SkipSpaces(src, k) == k
  {
  }

  lemma OutsideMap(c: byte)
    ensures c > 127 ==> DecMap(c) == 127
  {
  }

  // ---------------------------------------------------------------- second pass

  /** What `n` characters of a group leave undetermined of the accumulator. */
  function Span(n: nat): (m: nat)
    requires n <= 4
    ensures m > 0
  {
    match n case 0 => 1 case 1 => 64 case 2 => 0x1000 case 3 => 0x4_0000 case 4 => 0x100_0000
  }

  function Low(x: nat, n: nat): nat
    requires n <= 4
  {
    x % Span(n)
  }

  /** `(x << 6) | c` on 32 bits */
  function Roll(x: nat, c: int): (r: nat)
    requires 0 <= c < 64
    ensures r < 0x1_0000_0000
  {
    x * 64 % 0x1_0000_0000 + c
  }

  /** Bits of earlier groups stay in the accumulator; the low ones spell the group. */
  lemma RollGroup(x: nat, n: nat, v: nat, c: int)
    requires n < 4 && 0 <= c < 64 && Low(x, n) == v
    ensures Low(Roll(x, c), n + 1) == v * 64 + c
  {
    var hi := x / Span(n);
    assert x == hi * Span(n) + v;
    if n == 0 {
      RollOnce(x, hi, v, c, 1, 0x400_0000);
    } else if n == 1 {
      RollOnce(x, hi, v, c, 0x40, 0x10_0000);
    } else if n == 2 {
      RollOnce(x, hi, v, c, 0x1000, 0x4000);
    } else {
      RollOnce(x, hi, v, c, 0x4_0000, 0x100);
    }
  }

  lemma RollOnce(x: nat, hi: nat, v: nat, c: int, m: nat, rest: nat)
    requires 0 <= c < 64 && 0 <= v < m && x == hi * m + v && m * 64 * rest == 0x1_0000_0000
    ensures Roll(x, c) % (m * 64) == v * 64 + c
  {
    var w, low := m * 64, v * 64 + c;
    assert x * 64 + c == hi * w + low by {
      assert x * 64 == hi * m * 64 + v * 64;
      assert hi * m * 64 == hi * w;
    }
    var d := x * 64 / 0x1_0000_0000;
    assert Roll(x, c) == (hi - d * rest) * w + low by {
      assert d * 0x1_0000_0000 == d * rest * w;
    }
    ModUnique(hi - d * rest, low, Roll(x, c), w);
  }

  /** Only the low 24 bits are emitted. */
  lemma EmitLow(x: nat, left: int)
    ensures Emit(Low(x, 4), left) == Emit(x, left)
  {
    LowBytes(x / 0x100_0000, x % 0x100_0000);
  }

  lemma LowBytes(hi: nat, v: nat)
    ensures (hi * 0x100_0000 + v) % 0x100 == v % 0x100
    ensures (hi * 0x100_0000 + v) / 0x100 % 0x100 == v / 0x100 % 0x100
    ensures (hi * 0x100_0000 + v) / 0x1_0000 % 0x100 == v / 0x1_0000 % 0x100
  {
    var z: int := hi * 0x100_0000 + v;
    ModUnique(hi * 0x1_0000 + v / 0x100, v % 0x100, z, 0x100);
    ModUnique(hi * 0x100 + v / 0x1_0000, v % 0x1_0000, z, 0x1_0000);
    ModUnique(hi * 0x100 + v / 0x100 / 0x100, v / 0x100 % 0x100, z / 0x100, 0x100);
    ModUnique(hi + v / 0x1_0000 / 0x100, v / 0x1_0000 % 0x100, z / 0x1_0000, 0x100);
  }

  lemma SignificantNext(src: bytes, m: nat)
    requires m < |src|
    ensures Significant(src[..m + 1]) == Significant(src[..m]) + if Skipped(src[m]) then [] else [src[m]]
  {
    assert src[..m + 1][..m] == src[..m];
  }

  /** What has been decoded and how many padding characters were met only grow. */
  lemma {:induction false} DecodedGrows(src: bytes, m: nat)
    requires m <= |src|
    ensures |Decoded(Significant(src[..m]))| <= |Decoded(Significant(src))|
    ensures Pads(Significant(src[..m])) <= Pads(Significant(src))
    decreases |src| - m
  {
    hide Decoded, Significant, Pads, Output, Skipped;
    if m == |src| {
      assert src[..m] == src;
    } else {
      SignificantNext(src, m);
      var sig := Significant(src[..m]);
      DecodedSnoc(sig, src[m]);
      PadsSnoc(sig, src[m]);
      assert sig + [] == sig;
      DecodedGrows(src, m + 1);
    }
  }

  /** The accumulator spells the characters of the group under way. */
  ghost predicate Rolling(x: nat, n: nat, sig: bytes) {
    n < 4 && n == |sig| % 4 && Low(x, n) == Pack(sig[|sig| - n..])
  }

  /** Reading one more character completes a group or stays within it. */
  lemma RollingNext(x: nat, n: nat, sig: bytes, c: byte)
    requires Rolling(x, n, sig)
    ensures var x' := Roll(x, Sextet(c));
            if n == 3
            then Rolling(x', 0, sig + [c]) && Output(sig + [c]) == Emit(x', 3 - Pads(sig + [c]))
            else Rolling(x', n + 1, sig + [c]) && Output(sig + [c]) == []
  {
    hide Emit, Sextet, Roll, Pads, Pack, Low, Output;
    var tail, sig' := sig[|sig| - n..], sig + [c];
    var x' := Roll(x, Sextet(c));
    RollGroup(x, n, Pack(tail), Sextet(c));
    PackSnoc(tail, c);
    TailNext(sig, n, c);
    if n == 3 {
      EmitLow(x', 3 - Pads(sig'));
      EmptyGroup(x');
    }
  }

  lemma TailNext(sig: bytes, n: nat, c: byte)
    requires n < 4 && n == |sig| % 4
    ensures var sig', tail' := sig + [c], sig[|sig| - n..] + [c];
            && sig'[|sig'| - (n + 1)..] == tail' && sig'[|sig'|..] == []
            && (if n == 3 then |sig'| % 4 == 0 && Output(sig') == Emit(Pack(tail'), 3 - Pads(sig'))
                else |sig'| % 4 == n + 1 && Output(sig') == [])
  {
    hide Emit, Pads, Pack;
    var sig' := sig + [c];
    assert sig'[|sig'| - (n + 1)..] == sig[|sig| - n..] + [c];
    if n == 3 {
      assert |sig'| % 4 == 0;
    } else {
      NoOutput(sig');
    }
  }

  lemma EmptyGroup(x: nat)
    ensures Low(x, 0) == Pack([])
  {
  }

  /** The bytes that padding leaves of a complete group. */
  method Put(dst: array<byte>, p: nat, x: nat, j: int, ghost done: bytes, ghost was: bytes) returns (p': nat)
    requires dst.Length == |was| && p == |done| && p + |Emit(x, j)| <= dst.Length
    requires dst[..] == Over(done, was)
    modifies dst
    ensures p' == p + |Emit(x, j)|
    ensures dst[..] == Over(done + Emit(x, j), was)
  {
    hide Over;
    p' := p;
    var a, b, c := x / 0x1_0000 % 0x100, x / 0x100 % 0x100, x % 0x100;
    assert j <= 0 ==> done + Emit(x, j) == done;
    if j > 0 {
      Emplace(dst, p', a, done, was);
      p' := p' + 1;
      assert j == 1 ==> Emit(x, j) == [a];
    }
    if j > 1 {
      Emplace(dst, p', b, done + [a], was);
      p' := p' + 1;
      assert j == 2 ==> done + Emit(x, j) == done + [a] + [b];
    }
    if j > 2 {
      Emplace(dst, p', c, done + [a] + [b], was);
      p' := p' + 1;
      assert done + Emit(x, j) == done + [a] + [b] + [c];
    }
  }

  /** The second pass. */
  method Unpack(dst: array<byte>, src: bytes) returns (p: nat)
    requires |Decoded(Significant(src))| <= dst.Length
    requires Pads(Significant(src)) <= 2
    modifies dst
    ensures p == |Decoded(Significant(src))|
    ensures dst[..] == Over(Decoded(Significant(src)), old(dst[..]))
  {
    hide *;
    ghost var was := dst[..];
    ghost var sig: bytes := [];
    var n, x, j, m := 0, 0, 3, 0;
    p := 0;
    NothingYet(src);
    OverNothing(was);
    while m < |src|
      invariant m <= |src| && sig == Significant(src[..m])
      invariant Rolling(x, n, sig) && j == 3 - Pads(sig)
      invariant p == |Decoded(sig)| <= dst.Length
      invariant dst[..] == Over(Decoded(sig), was)
    {
      var c := src[m];
      SignificantNext(src, m);
      m := m + 1;
      CharKind(c);
      if c == CR || c == LF || c == SPACE {
        assert sig + [] == sig;
        continue;
      }
      DecodedGrows(src, m);
      DecodedSnoc(sig, c);
      PadsSnoc(sig, c);
      RollingNext(x, n, sig, c);
      if DecMap(c) == 64 {
        j := j - 1;
      }
      x := Roll(x, Sextet(c));
      n := n + 1;
      if n == 4 {
        n := 0;
        p := Put(dst, p, x, j, Decoded(sig), was);
      }
      assert n == 0 || Output(sig + [c]) == [];
      assert Decoded(sig) + [] == Decoded(sig);
      sig := sig + [c];
    }
    assert src[..m] == src;
  }

  lemma CharKind(c: byte)
    ensures DecMap(c) == 64 <==> c == PAD
    ensures Skipped(c) <==> c == CR || c == LF || c == SPACE
  {
  }

  lemma NothingYet(src: bytes)
    ensures Significant(src[..0]) == [] && Pads([]) == 0 && Decoded([]) == [] && Rolling(0, 0, [])
  {
  }

  method B64Decode(dst: array?<byte>, dlen: nat, src: bytes) returns (ret: int, dlen': nat)
    requires dst != null ==> dlen <= dst.Length
    modifies dst
    ensures var r := FirstPass(src, 0, 0, 0);
            if r == Invalid then ret == -0x002C && dlen' == dlen
            else if r.n == 0 then ret == 0 && dlen' == dlen
            else if dst == null || dlen < Announced(r.n, r.j)
            then ret == -0x002A && dlen' == Announced(r.n, r.j)
            else ret == 0 && dlen' == |Decoded(Significant(src))|
    ensures dst != null ==>
              var r := FirstPass(src, 0, 0, 0);
              if r.Valid? && r.n > 0 && dlen >= Announced(r.n, r.j)
              then dst[..] == Over(Decoded(Significant(src)), old(dst[..])) && dlen' <= dst.Length
              else dst[..] == old(dst[..])
  {
    hide FirstPass, Significant, Decoded, Over;
    var r := CheckText(src);
    if r == Invalid {
      return INVALID_CHARACTER, dlen;
    }
    if r.n == 0 {
      return 0, dlen;
    }
    SecondPassLength(src);
    var n := Announced(r.n, r.j);
    if dst == null || dlen < n {
      return BUFFER_TOO_SMALL, n;
    }
    FewPads(src);
    dlen' := Unpack(dst, src);
    ret := 0;
  }

  lemma FewPads(src: bytes)
    requires FirstPass(src, 0, 0, 0).Valid?
    ensures Pads(Significant(src)) <= 2
  {
    hide FirstPass, Significant, Pads, Proper;
    FirstPassSound(src, 0, 0, 0);
    assert src[0..] == src;
  }

  // ---------------------------------------------------------------- together

  /** A buffer that the encoder filled, decoded into a large enough buffer after
      line ends were inserted anywhere in the text, holds the original bytes. */
  method EncodeThenDecode(text: array<byte>, out: array<byte>, s: bytes, src: bytes) returns (n: nat)
    requires s != [] && text != out && text.Length > (|s| + 2) / 3 * 4 && out.Length >= |s|
    requires Broken(src, 0, Encode(s))
    modifies text, out
    ensures text[..(|s| + 2) / 3 * 4] == Encode(s)
    ensures n == |s| && out[..n] == s
  {
    hide Encode, Broken, FirstPass, Decoded, Significant, Pads;
    var ret, len := B64Encode(text, text.Length, s);
    BrokenRoundTrip(s, src);
    SecondPassLength(src);
    EncodePadding(s);
    ret, n := B64Decode(out, out.Length, src);
  }

  lemma EncodePadding(s: bytes)
    requires s != []
    ensures Announced(|Encode(s)|, Pads(Encode(s))) == |s|
  {
    hide Encode, Pads;
    EncodePads(s);
    assert LastGroup(|s|) + 3 == (|s| + 2) / 3 * 3;
  }
}
