/** Base64 against the alphabet and the layout rules of section 5.2 of RFC 1521. */
module Base64Alphabet {
  import opened Wrappers
  import opened Base64

  const UPPER: string := "ABCDEFGHIJKLMNOPQRSTUVWXYZ"
  const LOWER: string := "abcdefghijklmnopqrstuvwxyz"
  const FIGURES: string := "0123456789"

  /** The 64 characters in the order of their values. */
  const ALPHABET: string := UPPER + LOWER + FIGURES + "+/"

  lemma Letters()
    ensures |UPPER| == |LOWER| == 26 && |FIGURES| == 10
    ensures forall i | 0 <= i < 26 :: UPPER[i] as int == 0x41 + i && LOWER[i] as int == 0x61 + i
    ensures forall i | 0 <= i < 10 :: FIGURES[i] as int == 0x30 + i
  {
  }

  lemma AlphabetAt(i: nat)
    requires i < 64
    ensures |ALPHABET| == 64
    ensures ALPHABET[i] == if i < 26 then UPPER[i] else if i < 52 then LOWER[i - 26]
                           else if i < 62 then FIGURES[i - 52] else "+/"[i - 62]
  {
  }

  /** The encoding table is the alphabet. */
  lemma EncMapIs(i: nat)
    requires i < 64
    ensures |ALPHABET| == 64 && EncMap(i) == ALPHABET[i] as int
  {
    Letters();
    AlphabetAt(i);
  }

  ghost predicate Member(c: byte) {
    exists i: nat :: i < 64 && i < |ALPHABET| && ALPHABET[i] as int == c
  }

  /** The decoding table has the value of each character of the alphabet, 64 for the
      padding, and rejects every other byte. */
  lemma DecMapIs(c: byte)
    ensures DecMap(c) == 127 || 0 <= DecMap(c) <= 64
    ensures Member(c) <==> DecMap(c) < 64
    ensures DecMap(c) < 64 ==> |ALPHABET| == 64 && ALPHABET[DecMap(c)] as int == c
    ensures c == 61 <==> DecMap(c) == 64
  {
    if DecMap(c) < 64 {
      EncMapIs(DecMap(c));
    }
    if Member(c) {
      var i: nat :| i < 64 && i < |ALPHABET| && ALPHABET[i] as int == c;
      EncMapIs(i);
      MapsInverse(i);
    }
  }

  // ---------------------------------------------------------------- digits

  /** Three bytes, as one number, in four digits of base 64, the highest first. */
  lemma QuadDigits(a: byte, b: byte, c: byte) returns (d: seq<nat>)
    ensures |ALPHABET| == 64 && |d| == 4 && forall i | 0 <= i < 4 :: d[i] < 64
    ensures a * 0x1_0000 + b * 0x100 + c == d[0] * 0x4_0000 + d[1] * 0x1000 + d[2] * 0x40 + d[3]
    ensures forall i | 0 <= i < 4 :: Quad(a, b, c)[i] == ALPHABET[d[i]] as int
  {
    hide EncMap;
    d := [a / 4, a % 4 * 16 + b / 16, b % 16 * 4 + c / 64, c % 64];
    EncMapIs(d[0]);
    EncMapIs(d[1]);
    EncMapIs(d[2]);
    EncMapIs(d[3]);
  }

  /** One or two bytes are continued with zero bytes, and what only they determine is
      replaced by the padding. */
  lemma ShortGroups(a: byte, b: byte)
    ensures Group([a]) == [Quad(a, 0, 0)[0], Quad(a, 0, 0)[1], 61, 61]
    ensures Group([a, b]) == [Quad(a, b, 0)[0], Quad(a, b, 0)[1], Quad(a, b, 0)[2], 61]
  {
    hide Quad;
  }

  // ---------------------------------------------------------------- accepted texts

  /** A carriage return stands in front of a line feed, and a space in front of another,
      of an end of line, or at the end. */
  predicate Placed(src: bytes, i: nat)
    requires i < |src|
  {
    && (src[i] == 13 ==> i + 1 < |src| && src[i + 1] == 10)
    && (src[i] == 32 ==> i + 1 == |src| || src[i + 1] == 32 || src[i + 1] == 10 || src[i + 1] == 13)
  }

  /** From `i` on there are ends of lines, spaces that are not inside a line, characters
      of the alphabet, and then padding. */
  ghost predicate Lines(src: bytes, i: nat, padded: bool)
    requires i <= |src|
    decreases |src| - i
  {
    i < |src| ==>
      && Placed(src, i)
      && (src[i] == 10 || src[i] == 13 || src[i] == 32 || src[i] == 61 || (Member(src[i]) && !padded))
      && Lines(src, i + 1, padded || src[i] == 61)
  }

  function Paddings(src: bytes, i: nat): nat
    requires i <= |src|
    decreases |src| - i
  {
    if i == |src| then 0 else (if src[i] == 61 then 1 else 0) + Paddings(src, i + 1)
  }

  lemma {:induction false} SpacesLines(src: bytes, i: nat, k: nat, padded: bool)
    requires i <= k <= |src| && (forall m | i <= m < k :: src[m] == 32)
    ensures Paddings(src, i) == Paddings(src, k)
    ensures (k == |src| || src[k] == 10 || src[k] == 13) ==> (Lines(src, i, padded) <==> Lines(src, k, padded))
    ensures i < k < |src| && src[k] != 32 && src[k] != 10 && src[k] != 13 ==> !Lines(src, i, padded)
    decreases k - i
  {
    if i < k {
      SpacesLines(src, i + 1, k, padded);
    }
  }

  lemma EndsLine(src: bytes, k: nat, padded: bool)
    requires k < |src|
    ensures EndOfLine(src, k) ==>
              && (src[k] == 10 || src[k] == 13) && Paddings(src, k) == Paddings(src, k + 1)
              && (Lines(src, k, padded) <==> Lines(src, k + 1, padded))
    ensures !EndOfLine(src, k) ==> src[k] != 10
    ensures !EndOfLine(src, k) && src[k] == 13 ==> !Lines(src, k, padded)
  {
  }

  lemma CharLines(src: bytes, i: nat, j: nat)
    requires i < |src| && src[i] != 32 && src[i] != 10 && src[i] != 13 && j <= 2
    ensures Lines(src, i, j > 0) && j + Paddings(src, i) <= 2 <==>
              && !Rejected(src[i], j)
              && Lines(src, i + 1, AfterPad(src[i], j) > 0)
              && AfterPad(src[i], j) + Paddings(src, i + 1) <= 2
  {
    DecMapIs(src[i]);
    hide Member, DecMap;
  }

  lemma LoneReturn(c: byte, j: nat)
    ensures c == 13 ==> Rejected(c, j)
  {
  }

  lemma {:induction false} PassAccepts(src: bytes, i: nat, n: nat, j: nat)
    requires i <= |src| && j <= 2
    ensures FirstPass(src, i, n, j).Valid? <==> Lines(src, i, j > 0) && j + Paddings(src, i) <= 2
    decreases |src| - i
  {
    hide SkipSpaces, FirstPass, EndOfLine, DecMap, Skipped, Significant, Lines, Paddings, Rejected, Member;
    var k := SkipSpaces(src, i);
    SpacesLines(src, i, k, j > 0);
    if k == |src| {
      PassEnd(src, i, n, j);
      NoLines(src, j > 0);
    } else {
      EndsLine(src, k, j > 0);
      if EndOfLine(src, k) {
        PassLine(src, i, n, j);
        PassAccepts(src, k + 1, n, j);
      } else {
        PassChar(src, i, n, j);
        LoneReturn(src[k], j);
        if k == i && src[i] != 13 {
          CharLines(src, i, j);
          if !Rejected(src[i], j) {
            StillFew(src[i], j);
            PassAccepts(src, i + 1, n + 1, AfterPad(src[i], j));
          }
        }
      }
    }
  }

  lemma NoLines(src: bytes, padded: bool)
    ensures Lines(src, |src|, padded) && Paddings(src, |src|) == 0
  {
  }

  lemma StillFew(c: byte, j: nat)
    requires !Rejected(c, j)
    ensures AfterPad(c, j) <= 2
  {
  }

  /** A text is accepted exactly when it consists of characters of the alphabet and then
      at most two paddings, in lines that have spaces only at their ends. */
  lemma Accepted(src: bytes)
    ensures FirstPass(src, 0, 0, 0).Valid? <==> Lines(src, 0, false) && Paddings(src, 0) <= 2
  {
    PassAccepts(src, 0, 0, 0);
  }
}
