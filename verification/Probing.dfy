/** Triangular probing: the slots `h, h+1, h+1+2, h+1+2+3, ...` taken modulo a
    power of two. The table in KHash.dfy walks its buckets in this order. */
module Probing {

  ghost predicate PowerOfTwo(n: nat)
  {
    n == 1 || (n > 1 && n % 2 == 0 && PowerOfTwo(n / 2))
  }

  /** The sum 1 + 2 + ... + s of the first `s` probe strides. */
  function Tri(s: nat): nat
  {
    if s == 0 then 0 else Tri(s - 1) + s
  }

  /** The bucket visited by probe number `s` of a key with hash `h`. */
  function Slot(h: nat, s: nat, n: nat): nat
    requires n > 0
  {
    (h + Tri(s)) % n
  }

  lemma ModAdd(a: nat, b: nat, n: nat)
    requires n > 0
    ensures (a % n + b) % n == (a + b) % n
  {
    ModUnique((a % n + b) / n + a / n, (a % n + b) % n, a + b, n);
  }

  /** The incremental update of the probe loops computes the next slot. */
  lemma SlotStep(h: nat, s: nat, n: nat)
    requires n > 0
    ensures Slot(h, s + 1, n) == (Slot(h, s, n) + (s + 1)) % n
  {
    assert Tri(s + 1) == Tri(s) + (s + 1);
    var x := h + Tri(s);
    assert Slot(h, s, n) == x % n && Slot(h, s + 1, n) == (x + (s + 1)) % n;
    hide Tri, Slot;
    ModAdd(x, s + 1, n);
  }

  lemma {:induction false} TriClosed(s: nat)
    ensures 2 * Tri(s) == s * (s + 1)
  {
    if s > 0 {
      TriClosed(s - 1);
    }
  }

  lemma ModUnique(q: int, r: int, a: int, n: int)
    requires n > 0 && 0 <= r < n && a == q * n + r
    ensures a / n == q && a % n == r
  {
    var d := a / n - q;
    assert a == n * (a / n) + a % n;
    assert n * d == n * (a / n) - n * q == r - a % n;
    if d != 0 {
      SmallMultiple(n, d);
    }
  }

  lemma {:induction false} SmallMultiple(n: int, d: int)
    requires n > 0
    ensures d > 0 ==> n * d >= n
    ensures d < 0 ==> n * d <= -n
    decreases if d < 0 then -d else d
  {
    if d > 1 {
      SmallMultiple(n, d - 1);
      assert n * d == n * (d - 1) + n;
    } else if d < -1 {
      SmallMultiple(n, d + 1);
      assert n * d == n * (d + 1) - n;
    }
  }

  /** An odd factor can be cancelled from a divisibility by a power of two. */
  lemma {:induction false} CancelOdd(a: int, b: int, q: int, n: nat) returns (r: int)
    requires PowerOfTwo(n) && a % 2 == 1 && a * b == q * n
    ensures b == r * n
    decreases n
  {
    if n == 1 {
      r := b;
    } else {
      var m, a' := n / 2, a / 2;
      var c := q * m - a' * b;
      calc {
        2 * c;
        2 * (q * m) - 2 * (a' * b);
        { assert q * n == q * (2 * m) == 2 * (q * m); }
        a * b - 2 * (a' * b);
        { assert a * b == (2 * a' + 1) * b == 2 * (a' * b) + b; }
        b;
      }
      assert 2 * (a * c) == a * (2 * c) == a * b == q * (2 * m) == 2 * (q * m);
      var r' := CancelOdd(a, c, q, m);
      r := r';
      assert b == 2 * (r' * m) == r' * (2 * m);
    }
  }

  /** A product of an odd and an even factor, both below a power of two, is
      not a multiple of it. */
  lemma NotAMultiple(x: nat, y: nat, q: int, n: nat)
    requires PowerOfTwo(n) && 0 < x < n && 0 < y < n && x % 2 != y % 2
    ensures x * y != q * n
  {
    if x * y == q * n {
      if x % 2 == 1 {
        var r := CancelOdd(x, y, q, n);
        SmallMultiple(n, r);
      } else {
        assert y * x == x * y;
        var r := CancelOdd(y, x, q, n);
        SmallMultiple(n, r);
      }
    }
  }

  lemma TriDifference(s: nat, t: nat, d: int)
    requires Tri(t) - Tri(s) == d
    ensures (t - s) * (t + s + 1) == 2 * d
  {
    TriClosed(s);
    TriClosed(t);
    assert (t - s) * (t + s + 1) == t * (t + s + 1) - s * (t + s + 1);
    assert t * (t + s + 1) == t * (t + 1) + t * s;
    assert s * (t + s + 1) == s * (s + 1) + s * t;
  }

  lemma EqualMods(a: int, b: int, n: int) returns (q: int)
    requires n > 0 && a % n == b % n
    ensures b - a == q * n
  {
    q := b / n - a / n;
    assert a == n * (a / n) + a % n && b == n * (b / n) + b % n;
    assert q * n == n * (b / n) - n * (a / n);
  }

  /** No bucket is visited twice by probes whose numbers add up to less than
      `2n - 1`: in particular not by two of the first `n` probes, and not by
      probe 0 and any later one before probe `2n - 1`. */
  lemma ProbesDistinct(h: nat, s: nat, t: nat, n: nat)
    requires PowerOfTwo(n) && s < t && s + t + 1 < 2 * n
    ensures Slot(h, s, n) != Slot(h, t, n)
  {
    if Slot(h, s, n) == Slot(h, t, n) {
      var q := EqualMods(h + Tri(s), h + Tri(t), n);
      TriDifference(s, t, q * n);
      DoubledModulus(t - s, t + s + 1, s, q, n);
    }
  }

  lemma DoubledModulus(x: nat, y: nat, s: nat, q: int, n: nat)
    requires PowerOfTwo(n) && y == x + 2 * s + 1 && 0 < x && y < 2 * n
    ensures x * y != 2 * (q * n)
  {
    var m := 2 * n;
    assert PowerOfTwo(m) by { assert m / 2 == n; }
    assert 2 * (q * n) == q * m;
    NotAMultiple(x, y, q, m);
  }

  lemma LastTri(m: nat, n: nat)
    requires m + 1 == 2 * n
    ensures Tri(m) == m * n
  {
    TriClosed(m);
    assert m * (m + 1) == m * (2 * n) == 2 * (m * n);
  }

  lemma AddMultiple(h: nat, m: nat, n: nat)
    requires n > 0
    ensures (h + m * n) % n == h % n
  {
    assert h == n * (h / n) + h % n;
    assert h + m * n == (h / n + m) * n + h % n;
    ModUnique(h / n + m, h % n, h + m * n, n);
  }

  /** Probing first comes back to where it started at probe `2n - 1`. */
  lemma FirstReturn(h: nat, n: nat)
    requires PowerOfTwo(n)
    ensures Slot(h, 2 * n - 1, n) == Slot(h, 0, n)
    ensures forall s: nat | 0 < s < 2 * n - 1 :: Slot(h, s, n) != Slot(h, 0, n)
  {
    LastTri(2 * n - 1, n);
    AddMultiple(h, 2 * n - 1, n);
    forall s: nat | 0 < s < 2 * n - 1
      ensures Slot(h, s, n) != Slot(h, 0, n)
    {
      ProbesDistinct(h, 0, s, n);
    }
  }

  ghost function Visited(h: nat, m: nat, n: nat): set<nat>
    requires n > 0
  {
    set s: nat | s < m :: Slot(h, s, n)
  }

  lemma {:induction false} VisitedCount(h: nat, m: nat, n: nat)
    requires PowerOfTwo(n) && m <= n
    ensures |Visited(h, m, n)| == m
  {
    hide PowerOfTwo, Slot, Tri;
    if m > 0 {
      VisitedCount(h, m - 1, n);
      assert Visited(h, m, n) == Visited(h, m - 1, n) + {Slot(h, m - 1, n)};
      forall s: nat | s < m - 1
        ensures Slot(h, s, n) != Slot(h, m - 1, n)
      {
        ProbesDistinct(h, s, m - 1, n);
      }
    }
  }

  ghost function Below(n: nat): (r: set<nat>)
    ensures |r| == n && forall i: nat :: i in r <==> i < n
  {
    if n == 0 then {} else Below(n - 1) + {n - 1}
  }

  /** The first `n` probes visit every one of the `n` buckets. */
  lemma Coverage(h: nat, i: nat, n: nat) returns (s: nat)
    requires PowerOfTwo(n) && i < n
    ensures s < n && Slot(h, s, n) == i
  {
    VisitedCount(h, n, n);
    var v, all := Visited(h, n, n), Below(n);
    assert v <= all;
    SubsetOfSameSize(v, all);
    assert i in v;
    s :| s < n && Slot(h, s, n) == i;
  }

  lemma SubsetOfSameSize<T>(a: set<T>, b: set<T>)
    requires a <= b && |a| == |b|
    ensures a == b
  {
    assert b == a + (b - a);
    assert |b| == |a| + |b - a|;
  }
}
