/** The bit-smearing macro that rounds a 32-bit capacity up to a power of two. */
module RoundUp {
  import opened Probing

  predicate Bit(a: nat, j: nat) {
    if j == 0 then a % 2 == 1 else Bit(a / 2, j - 1)
  }

  /** `a | b` */
  function Or(a: nat, b: nat): nat {
    if a == 0 && b == 0 then 0
    else 2 * Or(a / 2, b / 2) + (if a % 2 == 1 || b % 2 == 1 then 1 else 0)
  }

  /** `a >> m` */
  function Shr(a: nat, m: nat): nat {
    if m == 0 then a else Shr(a / 2, m - 1)
  }

  /** One step `x |= x >> m` of the macro. */
  function Smear(a: nat, m: nat): nat {
    Or(a, Shr(a, m))
  }

  /** `kroundup32(x)` on a 32-bit unsigned `x`, wrap-around included. */
  function RoundUp32(x: nat): nat
    requires x < 0x1_0000_0000
  {
    var a := if x == 0 then 0xffff_ffff else x - 1;
    var b := Smear(Smear(Smear(Smear(Smear(a, 1), 2), 4), 8), 16);
    (b + 1) % 0x1_0000_0000
  }

  lemma {:induction false} OrBit(a: nat, b: nat, j: nat)
    ensures Bit(Or(a, b), j) <==> Bit(a, j) || Bit(b, j)
  {
    var c := if a % 2 == 1 || b % 2 == 1 then 1 else 0;
    assert Or(a, b) == 2 * Or(a / 2, b / 2) + c;
    if j > 0 {
      OrBit(a / 2, b / 2, j - 1);
    }
  }

  lemma {:induction false} ShrBit(a: nat, m: nat, j: nat)
    ensures Bit(Shr(a, m), j) <==> Bit(a, j + m)
  {
    if m > 0 {
      ShrBit(a / 2, m - 1, j);
    }
  }

  /** Bit `k` is the top bit of `a`, and the `m` bits from there down are set. */
  ghost predicate TopOnes(a: nat, k: nat, m: nat) {
    forall j: nat :: (k < j + m && j <= k ==> Bit(a, j)) && (j > k ==> !Bit(a, j))
  }

  lemma SmearDoubles(a: nat, k: nat, m: nat)
    requires TopOnes(a, k, m) && m > 0
    ensures TopOnes(Smear(a, m), k, 2 * m)
  {
    forall j: nat
      ensures (k < j + 2 * m && j <= k ==> Bit(Smear(a, m), j)) && (j > k ==> !Bit(Smear(a, m), j))
    {
      OrBit(a, Shr(a, m), j);
      ShrBit(a, m, j);
    }
  }

  lemma {:induction false} ZeroBits(a: nat)
    requires forall j: nat :: !Bit(a, j)
    ensures a == 0
  {
    if a > 0 {
      assert !Bit(a, 0);
      forall j: nat ensures !Bit(a / 2, j) { assert !Bit(a, j + 1); }
      ZeroBits(a / 2);
    }
  }

  lemma {:induction false} TopBit(a: nat, bits: nat) returns (k: nat)
    requires 0 < a < Pow2(bits)
    ensures k < bits && TopOnes(a, k, 1) && Pow2(k) <= a < Pow2(k + 1) == 2 * Pow2(k)
  {
    if a == 1 {
      k := 0;
      forall j: nat | j > 0 ensures !Bit(a, j) { NoBits(j - 1); }
    } else {
      var k' := TopBit(a / 2, bits - 1);
      k := k' + 1;
      forall j: nat ensures (k < j + 1 && j <= k ==> Bit(a, j)) && (j > k ==> !Bit(a, j)) {
        if j > 0 { assert Bit(a, j) == Bit(a / 2, j - 1); }
      }
    }
  }

  lemma {:induction false} NoBits(j: nat)
    ensures !Bit(0, j)
  {
    if j > 0 { NoBits(j - 1); }
  }

  function Pow2(k: nat): nat {
    if k == 0 then 1 else 2 * Pow2(k - 1)
  }

  lemma {:induction false} Pow2IsPower(k: nat)
    ensures PowerOfTwo(Pow2(k))
  {
    if k > 0 {
      Pow2IsPower(k - 1);
      var p := Pow2(k - 1);
      assert Pow2(k) == 2 * p && 2 * p / 2 == p;
    }
  }

  /** A number whose bits `0..k` are exactly the set ones is `2^(k+1) - 1`. */
  lemma {:induction false} AllOnes(a: nat, k: nat)
    requires TopOnes(a, k, k + 1)
    ensures a + 1 == Pow2(k + 1)
  {
    assert Bit(a, 0);
    if k == 0 {
      forall j: nat ensures !Bit(a / 2, j) { assert !Bit(a, j + 1); }
      ZeroBits(a / 2);
    } else {
      forall j: nat ensures (j <= k - 1 ==> Bit(a / 2, j)) && (j > k - 1 ==> !Bit(a / 2, j)) {
        assert Bit(a, j + 1) == Bit(a / 2, j);
      }
      AllOnes(a / 2, k - 1);
    }
  }

  lemma SmearAll(a: nat, k: nat) returns (b: nat)
    requires TopOnes(a, k, 1) && k < 32
    ensures b == Smear(Smear(Smear(Smear(Smear(a, 1), 2), 4), 8), 16)
    ensures b + 1 == Pow2(k + 1)
  {
    var b1 := Smear(a, 1);   SmearDoubles(a, k, 1);
    var b2 := Smear(b1, 2);  SmearDoubles(b1, k, 2);
    var b3 := Smear(b2, 4);  SmearDoubles(b2, k, 4);
    var b4 := Smear(b3, 8);  SmearDoubles(b3, k, 8);
    b := Smear(b4, 16);      SmearDoubles(b4, k, 16);
    assert TopOnes(b, k, k + 1);
    AllOnes(b, k);
  }

  /** `kroundup32` yields the least power of two that is at least `x`; above
      `2^31`, and for 0, the 32-bit result wraps to 0. */
  lemma RoundUp32Least(x: nat)
    requires x < 0x1_0000_0000
    ensures 0 < x <= 0x8000_0000 ==>
              PowerOfTwo(RoundUp32(x)) && x <= RoundUp32(x) < 2 * x && RoundUp32(x) <= 0x8000_0000
    ensures x == 0 || x > 0x8000_0000 ==> RoundUp32(x) == 0
  {
    var a := if x == 0 then 0xffff_ffff else x - 1;
    Pow2Values();
    hide Bit, Or, Shr, Smear, TopOnes, Pow2, PowerOfTwo;
    if a > 0 {
      var k := TopBit(a, 32);
      var b := SmearAll(a, k);
      Pow2IsPower(k + 1);
      Pow2Grows(k, 31);
      Pow2Grows(k + 1, 32);
    }
  }

  lemma Pow2Values()
    ensures Pow2(31) == 0x8000_0000 && Pow2(32) == 0x1_0000_0000
    ensures PowerOfTwo(1) && Smear(Smear(Smear(Smear(Smear(0, 1), 2), 4), 8), 16) == 0
  {
    assert Pow2(8) == 0x100;
    assert Pow2(16) == 0x1_0000;
    assert Pow2(24) == 0x100_0000;
  }

  lemma {:induction false} Pow2Grows(k: nat, l: nat)
    ensures k < l ==> 2 * Pow2(k) <= Pow2(l)
    ensures Pow2(k) > 0
  {
    if 0 < k < l { Pow2Grows(k - 1, l - 1); }
    else if k < l { assert Pow2(l) == 2 * Pow2(l - 1); Pow2Grows(0, l - 1); }
    else if k > 0 { Pow2Grows(k - 1, 0); }
  }
}
