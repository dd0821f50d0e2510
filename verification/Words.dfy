/**
 Unsigned machine words as natural numbers: powers of two, exclusive or, saturation,
 and the few facts about them that several models share.
 */
module Words {

  type byte = x: nat | x < 256
  type u16 = x: nat | x < 65536
  type u64 = x: nat | x < 0x1_0000_0000_0000_0000

  const U64_MAX: nat := 0xFFFF_FFFF_FFFF_FFFF

  function Pow2(n: nat): (p: nat)
    ensures p > 0
  {
    if n == 0 then 1 else 2 * Pow2(n - 1)
  }

  function Min(a: int, b: int): int {
    if a <= b then a else b
  }

  function Max(a: int, b: int): int {
    if a <= b then b else a
  }

  /** Saturating subtraction on unsigned words. */
  function SatSub(a: nat, b: nat): nat {
    if b <= a then a - b else 0
  }

  lemma {:induction false} Pow2Add(a: nat, b: nat)
    ensures Pow2(a + b) == Pow2(a) * Pow2(b)
  {
    if a > 0 {
      Pow2Add(a - 1, b);
      assert Pow2(a) * Pow2(b) == 2 * (Pow2(a - 1) * Pow2(b));
    }
  }

  lemma {:induction false} Pow2Monotone(a: nat, b: nat)
    requires a <= b
    ensures Pow2(a) <= Pow2(b)
    ensures a < b ==> 2 * Pow2(a) <= Pow2(b)
  {
    if a < b {
      Pow2Monotone(a, b - 1);
    }
  }

  lemma Power32()
    ensures Pow2(32) == 0x1_0000_0000
  {
    assert Pow2(8) == 256;
    Pow2Add(8, 8);
    Pow2Add(16, 16);
  }

  /** Exclusive or of two words of any width. */
  function Xor(a: nat, b: nat): nat
    decreases a + b
  {
    if a == 0 && b == 0 then 0
    else 2 * Xor(a / 2, b / 2) + (if a % 2 != b % 2 then 1 else 0)
  }

  lemma {:induction false} XorZero(a: nat)
    ensures Xor(a, 0) == a && Xor(0, a) == a
  {
    if a > 0 {
      XorZero(a / 2);
    }
  }

  lemma {:induction false} XorCommutes(a: nat, b: nat)
    ensures Xor(a, b) == Xor(b, a)
    decreases a + b
  {
    if a > 0 || b > 0 {
      XorCommutes(a / 2, b / 2);
    }
  }

  lemma {:induction false} XorAssociates(a: nat, b: nat, c: nat)
    ensures Xor(Xor(a, b), c) == Xor(a, Xor(b, c))
    decreases a + b + c
  {
    if a > 0 || b > 0 || c > 0 {
      XorAssociates(a / 2, b / 2, c / 2);
      assert Xor(a, b) / 2 == Xor(a / 2, b / 2);
      assert Xor(b, c) / 2 == Xor(b / 2, c / 2);
    }
  }

  lemma {:induction false} XorSelf(a: nat)
    ensures Xor(a, a) == 0
  {
    if a > 0 {
      XorSelf(a / 2);
    }
  }

  lemma XorStep(a: nat, b: nat)
    ensures Xor(a, b) == 2 * Xor(a / 2, b / 2) + (if a % 2 != b % 2 then 1 else 0)
  {
  }

  lemma XorHalf(a: nat, b: nat)
    ensures Xor(a, b) / 2 == Xor(a / 2, b / 2)
    ensures Xor(a, b) % 2 == if a % 2 != b % 2 then 1 else 0
  {
  }

  lemma XorLowBit(x: nat, p: nat, y: nat, q: nat)
    requires p < 2 && q < 2
    ensures Xor(2 * x + p, 2 * y + q) == 2 * Xor(x, y) + (if p != q then 1 else 0)
  {
    XorStep(2 * x + p, 2 * y + q);
  }

  lemma ShiftedHalf(a: nat, b: nat, k: nat)
    requires k > 0
    ensures (a * Pow2(k) + b) / 2 == a * Pow2(k - 1) + b / 2
    ensures (a * Pow2(k) + b) % 2 == b % 2
  {
    var m := a * Pow2(k - 1);
    assert a * Pow2(k) == 2 * m;
    assert (2 * m + b) / 2 == m + b / 2;
  }

  /** The word whose low `k` bits are those of `b` and whose other bits are `a`. */
  function Join(a: nat, b: nat, k: nat): nat {
    if k == 0 then a else 2 * Join(a, b / 2, k - 1) + b % 2
  }

  lemma {:induction false} JoinValue(a: nat, b: nat, k: nat)
    requires b < Pow2(k)
    ensures Join(a, b, k) == a * Pow2(k) + b
  {
    if k > 0 {
      JoinValue(a, b / 2, k - 1);
      ShiftedHalf(a, b, k);
    }
  }

  lemma {:induction false} XorJoin(a: nat, b: nat, c: nat, d: nat, k: nat)
    ensures Xor(Join(a, b, k), Join(c, d, k)) == Join(Xor(a, c), Xor(b, d), k)
  {
    if k > 0 {
      XorJoin(a, b / 2, c, d / 2, k - 1);
      XorLowBit(Join(a, b / 2, k - 1), b % 2, Join(c, d / 2, k - 1), d % 2);
      XorHalf(b, d);
    }
  }

  lemma {:induction false} XorBound(b: nat, d: nat, k: nat)
    requires b < Pow2(k) && d < Pow2(k)
    ensures Xor(b, d) < Pow2(k)
  {
    if k > 0 {
      XorStep(b, d);
      XorBound(b / 2, d / 2, k - 1);
    }
  }

  /** Xor works separately on the part above bit `k` and the part below it. */
  lemma XorSplit(a: nat, b: nat, c: nat, d: nat, k: nat)
    requires b < Pow2(k) && d < Pow2(k)
    ensures Xor(a * Pow2(k) + b, c * Pow2(k) + d) == Xor(a, c) * Pow2(k) + Xor(b, d)
  {
    XorBound(b, d, k);
    XorJoin(a, b, c, d, k);
    JoinValue(a, b, k);
    JoinValue(c, d, k);
    JoinValue(Xor(a, c), Xor(b, d), k);
  }

  /** Regroups a xor of two xors. */
  lemma XorRegroup(a: nat, b: nat, c: nat, d: nat)
    ensures Xor(Xor(a, b), Xor(c, d)) == Xor(Xor(a, c), Xor(b, d))
  {
    calc {
      Xor(Xor(a, b), Xor(c, d));
      { XorAssociates(a, b, Xor(c, d)); XorAssociates(b, c, d); }
      Xor(a, Xor(Xor(b, c), d));
      { XorCommutes(b, c); XorAssociates(c, b, d); }
      Xor(a, Xor(c, Xor(b, d)));
      { XorAssociates(a, c, Xor(b, d)); }
      Xor(Xor(a, c), Xor(b, d));
    }
  }

  lemma {:induction false} SubsetSize<T>(a: set<T>, b: set<T>)
    requires a <= b
    ensures |a| <= |b|
  {
    if a != {} {
      var x :| x in a;
      SubsetSize(a - {x}, b - {x});
    }
  }

  /** Some number above all of a finite set. */
  lemma {:induction false} BoundOf(names: set<nat>) returns (m: nat)
    ensures forall x :: x in names ==> x < m
  {
    if names == {} {
      m := 0;
    } else {
      var x :| x in names;
      var rest := BoundOf(names - {x});
      m := if x < rest then rest else x + 1;
      forall y | y in names ensures y < m {
        assert y != x ==> y in names - {x};
      }
    }
  }
}
