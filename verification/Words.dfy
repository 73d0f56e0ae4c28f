/** 32-bit machine words as bounded naturals, with C's bitwise operators on them. */
module Words {


  type Word = w: nat | w < 0x1_0000_0000

  type Byte = b: nat | b < 0x100

  function Pow2(k: nat): (p: nat)
    ensures p >= 1
  {
    if k == 0 then 1 else 2 * Pow2(k - 1)
  }

  /** Is bit k of w set? */
  predicate Bit(w: nat, k: nat) {
    if k == 0 then w % 2 == 1 else Bit(w / 2, k - 1)
  }

  /** C's `&`. */
  function And(a: nat, b: nat): nat {
    if a == 0 || b == 0 then 0
    else 2 * And(a / 2, b / 2) + (if a % 2 == 1 && b % 2 == 1 then 1 else 0)
  }

  /** C's `|`. */
  function Or(a: nat, b: nat): nat
    decreases a + b
  {
    if a == 0 && b == 0 then 0
    else 2 * Or(a / 2, b / 2) + (if a % 2 == 1 || b % 2 == 1 then 1 else 0)
  }

  /** C's `~` on a 32-bit operand. */
  function Not(a: Word): (r: Word) {
    0xffff_ffff - a
  }

  lemma {:induction false} ZeroHasNoBits(k: nat)
    ensures !Bit(0, k)
  {
    if k > 0 { ZeroHasNoBits(k - 1); }
  }

  lemma {:induction false} BitAnd(a: nat, b: nat, k: nat)
    ensures Bit(And(a, b), k) <==> Bit(a, k) && Bit(b, k)
  {
    if a == 0 || b == 0 {
      ZeroHasNoBits(k);
    } else {
      var high := And(a / 2, b / 2);
      var low := if a % 2 == 1 && b % 2 == 1 then 1 else 0;
      assert And(a, b) == 2 * high + low;
      assert (2 * high + low) / 2 == high && (2 * high + low) % 2 == low;
      if k > 0 { BitAnd(a / 2, b / 2, k - 1); }
    }
  }

  lemma {:induction false} BitOr(a: nat, b: nat, k: nat)
    ensures Bit(Or(a, b), k) <==> Bit(a, k) || Bit(b, k)
    decreases k
  {
    if a == 0 && b == 0 {
      ZeroHasNoBits(k);
    } else {
      var high := Or(a / 2, b / 2);
      var low := if a % 2 == 1 || b % 2 == 1 then 1 else 0;
      assert Or(a, b) == 2 * high + low;
      assert (2 * high + low) / 2 == high && (2 * high + low) % 2 == low;
      if k > 0 { BitOr(a / 2, b / 2, k - 1); }
    }
  }

  lemma {:induction false} BitPow2(n: nat, k: nat)
    ensures Bit(Pow2(n), k) <==> k == n
  {
    if n == 0 {
      if k > 0 { ZeroHasNoBits(k - 1); }
    } else if k > 0 {
      BitPow2(n - 1, k - 1);
    }
  }

  lemma {:induction false} BitComplement(n: nat, a: nat, k: nat)
    requires a < Pow2(n) && k < n
    ensures Bit(Pow2(n) - 1 - a, k) <==> !Bit(a, k)
  {
    var half := Pow2(n - 1);
    assert Pow2(n) == 2 * half;
    var rest := Pow2(n) - 1 - a;
    assert rest / 2 == half - 1 - a / 2 && rest % 2 == 1 - a % 2;
    if k > 0 { BitComplement(n - 1, a / 2, k - 1); }
  }

  /** A word is determined by its bits. */
  lemma {:induction false} BitsDetermine(a: nat, b: nat)
    requires forall k: nat :: Bit(a, k) <==> Bit(b, k)
    ensures a == b
    decreases a + b
  {
    if a != 0 || b != 0 {
      assert Bit(a, 0) <==> Bit(b, 0);
      forall k: nat ensures Bit(a / 2, k) <==> Bit(b / 2, k) {
        assert Bit(a, k + 1) <==> Bit(b, k + 1);
      }
      BitsDetermine(a / 2, b / 2);
    }
  }

  lemma {:induction false} Pow2Values()
    ensures Pow2(5) == 32 && Pow2(8) == 0x100 && Pow2(12) == 0x1000
    ensures Pow2(16) == 0x1_0000 && Pow2(32) == 0x1_0000_0000
  {
    assert Pow2(4) == 16;
    assert Pow2(8) == 16 * 16;
    assert Pow2(12) == 16 * 16 * 16;
    assert Pow2(16) == 0x1_0000;
    assert Pow2(20) == 0x10_0000;
    assert Pow2(24) == 0x100_0000;
    assert Pow2(28) == 0x1000_0000;
    assert Pow2(32) == 0x1_0000_0000;
  }

  lemma {:induction false} Pow2Monotone(a: nat, b: nat)
    requires a <= b
    ensures Pow2(a) <= Pow2(b)
  {
    if a < b { Pow2Monotone(a, b - 1); }
  }

  /** A bit of a word below 2^n lies below n. */
  lemma {:induction false} HighBitsClear(n: nat, a: nat, k: nat)
    requires a < Pow2(n) && n <= k
    ensures !Bit(a, k)
  {
    if n == 0 {
      ZeroHasNoBits(k);
    } else {
      HighBitsClear(n - 1, a / 2, k - 1);
    }
  }

  lemma {:induction false} OrBound(a: nat, b: nat, n: nat)
    requires a < Pow2(n) && b < Pow2(n)
    ensures Or(a, b) < Pow2(n)
  {
    if n > 0 { OrBound(a / 2, b / 2, n - 1); }
  }

  lemma {:induction false} AndBound(a: nat, b: nat)
    ensures And(a, b) <= a
  {
    if a != 0 && b != 0 { AndBound(a / 2, b / 2); }
  }

  /** Or of a multiple of 2^n with something below 2^n is addition. */
  lemma {:induction false} OrDisjoint(n: nat, a: nat, b: nat)
    requires b < Pow2(n)
    ensures Or(a * Pow2(n), b) == a * Pow2(n) + b
    decreases n
  {
    if n == 0 {
      OrZero(a);
    } else {
      var hi := a * Pow2(n);
      assert hi == 2 * (a * Pow2(n - 1));
      OrDisjoint(n - 1, a, b / 2);
    }
  }

  /** The case of a frame number and 12 flag bits. */
  lemma OrFlags(page: nat, flags: nat)
    requires flags < 0x1000
    ensures Or(page * 0x1000, flags) == page * 0x1000 + flags
  {
    Pow2Values();
    OrDisjoint(12, page, flags);
    assert page * Pow2(12) == page * 0x1000;
  }

  lemma {:induction false} OrZero(a: nat)
    ensures Or(a, 0) == a
  {
    if a != 0 { OrZero(a / 2); }
  }

  /** `w | (1 << k)` */
  function SetBit(w: Word, k: nat): (r: Word)
    requires k < 32
    ensures forall j: nat :: Bit(r, j) <==> Bit(w, j) || j == k
  {
    MaskInRange(k);
    Pow2Values();
    OrBound(w, Pow2(k), 32);
    forall j: nat ensures Bit(Or(w, Pow2(k)), j) <==> Bit(w, j) || j == k {
      BitOr(w, Pow2(k), j);
      BitPow2(k, j);
    }
    Or(w, Pow2(k))
  }

  /** `w & ~(1 << k)` */
  function ClearBit(w: Word, k: nat): (r: Word)
    requires k < 32
    ensures forall j: nat :: Bit(r, j) <==> Bit(w, j) && j != k
  {
    MaskInRange(k);
    AndBound(w, Not(Pow2(k)));
    forall j: nat ensures Bit(And(w, Not(Pow2(k))), j) <==> Bit(w, j) && j != k {
      BitAnd(w, Not(Pow2(k)), j);
      Pow2Values();
      if j < 32 {
        BitComplement(32, Pow2(k), j);
        BitPow2(k, j);
      } else {
        HighBitsClear(32, w, j);
      }
    }
    And(w, Not(Pow2(k)))
  }

  lemma MaskInRange(k: nat)
    requires k < 32
    ensures Pow2(k) < 0x1_0000_0000
  {
    Pow2Values();
    Pow2Monotone(k + 1, 32);
  }

  /** The test `(w & (1 << k)) == 0`. */
  lemma MaskTest(w: nat, k: nat)
    ensures And(w, Pow2(k)) == 0 <==> !Bit(w, k)
  {
  }

  /** A non-zero word has a set bit; the lowest one is returned. */
  lemma {:induction false} SomeBit(w: nat) returns (k: nat)
    requires w != 0
    ensures Bit(w, k)
    ensures forall j: nat :: j < k ==> !Bit(w, j)
    ensures forall n: nat :: w < Pow2(n) ==> k < n
  {
    if w % 2 == 1 {
      k := 0;
    } else {
      var k' := SomeBit(w / 2);
      k := k' + 1;
      forall n: nat | w < Pow2(n) ensures k < n {
        if n > 0 { assert w / 2 < Pow2(n - 1); }
      }
    }
  }

  /** Clearing a set bit and setting it again gives the word back. */
  lemma SetAfterClear(w: Word, k: nat)
    requires k < 32 && Bit(w, k)
    ensures SetBit(ClearBit(w, k), k) == w
  {
    BitsDetermine(SetBit(ClearBit(w, k), k), w);
  }
}
