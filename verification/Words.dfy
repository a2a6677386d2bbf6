/** Unsigned 64-bit words and the bit operations the kernels use on them.

    A word is a natural number below 2^64; the operators are defined digit by digit, so every
    fact below is about the number itself and holds for all words. */
module Words {
  const U32_MAX: nat := 0xFFFF_FFFF
  const USIZE_MAX: nat := 0xFFFF_FFFF_FFFF_FFFF

  type u64 = w: nat | w <= 0xFFFF_FFFF_FFFF_FFFF

  // Binary digit k of w.
  predicate Bit(w: nat, k: nat) {
    if k == 0 then w % 2 == 1 else Bit(w / 2, k - 1)
  }

  function Pow2(k: nat): (p: nat)
    ensures p > 0
  {
    if k == 0 then 1 else 2 * Pow2(k - 1)
  }

  function Digit(b: bool): nat { if b then 1 else 0 }

  function And(a: nat, b: nat): nat {
    if a == 0 || b == 0 then 0 else Digit(a % 2 == 1 && b % 2 == 1) + 2 * And(a / 2, b / 2)
  }

  function Or(a: nat, b: nat): nat {
    if a == 0 then b else if b == 0 then a else Digit(a % 2 == 1 || b % 2 == 1) + 2 * Or(a / 2, b / 2)
  }

  // Complement of the low n digits of w.
  function Not(w: nat, n: nat): nat {
    if n == 0 then 0 else Digit(w % 2 == 0) + 2 * Not(w / 2, n - 1)
  }

  function ShiftRight(w: nat, k: nat): nat {
    if k == 0 then w else ShiftRight(w / 2, k - 1)
  }

  // `wrapping_sub` on 64-bit lanes.
  function SubWrapping(a: u64, b: u64): u64 { if a >= b then a - b else a + 0x1_0000_0000_0000_0000 - b }

  // u64::trailing_zeros
  function TrailingZeros(w: nat): (k: nat)
    requires w > 0
    ensures Bit(w, k)
    ensures forall j :: 0 <= j < k ==> !Bit(w, j)
  {
    if w % 2 == 1 then 0 else
      var k := 1 + TrailingZeros(w / 2);
      assert forall j :: 0 < j < k ==> (Bit(w, j) <==> Bit(w / 2, j - 1));
      k
  }

  lemma {:induction false} ZeroBit(k: nat)
    ensures !Bit(0, k)
  { if k > 0 { ZeroBit(k - 1); } }

  lemma {:induction false} AndBit(a: nat, b: nat, k: nat)
    ensures Bit(And(a, b), k) <==> Bit(a, k) && Bit(b, k)
  {
    ZeroBit(k);
    if a != 0 && b != 0 && k > 0 { AndBit(a / 2, b / 2, k - 1); }
  }

  lemma {:induction false} OrBit(a: nat, b: nat, k: nat)
    ensures Bit(Or(a, b), k) <==> Bit(a, k) || Bit(b, k)
  {
    ZeroBit(k);
    if a != 0 && b != 0 && k > 0 { OrBit(a / 2, b / 2, k - 1); }
  }

  lemma {:induction false} NotBit(w: nat, n: nat, k: nat)
    ensures Bit(Not(w, n), k) <==> k < n && !Bit(w, k)
  {
    if n == 0 { ZeroBit(k); } else if k > 0 { NotBit(w / 2, n - 1, k - 1); }
  }

  lemma {:induction false} Pow2Bit(k: nat, j: nat)
    ensures Bit(Pow2(k), j) <==> j == k
  {
    if k == 0 { if j > 0 { ZeroBit(j - 1); } } else if j > 0 { Pow2Bit(k - 1, j - 1); }
  }

  lemma {:induction false} LowOnesBit(v: nat, j: nat)
    ensures Bit(Pow2(v) - 1, j) <==> j < v
  {
    if v == 0 { ZeroBit(j); } else if j > 0 { LowOnesBit(v - 1, j - 1); }
  }

  lemma {:induction false} AndPow2(w: nat, k: nat)
    ensures And(w, Pow2(k)) == if Bit(w, k) then Pow2(k) else 0
  {
    if w == 0 { ZeroBit(k); } else if k == 0 { assert And(w / 2, 0) == 0; } else { AndPow2(w / 2, k - 1); }
  }

  lemma {:induction false} AndOne(w: nat)
    ensures And(w, 1) == w % 2
  {}

  lemma {:induction false} ShiftRightBit(w: nat, k: nat)
    ensures And(ShiftRight(w, k), 1) == Digit(Bit(w, k))
  {
    if k == 0 { AndOne(w); } else { ShiftRightBit(w / 2, k - 1); }
  }

  // `w & (w - 1)` clears exactly the lowest set digit.
  lemma {:induction false} ClearLowest(w: nat, j: nat)
    requires w > 0
    ensures Bit(And(w, w - 1), j) <==> Bit(w, j) && j != TrailingZeros(w)
  {
    AndBit(w, w - 1, j);
    if w % 2 == 1 {
      if j > 0 { assert w / 2 == (w - 1) / 2; }
    } else {
      assert (w - 1) / 2 == w / 2 - 1;
      if j > 0 {
        ClearLowest(w / 2, j - 1);
        AndBit(w / 2, w / 2 - 1, j - 1);
      }
    }
  }

  lemma {:induction false} AndAtMost(a: nat, b: nat)
    ensures And(a, b) <= b
  {
    if a != 0 && b != 0 { AndAtMost(a / 2, b / 2); }
  }

  lemma {:induction false} BitBelow(w: nat, n: nat, k: nat)
    requires w < Pow2(n) && Bit(w, k)
    ensures k < n
  {
    if n == 0 { ZeroBit(k); } else if k > 0 { BitBelow(w / 2, n - 1, k - 1); }
  }

  lemma {:induction false} OrBound(a: nat, b: nat, n: nat)
    requires a < Pow2(n) && b < Pow2(n)
    ensures Or(a, b) < Pow2(n)
  {
    if a != 0 && b != 0 { OrBound(a / 2, b / 2, n - 1); }
  }

  lemma {:induction false} NotBound(w: nat, n: nat)
    ensures Not(w, n) < Pow2(n)
  {
    if n == 0 {
    } else {
      NotBound(w / 2, n - 1);
    }
  }

  lemma {:induction false} Pow2Mono(j: nat, k: nat)
    requires j <= k
    ensures Pow2(j) <= Pow2(k)
  {
    if j < k { Pow2Mono(j, k - 1); }
  }

  lemma Pow2Of64()
    ensures Pow2(64) == 0x1_0000_0000_0000_0000
  {
    assert Pow2(8) == 256;
    assert Pow2(16) == 65536;
    assert Pow2(24) == 0x100_0000;
    assert Pow2(32) == 0x1_0000_0000;
    assert Pow2(40) == 0x100_0000_0000;
    assert Pow2(48) == 0x1_0000_0000_0000;
    assert Pow2(56) == 0x100_0000_0000_0000;
  }
}
