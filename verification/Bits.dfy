/** Binary digits of machine words. */
module Bits {

  function Pow2(n: nat): (p: nat)
    ensures p >= 1
  {
    if n == 0 then 1 else 2 * Pow2(n - 1)
  }

  predicate Bit(w: nat, i: nat)
    decreases i
  {
    if i == 0 then w % 2 == 1 else Bit(w / 2, i - 1)
  }

  /** `u64::trailing_ones`. */
  function TrailingOnes(w: nat): (r: nat) {
    if w % 2 == 0 then 0 else 1 + TrailingOnes(w / 2)
  }

  lemma {:induction false} TrailingOnesIsLowestZero(w: nat, n: nat)
    requires w < Pow2(n) - 1
    ensures TrailingOnes(w) < n && !Bit(w, TrailingOnes(w))
    ensures forall i | 0 <= i < TrailingOnes(w) :: Bit(w, i)
  {
    if w % 2 == 1 {
      TrailingOnesIsLowestZero(w / 2, n - 1);
      forall i | 0 <= i < TrailingOnes(w) ensures Bit(w, i) {
        if i > 0 { assert Bit(w / 2, i - 1); }
      }
    }
  }

  lemma {:induction false} AllOnes(n: nat, i: nat)
    requires i < n
    ensures Bit(Pow2(n) - 1, i)
  {
    if i > 0 {
      AllOnes(n - 1, i - 1);
      assert (Pow2(n) - 1) / 2 == Pow2(n - 1) - 1;
    }
  }

  /** Setting a clear bit of an `n`-bit word. */
  lemma {:induction false} SetBit(w: nat, n: nat, i: nat)
    requires w < Pow2(n) && i < n && !Bit(w, i)
    ensures w + Pow2(i) < Pow2(n)
    ensures forall j: nat :: Bit(w + Pow2(i), j) == (j == i || Bit(w, j))
  {
    var v := w + Pow2(i);
    if i > 0 {
      SetBit(w / 2, n - 1, i - 1);
      assert v / 2 == w / 2 + Pow2(i - 1) && v % 2 == w % 2;
      forall j: nat ensures Bit(v, j) == (j == i || Bit(w, j)) {
        if j > 0 { assert Bit(v / 2, j - 1) == (j - 1 == i - 1 || Bit(w / 2, j - 1)); }
      }
    } else {
      assert v / 2 == w / 2;
    }
  }

  /** Clearing a set bit by subtraction. */
  lemma {:induction false} ClearBit(w: nat, i: nat)
    requires Bit(w, i)
    ensures w >= Pow2(i)
    ensures forall j: nat :: Bit(w - Pow2(i), j) == (j != i && Bit(w, j))
  {
    if i > 0 {
      ClearBit(w / 2, i - 1);
      var v := w - Pow2(i);
      assert v / 2 == w / 2 - Pow2(i - 1) && v % 2 == w % 2;
      forall j: nat ensures Bit(v, j) == (j != i && Bit(w, j)) {
        if j > 0 { assert Bit(v / 2, j - 1) == (j - 1 != i - 1 && Bit(w / 2, j - 1)); }
      }
    } else {
      assert (w - 1) / 2 == w / 2;
    }
  }

  /** The bits of `x`, which has `n`, followed by those of `y`. */
  lemma {:induction false} BitJoin(x: nat, y: nat, n: nat, i: nat)
    requires x < Pow2(n)
    ensures Bit(x + Pow2(n) * y, i) == if i < n then Bit(x, i) else Bit(y, i - n)
    decreases n
  {
    if n > 0 {
      var p := Pow2(n - 1);
      assert x + Pow2(n) * y == x + 2 * (p * y);
      if i > 0 {
        assert (x + 2 * (p * y)) / 2 == x / 2 + p * y;
        BitJoin(x / 2, y, n - 1, i - 1);
      }
    }
  }
}
