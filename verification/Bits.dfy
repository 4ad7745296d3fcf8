/** Bitwise operators on unsigned words, with what they do to the masks that
    CIDR notation can write: ones followed by zeros. */
module Bits {

  function Pow2(k: nat): (r: nat)
    ensures r > 0
  {
    if k == 0 then 1 else 2 * Pow2(k - 1)
  }

  // Bitwise and, or, complement on the w low bits.
  function And(a: nat, b: nat, w: nat): (r: nat)
    ensures r < Pow2(w)
  {
    if w == 0 then 0
    else 2 * And(a / 2, b / 2, w - 1) + (if a % 2 == 1 && b % 2 == 1 then 1 else 0)
  }

  function Or(a: nat, b: nat, w: nat): (r: nat)
    ensures r < Pow2(w)
  {
    if w == 0 then 0
    else 2 * Or(a / 2, b / 2, w - 1) + (if a % 2 == 1 || b % 2 == 1 then 1 else 0)
  }

  function Not(a: nat, w: nat): (r: nat)
    ensures r < Pow2(w)
  {
    if w == 0 then 0
    else 2 * Not(a / 2, w - 1) + (if a % 2 == 1 then 0 else 1)
  }

  // The bit of weight 2^i.
  predicate Bit(a: nat, i: nat)
  {
    if i == 0 then a % 2 == 1 else Bit(a / 2, i - 1)
  }

  lemma {:induction false} BitwiseExact(a: nat, b: nat, w: nat, i: nat)
    requires i < w
    ensures Bit(And(a, b, w), i) <==> Bit(a, i) && Bit(b, i)
    ensures Bit(Or(a, b, w), i) <==> Bit(a, i) || Bit(b, i)
    ensures Bit(Not(a, w), i) <==> !Bit(a, i)
  {
    if i > 0 {
      BitwiseExact(a / 2, b / 2, w - 1, i - 1);
      assert And(a, b, w) / 2 == And(a / 2, b / 2, w - 1);
      assert Or(a, b, w) / 2 == Or(a / 2, b / 2, w - 1);
      assert Not(a, w) / 2 == Not(a / 2, w - 1);
    }
  }

  // The first and the last integer of the aligned block of 2^h that holds v:
  // v with its h low bits cleared, and set.
  function BlockStart(v: nat, h: nat): (r: nat)
    ensures r <= v
  {
    if h == 0 then v else 2 * BlockStart(v / 2, h - 1)
  }

  function BlockEnd(v: nat, h: nat): (r: nat)
    ensures r >= v
  {
    if h == 0 then v else 2 * BlockEnd(v / 2, h - 1) + 1
  }

  lemma {:induction false} BlockSize(v: nat, h: nat)
    ensures BlockEnd(v, h) == BlockStart(v, h) + Pow2(h) - 1
  {
    if h > 0 {
      BlockSize(v / 2, h - 1);
    }
  }

  // Blocks are intervals: everything from the start to the end is in the block.
  lemma {:induction false} BlockIsInterval(v: nat, x: nat, h: nat)
    ensures BlockStart(v, h) <= x <= BlockEnd(v, h) <==> BlockStart(x, h) == BlockStart(v, h)
  {
    if h > 0 {
      BlockIsInterval(v / 2, x / 2, h - 1);
    }
  }

  // The block of a word with k more bits appended.
  lemma {:induction false} BlockOfAppended(q: nat, b: nat, k: nat, h: nat)
    requires b < Pow2(k)
    ensures h >= k ==> BlockStart(Pow2(k) * q + b, h) == Pow2(k) * BlockStart(q, h - k)
    ensures h >= k ==> BlockEnd(Pow2(k) * q + b, h) == Pow2(k) * BlockEnd(q, h - k) + Pow2(k) - 1
    ensures h < k ==> BlockStart(Pow2(k) * q + b, h) == Pow2(k) * q + BlockStart(b, h)
    ensures h < k ==> BlockEnd(Pow2(k) * q + b, h) == Pow2(k) * q + BlockEnd(b, h)
  {
    if k > 0 && h > 0 {
      var p := Pow2(k - 1);
      Halve(p, q, b);
      BlockOfAppended(q, b / 2, k - 1, h - 1);
      if h >= k {
        Twice(p, BlockStart(q, h - k));
        Twice(p, BlockEnd(q, h - k));
      } else {
        Twice(p, q);
      }
    }
  }

  lemma Twice(p: nat, x: nat)
    ensures 2 * (p * x) == (2 * p) * x
  {
  }

  lemma Halve(p: nat, q: nat, b: nat)
    ensures ((2 * p) * q + b) / 2 == p * q + b / 2
  {
    Twice(p, q);
  }

  // Or with the k low bits set gives the end of the block of 2^k.
  lemma {:induction false} OrLowBits(a: nat, k: nat, w: nat)
    requires k <= w && a < Pow2(w)
    ensures Or(a, Pow2(k) - 1, w) == BlockEnd(a, k)
  {
    if w > 0 {
      OrLowBits(a / 2, if k == 0 then 0 else k - 1, w - 1);
      if k > 0 {
        assert (Pow2(k) - 1) / 2 == Pow2(k - 1) - 1;
      }
    }
  }

  // And with the k low bits clear gives the start of the block of 2^k.
  lemma {:induction false} AndHighBits(a: nat, k: nat, w: nat)
    requires k <= w && a < Pow2(w)
    ensures Pow2(k) <= Pow2(w)
    ensures And(a, Pow2(w) - Pow2(k), w) == BlockStart(a, k)
  {
    if w > 0 {
      AndHighBits(a / 2, if k == 0 then 0 else k - 1, w - 1);
      if k == 0 {
        assert (Pow2(w) - 1) / 2 == Pow2(w - 1) - 1;
      } else {
        assert (Pow2(w) - Pow2(k)) / 2 == Pow2(w - 1) - Pow2(k - 1);
      }
    }
  }

  lemma {:induction false} NotIsComplement(a: nat, w: nat)
    requires a < Pow2(w)
    ensures Not(a, w) == Pow2(w) - 1 - a
  {
    if w > 0 {
      NotIsComplement(a / 2, w - 1);
    }
  }
}
