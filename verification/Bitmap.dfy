/** Occupancy bitmaps and ranks, shared by both tries (src/hamt.c:31-45 and the
    get_popcount/get_pos helpers of src/hamt/hamt.c). A bitmap is a natural number read
    bit by bit from the low end. */
module Bitmap {
  import opened Words

  /** bitmap & (1 << i). */
  predicate Has(b: nat, i: nat) {
    if i == 0 then b % 2 == 1 else Has(b / 2, i - 1)
  }

  /** bitmap | (1 << i). */
  function Set(b: nat, i: nat): nat {
    if i == 0 then b / 2 * 2 + 1 else Set(b / 2, i - 1) * 2 + b % 2
  }

  /** bitmap & ~(1 << i). */
  function Clear(b: nat, i: nat): nat {
    if i == 0 then b / 2 * 2 else Clear(b / 2, i - 1) * 2 + b % 2
  }

  /** bitmap & ((1 << i) - 1). */
  function Below(b: nat, i: nat): nat {
    if i == 0 then 0 else Below(b / 2, i - 1) * 2 + b % 2
  }

  function Popcount(b: nat): nat {
    if b == 0 then 0 else b % 2 + Popcount(b / 2)
  }

  /** The row of a chunk: how many lower bits are set. */
  function Rank(b: nat, i: nat): nat {
    Popcount(Below(b, i))
  }

  predicate Fits(b: nat, bits: nat)
    decreases bits
  {
    if bits == 0 then b == 0 else Fits(b / 2, bits - 1)
  }

  /** The counting loop of hamt_popcount. */
  method CountBits(bitmap: nat) returns (count: nat)
    ensures count == Popcount(bitmap)
  {
    count := 0;
    var b := bitmap;
    while b != 0
      invariant count + Popcount(b) == Popcount(bitmap)
    {
      count := count + b % 2;
      b := b / 2;
    }
  }

  // ----- These are the machine's bit operations -----

  /** A bit is set when dividing by its weight leaves an odd number. */
  lemma {:induction false} HasIsBit(b: nat, i: nat)
    ensures Has(b, i) <==> b / Pow2(i) % 2 == 1
    decreases i
  {
    if i > 0 {
      HasIsBit(b / 2, i - 1);
      DivDiv(b, 2, Pow2(i - 1));
    }
  }

  /** Setting an absent bit adds its weight; clearing a present one subtracts it. */
  lemma {:induction false} BitsAreWeights(b: nat, i: nat)
    ensures !Has(b, i) ==> Set(b, i) == b + Pow2(i)
    ensures Has(b, i) ==> Clear(b, i) == b - Pow2(i)
    decreases i
  {
    if i > 0 {
      BitsAreWeights(b / 2, i - 1);
    }
  }

  /** The mask keeps the remainder. */
  lemma {:induction false} BelowIsRemainder(b: nat, i: nat)
    ensures Below(b, i) == b % Pow2(i)
    decreases i
  {
    if i > 0 {
      BelowIsRemainder(b / 2, i - 1);
      RemainderOfHalf(b, Pow2(i - 1));
    }
  }

  lemma RemainderOfHalf(b: nat, p: nat)
    requires p > 0
    ensures b % (2 * p) == 2 * (b / 2 % p) + b % 2
  {
    var q, r := b / 2 / p, b / 2 % p;
    var pq := p * q;
    assert b / 2 == pq + r;
    assert (2 * p) * q == 2 * pq;
    DivUnique(b, 2 * p, q, 2 * r + b % 2);
  }

  // ----- Ranks -----

  lemma {:induction false} RankBounds(b: nat, i: nat)
    ensures Rank(b, i) <= Popcount(b)
    ensures Has(b, i) ==> Rank(b, i) < Popcount(b)
    decreases i
  {
    if i == 0 {
      PopcountPositive(b);
    } else {
      RankBounds(b / 2, i - 1);
      RankStep(b, i);
    }
  }

  lemma PopcountPositive(b: nat)
    ensures b != 0 <==> Popcount(b) > 0
  {
  }

  lemma NoRowsNoBits(b: nat)
    requires Popcount(b) == 0
    ensures b == 0
  {
    if b > 0 {
      PopcountPositive(b);
    }
  }

  /** Splitting off the lowest bit. */
  lemma {:induction false} RankStep(b: nat, i: nat)
    requires i > 0
    ensures Rank(b, i) == b % 2 + Rank(b / 2, i - 1)
    ensures Popcount(b) == b % 2 + Popcount(b / 2)
  {
    hide Popcount;
    assert Below(b, i) == Below(b / 2, i - 1) * 2 + b % 2;
    PopcountHalf(b);
    PopcountDouble(Below(b / 2, i - 1), b % 2);
  }

  lemma PopcountDouble(low: nat, bit: nat)
    requires bit < 2
    ensures Popcount(low * 2 + bit) == bit + Popcount(low)
  {
    PopcountHalf(low * 2 + bit);
    assert (low * 2 + bit) / 2 == low && (low * 2 + bit) % 2 == bit;
  }

  /** Ranks of set bits are in the order of the bits. */
  lemma {:induction false} RankOrder(b: nat, i: nat, j: nat)
    requires i < j
    ensures Rank(b, i) <= Rank(b, j)
    ensures Has(b, i) ==> Rank(b, i) < Rank(b, j)
    decreases i
  {
    RankStep(b, j);
    if i > 0 {
      RankStep(b, i);
      RankOrder(b / 2, i - 1, j - 1);
    }
  }

  /** Every rank below the popcount is taken by a set bit. */
  function BitAt(b: nat, r: nat): (i: nat)
    requires r < Popcount(b)
    ensures Has(b, i) && Rank(b, i) == r
    decreases b
  {
    if b % 2 == 1 && r == 0 then 0
    else
      var i := BitAt(b / 2, r - b % 2);
      RankStep(b, i + 1);
      i + 1
  }

  /** On set bits the rank is one to one. */
  lemma RankInjective(b: nat, i: nat, j: nat)
    requires Has(b, i) && Has(b, j)
    ensures Rank(b, i) == Rank(b, j) <==> i == j
  {
    if i < j {
      RankOrder(b, i, j);
    } else if j < i {
      RankOrder(b, j, i);
    }
  }

  // ----- Inserting and deleting a bit -----

  lemma {:induction false} HasSet(b: nat, i: nat, j: nat)
    ensures Has(Set(b, i), j) <==> j == i || Has(b, j)
    decreases i
  {
    if i > 0 && j > 0 {
      HasSet(b / 2, i - 1, j - 1);
      assert Set(b, i) / 2 == Set(b / 2, i - 1);
    } else if j > 0 {
      assert Set(b, i) / 2 == b / 2;
    }
  }

  lemma {:induction false} HasClear(b: nat, i: nat, j: nat)
    ensures Has(Clear(b, i), j) <==> j != i && Has(b, j)
    decreases i
  {
    if i > 0 && j > 0 {
      HasClear(b / 2, i - 1, j - 1);
      assert Clear(b, i) / 2 == Clear(b / 2, i - 1);
    } else if j > 0 {
      assert Clear(b, i) / 2 == b / 2;
    }
  }

  /** A new bit moves the ranks above it up by one and leaves the others. */
  lemma {:induction false} RankSet(b: nat, i: nat, j: nat)
    requires !Has(b, i)
    ensures Rank(Set(b, i), j) == Rank(b, j) + (if i < j then 1 else 0)
    ensures Popcount(Set(b, i)) == Popcount(b) + 1
    decreases i
  {
    PopcountHalf(b);
    PopcountHalf(Set(b, i));
    if i == 0 {
      assert Set(b, i) / 2 == b / 2;
      if j > 0 {
        RankStep(b, j);
        RankStep(Set(b, i), j);
      }
    } else {
      assert Set(b, i) / 2 == Set(b / 2, i - 1);
      if j > 0 {
        RankStep(b, j);
        RankStep(Set(b, i), j);
        RankSet(b / 2, i - 1, j - 1);
      } else {
        RankSet(b / 2, i - 1, 0);
      }
    }
  }

  /** Deleting a bit moves the ranks above it down by one. */
  lemma {:induction false} RankClear(b: nat, i: nat, j: nat)
    requires Has(b, i)
    ensures Rank(Clear(b, i), j) == Rank(b, j) - (if i < j then 1 else 0)
    ensures Popcount(Clear(b, i)) == Popcount(b) - 1
    decreases i
  {
    PopcountHalf(b);
    PopcountHalf(Clear(b, i));
    if i == 0 {
      assert Clear(b, i) / 2 == b / 2;
      if j > 0 {
        RankStep(b, j);
        RankStep(Clear(b, i), j);
      }
    } else {
      assert Clear(b, i) / 2 == Clear(b / 2, i - 1);
      if j > 0 {
        RankStep(b, j);
        RankStep(Clear(b, i), j);
        RankClear(b / 2, i - 1, j - 1);
      } else {
        RankClear(b / 2, i - 1, 0);
      }
    }
  }

  lemma PopcountHalf(b: nat)
    ensures Popcount(b) == b % 2 + Popcount(b / 2)
  {
  }

  // ----- Width and equality -----

  lemma {:induction false} FitsIff(b: nat, bits: nat, i: nat)
    requires Fits(b, bits) && Has(b, i)
    ensures i < bits
    decreases i
  {
    NoBits(i);
    if bits > 0 && i > 0 {
      FitsIff(b / 2, bits - 1, i - 1);
    }
  }

  lemma {:induction false} NoBits(i: nat)
    ensures !Has(0, i) && Below(0, i) == 0
    decreases i
  {
    if i > 0 {
      NoBits(i - 1);
    }
  }

  lemma {:induction false} FitsKept(b: nat, bits: nat, i: nat)
    requires Fits(b, bits) && i < bits
    ensures Fits(Set(b, i), bits) && Fits(Clear(b, i), bits)
    decreases i
  {
    assert Set(b, i) / 2 == if i == 0 then b / 2 else Set(b / 2, i - 1);
    assert Clear(b, i) / 2 == if i == 0 then b / 2 else Clear(b / 2, i - 1);
    if i > 0 {
      FitsKept(b / 2, bits - 1, i - 1);
    }
  }

  /** Bitmaps with the same bits are the same number. */
  lemma {:induction false} SameBits(b: nat, c: nat)
    requires forall i: nat :: Has(b, i) <==> Has(c, i)
    ensures b == c
    decreases b + c
  {
    assert Has(b, 0) <==> Has(c, 0);
    if b != 0 || c != 0 {
      forall i: nat
        ensures Has(b / 2, i) <==> Has(c / 2, i)
      {
        assert Has(b, i + 1) <==> Has(c, i + 1);
      }
      SameBits(b / 2, c / 2);
    }
  }
}
