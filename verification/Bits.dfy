/** Binary digits of natural numbers: shifts, bit counts and single bits. */
module Bits {
  import opened Arithmetic

  function TwoTo(k: nat): (r: nat)
    ensures r > 0
  {
    if k == 0 then 1 else 2 * TwoTo(k - 1)
  }

  /** The position of the highest set bit, plus one. */
  function BitLength(x: nat): nat {
    if x == 0 then 0 else 1 + BitLength(x / 2)
  }

  /** x >> k */
  function Shr(x: nat, k: nat): nat {
    if k == 0 then x else Shr(x / 2, k - 1)
  }

  /** x mod 2^k */
  function Low(x: nat, k: nat): (r: nat)
    ensures r < TwoTo(k)
  {
    if k == 0 then 0 else x % 2 + 2 * Low(x / 2, k - 1)
  }

  function GetBit(x: nat, k: nat): (r: nat)
    ensures r < 2
  {
    Shr(x, k) % 2
  }

  lemma ByteWidth()
    ensures TwoTo(8) == 256
  {
    assert TwoTo(4) == 16;
  }

  lemma {:induction false} TwoToSum(j: nat, k: nat)
    ensures TwoTo(j + k) == TwoTo(j) * TwoTo(k)
  {
    if j == 0 {
      assert TwoTo(0) == 1;
    } else {
      TwoToSum(j - 1, k);
      Associate(2, TwoTo(j - 1), TwoTo(k));
    }
  }

  lemma {:induction false} TwoToExceeds(k: nat)
    ensures TwoTo(k) > k
  {
    if k > 0 { TwoToExceeds(k - 1); }
  }

  /** The digits from k + 1 on are the halved digits from k on. */
  lemma {:induction false} ShrSucc(x: nat, k: nat)
    ensures Shr(x, k + 1) == Shr(x, k) / 2
  {
    if k > 0 { ShrSucc(x / 2, k - 1); }
  }

  /** Shifting splits a number into its low digits and the rest. */
  lemma {:induction false} ShrSplit(x: nat, k: nat)
    ensures x == TwoTo(k) * Shr(x, k) + Low(x, k)
  {
    if k > 0 {
      ShrSplit(x / 2, k - 1);
      Associate(2, TwoTo(k - 1), Shr(x, k));
    }
  }

  lemma {:induction false} ShrPlusPower(x: nat, k: nat)
    ensures Shr(x + TwoTo(k), k) == Shr(x, k) + 1
  {
    if k > 0 {
      assert (x + TwoTo(k)) / 2 == x / 2 + TwoTo(k - 1);
      ShrPlusPower(x / 2, k - 1);
    }
  }

  lemma {:induction false} ShrSmall(x: nat, k: nat)
    requires BitLength(x) <= k
    ensures Shr(x, k) == 0 && x < TwoTo(k)
  {
    if x > 0 {
      ShrSmall(x / 2, k - 1);
    } else if k > 0 {
      ShrSmall(0, k - 1);
    }
  }

  /** What the shift, the low digits and single digits are in numbers. */
  lemma DigitsAre(x: nat, k: nat)
    ensures Shr(x, k) == x / TwoTo(k) && Low(x, k) == x % TwoTo(k) && GetBit(x, k) == x / TwoTo(k) % 2
  {
    ShrSplit(x, k);
    Divided(x, TwoTo(k), Shr(x, k), Low(x, k));
  }

  lemma Doubled(b: nat, t: nat)
    ensures 2 * (b * t) == b * (2 * t)
  {
  }

  lemma {:induction false} DigitOfLow(x: nat, k: nat)
    ensures Low(x, k + 1) == GetBit(x, k) * TwoTo(k) + Low(x, k)
  {
    if k == 0 {
      assert TwoTo(0) == 1;
    } else {
      DigitOfLow(x / 2, k - 1);
      Doubled(GetBit(x, k), TwoTo(k - 1));
      hide TwoTo, Shr;
    }
  }

  lemma {:induction false} BitLengthBounds(x: nat)
    requires x > 0
    ensures BitLength(x) > 0 && TwoTo(BitLength(x) - 1) <= x < TwoTo(BitLength(x))
  {
    if x > 1 { BitLengthBounds(x / 2); } else { assert BitLength(0) == 0; }
  }

  lemma TwoToNext(k: nat)
    ensures TwoTo(k + 1) == 2 * TwoTo(k)
  {
  }

  lemma {:induction false} TwoToGrows(j: nat, k: nat)
    requires j <= k
    ensures TwoTo(j) <= TwoTo(k)
  {
    if j < k { TwoToGrows(j, k - 1); }
  }
}
