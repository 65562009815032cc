/** Single bits of a byte. */
module Bytes {
  /** 1 shifted left by k. */
  function Mask(k: nat): bv8
    requires k < 8
  {
    if k == 0 then 1 else if k == 1 then 2 else if k == 2 then 4 else if k == 3 then 8
    else if k == 4 then 16 else if k == 5 then 32 else if k == 6 then 64 else 128
  }

  predicate IsSet(b: bv8, k: nat)
    requires k < 8
  {
    Mask(k) & b != 0
  }

  predicate OneBit(m: bv8) {
    m == 1 || m == 2 || m == 4 || m == 8 || m == 16 || m == 32 || m == 64 || m == 128
  }

  lemma MaskIsOneBit(j: nat, k: nat)
    requires j < 8 && k < 8
    ensures OneBit(Mask(k)) && (Mask(j) == Mask(k) ==> j == k)
  {
  }

  lemma OrLaw(b: bv8, m: bv8, n: bv8)
    requires OneBit(m) && OneBit(n)
    ensures (n & (b | m) != 0) <==> n == m || n & b != 0
  {
  }

  lemma AndLaw(b: bv8, m: bv8, n: bv8)
    requires OneBit(m) && OneBit(n)
    ensures (n & (b & !m) != 0) <==> n != m && n & b != 0
  {
  }

  lemma MasksDiffer(j: nat, k: nat)
    requires j < 8 && k < 8
    ensures Mask(j) == Mask(k) <==> j == k
  {
    MaskIsOneBit(j, k);
    MaskIsOneBit(k, j);
  }

  /** Setting one bit of a byte leaves the others alone. */
  lemma SetLaw(b: bv8, j: nat, k: nat)
    requires j < 8 && k < 8
    ensures IsSet(b | Mask(j), k) <==> k == j || IsSet(b, k)
  {
    MaskIsOneBit(0, j);
    MaskIsOneBit(0, k);
    MasksDiffer(j, k);
    OrLaw(b, Mask(j), Mask(k));
  }

  /** So does clearing one. */
  lemma ClearLaw(b: bv8, j: nat, k: nat)
    requires j < 8 && k < 8
    ensures IsSet(b & !Mask(j), k) <==> k != j && IsSet(b, k)
  {
    MaskIsOneBit(0, j);
    MaskIsOneBit(0, k);
    MasksDiffer(j, k);
    AndLaw(b, Mask(j), Mask(k));
  }

  lemma AllSet(k: nat)
    requires k < 8
    ensures IsSet(0xFF, k)
  {
    MaskIsOneBit(0, k);
  }
}
