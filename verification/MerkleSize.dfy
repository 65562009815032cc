/** How many bytes a partial Merkle tree takes on the wire, and when the size that
    src/merkleblock.h guarantees is kept. */
module MerkleSize {
  import opened Common
  import opened Merkle
  import opened Powers

  /** The length of the prefix of a vector. */
  function PrefixSize(n: nat): nat {
    if n < 253 then 1 else if n <= 0xFFFF then 3 else if n <= 0xFFFF_FFFF then 5 else 9
  }

  /** The transaction count, the hashes and the packed flag bits. */
  function EncodedSize(t: Partial): nat {
    var bytes := (|t.bits| + 7) / 8;
    4 + PrefixSize(|t.hashes|) + 32 * |t.hashes| + PrefixSize(bytes) + bytes
  }

  /** 10 + 32.25 N, rounded up. */
  function GuaranteedSize(hashes: nat): nat { 10 + 32 * hashes + (hashes + 3) / 4 }

  /** Flag bytes for a number of hashes and of visited nodes with a single child. */
  function FlagBytes(hashes: nat, lone: nat): nat { (2 * hashes + 6 + lone) / 8 }

  /** How many such nodes the guarantee leaves room for. */
  function LoneAllowed(hashes: nat, lone: nat): int {
    1 + 2 * (4 * ((hashes + 3) / 4) - hashes) + 8 * (6 - PrefixSize(hashes) - PrefixSize(FlagBytes(hashes, lone)))
  }

  /** The exact size of what is built. */
  lemma SizeExact(H: Hash2, txids: seq<Digest>, match_: seq<bool>, tr: Tree, h: nat)
    requires Regular(tr, h)
    ensures var t := Build(H, txids, match_, tr); var b := FlagBytes(|t.hashes|, LoneNodes(match_, tr));
            |t.hashes| > 0 && EncodedSize(t) == 4 + PrefixSize(|t.hashes|) + 32 * |t.hashes| + PrefixSize(b) + b
  {
    HashesPerLeaf(H, txids, match_, tr, h);
    BitCount(H, txids, match_, tr);
  }

  /** The guarantee is kept if and only if there are not too many nodes with a single child. */
  lemma GuaranteeExact(H: Hash2, txids: seq<Digest>, match_: seq<bool>, tr: Tree, h: nat)
    requires Regular(tr, h)
    ensures var t := Build(H, txids, match_, tr); var lone := LoneNodes(match_, tr);
            EncodedSize(t) <= GuaranteedSize(|t.hashes|) <==> lone <= LoneAllowed(|t.hashes|, lone)
  {
    SizeExact(H, txids, match_, tr, h);
  }

  // ---------------------------------------------------------------- nodes with a single child

  /** A node whose range is complete has no node with a single child below it. */
  lemma {:induction false} FullHasNone(match_: seq<bool>, n: nat, h: nat, pos: nat)
    requires pos + 1 < Width(n, h)
    ensures LoneNodes(match_, Shape(n, h, pos)) == 0
    decreases h
  {
    if h > 0 {
      FullHasNone(match_, n, h - 1, 2 * pos);
      FullHasNone(match_, n, h - 1, 2 * pos + 1);
    }
  }

  /** The levels below h with an odd number of nodes. */
  function OddLevels(n: nat, h: nat): nat {
    if h == 0 then 0 else OddLevels(n, h - 1) + Width(n, h - 1) % 2
  }

  /** Only the last node of a level can have a single child, and it has if and only if the
      level below is odd. */
  lemma {:induction false} LoneLast(match_: seq<bool>, n: nat, h: nat)
    requires n > 0
    ensures Width(n, h) > 0 && LoneNodes(match_, Shape(n, h, Width(n, h) - 1)) <= OddLevels(n, h)
    decreases h
  {
    WidthPositive(n, h);
    if h > 0 {
      LoneLast(match_, n, h - 1);
      var w, pos := Width(n, h - 1), Width(n, h) - 1;
      if w % 2 == 0 {
        assert 2 * pos + 1 == w - 1;
        FullHasNone(match_, n, h - 1, 2 * pos);
      } else {
        assert 2 * pos == w - 1;
      }
    }
  }

  lemma {:induction false} OddLevelsBound(n: nat, h: nat)
    ensures OddLevels(n, h) <= h
  {
    if h > 0 { OddLevelsBound(n, h - 1); }
  }

  lemma {:induction false} HeightBound(n: nat, h: nat, k: nat)
    requires h <= k && Width(n, k) <= 1
    ensures HeightFrom(n, h) <= k
    decreases k - h
  {
    if h < k { HeightBound(n, h + 1, k); }
  }

  /** A block within the count limit has at most 15 of them. */
  lemma FewLone(match_: seq<bool>, n: nat)
    requires 0 < n <= MAX_TRANSACTIONS
    ensures LoneNodes(match_, Whole(n)) <= OddLevels(n, Height(n)) <= 15
  {
    var k, h := 15, Height(n);
    assert h <= k by {
      assert Pow2(k) >= 16666 by { Pow2Values(); assert Pow2(16) == 2 * Pow2(15); }
      FirstInRange(n, k, 1);
      HeightBound(n, 0, k);
    }
    assert Width(n, h) == 1 by { WholeRange(n); }
    LoneLast(match_, n, h);
    OddLevelsBound(n, h);
  }

  /** Up to 252 hashes the guarantee is always kept. */
  lemma SmallKeepsGuarantee(H: Hash2, txids: seq<Digest>, match_: seq<bool>)
    requires 0 < |txids| <= MAX_TRANSACTIONS
    ensures var t := Build(H, txids, match_, Whole(|txids|));
            |t.hashes| < 253 ==> EncodedSize(t) <= GuaranteedSize(|t.hashes|)
  {
    WholeRange(|txids|);
    SizeExact(H, txids, match_, Whole(|txids|), Height(|txids|));
    FewLone(match_, |txids|);
  }

  /** So it is, for any number of hashes that two bytes hold, with at most one such node. */
  lemma OneKeepsGuarantee(H: Hash2, txids: seq<Digest>, match_: seq<bool>, tr: Tree, h: nat)
    requires Regular(tr, h)
    ensures var t := Build(H, txids, match_, tr);
            |t.hashes| <= 0xFFFF && LoneNodes(match_, tr) <= 1 ==> EncodedSize(t) <= GuaranteedSize(|t.hashes|)
  {
    SizeExact(H, txids, match_, tr, h);
  }

  // ---------------------------------------------------------------- where it fails

  ghost predicate AllMatched(match_: seq<bool>, tr: Tree) {
    End(tr) <= |match_| && forall i :: Start(tr) <= i < End(tr) ==> match_[i]
  }

  lemma {:induction false} AllMatchedAny(match_: seq<bool>, tr: Tree, h: nat)
    requires Regular(tr, h) && AllMatched(match_, tr)
    ensures Any(match_, tr)
    decreases tr
  {
    match tr
    case Leaf(_) =>
    case Solo(c) => AllMatchedAny(match_, c, h - 1);
    case Pair(l, r) =>
      StartBeforeEnd(l, h - 1);
      StartBeforeEnd(r, h - 1);
      AllMatchedAny(match_, l, h - 1);
  }

  /** With everything matched every leaf is a stored hash. */
  lemma {:induction false} AllMatchedHashes(H: Hash2, txids: seq<Digest>, match_: seq<bool>, tr: Tree, h: nat)
    requires Regular(tr, h) && AllMatched(match_, tr)
    ensures |Build(H, txids, match_, tr).hashes| == End(tr) - Start(tr)
    decreases tr
  {
    AllMatchedAny(match_, tr, h);
    StartBeforeEnd(tr, h);
    match tr
    case Leaf(_) =>
    case Solo(c) => AllMatchedHashes(H, txids, match_, c, h - 1);
    case Pair(l, r) =>
      StartBeforeEnd(l, h - 1);
      StartBeforeEnd(r, h - 1);
      AllMatchedHashes(H, txids, match_, l, h - 1);
      AllMatchedHashes(H, txids, match_, r, h - 1);
  }

  lemma {:induction false} AllMatchedLone(match_: seq<bool>, n: nat, h: nat)
    requires 0 < n == |match_| && forall i :: 0 <= i < n ==> match_[i]
    ensures Width(n, h) > 0 && LoneNodes(match_, Shape(n, h, Width(n, h) - 1)) == OddLevels(n, h)
    decreases h
  {
    WidthPositive(n, h);
    if h > 0 {
      AllMatchedLone(match_, n, h - 1);
      var w, pos := Width(n, h - 1), Width(n, h) - 1;
      if w % 2 == 0 {
        assert 2 * pos + 1 == w - 1;
        FullHasNone(match_, n, h - 1, 2 * pos);
      } else {
        assert 2 * pos == w - 1;
        ShapeRange(n, h, pos);
        AllMatchedAny(match_, Shape(n, h, pos), h);
      }
    }
  }

  lemma Widths1012()
    ensures Width(1012, 1) == 506 && Width(1012, 2) == 253 && Width(1012, 3) == 127 && Width(1012, 4) == 64
    ensures Width(1012, 5) == 32 && Width(1012, 6) == 16 && Width(1012, 7) == 8 && Width(1012, 8) == 4
    ensures Width(1012, 9) == 2 && Width(1012, 10) == 1
  {
  }

  lemma Levels1012(n: nat)
    requires n == 1012
    ensures Height(n) == 10 && OddLevels(n, Height(n)) == 2
  {
    Widths1012();
    assert HeightFrom(1012, 10) == 10 && HeightFrom(1012, 9) == 10 && HeightFrom(1012, 8) == 10;
    assert HeightFrom(1012, 7) == 10 && HeightFrom(1012, 6) == 10 && HeightFrom(1012, 5) == 10;
    assert HeightFrom(1012, 4) == 10 && HeightFrom(1012, 3) == 10 && HeightFrom(1012, 2) == 10;
    assert HeightFrom(1012, 1) == 10;
    assert OddLevels(1012, 2) == 0 && OddLevels(1012, 4) == 2 && OddLevels(1012, 6) == 2 && OddLevels(1012, 8) == 2;
  }

  /** With everything matched all counts depend on the number of transactions only. */
  lemma AllMatchedCounts(H: Hash2, txids: seq<Digest>, match_: seq<bool>)
    requires |txids| == |match_| > 0 && forall i :: 0 <= i < |match_| ==> match_[i]
    ensures |Build(H, txids, match_, Whole(|txids|)).hashes| == |txids|
    ensures LoneNodes(match_, Whole(|txids|)) == OddLevels(|txids|, Height(|txids|))
    ensures Regular(Whole(|txids|), Height(|txids|))
  {
    var n := |txids|;
    var tr, h := Whole(n), Height(n);
    WholeRange(n);
    assert AllMatched(match_, tr);
    AllMatchedHashes(H, txids, match_, tr, h);
    assert LoneNodes(match_, tr) == OddLevels(n, h) by { AllMatchedLone(match_, n, h); }
  }

  /** 1012 transactions, all matched: one byte more than guaranteed. */
  lemma GuaranteeFails(H: Hash2, txids: seq<Digest>, match_: seq<bool>)
    requires |txids| == |match_| == 1012 && forall i :: 0 <= i < |match_| ==> match_[i]
    ensures var t := Build(H, txids, match_, Whole(|txids|));
            |t.hashes| == 1012 && EncodedSize(t) == 32648 && GuaranteedSize(|t.hashes|) == 32647
  {
    var n := |txids|;
    AllMatchedCounts(H, txids, match_);
    Levels1012(n);
    SizeExact(H, txids, match_, Whole(n), Height(n));
  }
}
