/** The block assembler (src/miner.cpp): greedy selection of packages, a candidate
    transaction with all its ancestors that are not in the block yet.  The score
    order is left open: any candidate may come next. */
module Miner {
  import opened Packages

  const MAX_CONSECUTIVE_FAILURES := 1000

  function U64(x: int): int { x % 0x1_0000_0000_0000_0000 }

  lemma OneFewer(all: set<Tx>, skipped: set<Tx>, todo: set<Tx>, x: Tx)
    requires todo <= all && x in todo
    ensures x in skipped ==> (all - skipped) - (todo - {x}) == (all - skipped) - todo
    ensures x !in skipped ==> (all - skipped) - (todo - {x}) == (all - skipped) - todo + {x}
  {
  }

  lemma SliceNext(a: seq<Tx>, s: seq<Tx>, i: nat)
    requires i < |s|
    ensures a + s[..i] + [s[i]] == a + s[..i + 1]
  {
    assert s[..i] + [s[i]] == s[..i + 1];
  }

  lemma NothingTracked(p: Pool, inBlock: set<Tx>)
    ensures Tracks(p, map[], inBlock, {}, {})
    ensures inBlock - inBlock == {} && Closed(p, inBlock - inBlock)
  {
  }

  ghost predicate CoveredAt(p: Pool, mi: int, seen: set<Tx>, i: int) {
    0 <= i < mi <= |p.order| ==> p.order[i] in seen
  }

  /** The first mi entries of mapTx have been seen. */
  ghost predicate Covered(p: Pool, mi: int, seen: set<Tx>) {
    forall i: int :: CoveredAt(p, mi, seen, i)
  }

  lemma CoverMore(p: Pool, mi: nat, seen: set<Tx>, mi': nat, seen': set<Tx>)
    requires Covered(p, mi, seen) && seen <= seen'
    requires mi' == mi || (mi' == mi + 1 && mi < |p.order| && p.order[mi] in seen')
    ensures Covered(p, mi', seen')
  {
    forall i: int ensures CoveredAt(p, mi', seen', i) {
      assert CoveredAt(p, mi, seen, i);
    }
  }

  lemma CoverAll(p: Pool, seen: set<Tx>)
    requires WellFormed(p) && Covered(p, |p.order|, seen)
    ensures p.txs <= seen
  {
    forall t | t in p.txs ensures t in seen {
      assert t in Elements(p.order);
      var i :| 0 <= i < |p.order| && p.order[i] == t;
      assert CoveredAt(p, |p.order|, seen, i);
    }
  }

  /** The next candidate is a pool transaction outside the block, and the totals on
      record for it are sound. */
  lemma CandidateOk(p: Pool, m: Modified, inBlock: set<Tx>, failed: set<Tx>, t: Tx, mi: nat, modified: bool)
    requires WellFormed(p) && Tracks(p, m, inBlock, inBlock, failed)
    requires if modified then t in m else mi < |p.order| && t == p.order[mi] && t !in m && t !in inBlock && t !in failed
    ensures t in p.txs && t !in inBlock
    ensures var c := if modified then m[t] else Cached(p, t); Recorded(p, t, c, inBlock, t !in failed)
  {
    if modified {
      assert Entry(p, m, inBlock, inBlock, failed, t);
    } else {
      assert t in Elements(p.order);
    }
    CandidateTally(p, m, inBlock, failed, t);
  }

  lemma OneEntryFewer(m: Modified, t: Tx)
    requires t in m
    ensures |(m - {t}).Keys| == |m.Keys| - 1
  {
    assert (m - {t}).Keys == m.Keys - {t};
  }

  datatype Outcome = TooCheap | DoesNotFit | NotFinal | Added

  // ---------------------------------------------------------------- what a selection is

  /** One candidate: the totals on record for it, the block before it, and what became of it. */
  datatype Round = Round(iter: Tx, package: Totals, before: set<Tx>, outcome: Outcome)

  ghost function WeightOf(p: Pool, block: set<Tx>): int { 4000 + Sum(p, block, p.weight) }

  ghost function SigOpsOf(p: Pool, block: set<Tx>): int { 400 + Sum(p, block, p.sigOps) }

  ghost predicate TooLarge(p: Pool, maxWeight: int, package: Totals, block: set<Tx>) {
    WeightOf(p, block) + 4 * package.size >= maxWeight || SigOpsOf(p, block) + package.sigOps >= 80000
  }

  ghost predicate AllAdmissible(p: Pool, s: set<Tx>) { forall t :: t in s ==> p.admissible(t) }

  ghost function After(p: Pool, r: Round): set<Tx> {
    if r.outcome == Added then r.before + Left(p, r.iter, r.before) else r.before
  }

  /** The candidate is outside the block, and is refused for one of three reasons only: its
      fees are too low, else it is too large, else some transaction it needs is not admissible. */
  ghost predicate RoundOk(p: Pool, maxWeight: int, minFee: int -> int, r: Round) {
    && r.iter in p.txs && r.iter !in r.before && Recorded(p, r.iter, r.package, r.before, false)
    && (r.outcome == TooCheap <==> r.package.modFees < minFee(r.package.size))
    && (r.outcome == DoesNotFit <==> r.package.modFees >= minFee(r.package.size) && TooLarge(p, maxWeight, r.package, r.before))
    && (r.outcome == NotFinal ==> !AllAdmissible(p, Left(p, r.iter, r.before)))
    && (r.outcome == Added ==> AllAdmissible(p, Left(p, r.iter, r.before)))
  }

  /** No earlier round looked at the same transaction. */
  ghost predicate FirstLook(trace: seq<Round>, i: int)
    requires 0 <= i < |trace|
  {
    forall j :: 0 <= j < i ==> trace[j].iter != trace[i].iter
  }

  ghost predicate RoundAt(p: Pool, maxWeight: int, minFee: int -> int, start: set<Tx>, trace: seq<Round>, i: int) {
    0 <= i < |trace| ==>
      && RoundOk(p, maxWeight, minFee, trace[i])
      && trace[i].before == (if i == 0 then start else After(p, trace[i - 1]))
      && (FirstLook(trace, i) ==> Recorded(p, trace[i].iter, trace[i].package, trace[i].before, true))
  }

  /** A selection that leads from the block `start` to the block `end`. */
  ghost predicate Selection(p: Pool, maxWeight: int, minFee: int -> int, start: set<Tx>, trace: seq<Round>, end: set<Tx>) {
    && (forall i: int :: RoundAt(p, maxWeight, minFee, start, trace, i))
    && end == if trace == [] then start else After(p, trace[|trace| - 1])
  }

  /** Candidates that did not fit since one was last added. */
  ghost function Failures(trace: seq<Round>): nat {
    if trace == [] then 0
    else
      var n := |trace| - 1;
      if trace[n].outcome == Added then 0
      else if trace[n].outcome == DoesNotFit then Failures(trace[..n]) + 1
      else Failures(trace[..n])
  }

  /** A selection ends early after a candidate with too low fees, or when more than 1000
      candidates in a row did not fit and the block is almost full. */
  ghost predicate EndsEarly(p: Pool, maxWeight: int, trace: seq<Round>) {
    trace != [] &&
      var r := trace[|trace| - 1];
      || r.outcome == TooCheap
      || (r.outcome == DoesNotFit && Failures(trace) > 1000 && WeightOf(p, r.before) > maxWeight - 4000)
  }

  ghost predicate GoesOn(p: Pool, maxWeight: int, trace: seq<Round>, i: int) {
    0 <= i < |trace| ==> !EndsEarly(p, maxWeight, trace[..i])
  }

  ghost predicate AlwaysGoesOn(p: Pool, maxWeight: int, trace: seq<Round>) {
    forall i: int :: GoesOn(p, maxWeight, trace, i)
  }

  ghost function Rejected(trace: seq<Round>): set<Tx> {
    set i | 0 <= i < |trace| && trace[i].outcome != Added :: trace[i].iter
  }

  lemma RejectedNext(trace: seq<Round>, r: Round)
    ensures Rejected(trace + [r]) == if r.outcome == Added then Rejected(trace) else Rejected(trace) + {r.iter}
  {
    var next := trace + [r];
    forall x | x in Rejected(trace) ensures x in Rejected(next) {
      var i :| 0 <= i < |trace| && trace[i].outcome != Added && trace[i].iter == x;
      assert next[i] == trace[i];
    }
    assert next[|trace|] == r;
  }

  lemma SelectionNext(p: Pool, maxWeight: int, minFee: int -> int, start: set<Tx>, trace: seq<Round>, end: set<Tx>, r: Round, exact: bool)
    requires Selection(p, maxWeight, minFee, start, trace, end) && RoundOk(p, maxWeight, minFee, r) && r.before == end
    requires exact || r.iter in Rejected(trace)
    requires exact ==> Recorded(p, r.iter, r.package, r.before, true)
    ensures Selection(p, maxWeight, minFee, start, trace + [r], After(p, r))
  {
    var next := trace + [r];
    forall i: int ensures RoundAt(p, maxWeight, minFee, start, next, i) {
      assert RoundAt(p, maxWeight, minFee, start, trace, i);
      if 0 <= i < |trace| {
        if FirstLook(next, i) {
          forall j | 0 <= j < i ensures trace[j].iter != trace[i].iter { assert next[j].iter != next[i].iter; }
        }
      } else if i == |trace| && !exact {
        var j :| 0 <= j < |trace| && trace[j].iter == r.iter;
        assert next[j].iter == next[i].iter;
      }
    }
  }

  /** What a selection adds is admissible. */
  lemma {:induction false} SelectionAdmissible(p: Pool, maxWeight: int, minFee: int -> int, start: set<Tx>, trace: seq<Round>, end: set<Tx>)
    requires Selection(p, maxWeight, minFee, start, trace, end)
    ensures start <= end && AllAdmissible(p, end - start)
    decreases |trace|
  {
    if trace != [] {
      var n := |trace| - 1;
      var front := trace[..n];
      assert RoundAt(p, maxWeight, minFee, start, trace, n);
      forall i: int ensures RoundAt(p, maxWeight, minFee, start, front, i) {
        assert RoundAt(p, maxWeight, minFee, start, trace, i);
        if 0 <= i < n { assert FirstLook(front, i) ==> FirstLook(trace, i); }
      }
      SelectionAdmissible(p, maxWeight, minFee, start, front, trace[n].before);
    }
  }

  class BlockAssembler {
    const pool: Pool
    const nBlockMaxWeight: nat
    const minFee: int -> int
    var vtx: seq<Tx>
    var vTxFees: seq<int>
    var vTxSigOpsCost: seq<int>
    var nBlockWeight: int
    var nBlockTx: int
    var nBlockSigOpsCost: int
    var nFees: int
    var inBlock: set<Tx>

    /** The list, the membership set and the tallies describe the same block. */
    ghost predicate Accounted()
      reads this
    {
      && WellFormed(pool) && 4000 <= nBlockMaxWeight <= MAX_BLOCK_WEIGHT - 4000
      && Listed(pool, vtx) && inBlock == Elements(vtx)
      && |vTxFees| == |vTxSigOpsCost| == |vtx| == nBlockTx
      && (forall i :: 0 <= i < |vtx| ==> vTxFees[i] == pool.fee(vtx[i]) && vTxSigOpsCost[i] == pool.sigOps(vtx[i]))
      && nBlockWeight == 4000 + Sum(pool, inBlock, pool.weight)
      && nBlockSigOpsCost == 400 + Sum(pool, inBlock, pool.sigOps)
      && nFees == Sum(pool, inBlock, pool.fee)
    }

    ghost predicate Valid()
      reads this
    {
      Accounted() && nBlockWeight <= nBlockMaxWeight && nBlockSigOpsCost < MAX_BLOCK_SIGOPS_COST
    }

    constructor (mempool: Pool, maxWeight: nat, minFeeOf: int -> int)
      requires WellFormed(mempool)
      ensures Valid() && pool == mempool && inBlock == {}
      ensures nBlockMaxWeight == if maxWeight < 4000 then 4000 else if maxWeight > 3996000 then 3996000 else maxWeight
    {
      pool, minFee := mempool, minFeeOf;
      var limited := if MAX_BLOCK_WEIGHT - 4000 < maxWeight then MAX_BLOCK_WEIGHT - 4000 else maxWeight;
      nBlockMaxWeight := if limited < 4000 then 4000 else limited;
      new;
      ResetBlock();
    }

    method ResetBlock()
      requires WellFormed(pool) && 4000 <= nBlockMaxWeight <= MAX_BLOCK_WEIGHT - 4000
      modifies this
      ensures Valid() && inBlock == {} && vtx == []
      ensures nBlockWeight == 4000 && nBlockSigOpsCost == 400 && nBlockTx == 0 && nFees == 0
    {
      vtx, vTxFees, vTxSigOpsCost := [], [], [];
      inBlock := {};
      nBlockWeight := 4000;
      nBlockSigOpsCost := 400;
      nBlockTx := 0;
      nFees := 0;
      SumInNone(pool.order, pool.weight);
      SumInNone(pool.order, pool.sigOps);
      SumInNone(pool.order, pool.fee);
    }

    method OnlyUnconfirmed(testSet: set<Tx>) returns (r: set<Tx>)
      ensures r == testSet - inBlock
    {
      r := testSet;
      var todo := testSet;
      while todo != {}
        invariant todo <= testSet && r == testSet - (inBlock - todo)
        decreases |todo|
      {
        var it :| it in todo;
        if it in inBlock { r := r - {it}; }
        todo := todo - {it};
      }
    }

    /** The sums are computed in 64-bit unsigned arithmetic. */
    method TestPackage(packageSize: int, packageSigOpsCost: int) returns (fits: bool)
      requires 0 <= packageSize && 0 <= packageSigOpsCost && 0 <= nBlockWeight && 0 <= nBlockSigOpsCost
      ensures nBlockWeight + 4 * packageSize <= UINT64_MAX && nBlockSigOpsCost + packageSigOpsCost <= UINT64_MAX
              ==> (fits <==> nBlockWeight + 4 * packageSize < nBlockMaxWeight
                             && nBlockSigOpsCost + packageSigOpsCost < MAX_BLOCK_SIGOPS_COST)
    {
      if U64(nBlockWeight + U64(4 * packageSize)) >= nBlockMaxWeight { return false; }
      if U64(nBlockSigOpsCost + packageSigOpsCost) >= MAX_BLOCK_SIGOPS_COST { return false; }
      return true;
    }

    method TestPackageTransactions(package: set<Tx>) returns (ok: bool)
      ensures ok <==> forall t :: t in package ==> pool.admissible(t)
    {
      var todo := package;
      while todo != {}
        invariant todo <= package && forall t :: t in package - todo ==> pool.admissible(t)
        decreases |todo|
      {
        var it :| it in todo;
        if !pool.admissible(it) { return false; }
        todo := todo - {it};
      }
      return true;
    }

    method AddToBlock(t: Tx)
      requires Accounted() && t in pool.txs && t !in inBlock && pool.anc(t) <= inBlock
      modifies this
      ensures Accounted() && vtx == old(vtx) + [t] && inBlock == old(inBlock) + {t}
    {
      ListedAppend(pool, vtx, t);
      SumAdd(pool, inBlock, pool.weight, t);
      SumAdd(pool, inBlock, pool.sigOps, t);
      SumAdd(pool, inBlock, pool.fee, t);
      vtx := vtx + [t];
      vTxFees := vTxFees + [pool.fee(t)];
      vTxSigOpsCost := vTxSigOpsCost + [pool.sigOps(t)];
      nBlockWeight := nBlockWeight + pool.weight(t);
      nBlockTx := nBlockTx + 1;
      nBlockSigOpsCost := nBlockSigOpsCost + pool.sigOps(t);
      nFees := nFees + pool.fee(t);
      inBlock := inBlock + {t};
    }

    method SortForBlock(package: set<Tx>) returns (sortedEntries: seq<Tx>)
      ensures Sorted(pool, sortedEntries) && Elements(sortedEntries) == package
      ensures ByCount(pool, sortedEntries)
    {
      sortedEntries := [];
      var rest := package;
      while rest != {}
        invariant rest <= package && Elements(sortedEntries) == package - rest
        invariant Sorted(pool, sortedEntries) && Precedes(pool, sortedEntries, rest)
        decreases |rest|
      {
        ghost var least := LeastExists(pool, rest);
        var x :| x in rest && forall y :: y in rest ==> !Before(pool, y, x);
        ElementsAppend(sortedEntries, x);
        SelectNext(pool, sortedEntries, rest, x);
        sortedEntries := sortedEntries + [x];
        rest := rest - {x};
      }
      SortedByCount(pool, sortedEntries);
    }

    /** Subtract one added transaction from those descendants that were not added. */
    method PatchDescendants(it: Tx, descendants: set<Tx>, alreadyAdded: set<Tx>, mapModifiedTx: Modified) returns (m: Modified)
      ensures m == PatchAll(pool, mapModifiedTx, descendants - alreadyAdded, it)
    {
      m := mapModifiedTx;
      var todo := descendants;
      PatchNone(pool, m, it);
      assert (descendants - alreadyAdded) - todo == {};
      while todo != {}
        invariant todo <= descendants
        invariant m == PatchAll(pool, mapModifiedTx, (descendants - alreadyAdded) - todo, it)
        decreases |todo|
      {
        var desc :| desc in todo;
        OneFewer(descendants, alreadyAdded, todo, desc);
        if desc !in alreadyAdded {
          PatchMore(pool, mapModifiedTx, (descendants - alreadyAdded) - todo, desc, it);
          m := m[desc := Patched(pool, m, desc, it)];
        }
        todo := todo - {desc};
      }
      assert (descendants - alreadyAdded) - todo == descendants - alreadyAdded;
    }

    method UpdatePackagesForAdded(alreadyAdded: set<Tx>, mapModifiedTx: Modified, ghost failed: set<Tx>) returns (m: Modified)
      requires Accounted() && alreadyAdded <= inBlock && Closed(pool, inBlock - alreadyAdded)
      requires Tracks(pool, mapModifiedTx, inBlock, inBlock - alreadyAdded, failed)
      ensures Tracks(pool, m, inBlock, inBlock, failed) && mapModifiedTx.Keys <= m.Keys
    {
      m := mapModifiedTx;
      var todo := alreadyAdded;
      while todo != {}
        invariant todo <= alreadyAdded && mapModifiedTx.Keys <= m.Keys
        invariant Tracks(pool, m, inBlock, inBlock - todo, failed)
        decreases |todo|
      {
        var it :| it in todo;
        UpdateTracks(pool, m, inBlock, alreadyAdded, inBlock - todo, failed, it);
        assert inBlock - todo + {it} == inBlock - (todo - {it});
        m := PatchDescendants(it, Descendants(pool, it), alreadyAdded, m);
        todo := todo - {it};
      }
      assert inBlock - todo == inBlock;
    }

    /** Skip what is in the block, has an entry of its own, or failed before. */
    predicate SkipMapTxEntry(it: Tx, mapModifiedTx: Modified, failedTx: set<Tx>)
      reads this
    {
      it in mapModifiedTx || it in inBlock || it in failedTx
    }

    method AddOne(x: Tx, mapModifiedTx: Modified, ghost base: set<Tx>, ghost failed: set<Tx>) returns (m: Modified)
      requires Accounted() && x in pool.txs && x !in inBlock && pool.anc(x) <= inBlock
      requires Tracks(pool, mapModifiedTx, inBlock, base, failed)
      modifies this
      ensures Accounted() && vtx == old(vtx) + [x] && inBlock == old(inBlock) + {x}
      ensures Tracks(pool, m, inBlock, base, failed) && m == mapModifiedTx - {x}
    {
      EraseTracks(pool, mapModifiedTx, inBlock, base, failed, x);
      AddToBlock(x);
      m := mapModifiedTx - {x};
    }

    /** List a sorted package and erase its entries. */
    method AddSorted(sortedEntries: seq<Tx>, mapModifiedTx: Modified, ghost t: Tx, ghost failed: set<Tx>) returns (m: Modified)
      requires Accounted() && t in pool.txs && Tracks(pool, mapModifiedTx, inBlock, inBlock, failed)
      requires Sorted(pool, sortedEntries) && Elements(sortedEntries) == Left(pool, t, inBlock)
      modifies this
      ensures Accounted() && vtx == old(vtx) + sortedEntries && inBlock == old(inBlock) + Left(pool, t, old(inBlock))
      ensures Tracks(pool, m, inBlock, old(inBlock), failed) && mapModifiedTx.Keys <= m.Keys + inBlock
    {
      ghost var base, listed := inBlock, vtx;
      ListedClosed(pool, vtx);
      m := mapModifiedTx;
      for i := 0 to |sortedEntries|
        invariant Accounted() && vtx == listed + sortedEntries[..i]
        invariant inBlock == base + Elements(sortedEntries[..i])
        invariant Tracks(pool, m, inBlock, base, failed) && mapModifiedTx.Keys <= m.Keys + inBlock
      {
        var x := sortedEntries[i];
        SortedIsTopological(pool, t, base, sortedEntries, i);
        SliceNext(listed, sortedEntries, i);
        m := AddOne(x, m, base, failed);
      }
      assert sortedEntries[..|sortedEntries|] == sortedEntries;
    }

    /** A package that passed the tests enters the block, which stays within its limits. */
    method AddPackage(ancestors: set<Tx>, iter: Tx, mapModifiedTx: Modified, ghost failed: set<Tx>) returns (m: Modified)
      requires Valid() && iter in pool.txs && iter !in inBlock && ancestors == Left(pool, iter, inBlock)
      requires Tracks(pool, mapModifiedTx, inBlock, inBlock, failed)
      requires nBlockWeight + 4 * Sum(pool, ancestors, pool.size) < nBlockMaxWeight
      requires nBlockSigOpsCost + Sum(pool, ancestors, pool.sigOps) < MAX_BLOCK_SIGOPS_COST
      modifies this
      ensures Valid() && inBlock == old(inBlock) + ancestors
      ensures Tracks(pool, m, inBlock, inBlock, failed) && mapModifiedTx.Keys <= m.Keys + inBlock
    {
      ListedClosed(pool, vtx);
      PackageCost(pool, iter, inBlock);
      var sortedEntries := SortForBlock(ancestors);
      m := AddSorted(sortedEntries, mapModifiedTx, iter, failed);
      assert inBlock - ancestors == old(inBlock);
      m := UpdatePackagesForAdded(ancestors, m, failed);
    }

    /** Which entry to look at next: the front of mapTx, or any entry of mapModifiedTx
        that is taken to be the best of them.  Also gives the totals on record. */
    method Choose(mi: nat, mapModifiedTx: Modified, ghost failed: set<Tx>) returns (iter: Tx, fUsingModified: bool, package: Totals)
      requires WellFormed(pool) && Tracks(pool, mapModifiedTx, inBlock, inBlock, failed)
      requires mi <= |pool.order| && (mi < |pool.order| || mapModifiedTx != map[])
      requires mi < |pool.order| ==> !SkipMapTxEntry(pool.order[mi], mapModifiedTx, failed)
      ensures if fUsingModified then iter in mapModifiedTx else mi < |pool.order| && iter == pool.order[mi]
      ensures iter in pool.txs && iter !in inBlock
      ensures Recorded(pool, iter, package, inBlock, iter !in failed)
    {
      fUsingModified := mi == |pool.order|;
      if mapModifiedTx != map[] && !fUsingModified {
        fUsingModified := *;
      }
      if fUsingModified {
        iter :| iter in mapModifiedTx;
        package := mapModifiedTx[iter];
      } else {
        iter := pool.order[mi];
        package := Cached(pool, iter);
      }
      CandidateOk(pool, mapModifiedTx, inBlock, failed, iter, mi, fUsingModified);
    }

    /** A candidate failed: if it came from mapModifiedTx it leaves it for good. */
    method Reject(iter: Tx, fUsingModified: bool, mapModifiedTx: Modified, failedTx: set<Tx>) returns (m: Modified, f: set<Tx>)
      requires fUsingModified ==> iter in mapModifiedTx
      requires Tracks(pool, mapModifiedTx, inBlock, inBlock, failedTx)
      ensures Tracks(pool, m, inBlock, inBlock, f) && failedTx <= f <= failedTx + {iter}
      ensures mapModifiedTx.Keys <= m.Keys + {iter}
      ensures |m.Keys| + (if fUsingModified then 1 else 0) == |mapModifiedTx.Keys|
    {
      m, f := mapModifiedTx, failedTx;
      if fUsingModified {
        FailTracks(pool, m, inBlock, inBlock, f, iter);
        OneEntryFewer(m, iter);
        m := m - {iter};
        f := f + {iter};
      }
    }

    /** Test a candidate, given the totals on record for it, and add its package if
        it passes. */
    method TryPackage(iter: Tx, package: Totals, mapModifiedTx: Modified, ghost failed: set<Tx>) returns (outcome: Outcome, m: Modified)
      requires Valid() && iter in pool.txs && iter !in inBlock
      requires Tracks(pool, mapModifiedTx, inBlock, inBlock, failed)
      requires Recorded(pool, iter, package, inBlock, iter !in failed)
      modifies this
      ensures Valid() && Tracks(pool, m, inBlock, inBlock, failed)
      ensures outcome != TooCheap && (outcome == DoesNotFit <==> TooLarge(pool, nBlockMaxWeight, package, old(inBlock)))
      ensures outcome == NotFinal <==> !TooLarge(pool, nBlockMaxWeight, package, old(inBlock))
                                       && !AllAdmissible(pool, Left(pool, iter, old(inBlock)))
      ensures forall t :: t in inBlock - old(inBlock) ==> pool.admissible(t)
      ensures outcome == Added ==> inBlock == old(inBlock) + Left(pool, iter, old(inBlock)) && mapModifiedTx.Keys <= m.Keys + inBlock
      ensures outcome == Added ==> pool.txs - inBlock < pool.txs - old(inBlock)
      ensures outcome != Added ==> inBlock == old(inBlock) && m == mapModifiedTx
      ensures Fits(pool, nBlockMaxWeight) && iter !in failed ==> outcome == Added
    {
      m := mapModifiedTx;
      ListedClosed(pool, vtx);
      TotalsFit(pool, package.size, pool.size, iter, inBlock, iter !in failed);
      TotalsFit(pool, package.sigOps, pool.sigOps, iter, inBlock, iter !in failed);
      SumInNonNegative(pool.order, inBlock, pool.weight);
      SumInNonNegative(pool.order, inBlock, pool.sigOps);
      PackageCost(pool, iter, inBlock);
      if Fits(pool, nBlockMaxWeight) { FitsAll(pool, nBlockMaxWeight, iter, inBlock); }
      var fits := TestPackage(package.size, package.sigOps);
      if !fits { return DoesNotFit, m; }
      var ancestors := OnlyUnconfirmed(pool.anc(iter));
      ancestors := ancestors + {iter};
      assert ancestors == Left(pool, iter, inBlock);
      var final := TestPackageTransactions(ancestors);
      if !final { return NotFinal, m; }
      ghost var before := pool.txs - inBlock;
      m := AddPackage(ancestors, iter, m, failed);
      assert iter in before && iter !in pool.txs - inBlock;
      return Added, m;
    }

    /** The invariant of the selection loop.  Nothing is rejected if the whole pool fits. */
    ghost predicate Selecting(mi: nat, mapModifiedTx: Modified, failedTx: set<Tx>, trace: seq<Round>)
      reads this
    {
      && mi <= |pool.order| && Valid()
      && Tracks(pool, mapModifiedTx, inBlock, inBlock, failedTx)
      && failedTx <= Rejected(trace) && (Fits(pool, nBlockMaxWeight) ==> Rejected(trace) == {})
      && Covered(pool, mi, inBlock + mapModifiedTx.Keys + Rejected(trace))
    }

    /** Evaluate one candidate. */
    method Evaluate(mi: nat, mapModifiedTx: Modified, failedTx: set<Tx>, ghost trace: seq<Round>)
      returns (outcome: Outcome, mi': nat, m: Modified, f: set<Tx>, ghost r: Round)
      requires Selecting(mi, mapModifiedTx, failedTx, trace) && (mi < |pool.order| || mapModifiedTx != map[])
      requires mi < |pool.order| ==> !SkipMapTxEntry(pool.order[mi], mapModifiedTx, failedTx)
      modifies this
      ensures Valid() && RoundOk(pool, nBlockMaxWeight, minFee, r) && r.outcome == outcome
      ensures r.before == old(inBlock) && inBlock == After(pool, r)
      ensures forall t :: t in inBlock - old(inBlock) ==> pool.admissible(t)
      ensures r.iter in Rejected(trace) || Recorded(pool, r.iter, r.package, r.before, true)
      ensures outcome != TooCheap ==> Selecting(mi', m, f, trace + [r])
      ensures outcome == Added ==> pool.txs - inBlock < pool.txs - old(inBlock)
      ensures outcome != Added && outcome != TooCheap ==>
                |pool.order| - mi' + |m.Keys| < |pool.order| - mi + |mapModifiedTx.Keys|
    {
      var iter, fUsingModified, package := Choose(mi, mapModifiedTx, failedTx);
      mi', m, f := mi, mapModifiedTx, failedTx;
      assert iter !in inBlock;
      if package.modFees < minFee(package.size) {
        r := Round(iter, package, inBlock, TooCheap);
        return TooCheap, mi', m, f, r;
      }
      ghost var seen, block := inBlock + m.Keys + Rejected(trace), inBlock;
      if !fUsingModified { mi' := mi + 1; }
      outcome, m := TryPackage(iter, package, m, f);
      r := Round(iter, package, block, outcome);
      RejectedNext(trace, r);
      if outcome != Added {
        m, f := Reject(iter, fUsingModified, m, f);
      }
      CoverMore(pool, mi, seen, mi', inBlock + m.Keys + Rejected(trace + [r]));
    }

    /** Patch the descendants of what is in the block already. */
    method Prepare() returns (mapModifiedTx: Modified)
      requires Valid()
      ensures Selecting(0, mapModifiedTx, {}, [])
    {
      ListedClosed(pool, vtx);
      NothingTracked(pool, inBlock);
      mapModifiedTx := UpdatePackagesForAdded(inBlock, map[], {});
    }

    lemma SkipKeeps(mi: nat, mapModifiedTx: Modified, failedTx: set<Tx>, trace: seq<Round>)
      requires Selecting(mi, mapModifiedTx, failedTx, trace) && mi < |pool.order|
      requires SkipMapTxEntry(pool.order[mi], mapModifiedTx, failedTx)
      ensures Selecting(mi + 1, mapModifiedTx, failedTx, trace)
    {
      var seen := inBlock + mapModifiedTx.Keys + Rejected(trace);
      CoverMore(pool, mi, seen, mi + 1, seen);
    }

    lemma AllLookedAt(mi: nat, mapModifiedTx: Modified, failedTx: set<Tx>, trace: seq<Round>)
      requires Selecting(mi, mapModifiedTx, failedTx, trace) && mi == |pool.order| && mapModifiedTx == map[]
      ensures pool.txs - inBlock <= Rejected(trace)
      ensures Fits(pool, nBlockMaxWeight) ==> inBlock == pool.txs
    {
      CoverAll(pool, inBlock + mapModifiedTx.Keys + Rejected(trace));
      ListedClosed(pool, vtx);
    }

    /** The selection so far has not ended. */
    ghost predicate Running(mi: nat, mapModifiedTx: Modified, failedTx: set<Tx>, failures: nat, start: set<Tx>, trace: seq<Round>)
      reads this
    {
      && Selecting(mi, mapModifiedTx, failedTx, trace)
      && Selection(pool, nBlockMaxWeight, minFee, start, trace, inBlock)
      && failures == Failures(trace) && !EndsEarly(pool, nBlockMaxWeight, trace)
      && AlwaysGoesOn(pool, nBlockMaxWeight, trace)
    }

    /** Evaluate one candidate and decide whether to stop. */
    method Consider(mi: nat, mapModifiedTx: Modified, failedTx: set<Tx>, failures: nat, ghost start: set<Tx>, ghost trace: seq<Round>)
      returns (stop: bool, mi': nat, m: Modified, f: set<Tx>, failures': nat, ghost trace': seq<Round>)
      requires Running(mi, mapModifiedTx, failedTx, failures, start, trace) && (mi < |pool.order| || mapModifiedTx != map[])
      requires mi < |pool.order| ==> !SkipMapTxEntry(pool.order[mi], mapModifiedTx, failedTx)
      modifies this
      ensures Valid() && Selection(pool, nBlockMaxWeight, minFee, start, trace', inBlock)
      ensures AlwaysGoesOn(pool, nBlockMaxWeight, trace') && (stop <==> EndsEarly(pool, nBlockMaxWeight, trace'))
      ensures !stop ==> Running(mi', m, f, failures', start, trace')
      ensures !stop ==> pool.txs - inBlock < pool.txs - old(inBlock)
                        || (inBlock == old(inBlock) && |pool.order| - mi' + |m.Keys| < |pool.order| - mi + |mapModifiedTx.Keys|)
    {
      var outcome;
      ghost var r;
      outcome, mi', m, f, r := Evaluate(mi, mapModifiedTx, failedTx, trace);
      NextRound(pool, nBlockMaxWeight, minFee, start, trace, r);
      trace', stop, failures' := trace + [r], outcome == TooCheap, failures;
      if outcome == Added { failures' := 0; }
      if outcome == DoesNotFit {
        failures' := failures + 1;
        stop := failures' > MAX_CONSECUTIVE_FAILURES && nBlockWeight > nBlockMaxWeight - 4000;
      }
    }

    /** From any block, and whichever entries are taken to score best, the loop is a
        selection and leaves a block that is within its limits and lists every transaction
        once and after its ancestors.  What it adds is admissible.  `finished` is false if
        and only if the selection ends early; otherwise every pool transaction outside the
        block was looked at and rejected, and a pool that fits is in the block. */
    method AddPackageTxs() returns (finished: bool, ghost trace: seq<Round>)
      requires Valid()
      modifies this
      ensures Valid() && Selection(pool, nBlockMaxWeight, minFee, old(inBlock), trace, inBlock)
      ensures old(inBlock) <= inBlock && forall t :: t in inBlock - old(inBlock) ==> pool.admissible(t)
      ensures AlwaysGoesOn(pool, nBlockMaxWeight, trace) && (finished <==> !EndsEarly(pool, nBlockMaxWeight, trace))
      ensures finished ==> pool.txs - inBlock <= Rejected(trace)
      ensures finished && Fits(pool, nBlockMaxWeight) ==> inBlock == pool.txs
    {
      ghost var start := inBlock;
      var mapModifiedTx := Prepare();
      var failedTx: set<Tx> := {};
      var mi: nat, nConsecutiveFailed: nat, stop := 0, 0, false;
      trace := [];
      while !stop && (mi < |pool.order| || mapModifiedTx != map[])
        invariant Valid() && Selection(pool, nBlockMaxWeight, minFee, start, trace, inBlock)
        invariant AlwaysGoesOn(pool, nBlockMaxWeight, trace) && (stop <==> EndsEarly(pool, nBlockMaxWeight, trace))
        invariant !stop ==> Running(mi, mapModifiedTx, failedTx, nConsecutiveFailed, start, trace)
        decreases !stop, pool.txs - inBlock, |pool.order| - mi + |mapModifiedTx.Keys|
      {
        if mi < |pool.order| && SkipMapTxEntry(pool.order[mi], mapModifiedTx, failedTx) {
          SkipKeeps(mi, mapModifiedTx, failedTx, trace);
          mi := mi + 1;
        } else {
          stop, mi, mapModifiedTx, failedTx, nConsecutiveFailed, trace :=
            Consider(mi, mapModifiedTx, failedTx, nConsecutiveFailed, start, trace);
        }
      }
      SelectionAdmissible(pool, nBlockMaxWeight, minFee, start, trace, inBlock);
      finished := !stop;
      if finished { AllLookedAt(mi, mapModifiedTx, failedTx, trace); }
    }
  }

  /** One more round of a selection that has not ended. */
  lemma NextRound(p: Pool, maxWeight: int, minFee: int -> int, start: set<Tx>, trace: seq<Round>, r: Round)
    requires Selection(p, maxWeight, minFee, start, trace, r.before) && RoundOk(p, maxWeight, minFee, r)
    requires r.iter in Rejected(trace) || Recorded(p, r.iter, r.package, r.before, true)
    requires !EndsEarly(p, maxWeight, trace) && AlwaysGoesOn(p, maxWeight, trace)
    ensures Selection(p, maxWeight, minFee, start, trace + [r], After(p, r))
    ensures AlwaysGoesOn(p, maxWeight, trace + [r])
    ensures Failures(trace + [r]) == if r.outcome == Added then 0 else if r.outcome == DoesNotFit then Failures(trace) + 1 else Failures(trace)
  {
    var next := trace + [r];
    SelectionNext(p, maxWeight, minFee, start, trace, r.before, r, Recorded(p, r.iter, r.package, r.before, true));
    assert next[..|trace|] == trace;
    forall i: int ensures GoesOn(p, maxWeight, next, i) {
      assert GoesOn(p, maxWeight, trace, i);
      if 0 <= i < |trace| { assert next[..i] == trace[..i]; }
    }
  }
}
