/** The bookkeeping of package selection (src/miner.cpp, src/miner.h) as values:
    the mempool's dependency graph, the patched ancestor totals, and why patching
    never makes a package look smaller than the transactions it would add. */
module Packages {
  import opened Common

  datatype Tx = Tx(id: nat)

  /** The mempool while its lock is held.  `anc` gives all in-pool ancestors of a
      transaction (not itself); the *With fields are the cached totals over a
      transaction and its ancestors; `order` walks the ancestor-score index. */
  datatype Pool = Pool(
    txs: set<Tx>,
    order: seq<Tx>,
    anc: Tx -> set<Tx>,
    hash: Tx -> nat,
    size: Tx -> int,
    weight: Tx -> int,
    sigOps: Tx -> int,
    fee: Tx -> int,
    modFee: Tx -> int,
    sizeWith: Tx -> int,
    sigOpsWith: Tx -> int,
    modFeesWith: Tx -> int,
    admissible: Tx -> bool)

  const MAX_BLOCK_WEIGHT: nat := 4000000
  const MAX_BLOCK_SIGOPS_COST: nat := 80000
  const UINT64_MAX: nat := 0xFFFF_FFFF_FFFF_FFFF
  const INT64_MAX: nat := 0x7FFF_FFFF_FFFF_FFFF

  // ---------------------------------------------------------------- sums over sets

  /** The sum of f over those transactions of a list that are in s. */
  ghost function SumIn(list: seq<Tx>, s: set<Tx>, f: Tx -> int): int {
    if list == [] then 0 else (if list[0] in s then f(list[0]) else 0) + SumIn(list[1..], s, f)
  }

  /** The sum of f over a set of pool transactions. */
  ghost function Sum(p: Pool, s: set<Tx>, f: Tx -> int): int { SumIn(p.order, s, f) }

  ghost predicate Distinct(list: seq<Tx>) { forall i, j :: 0 <= i < j < |list| ==> list[i] != list[j] }

  lemma {:induction false} SumInOne(list: seq<Tx>, f: Tx -> int, x: Tx)
    requires Distinct(list)
    ensures SumIn(list, {x}, f) == if x in list then f(x) else 0
  {
    if list != [] { SumInOne(list[1..], f, x); }
  }

  lemma {:induction false} SumInNone(list: seq<Tx>, f: Tx -> int)
    ensures SumIn(list, {}, f) == 0
  {
    if list != [] { SumInNone(list[1..], f); }
  }

  lemma {:induction false} SumInDisjoint(list: seq<Tx>, s: set<Tx>, t: set<Tx>, f: Tx -> int)
    requires s !! t
    ensures SumIn(list, s + t, f) == SumIn(list, s, f) + SumIn(list, t, f)
  {
    if list != [] { SumInDisjoint(list[1..], s, t, f); }
  }

  ghost predicate NonNegative(f: Tx -> int) { forall x: Tx :: f(x) >= 0 }

  lemma {:induction false} SumInNonNegative(list: seq<Tx>, s: set<Tx>, f: Tx -> int)
    requires NonNegative(f)
    ensures 0 <= SumIn(list, s, f)
  {
    if list != [] { SumInNonNegative(list[1..], s, f); }
  }

  lemma {:induction false} SumInScaled(list: seq<Tx>, s: set<Tx>, f: Tx -> int, g: Tx -> int)
    requires forall x :: x in s ==> f(x) <= 4 * g(x)
    ensures SumIn(list, s, f) <= 4 * SumIn(list, s, g)
  {
    if list != [] { SumInScaled(list[1..], s, f, g); }
  }

  lemma SumAdd(p: Pool, s: set<Tx>, f: Tx -> int, x: Tx)
    requires Indexed(p) && x in p.txs && x !in s
    ensures Sum(p, s + {x}, f) == f(x) + Sum(p, s, f)
  {
    SumInDisjoint(p.order, s, {x}, f);
    SumInOne(p.order, f, x);
  }

  lemma SumRemove(p: Pool, s: set<Tx>, f: Tx -> int, x: Tx)
    requires Indexed(p) && x in p.txs && x in s
    ensures Sum(p, s, f) == f(x) + Sum(p, s - {x}, f)
  {
    SumAdd(p, s - {x}, f, x);
    assert s - {x} + {x} == s;
  }

  /** A smaller set of non-negative summands has the smaller sum. */
  lemma SumSubset(p: Pool, s: set<Tx>, t: set<Tx>, f: Tx -> int)
    requires NonNegative(f) && s <= t
    ensures 0 <= Sum(p, s, f) <= Sum(p, t, f)
  {
    SumInDisjoint(p.order, s, t - s, f);
    assert s + (t - s) == t;
    SumInNonNegative(p.order, s, f);
    SumInNonNegative(p.order, t - s, f);
  }

  // ---------------------------------------------------------------- the dependency graph

  /** A transaction with everything it needs. */
  function Package(p: Pool, t: Tx): set<Tx> { p.anc(t) + {t} }

  function Left(p: Pool, t: Tx, done: set<Tx>): set<Tx> { Package(p, t) - done }

  function CountWith(p: Pool, t: Tx): nat { |p.anc(t)| + 1 }

  ghost predicate TxOk(p: Pool, t: Tx) {
    t in p.txs ==>
      && p.anc(t) <= p.txs && t !in p.anc(t)
      && (forall a :: a in p.anc(t) ==> p.anc(a) <= p.anc(t))
      && p.weight(t) <= 4 * p.size(t)
      && p.sizeWith(t) == Sum(p, Package(p, t), p.size)
      && p.sigOpsWith(t) == Sum(p, Package(p, t), p.sigOps)
      && p.modFeesWith(t) == Sum(p, Package(p, t), p.modFee)
  }

  /** The index lists every transaction once. */
  ghost predicate Indexed(p: Pool) { Elements(p.order) == p.txs && Distinct(p.order) }

  /** The relation is an acyclic ancestor relation, the cached totals are exact,
      the index is complete, and 64 bits hold all totals. */
  ghost predicate WellFormed(p: Pool) {
    && (forall t: Tx :: TxOk(p, t))
    && NonNegative(p.size) && NonNegative(p.weight) && NonNegative(p.sigOps)
    && Indexed(p)
    && MAX_BLOCK_WEIGHT + 4 * Sum(p, p.txs, p.size) <= UINT64_MAX
    && MAX_BLOCK_SIGOPS_COST + Sum(p, p.txs, p.sigOps) <= INT64_MAX
  }

  function Elements(s: seq<Tx>): set<Tx> { set x | x in s }

  /** CalculateDescendants: a transaction and all that need it. */
  function Descendants(p: Pool, t: Tx): set<Tx> { set d | d in p.txs && (d == t || t in p.anc(d)) }

  ghost predicate Closed(p: Pool, s: set<Tx>) {
    s <= p.txs && forall t :: t in s ==> p.anc(t) <= s
  }

  // ---------------------------------------------------------------- the block's list

  ghost predicate ListedAt(p: Pool, vtx: seq<Tx>, i: int) {
    0 <= i < |vtx| ==>
      vtx[i] in p.txs && vtx[i] !in Elements(vtx[..i]) && p.anc(vtx[i]) <= Elements(vtx[..i])
  }

  /** Each transaction is listed once, and after all its ancestors. */
  ghost predicate Listed(p: Pool, vtx: seq<Tx>) {
    forall i: int :: ListedAt(p, vtx, i)
  }

  lemma ElementsAppend(vtx: seq<Tx>, t: Tx)
    ensures Elements(vtx + [t]) == Elements(vtx) + {t}
  {
  }

  lemma ListedAppend(p: Pool, vtx: seq<Tx>, t: Tx)
    requires Listed(p, vtx) && t in p.txs && t !in Elements(vtx) && p.anc(t) <= Elements(vtx)
    ensures Listed(p, vtx + [t]) && Elements(vtx + [t]) == Elements(vtx) + {t}
  {
    ElementsAppend(vtx, t);
    var w := vtx + [t];
    forall i: int ensures ListedAt(p, w, i) {
      if 0 <= i < |w| {
        assert ListedAt(p, vtx, i);
        assert w[..i] == vtx[..i];
        if i == |vtx| { assert vtx[..i] == vtx; }
      }
    }
  }

  lemma ListedClosed(p: Pool, vtx: seq<Tx>)
    requires Listed(p, vtx)
    ensures Closed(p, Elements(vtx))
  {
    forall t | t in Elements(vtx) ensures t in p.txs && p.anc(t) <= Elements(vtx) {
      var i :| 0 <= i < |vtx| && vtx[i] == t;
      assert ListedAt(p, vtx, i);
      PrefixElements(vtx, i);
    }
  }

  lemma PrefixElements(vtx: seq<Tx>, i: nat)
    requires i <= |vtx|
    ensures Elements(vtx[..i]) <= Elements(vtx)
  {
  }

  // ---------------------------------------------------------------- sorting a package

  /** CompareTxIterByAncestorCount. */
  predicate Before(p: Pool, a: Tx, b: Tx) {
    if CountWith(p, a) != CountWith(p, b) then CountWith(p, a) < CountWith(p, b) else p.hash(a) < p.hash(b)
  }

  ghost predicate InOrder(p: Pool, s: seq<Tx>, i: int, j: int) {
    0 <= i < j < |s| ==> s[i] != s[j] && !Before(p, s[j], s[i])
  }

  ghost predicate Sorted(p: Pool, s: seq<Tx>) {
    forall i: int, j: int :: InOrder(p, s, i, j)
  }

  ghost predicate PrecedesAt(p: Pool, s: seq<Tx>, rest: set<Tx>, i: int, y: Tx) {
    0 <= i < |s| && y in rest ==> s[i] != y && !Before(p, y, s[i])
  }

  ghost predicate Precedes(p: Pool, s: seq<Tx>, rest: set<Tx>) {
    forall i: int, y: Tx :: PrecedesAt(p, s, rest, i, y)
  }

  /** Fewer ancestors first; the hash decides between equals. */
  ghost predicate ByCount(p: Pool, s: seq<Tx>) {
    forall i, j :: 0 <= i < j < |s| ==>
      && s[i] != s[j] && |p.anc(s[i])| <= |p.anc(s[j])|
      && (|p.anc(s[i])| == |p.anc(s[j])| ==> p.hash(s[i]) <= p.hash(s[j]))
  }

  lemma SortedByCount(p: Pool, s: seq<Tx>)
    requires Sorted(p, s)
    ensures ByCount(p, s)
  {
    forall i, j | 0 <= i < j < |s|
      ensures s[i] != s[j] && |p.anc(s[i])| <= |p.anc(s[j])| && (|p.anc(s[i])| == |p.anc(s[j])| ==> p.hash(s[i]) <= p.hash(s[j]))
    {
      assert InOrder(p, s, i, j);
    }
  }

  lemma SelectNext(p: Pool, s: seq<Tx>, rest: set<Tx>, x: Tx)
    requires Sorted(p, s) && Precedes(p, s, rest) && x in rest && forall y :: y in rest ==> !Before(p, y, x)
    ensures Sorted(p, s + [x]) && Precedes(p, s + [x], rest - {x})
  {
    var s', r' := s + [x], rest - {x};
    forall i: int, j: int ensures InOrder(p, s', i, j) {
      assert InOrder(p, s, i, j) && PrecedesAt(p, s, rest, i, x);
    }
    forall i: int, y: Tx ensures PrecedesAt(p, s', r', i, y) {
      assert PrecedesAt(p, s, rest, i, y);
    }
  }

  /** An ancestor has fewer ancestors. */
  lemma AncestorFirst(p: Pool, t: Tx, a: Tx)
    requires WellFormed(p) && t in p.txs && a in p.anc(t)
    ensures Before(p, a, t)
  {
    assert TxOk(p, t) && TxOk(p, a);
    SubsetCard(p.anc(a), p.anc(t));
  }

  lemma PlacedEarlier(p: Pool, s: seq<Tx>, i: nat, a: Tx)
    requires Sorted(p, s) && i < |s| && a in Elements(s) && Before(p, a, s[i])
    ensures a in Elements(s[..i])
  {
    var k :| 0 <= k < |s| && s[k] == a;
    assert InOrder(p, s, i, k);
    assert k < i;
    assert s[..i][k] == a;
  }

  lemma NotPlacedYet(p: Pool, s: seq<Tx>, i: nat)
    requires Sorted(p, s) && i < |s|
    ensures s[i] in Elements(s) && s[i] !in Elements(s[..i])
    ensures Elements(s[..i + 1]) == Elements(s[..i]) + {s[i]}
  {
    forall k | 0 <= k < i ensures s[..i][k] != s[i] {
      assert InOrder(p, s, k, i);
    }
    assert s[..i + 1] == s[..i] + [s[i]];
    ElementsAppend(s[..i], s[i]);
  }

  /** Sorting by ancestor count is a valid block order: what a package's i-th
      transaction needs is in the block already or earlier in the package. */
  lemma SortedIsTopological(p: Pool, t: Tx, inBlock: set<Tx>, s: seq<Tx>, i: nat)
    requires WellFormed(p) && t in p.txs && Closed(p, inBlock)
    requires Sorted(p, s) && Elements(s) == Left(p, t, inBlock) && i < |s|
    ensures s[i] in p.txs && s[i] !in inBlock + Elements(s[..i])
    ensures p.anc(s[i]) <= inBlock + Elements(s[..i])
    ensures Elements(s[..i + 1]) == Elements(s[..i]) + {s[i]}
  {
    var x := s[i];
    NotPlacedYet(p, s, i);
    assert TxOk(p, t);
    forall a | a in p.anc(x) ensures a in inBlock + Elements(s[..i]) {
      if a !in inBlock {
        AncestorFirst(p, x, a);
        assert a in Left(p, t, inBlock);
        PlacedEarlier(p, s, i, a);
      }
    }
  }

  lemma {:induction false} LeastExists(p: Pool, s: set<Tx>) returns (x: Tx)
    requires s != {}
    ensures x in s && forall y :: y in s ==> !Before(p, y, x)
    decreases s
  {
    x :| x in s;
    if s != {x} {
      var l := LeastExists(p, s - {x});
      var first := x;
      if Before(p, l, x) { x := l; }
      forall y | y in s ensures !Before(p, y, x) {
        assert y == first || y in s - {first};
      }
    }
  }

  // ---------------------------------------------------------------- patched totals

  datatype Totals = Totals(size: int, modFees: int, sigOps: int)

  type Modified = map<Tx, Totals>

  function Cached(p: Pool, t: Tx): Totals { Totals(p.sizeWith(t), p.modFeesWith(t), p.sigOpsWith(t)) }

  /** How a descendant's totals change when `it` enters the block: a new entry is
      patched with the modified fee, an existing one with the plain fee. */
  function Patched(p: Pool, m: Modified, d: Tx, it: Tx): Totals {
    if d in m then Totals(m[d].size - p.size(it), m[d].modFees - p.fee(it), m[d].sigOps - p.sigOps(it))
    else Totals(p.sizeWith(d) - p.size(it), p.modFeesWith(d) - p.modFee(it), p.sigOpsWith(d) - p.sigOps(it))
  }

  function PatchAll(p: Pool, m: Modified, ds: set<Tx>, it: Tx): Modified {
    map d | d in m.Keys + ds :: if d in ds then Patched(p, m, d, it) else m[d]
  }

  lemma PatchNone(p: Pool, m: Modified, it: Tx)
    ensures PatchAll(p, m, {}, it) == m
  {
  }

  lemma PatchMore(p: Pool, m: Modified, ds: set<Tx>, d: Tx, it: Tx)
    requires d !in ds
    ensures var n := PatchAll(p, m, ds, it);
            PatchAll(p, m, ds + {d}, it) == n[d := Patched(p, n, d, it)]
  {
  }

  /** One round of UpdatePackagesForAdded. */
  function UpdateFor(p: Pool, m: Modified, added: set<Tx>, it: Tx): Modified {
    PatchAll(p, m, Descendants(p, it) - added, it)
  }

  /** `total` never undercounts what is left of a package, and is exact unless the
      entry failed before (it then restarts from the full totals). */
  ghost predicate Tally(total: int, p: Pool, f: Tx -> int, t: Tx, done: set<Tx>, exact: bool) {
    && Sum(p, Left(p, t, done), f) <= total <= Sum(p, Package(p, t), f)
    && (exact ==> total == Sum(p, Left(p, t, done), f))
  }

  /** What prioritising added to the fee of a transaction. */
  ghost function Delta(p: Pool): Tx -> int { x => p.modFee(x) - p.fee(x) }

  /** The fees on record for a package: those of what is left of it, and the deltas of all
      transactions in `extra`, which were subtracted without them. */
  ghost predicate FeesOff(total: int, p: Pool, t: Tx, done: set<Tx>, extra: set<Tx>) {
    total == Sum(p, Left(p, t, done), p.modFee) + Sum(p, extra, Delta(p))
  }

  /** For an entry that never failed these are the ancestors in the block but one, the first
      that was subtracted. */
  ghost predicate FeeEntry(total: int, p: Pool, t: Tx, done: set<Tx>) {
    exists a :: a in p.anc(t) * done && FeesOff(total, p, t, done, p.anc(t) * done - {a})
  }

  /** What an entry of mapModifiedTx means once the transactions `done` are subtracted. */
  ghost predicate Entry(p: Pool, m: Modified, inBlock: set<Tx>, done: set<Tx>, failed: set<Tx>, t: Tx) {
    t in m ==>
      && t in p.txs && t !in inBlock
      && Tally(m[t].size, p, p.size, t, done, t !in failed)
      && Tally(m[t].sigOps, p, p.sigOps, t, done, t !in failed)
      && (t !in failed ==> FeeEntry(m[t].modFees, p, t, done))
  }

  /** A transaction without an entry that never failed has no ancestor in the block. */
  ghost predicate Untouched(p: Pool, m: Modified, inBlock: set<Tx>, done: set<Tx>, failed: set<Tx>, t: Tx) {
    t in p.txs && t !in m && t !in inBlock && t !in failed ==> p.anc(t) !! done
  }

  ghost predicate Tracks(p: Pool, m: Modified, inBlock: set<Tx>, done: set<Tx>, failed: set<Tx>) {
    && (forall t: Tx :: Entry(p, m, inBlock, done, failed, t))
    && (forall t: Tx :: Untouched(p, m, inBlock, done, failed, t))
  }

  lemma PatchTally(total: int, p: Pool, f: Tx -> int, t: Tx, done: set<Tx>, exact: bool, it: Tx)
    requires NonNegative(f) && Tally(total, p, f, t, done, exact) && it in p.anc(t) && it !in done
    requires Indexed(p) && it in p.txs
    ensures Tally(total - f(it), p, f, t, done + {it}, exact)
  {
    var l, l' := Left(p, t, done), Left(p, t, done + {it});
    assert l' == l - {it};
    SumRemove(p, l, f, it);
  }

  lemma FullTally(p: Pool, f: Tx -> int, t: Tx, done: set<Tx>, exact: bool)
    requires NonNegative(f) && (exact ==> Package(p, t) !! done)
    ensures Tally(Sum(p, Package(p, t), f), p, f, t, done, exact)
  {
    SumSubset(p, Left(p, t, done), Package(p, t), f);
    if exact { assert Left(p, t, done) == Package(p, t); }
  }

  lemma FirstFees(p: Pool, t: Tx, done: set<Tx>, it: Tx)
    requires WellFormed(p) && t in p.txs && it in p.anc(t) && it !in done && p.anc(t) !! done && t !in done
    ensures FeeEntry(p.modFeesWith(t) - p.modFee(it), p, t, done + {it})
  {
    var done' := done + {it};
    assert TxOk(p, t);
    SumRemove(p, Package(p, t), p.modFee, it);
    assert Left(p, t, done') == Package(p, t) - {it};
    assert p.anc(t) * done' - {it} == {};
    SumInNone(p.order, Delta(p));
    assert it in p.anc(t) * done' && FeesOff(p.modFeesWith(t) - p.modFee(it), p, t, done', p.anc(t) * done' - {it});
  }

  lemma NextFees(total: int, p: Pool, t: Tx, done: set<Tx>, it: Tx)
    requires WellFormed(p) && t in p.txs && it in p.anc(t) && it !in done && FeeEntry(total, p, t, done)
    ensures FeeEntry(total - p.fee(it), p, t, done + {it})
  {
    var a :| a in p.anc(t) * done && FeesOff(total, p, t, done, p.anc(t) * done - {a});
    var done' := done + {it};
    assert TxOk(p, t);
    SumRemove(p, Left(p, t, done), p.modFee, it);
    assert Left(p, t, done') == Left(p, t, done) - {it};
    SumAdd(p, p.anc(t) * done - {a}, Delta(p), it);
    assert p.anc(t) * done' - {a} == p.anc(t) * done - {a} + {it};
    assert a in p.anc(t) * done' && FeesOff(total - p.fee(it), p, t, done', p.anc(t) * done' - {a});
  }

  /** A descendant of a transaction that just entered is not in the block. */
  lemma DescendantOutside(p: Pool, inBlock: set<Tx>, added: set<Tx>, it: Tx, d: Tx)
    requires WellFormed(p) && added <= inBlock && Closed(p, inBlock - added) && it in added
    requires d in Descendants(p, it) - added
    ensures d !in inBlock && it in p.anc(d)
  {
  }

  lemma EntryPatched(p: Pool, m: Modified, inBlock: set<Tx>, added: set<Tx>, done: set<Tx>, failed: set<Tx>, it: Tx, t: Tx)
    requires WellFormed(p) && added <= inBlock && Closed(p, inBlock - added)
    requires it in added && it !in done && done <= inBlock
    requires Entry(p, m, inBlock, done, failed, t) && Untouched(p, m, inBlock, done, failed, t)
    ensures Entry(p, UpdateFor(p, m, added, it), inBlock, done + {it}, failed, t)
    ensures Untouched(p, UpdateFor(p, m, added, it), inBlock, done + {it}, failed, t)
  {
    if t in Descendants(p, it) - added {
      DescendantOutside(p, inBlock, added, it, t);
      assert TxOk(p, t);
      if t !in m {
        FullTally(p, p.size, t, done, t !in failed);
        FullTally(p, p.sigOps, t, done, t !in failed);
        PatchTally(p.sizeWith(t), p, p.size, t, done, t !in failed, it);
        PatchTally(p.sigOpsWith(t), p, p.sigOps, t, done, t !in failed, it);
        if t !in failed { FirstFees(p, t, done, it); }
      } else {
        PatchTally(m[t].size, p, p.size, t, done, t !in failed, it);
        PatchTally(m[t].sigOps, p, p.sigOps, t, done, t !in failed, it);
        if t !in failed { NextFees(m[t].modFees, p, t, done, it); }
      }
    } else if t in m {
      assert Left(p, t, done) == Left(p, t, done + {it});
      assert p.anc(t) * done == p.anc(t) * (done + {it});
    }
  }

  /** An entry that starts anew (after it failed and was erased) counts again exactly
      those ancestors that entered the block before. */
  lemma RestartOvercounts(p: Pool, m: Modified, inBlock: set<Tx>, added: set<Tx>, done: set<Tx>, it: Tx, t: Tx)
    requires WellFormed(p) && added <= inBlock && Closed(p, inBlock - added)
    requires it in added && it !in done && done <= inBlock
    requires t in Descendants(p, it) - added && t !in m
    ensures t in UpdateFor(p, m, added, it)
    ensures UpdateFor(p, m, added, it)[t].size == Sum(p, Left(p, t, done + {it}), p.size) + Sum(p, p.anc(t) * done, p.size)
    ensures UpdateFor(p, m, added, it)[t].sigOps == Sum(p, Left(p, t, done + {it}), p.sigOps) + Sum(p, p.anc(t) * done, p.sigOps)
  {
    DescendantOutside(p, inBlock, added, it, t);
    assert TxOk(p, t);
    var l := Left(p, t, done + {it});
    SumInDisjoint(p.order, l, p.anc(t) * done, p.size);
    SumAdd(p, l + p.anc(t) * done, p.size, it);
    SumInDisjoint(p.order, l, p.anc(t) * done, p.sigOps);
    SumAdd(p, l + p.anc(t) * done, p.sigOps, it);
    assert Package(p, t) == l + p.anc(t) * done + {it};
  }

  /** A sum of non-negative numbers is positive if and only if one of them is. */
  lemma {:induction false} SumInPositive(list: seq<Tx>, s: set<Tx>, f: Tx -> int)
    requires NonNegative(f)
    ensures SumIn(list, s, f) >= 0
    ensures SumIn(list, s, f) > 0 <==> exists a :: a in s && a in list && f(a) > 0
  {
    if list != [] {
      SumInPositive(list[1..], s, f);
      if a :| a in s && a in list && f(a) > 0 {
        if a != list[0] { assert a in list[1..]; }
      }
      if SumIn(list, s, f) > 0 && !(list[0] in s && f(list[0]) > 0) {
        var a :| a in s && a in list[1..] && f(a) > 0;
        assert a in list;
      }
    }
  }

  /** So a new entry is exact if and only if the ancestors that entered before cost nothing,
      and too high otherwise. */
  lemma RestartExact(p: Pool, m: Modified, inBlock: set<Tx>, added: set<Tx>, done: set<Tx>, it: Tx, t: Tx)
    requires WellFormed(p) && added <= inBlock && Closed(p, inBlock - added)
    requires it in added && it !in done && done <= inBlock
    requires t in Descendants(p, it) - added && t !in m
    ensures var e := UpdateFor(p, m, added, it)[t]; var l := Left(p, t, done + {it});
            && (e.size > Sum(p, l, p.size) <==> exists a :: a in p.anc(t) * done && p.size(a) > 0)
            && (e.size == Sum(p, l, p.size) <==> forall a :: a in p.anc(t) * done ==> p.size(a) == 0)
            && (e.sigOps > Sum(p, l, p.sigOps) <==> exists a :: a in p.anc(t) * done && p.sigOps(a) > 0)
            && (e.sigOps == Sum(p, l, p.sigOps) <==> forall a :: a in p.anc(t) * done ==> p.sigOps(a) == 0)
  {
    RestartOvercounts(p, m, inBlock, added, done, it, t);
    SumInPositive(p.order, p.anc(t) * done, p.size);
    SumInPositive(p.order, p.anc(t) * done, p.sigOps);
    assert TxOk(p, t);
    assert forall a :: a in p.anc(t) * done ==> a in Elements(p.order);
  }

  /** Three transactions of 100 bytes; the third needs the other two, and the second is
      prioritised by 500. */
  function ThreePool(): Pool {
    var anc := (t: Tx) => if t == Tx(2) then {Tx(0), Tx(1)} else {};
    var with := (t: Tx) => if t == Tx(2) then 300 else 100;
    var modFee := (t: Tx) => if t == Tx(1) then 1500 else 1000;
    Pool({Tx(0), Tx(1), Tx(2)}, [Tx(0), Tx(1), Tx(2)], anc, (t: Tx) => t.id, t => 100, t => 400, t => 1, t => 1000, modFee,
         with, t => if t == Tx(2) then 3 else 1, t => if t == Tx(2) then 3500 else if t == Tx(1) then 1500 else 1000, t => true)
  }

  lemma ThreeSum(s: set<Tx>, f: Tx -> int)
    ensures Sum(ThreePool(), s, f)
            == (if Tx(0) in s then f(Tx(0)) else 0) + (if Tx(1) in s then f(Tx(1)) else 0) + (if Tx(2) in s then f(Tx(2)) else 0)
  {
    var list := ThreePool().order;
    assert list[1..] == [Tx(1), Tx(2)] && [Tx(1), Tx(2)][1..] == [Tx(2)] && [Tx(2)][1..] == [];
    assert SumIn([Tx(2)], s, f) == if Tx(2) in s then f(Tx(2)) else 0;
    assert SumIn([Tx(1), Tx(2)], s, f) == (if Tx(1) in s then f(Tx(1)) else 0) + SumIn([Tx(2)], s, f);
  }

  lemma ThreePoolWellFormed()
    ensures WellFormed(ThreePool())
  {
    var p := ThreePool();
    forall t: Tx ensures TxOk(p, t) {
      ThreeSum(Package(p, t), p.size);
      ThreeSum(Package(p, t), p.sigOps);
      ThreeSum(Package(p, t), p.modFee);
    }
    ThreeSum(p.txs, p.size);
    ThreeSum(p.txs, p.sigOps);
  }

  /** The first one is added, the third fails, the second one is added: the third is then
      taken for 200 bytes, with 100 left to add. */
  lemma RestartTooHigh()
    ensures var p := ThreePool();
            var m1 := UpdateFor(p, map[], {Tx(0)}, Tx(0));
            var m2 := UpdateFor(p, m1 - {Tx(2)}, {Tx(1)}, Tx(1));
            && WellFormed(p)
            && Tx(2) in m1 && m1[Tx(2)].size == Sum(p, Left(p, Tx(2), {Tx(0)}), p.size) == 200
            && Tx(2) in m2 && m2[Tx(2)].size == 200
            && Sum(p, Left(p, Tx(2), {Tx(0), Tx(1)}), p.size) == 100
  {
    ThreePoolWellFormed();
    var p := ThreePool();
    ThreeSum(Left(p, Tx(2), {Tx(0)}), p.size);
    ThreeSum(Left(p, Tx(2), {Tx(0), Tx(1)}), p.size);
  }

  /** The first one is added, then the second: the third is taken to pay 1500, with 1000
      left to earn. */
  lemma FeesTooHigh()
    ensures var p := ThreePool();
            var m1 := UpdateFor(p, map[], {Tx(0)}, Tx(0));
            var m2 := UpdateFor(p, m1, {Tx(1)}, Tx(1));
            && WellFormed(p) && Tx(2) in m2 && m2[Tx(2)].modFees == 1500
            && Sum(p, Left(p, Tx(2), {Tx(0), Tx(1)}), p.modFee) == 1000
  {
    ThreePoolWellFormed();
    var p := ThreePool();
    ThreeSum(Left(p, Tx(2), {Tx(0), Tx(1)}), p.modFee);
  }

  /** Fees on record are those of what is left if and only if the deltas cancel out. */
  lemma FeesExact(total: int, p: Pool, t: Tx, done: set<Tx>) returns (extra: set<Tx>)
    requires FeeTally(total, p, t, done)
    ensures extra <= p.anc(t) * done && |extra| == if p.anc(t) !! done then 0 else |p.anc(t) * done| - 1
    ensures total == Sum(p, Left(p, t, done), p.modFee) <==> Sum(p, extra, Delta(p)) == 0
  {
    extra := {};
    SumInNone(p.order, Delta(p));
    if !(p.anc(t) !! done) {
      var a :| a in p.anc(t) * done && FeesOff(total, p, t, done, p.anc(t) * done - {a});
      extra := p.anc(t) * done - {a};
    }
  }

  /** Patching for one added transaction keeps the meaning of all entries. */
  lemma UpdateTracks(p: Pool, m: Modified, inBlock: set<Tx>, added: set<Tx>, done: set<Tx>, failed: set<Tx>, it: Tx)
    requires WellFormed(p) && added <= inBlock && Closed(p, inBlock - added)
    requires it in added && it !in done && done <= inBlock
    requires Tracks(p, m, inBlock, done, failed)
    ensures Tracks(p, UpdateFor(p, m, added, it), inBlock, done + {it}, failed)
  {
    var m', done' := UpdateFor(p, m, added, it), done + {it};
    forall t: Tx ensures Entry(p, m', inBlock, done', failed, t) && Untouched(p, m', inBlock, done', failed, t) {
      assert Entry(p, m, inBlock, done, failed, t) && Untouched(p, m, inBlock, done, failed, t);
      EntryPatched(p, m, inBlock, added, done, failed, it, t);
    }
  }

  /** Erasing a package's entries while its transactions enter the block. */
  lemma EraseTracks(p: Pool, m: Modified, inBlock: set<Tx>, done: set<Tx>, failed: set<Tx>, x: Tx)
    requires Tracks(p, m, inBlock, done, failed)
    ensures Tracks(p, m - {x}, inBlock + {x}, done, failed)
  {
    var m', b' := m - {x}, inBlock + {x};
    forall t: Tx ensures Entry(p, m', b', done, failed, t) && Untouched(p, m', b', done, failed, t) {
      assert Entry(p, m, inBlock, done, failed, t) && Untouched(p, m, inBlock, done, failed, t);
    }
  }

  /** Erasing an entry that failed. */
  lemma FailTracks(p: Pool, m: Modified, inBlock: set<Tx>, done: set<Tx>, failed: set<Tx>, x: Tx)
    requires Tracks(p, m, inBlock, done, failed)
    ensures Tracks(p, m - {x}, inBlock, done, failed + {x})
  {
    var m', f' := m - {x}, failed + {x};
    forall t: Tx ensures Entry(p, m', inBlock, done, f', t) && Untouched(p, m', inBlock, done, f', t) {
      assert Entry(p, m, inBlock, done, failed, t) && Untouched(p, m, inBlock, done, failed, t);
    }
  }

  /** The fees on record for a candidate that never failed. */
  ghost predicate FeeTally(total: int, p: Pool, t: Tx, done: set<Tx>) {
    if p.anc(t) !! done then total == Sum(p, Left(p, t, done), p.modFee) else FeeEntry(total, p, t, done)
  }

  /** What the totals on record for a candidate are. */
  ghost predicate Recorded(p: Pool, t: Tx, c: Totals, done: set<Tx>, exact: bool) {
    && Tally(c.size, p, p.size, t, done, exact) && Tally(c.sigOps, p, p.sigOps, t, done, exact)
    && (exact ==> FeeTally(c.modFees, p, t, done))
  }

  /** Without prioritised ancestors in the block these fees are those of what is left. */
  lemma FeesRight(total: int, p: Pool, t: Tx, done: set<Tx>)
    requires FeeTally(total, p, t, done) && forall a :: a in p.anc(t) * done ==> p.modFee(a) == p.fee(a)
    ensures total == Sum(p, Left(p, t, done), p.modFee)
  {
    if !(p.anc(t) !! done) {
      var a :| a in p.anc(t) * done && FeesOff(total, p, t, done, p.anc(t) * done - {a});
      SumInZero(p.order, p.anc(t) * done - {a}, Delta(p));
    }
  }

  lemma {:induction false} SumInZero(list: seq<Tx>, s: set<Tx>, f: Tx -> int)
    requires forall x :: x in s ==> f(x) == 0
    ensures SumIn(list, s, f) == 0
  {
    if list != [] { SumInZero(list[1..], s, f); }
  }

  /** The totals of a candidate, taken from mapTx or from its entry, cover what
      would be added; and they are exact if it never failed. */
  lemma CandidateTally(p: Pool, m: Modified, inBlock: set<Tx>, failed: set<Tx>, t: Tx)
    requires WellFormed(p) && Tracks(p, m, inBlock, inBlock, failed)
    requires t in p.txs && t !in inBlock && (t in m || t !in failed)
    ensures var c := if t in m then m[t] else Cached(p, t); Recorded(p, t, c, inBlock, t !in failed)
  {
    assert Entry(p, m, inBlock, inBlock, failed, t) && Untouched(p, m, inBlock, inBlock, failed, t);
    assert TxOk(p, t);
    if t !in m {
      FullTally(p, p.size, t, inBlock, true);
      FullTally(p, p.sigOps, t, inBlock, true);
      assert Left(p, t, inBlock) == Package(p, t);
    }
  }

  /** So no total ever wraps around its 64 bits. */
  lemma TotalsFit(p: Pool, total: int, f: Tx -> int, t: Tx, done: set<Tx>, exact: bool)
    requires WellFormed(p) && t in p.txs && NonNegative(f) && Tally(total, p, f, t, done, exact)
    ensures 0 <= total <= Sum(p, p.txs, f)
  {
    assert TxOk(p, t);
    SumInNonNegative(p.order, Left(p, t, done), f);
    SumSubset(p, Package(p, t), p.txs, f);
  }

  /** Adding what is left of a package adds at most its totals. */
  lemma PackageCost(p: Pool, t: Tx, inBlock: set<Tx>)
    requires WellFormed(p) && t in p.txs && inBlock <= p.txs
    ensures var l := Left(p, t, inBlock);
            && l <= p.txs && l !! inBlock
            && Sum(p, inBlock + l, p.weight) <= Sum(p, inBlock, p.weight) + 4 * Sum(p, l, p.size)
            && Sum(p, inBlock + l, p.sigOps) == Sum(p, inBlock, p.sigOps) + Sum(p, l, p.sigOps)
  {
    var l := Left(p, t, inBlock);
    assert TxOk(p, t);
    forall x | x in l ensures p.weight(x) <= 4 * p.size(x) { assert TxOk(p, x); }
    SumInScaled(p.order, l, p.weight, p.size);
    SumInDisjoint(p.order, inBlock, l, p.weight);
    SumInDisjoint(p.order, inBlock, l, p.sigOps);
  }

  /** The whole pool fits into one block. */
  ghost predicate Fits(p: Pool, nBlockMaxWeight: nat) {
    && 4000 + 4 * Sum(p, p.txs, p.size) < nBlockMaxWeight
    && 400 + Sum(p, p.txs, p.sigOps) < MAX_BLOCK_SIGOPS_COST
    && forall t :: t in p.txs ==> p.admissible(t)
  }

  /** Then every exact candidate fits. */
  lemma FitsAll(p: Pool, nBlockMaxWeight: nat, t: Tx, inBlock: set<Tx>)
    requires WellFormed(p) && Fits(p, nBlockMaxWeight) && t in p.txs && inBlock <= p.txs
    ensures 4000 + Sum(p, inBlock, p.weight) + 4 * Sum(p, Left(p, t, inBlock), p.size) < nBlockMaxWeight
    ensures 400 + Sum(p, inBlock, p.sigOps) + Sum(p, Left(p, t, inBlock), p.sigOps) < MAX_BLOCK_SIGOPS_COST
  {
    var l := Left(p, t, inBlock);
    assert TxOk(p, t);
    forall x | x in inBlock ensures p.weight(x) <= 4 * p.size(x) { assert TxOk(p, x); }
    SumInScaled(p.order, inBlock, p.weight, p.size);
    SumInDisjoint(p.order, inBlock, l, p.size);
    SumInDisjoint(p.order, inBlock, l, p.sigOps);
    SumSubset(p, inBlock + l, p.txs, p.size);
    SumSubset(p, inBlock + l, p.txs, p.sigOps);
  }
}
