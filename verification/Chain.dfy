/** The block index and the active chain (src/chain.h, src/chain.cpp).  Every block
    knows its parent; a skip pointer leads further back. */
module Chain {
  import opened Common
  import opened Powers

  // ---------------------------------------------------------------- skip heights

  /** Bitwise and. */
  function BitAnd(x: nat, y: nat): nat {
    if x == 0 || y == 0 then 0 else (if x % 2 == 1 && y % 2 == 1 then 1 else 0) + 2 * BitAnd(x / 2, y / 2)
  }

  lemma {:induction false} AndBelow(x: nat, y: nat)
    ensures BitAnd(x, y) <= y
  {
    if x > 0 && y > 0 { AndBelow(x / 2, y / 2); }
  }

  lemma {:induction false} AndSame(x: nat)
    ensures BitAnd(x, x) == x
  {
    if x > 0 { AndSame(x / 2); }
  }

  /** n & (n - 1) */
  function InvertLowestOne(n: nat): nat { if n == 0 then 0 else BitAnd(n, n - 1) }

  /** The lowest bit that is set. */
  function LowestOne(n: nat): nat
    requires n > 0
  {
    if n % 2 == 1 then 1 else 2 * LowestOne(n / 2)
  }

  lemma {:induction false} InvertsLowestOne(n: nat)
    requires n > 0
    ensures InvertLowestOne(n) == n - LowestOne(n)
  {
    if n % 2 == 1 {
      assert (n - 1) / 2 == n / 2;
      AndSame(n / 2);
      if n == 1 { assert BitAnd(0, 0) == 0; }
    } else {
      assert (n - 1) / 2 == n / 2 - 1 && (n - 1) % 2 == 1;
      InvertsLowestOne(n / 2);
    }
  }

  function GetSkipHeight(height: int): (r: nat)
    ensures height > 0 ==> r < height
  {
    if height < 2 then 0
    else if height % 2 == 1 then
      AndBelow(height - 1, height - 2);
      var low := InvertLowestOne(height - 1);
      if low > 0 then AndBelow(low, low - 1); InvertLowestOne(low) + 1 else InvertLowestOne(low) + 1
    else
      AndBelow(height, height - 1);
      InvertLowestOne(height)
  }

  /** Whether the walk to a height follows the skip pointer: not when it leads too far, and
      not when that of the parent is much better and does not. */
  predicate UsesSkip(walk: nat, height: nat)
    requires walk > height
  {
    var skip, skipPrev := GetSkipHeight(walk), GetSkipHeight(walk - 1);
    skip == height || (skip > height && !(skipPrev < skip - 2 && skipPrev >= height))
  }

  function NextHeight(walk: nat, height: nat): (r: nat)
    requires walk > height
    ensures height <= r < walk
  {
    if UsesSkip(walk, height) then GetSkipHeight(walk) else walk - 1
  }

  /** How many steps the walk takes when every block on it has its skip pointer. */
  function Steps(walk: nat, height: nat): nat
    decreases walk
  {
    if walk <= height then 0 else 1 + Steps(NextHeight(walk, height), height)
  }

  // ---------------------------------------------------------------- blocks

  class BlockIndex {
    const pprev: BlockIndex?
    const nHeight: nat
    const nTime: nat
    /** The largest time on the way down. */
    const nTimeMax: nat
    var pskip: BlockIndex?
    /** All blocks below this one, from the first on. */
    ghost const below: seq<BlockIndex>

    ghost predicate LinkedAt(i: int) {
      0 <= i < |below| ==>
        below[i].nHeight == i && below[i].below == below[..i] && below[i].pprev == (if i == 0 then null else below[i - 1]) && below[i].Timed()
    }

    ghost predicate Timed() {
      nTimeMax == if pprev != null && pprev.nTimeMax > nTime then pprev.nTimeMax else nTime
    }

    /** The parent links lead down to height 0. */
    ghost predicate Linked() {
      && |below| == nHeight && pprev == (if nHeight == 0 then null else below[nHeight - 1])
      && Timed() && forall i: int :: LinkedAt(i)
    }

    /** The block at a height on the way down. */
    ghost function At(h: nat): (b: BlockIndex)
      requires Linked() && h <= nHeight
      ensures b.nHeight == h
    {
      if h == nHeight then this else assert LinkedAt(h); below[h]
    }

    ghost predicate SkipAt(i: int)
      reads this, below
    {
      0 <= i <= nHeight == |below| ==>
        var b := if i == nHeight then this else below[i];
        b.pskip == null || (i > 0 && b.pskip == below[GetSkipHeight(i)])
    }

    /** Every skip pointer on the way down is unset or leads to its skip height. */
    ghost predicate Skips()
      reads this, below
    {
      forall i: int :: SkipAt(i)
    }

    constructor (prev: BlockIndex?, time: nat)
      requires prev != null ==> prev.Linked()
      ensures Linked() && pprev == prev && pskip == null && nTime == time
      ensures below == if prev == null then [] else prev.below + [prev]
    {
      pprev := prev;
      nHeight := if prev == null then 0 else prev.nHeight + 1;
      nTime := time;
      nTimeMax := if prev != null && prev.nTimeMax > time then prev.nTimeMax else time;
      pskip := null;
      below := if prev == null then [] else prev.below + [prev];
      new;
      forall i: int ensures LinkedAt(i) {
        if prev != null {
          assert prev.LinkedAt(i);
          assert 0 <= i < |prev.below| ==> below[..i] == prev.below[..i];
          assert below[..|prev.below|] == prev.below;
        }
      }
    }

    /** Blocks on the way down are linked, and their ways down are parts of it. */
    lemma Below(h: nat)
      requires Linked() && h <= nHeight
      ensures At(h).Linked() && At(h).below == (below + [this])[..h]
      ensures forall k: nat :: k <= h ==> At(h).At(k) == At(k)
    {
      if h < nHeight {
        assert LinkedAt(h);
        var b := below[h];
        forall i: int ensures b.LinkedAt(i) {
          assert LinkedAt(i);
          if 0 <= i < h { assert below[..h][..i] == below[..i]; }
        }
        assert (below + [this])[..h] == below[..h];
      }
    }

    lemma BelowSkips(h: nat)
      requires Linked() && Skips() && h <= nHeight
      ensures At(h).Linked() && At(h).Skips()
    {
      Below(h);
      var b := At(h);
      if h < nHeight {
        forall i: int ensures b.SkipAt(i) {
          assert SkipAt(i);
          if 0 < i <= h { assert b.below[GetSkipHeight(i)] == below[GetSkipHeight(i)]; }
        }
      }
    }

    lemma SkipTarget(h: nat)
      requires Linked() && Skips() && h <= nHeight
      ensures At(h).pskip != null ==> h > 0 && At(h).pskip == At(GetSkipHeight(h))
    {
      assert SkipAt(h);
    }

    lemma Parent(h: nat)
      requires Linked() && h <= nHeight
      ensures At(h).pprev == if h == 0 then null else At(h - 1)
    {
      assert LinkedAt(h);
    }

    /** Some block at or below a height has a time of at least t. */
    ghost predicate TimeReached(h: nat, t: int)
      requires Linked() && h <= nHeight
    {
      exists k: nat :: k <= h && At(k).nTime >= t
    }

    lemma {:induction false} TimeMaxExact(h: nat, t: int)
      requires Linked() && h <= nHeight
      ensures At(h).nTimeMax >= t <==> TimeReached(h, t)
      decreases h
    {
      Parent(h);
      assert LinkedAt(h);
      if h > 0 { TimeMaxExact(h - 1, t); }
      if At(h).nTime >= t { assert TimeReached(h, t); }
    }

    ghost predicate SetAt(i: int)
      requires Linked()
      reads this, below
    {
      0 < i <= nHeight ==> At(i).pskip != null
    }

    /** Every block on the way down but the first has its skip pointer. */
    ghost predicate AllSet()
      requires Linked()
      reads this, below
    {
      forall i: int :: SetAt(i)
    }

    /** Follow skip pointers where they do not overshoot.  Any tree in which the skip
        pointers are where they should be gives the real ancestor; `steps` counts the
        rounds. */
    method WalkTo(height: int) returns (r: BlockIndex?, ghost steps: nat)
      requires Linked() && Skips()
      ensures r == if 0 <= height <= nHeight then At(height) else null
      ensures AllSet() && 0 <= height <= nHeight ==> steps == Steps(nHeight, height)
    {
      steps := 0;
      if height > nHeight || height < 0 { return null, 0; }
      var pindexWalk: BlockIndex := this;
      var heightWalk := nHeight;
      while heightWalk > height
        invariant height <= heightWalk <= nHeight && pindexWalk == At(heightWalk)
        invariant AllSet() ==> steps + Steps(heightWalk, height) == Steps(nHeight, height)
      {
        SkipTarget(heightWalk);
        Parent(heightWalk);
        assert AllSet() ==> SetAt(heightWalk);
        steps := steps + 1;
        var heightSkip := GetSkipHeight(heightWalk);
        var heightSkipPrev := GetSkipHeight(heightWalk - 1);
        if pindexWalk.pskip != null &&
           (heightSkip == height || (heightSkip > height && !(heightSkipPrev < heightSkip - 2 && heightSkipPrev >= height)))
        {
          pindexWalk := pindexWalk.pskip;
          heightWalk := heightSkip;
        } else {
          pindexWalk := pindexWalk.pprev;
          heightWalk := heightWalk - 1;
        }
      }
      return pindexWalk, steps;
    }

    method GetAncestor(height: int) returns (r: BlockIndex?)
      requires Linked() && Skips()
      ensures r == if 0 <= height <= nHeight then At(height) else null
    {
      ghost var steps;
      r, steps := WalkTo(height);
    }

    method BuildSkip()
      requires Linked() && (pprev != null ==> pprev.Skips()) && pskip == null
      modifies `pskip
      ensures Skips() && pskip == if nHeight == 0 then null else At(GetSkipHeight(nHeight))
    {
      if pprev != null {
        Parent(nHeight);
        Below(nHeight - 1);
        Outside();
        pskip := pprev.GetAncestor(GetSkipHeight(nHeight));
        forall i: int ensures SkipAt(i) {
          assert old(pprev.SkipAt(i));
          if 0 < i < nHeight { assert pprev.below[GetSkipHeight(i)] == below[GetSkipHeight(i)]; }
        }
      }
    }

    /** All are set if those of the parent are and its own is. */
    lemma SetAbove()
      requires Linked() && (nHeight > 0 ==> pskip != null)
      requires pprev != null ==> pprev.Linked() && pprev.AllSet() && below == pprev.below + [pprev]
      ensures AllSet()
    {
      forall i: int ensures SetAt(i) {
        if pprev != null {
          assert pprev.SetAt(i);
          if 0 < i < nHeight { assert At(i) == pprev.At(i); }
        }
      }
    }

    /** A block is not below itself. */
    lemma Outside()
      requires Linked()
      ensures this !in below
    {
      forall i | 0 <= i < |below| ensures below[i] != this { assert LinkedAt(i); }
    }
  }

  /** Going up by parent links. */
  ghost function Walk(b: BlockIndex?, steps: nat): BlockIndex? {
    if steps == 0 || b == null then b else Walk(b.pprev, steps - 1)
  }

  /** The block at a height is the one reached by that many parent steps. */
  lemma {:induction false} WalkReaches(b: BlockIndex, h: nat)
    requires b.Linked() && h <= b.nHeight
    ensures Walk(b, b.nHeight - h) == b.At(h)
    decreases b.nHeight
  {
    if h < b.nHeight {
      b.Parent(b.nHeight);
      b.Below(b.nHeight - 1);
      WalkReaches(b.pprev, h);
    }
  }

  // ---------------------------------------------------------------- the block tree

  /** All known blocks, grown one block at a time. */
  class BlockTree {
    var blocks: set<BlockIndex>

    /** A block whose way down is known and whose skip pointers are where they should be. */
    static ghost predicate Sound(b: BlockIndex, known: set<BlockIndex>)
      reads b, known
    {
      b.Linked() && (forall i :: 0 <= i < |b.below| ==> b.below[i] in known) && b.Skips() && b.AllSet()
    }

    ghost predicate Valid()
      reads this, blocks
    {
      forall b :: b in blocks ==> Sound(b, blocks)
    }

    constructor ()
      ensures Valid() && blocks == {}
    {
      blocks := {};
    }

    /** A new block on top of a known one, or a first one. */
    method AddToBlockIndex(prev: BlockIndex?, time: nat) returns (b: BlockIndex)
      requires Valid() && (prev != null ==> prev in blocks)
      modifies `blocks
      ensures Valid() && fresh(b) && blocks == old(blocks) + {b} && b.pprev == prev && b.nTime == time
      ensures b.nHeight > 0 ==> b.pskip == b.At(GetSkipHeight(b.nHeight))
    {
      ghost var known := blocks;
      if prev != null { assert Sound(prev, known); }
      b := NewIndex(prev, time);
      blocks := blocks + {b};
      forall c | c in known ensures Sound(c, blocks) { assert old(Sound(c, known)); }
      assert Sound(b, blocks);
    }

    /** A block with its skip pointer, outside the tree yet. */
    static method NewIndex(prev: BlockIndex?, time: nat) returns (b: BlockIndex)
      requires prev != null ==> prev.Linked() && prev.Skips() && prev.AllSet()
      ensures fresh(b) && b.Linked() && b.Skips() && b.AllSet() && b.pprev == prev && b.nTime == time
      ensures b.below == if prev == null then [] else prev.below + [prev]
      ensures b.nHeight > 0 ==> b.pskip == b.At(GetSkipHeight(b.nHeight))
    {
      b := new BlockIndex(prev, time);
      b.BuildSkip();
      b.SetAbove();
    }
  }

  // ---------------------------------------------------------------- the active chain

  /** The highest block that two ways down share: r, or none. */
  ghost predicate HighestCommon(a: BlockIndex, b: BlockIndex, r: BlockIndex?)
    requires a.Linked() && b.Linked()
  {
    && (r != null ==> r.nHeight <= a.nHeight && r.nHeight <= b.nHeight && r == a.At(r.nHeight) == b.At(r.nHeight))
    && forall h: nat :: h <= a.nHeight && h <= b.nHeight && a.At(h) == b.At(h) ==> r != null && h <= r.nHeight
  }

  /** Once two ways down meet they stay together. */
  lemma StayTogether(a: BlockIndex, b: BlockIndex, h: nat, k: nat)
    requires a.Linked() && b.Linked() && k <= h <= a.nHeight && h <= b.nHeight && a.At(h) == b.At(h)
    ensures a.At(k) == b.At(k)
  {
    a.Below(h);
    b.Below(h);
    assert a.At(h).At(k) == a.At(k) && b.At(h).At(k) == b.At(k);
  }

  method LastCommonAncestor(a: BlockIndex, b: BlockIndex) returns (r: BlockIndex?)
    requires a.Linked() && a.Skips() && b.Linked() && b.Skips()
    ensures HighestCommon(a, b, r)
  {
    var pa: BlockIndex?, pb: BlockIndex? := a, b;
    if a.nHeight > b.nHeight {
      pa := a.GetAncestor(b.nHeight);
    } else if b.nHeight > a.nHeight {
      pb := b.GetAncestor(a.nHeight);
    }
    ghost var h: int := pa.nHeight;
    while pa != pb && pa != null && pb != null
      invariant -1 <= h <= a.nHeight && h <= b.nHeight
      invariant if h < 0 then pa == null && pb == null else pa == a.At(h) && pb == b.At(h)
      invariant forall k: nat :: h < k <= a.nHeight && k <= b.nHeight ==> a.At(k) != b.At(k)
      decreases h
    {
      a.Parent(h);
      b.Parent(h);
      pa := pa.pprev;
      pb := pb.pprev;
      h := h - 1;
    }
    assert pa == pb;
    return pa;
  }

  class ActiveChain {
    var vChain: seq<BlockIndex?>

    ghost predicate HoldsAt(tip: BlockIndex, i: int)
      requires tip.Linked()
      reads this
    {
      0 <= i < |vChain| == tip.nHeight + 1 ==> vChain[i] == tip.At(i)
    }

    /** The chain is the way down from its tip. */
    ghost predicate Valid()
      reads this
    {
      vChain != [] ==>
        && var tip := vChain[|vChain| - 1];
        && tip != null && tip.Linked() && tip.nHeight == |vChain| - 1 && forall i: int :: HoldsAt(tip, i)
    }

    function Tip(): BlockIndex?
      reads this
    {
      if |vChain| > 0 then vChain[|vChain| - 1] else null
    }

    function Index(nHeight: int): BlockIndex?
      reads this
    {
      if nHeight < 0 || nHeight >= |vChain| then null else vChain[nHeight]
    }

    predicate Contains(pindex: BlockIndex)
      reads this
    {
      Index(pindex.nHeight) == pindex
    }

    function Next(pindex: BlockIndex): BlockIndex?
      reads this
    {
      if Contains(pindex) then Index(pindex.nHeight + 1) else null
    }

    function Height(): int
      reads this
    {
      |vChain| - 1
    }

    constructor ()
      ensures Valid() && vChain == []
    {
      vChain := [];
    }

    /** A block is in the chain if and only if it is on the tip's way down. */
    lemma ContainsExact(b: BlockIndex)
      requires Valid() && b.Linked()
      ensures Contains(b) <==> Tip() != null && b.nHeight <= Tip().nHeight && Tip().At(b.nHeight) == b
    {
      if vChain != [] { assert HoldsAt(vChain[|vChain| - 1], b.nHeight); }
    }

    /** Make the vector the right length; what is new is null. */
    method Resize(n: nat)
      modifies this
      ensures vChain == if n <= |old(vChain)| then old(vChain)[..n] else old(vChain) + seq(n - |old(vChain)|, i => null)
    {
      vChain := if n <= |vChain| then vChain[..n] else vChain + seq(n - |vChain|, i => null);
    }

    /** An entry of the resized vector is on the old tip's way down, or null above it. */
    ghost predicate OldAt(tip: BlockIndex?, c: seq<BlockIndex?>, i: int)
      requires tip != null ==> tip.Linked()
    {
      0 <= i < |c| ==> c[i] == if tip != null && i <= tip.nHeight then tip.At(i) else null
    }

    ghost predicate NewAt(pindex: BlockIndex, c: seq<BlockIndex?>, h: int, i: int)
      requires pindex.Linked()
    {
      0 <= i < |c| == pindex.nHeight + 1 && h < i ==> c[i] == pindex.At(i)
    }

    /** Rewrite the vector from the new tip down, and stop at the first entry that is
        right already: then all below it are. */
    method SetTip(pindex: BlockIndex?)
      requires Valid() && (pindex != null ==> pindex.Linked())
      modifies this
      ensures Valid() && Tip() == pindex
    {
      if pindex == null {
        vChain := [];
        return;
      }
      ghost var tip := Tip();
      Resize(pindex.nHeight + 1);
      forall i: int ensures OldAt(tip, vChain, i) {
        if tip != null { assert old(HoldsAt(tip, i)); }
      }
      var p: BlockIndex? := pindex;
      ghost var h: int := pindex.nHeight;
      while p != null && vChain[p.nHeight] != p
        invariant -1 <= h <= pindex.nHeight && |vChain| == pindex.nHeight + 1
        invariant p == if h < 0 then null else pindex.At(h)
        invariant forall i: int :: NewAt(pindex, vChain, h, i)
        invariant forall i: int :: i <= h ==> OldAt(tip, vChain, i)
        decreases h
      {
        pindex.Parent(h);
        ghost var c := vChain;
        vChain := vChain[p.nHeight := p];
        p := p.pprev;
        h := h - 1;
        forall i: int ensures NewAt(pindex, vChain, h, i) { assert NewAt(pindex, c, h + 1, i); }
        forall i: int | i <= h ensures OldAt(tip, vChain, i) { assert OldAt(tip, c, i); }
      }
      Settled(pindex, tip, h);
    }

    lemma Settled(pindex: BlockIndex, tip: BlockIndex?, h: int)
      requires pindex.Linked() && (tip != null ==> tip.Linked())
      requires -1 <= h <= pindex.nHeight && |vChain| == pindex.nHeight + 1 && (h >= 0 ==> vChain[h] == pindex.At(h))
      requires forall i: int :: NewAt(pindex, vChain, h, i)
      requires forall i: int :: i <= h ==> OldAt(tip, vChain, i)
      ensures Valid() && Tip() == pindex
    {
      forall i: int ensures 0 <= i < |vChain| ==> vChain[i] == pindex.At(i) {
        if 0 <= i < |vChain| {
          assert NewAt(pindex, vChain, h, i);
          if i < h {
            assert OldAt(tip, vChain, h) && OldAt(tip, vChain, i);
            StayTogether(pindex, tip, h, i);
          }
        }
      }
    }

    /** The last block a given block shares with the chain. */
    method FindFork(pindex: BlockIndex?) returns (r: BlockIndex?)
      requires Valid() && (pindex != null ==> pindex.Linked() && pindex.Skips())
      ensures pindex == null || Tip() == null ==> r == null
      ensures pindex != null && Tip() != null ==> HighestCommon(Tip(), pindex, r)
    {
      if pindex == null { return null; }
      r := pindex;
      if pindex.nHeight > Height() { r := pindex.GetAncestor(Height()); }
      ghost var h: int := if r == null then -1 else r.nHeight;
      while r != null && !Contains(r)
        invariant -1 <= h <= pindex.nHeight && h <= Height()
        invariant r == if h < 0 then null else pindex.At(h)
        invariant forall k: nat :: h < k <= pindex.nHeight && k <= Height() ==> vChain[k] != pindex.At(k)
        decreases h
      {
        pindex.Parent(h);
        r := r.pprev;
        h := h - 1;
      }
      if Tip() != null { Forks(pindex, r, h); }
    }

    lemma Forks(pindex: BlockIndex, r: BlockIndex?, h: int)
      requires Valid() && Tip() != null && pindex.Linked() && -1 <= h <= pindex.nHeight && h <= Height()
      requires r == if h < 0 then null else pindex.At(h)
      requires h >= 0 ==> vChain[h] == r
      requires forall k: nat :: h < k <= pindex.nHeight && k <= Height() ==> vChain[k] != pindex.At(k)
      ensures HighestCommon(Tip(), pindex, r)
    {
      forall k: nat | k <= Tip().nHeight ensures vChain[k] == Tip().At(k) { assert HoldsAt(Tip(), k); }
    }

    /** The block at a height meets both bounds. */
    ghost predicate Meets(h: nat, nTime: int, height: int)
      requires Valid() && Tip() != null && h <= Tip().nHeight
      reads this
    {
      h >= height && Tip().TimeReached(h, nTime)
    }

    lemma BelowBounds(h: nat, nTime: int, height: int)
      requires Valid() && Tip() != null && h <= Tip().nHeight
      ensures vChain[h] == Tip().At(h)
      ensures (vChain[h].nTimeMax < nTime || vChain[h].nHeight < height) <==> !Meets(h, nTime, height)
    {
      assert HoldsAt(Tip(), h);
      Tip().TimeMaxExact(h, nTime);
    }

    /** Above a block that meets the bounds all do. */
    lemma MeetsAbove(h: nat, k: nat, nTime: int, height: int)
      requires Valid() && Tip() != null && h <= k <= Tip().nHeight && Meets(h, nTime, height)
      ensures Meets(k, nTime, height)
    {
      var j: nat :| j <= h && Tip().At(j).nTime >= nTime;
    }

    /** A binary search for the first block that meets the bounds. */
    method FindEarliestAtLeast(nTime: int, height: int) returns (r: BlockIndex?)
      requires Valid()
      ensures r == null && Tip() != null ==> forall h: nat :: h <= Tip().nHeight ==> !Meets(h, nTime, height)
      ensures r != null ==>
                && Tip() != null && r.nHeight <= Tip().nHeight && r == Tip().At(r.nHeight) && Meets(r.nHeight, nTime, height)
                && forall h: nat :: h < r.nHeight ==> !Meets(h, nTime, height)
    {
      var first, count := 0, |vChain|;
      while count > 0
        invariant 0 <= first <= first + count <= |vChain|
        invariant Tip() != null ==> forall h: nat :: h < first ==> !Meets(h, nTime, height)
        invariant Tip() != null ==> forall h: nat :: first + count <= h < |vChain| ==> Meets(h, nTime, height)
        decreases count
      {
        var half := count / 2;
        var mid := first + half;
        BelowBounds(mid, nTime, height);
        if vChain[mid].nTimeMax < nTime || vChain[mid].nHeight < height {
          forall h: nat | h <= mid ensures !Meets(h, nTime, height) {
            if Meets(h, nTime, height) { MeetsAbove(h, mid, nTime, height); }
          }
          first := mid + 1;
          count := count - half - 1;
        } else {
          forall h: nat | mid <= h < |vChain| ensures Meets(h, nTime, height) { MeetsAbove(mid, h, nTime, height); }
          count := half;
        }
      }
      if first == |vChain| { return null; }
      BelowBounds(first, nTime, height);
      return vChain[first];
    }

    /** The step down from the i-th block of a locator: one for the first eleven, then
        doubling. */
    static function LocatorStep(i: nat): nat { if i <= 10 then 1 else 2 * LocatorStep(i - 1) }

    /** The heights of a locator: ever larger steps down, ending with height 0. */
    static function LocatorHeights(h: nat, i: nat): (r: seq<nat>)
      ensures |r| > 0 && r[0] == h
      decreases h
    {
      if h == 0 then [0]
      else
        LocatorStepPositive(i);
        [h] + LocatorHeights(if h > LocatorStep(i) then h - LocatorStep(i) else 0, i + 1)
    }

    static lemma LocatorStepPositive(i: nat)
      ensures LocatorStep(i) > 0
    {
      if i > 10 { LocatorStepPositive(i - 1); }
    }

    /** They are strictly falling and end at 0. */
    static lemma {:induction false} LocatorFalls(h: nat, i: nat)
      ensures var r := LocatorHeights(h, i);
              r[|r| - 1] == 0 && (forall k :: 0 <= k < |r| ==> r[k] <= h) && forall j, k :: 0 <= j < k < |r| ==> r[j] > r[k]
      decreases h
    {
      if h > 0 {
        LocatorStepPositive(i);
        LocatorFalls(if h > LocatorStep(i) then h - LocatorStep(i) else 0, i + 1);
      }
    }

    /** How far below the first block of a locator the i-th one is, unless that is below 0. */
    static function Dropped(i: nat): nat { if i <= 10 then i else 9 + Pow2(i - 10) }

    static lemma {:induction false} StepIsPower(i: nat)
      ensures LocatorStep(i) == if i <= 10 then 1 else Pow2(i - 10)
      ensures Dropped(i + 1) == Dropped(i) + LocatorStep(i)
    {
      if i == 11 { assert Pow(2, 0) == 1; } else if i > 11 { StepIsPower(i - 1); }
    }

    static lemma {:induction false} DroppedMonotone(i: nat, j: nat)
      requires i <= j
      ensures Dropped(i) + (j - i) <= Dropped(j)
      decreases j
    {
      if i < j {
        DroppedMonotone(i, j - 1);
        StepIsPower(j - 1);
      }
    }

    /** The heights in closed form. */
    static lemma {:induction false} LocatorClosed(h: nat, i: nat, k: nat)
      requires k < |LocatorHeights(h, i)|
      ensures Dropped(i + k) >= Dropped(i) && LocatorHeights(h, i)[k] == Max(0, h - (Dropped(i + k) - Dropped(i)))
      decreases h
    {
      DroppedMonotone(i, i + k);
      if h > 0 {
        StepIsPower(i);
        LocatorStepPositive(i);
        var h' := if h > LocatorStep(i) then h - LocatorStep(i) else 0;
        if k > 0 {
          DroppedMonotone(i + 1, i + k);
          LocatorClosed(h', i + 1, k - 1);
        }
      }
    }

    /** They end with the first that drops to 0. */
    static lemma {:induction false} LocatorEnds(h: nat, i: nat)
      ensures var n := |LocatorHeights(h, i)|;
              Dropped(i + n - 1) - Dropped(i) >= h && (n > 1 ==> Dropped(i + n - 2) - Dropped(i) < h)
      decreases h
    {
      if h > 0 {
        StepIsPower(i);
        LocatorStepPositive(i);
        LocatorEnds(if h > LocatorStep(i) then h - LocatorStep(i) else 0, i + 1);
      }
    }

    /** A locator has a length logarithmic in the height: twelve blocks at most below height
        12, and after that one more each time the rest of the height doubles; 32 suffice up
        to a height of 2097161. */
    static lemma LocatorLength(h: nat)
      ensures var n := |LocatorHeights(h, 0)|;
              && (h <= 11 ==> n == h + 1)
              && (h > 11 ==> n >= 13 && 9 + Pow2(n - 12) < h <= 9 + Pow2(n - 11))
              && (n <= 32 <==> h <= 2097161)
    {
      var n := |LocatorHeights(h, 0)|;
      LocatorEnds(h, 0);
      assert Pow(2, 0) == 1 && Pow(2, 1) == 2;
      if n <= 12 { DroppedMonotone(n - 1, 11); }
      assert Dropped(31) == 2097161 by {
        Pow2Values();
        PowAdd(2, 21, 3);
        assert Pow(2, 3) == 8;
      }
      if n <= 32 { DroppedMonotone(n - 1, 31); } else { DroppedMonotone(31, n - 2); }
    }

    static ghost predicate AtHeight(start: BlockIndex, vHave: seq<BlockIndex>, heights: seq<nat>, i: int)
      requires start.Linked() && |vHave| <= |heights|
    {
      0 <= i < |vHave| ==> heights[i] <= start.nHeight && vHave[i] == start.At(heights[i])
    }

    /** The first blocks of a locator. */
    static ghost predicate Listed(start: BlockIndex, vHave: seq<BlockIndex>, heights: seq<nat>)
      requires start.Linked()
    {
      |vHave| <= |heights| && forall i: int :: AtHeight(start, vHave, heights, i)
    }

    /** The blocks of a locator for a block. */
    static ghost predicate LocatorOf(start: BlockIndex, vHave: seq<BlockIndex>)
      requires start.Linked()
    {
      var heights := LocatorHeights(start.nHeight, 0);
      |vHave| == |heights| && Listed(start, vHave, heights)
    }

    /** What is left of the heights, from the n-th on. */
    static ghost predicate Left(heights: seq<nat>, n: nat, h: nat) {
      n < |heights| && heights[n..] == LocatorHeights(h, n)
    }

    static lemma LeftNext(heights: seq<nat>, n: nat, h: nat)
      requires Left(heights, n, h)
      ensures heights[n] == h && (h == 0 ==> |heights| == n + 1)
      ensures h > 0 ==> Left(heights, n + 1, if h > LocatorStep(n) then h - LocatorStep(n) else 0)
    {
      assert heights[n..][0] == heights[n];
      if h > 0 {
        LocatorStepPositive(n);
        assert heights[n..][1..] == heights[n + 1..];
      }
    }

    static lemma ListNext(start: BlockIndex, vHave: seq<BlockIndex>, heights: seq<nat>, b: BlockIndex)
      requires start.Linked() && Listed(start, vHave, heights) && |vHave| < |heights|
      requires heights[|vHave|] <= start.nHeight && b == start.At(heights[|vHave|])
      ensures Listed(start, vHave + [b], heights)
    {
      var v := vHave + [b];
      forall i: int ensures AtHeight(start, v, heights, i) { assert AtHeight(start, vHave, heights, i); }
    }

    /** Through the chain's vector where possible, else by the skip pointers. */
    method StepDown(ghost start: BlockIndex, pindex: BlockIndex, nHeight: nat) returns (r: BlockIndex)
      requires Valid() && start.Linked() && start.Skips() && pindex.nHeight <= start.nHeight && pindex == start.At(pindex.nHeight)
      requires nHeight <= pindex.nHeight
      ensures r == start.At(nHeight)
    {
      start.Below(pindex.nHeight);
      if Contains(pindex) {
        ContainsExact(pindex);
        assert HoldsAt(Tip(), nHeight);
        StayTogether(start, Tip(), pindex.nHeight, nHeight);
        r := Index(nHeight);
      } else {
        start.BelowSkips(pindex.nHeight);
        r := pindex.GetAncestor(nHeight);
      }
    }

    /** The i-th block of a locator is that far below, or the first block of the chain, which
        ends it. */
    static ghost predicate LocatorAt(start: BlockIndex, vHave: seq<BlockIndex>, i: int)
      requires start.Linked()
    {
      0 <= i < |vHave| ==>
        && vHave[i] == start.At(if i <= 10 then Max(0, start.nHeight - i) else Max(0, start.nHeight - 9 - Pow2(i - 10)))
        && (i == |vHave| - 1 <==> vHave[i].nHeight == 0)
    }

    static ghost predicate IsLocator(start: BlockIndex, vHave: seq<BlockIndex>)
      requires start.Linked()
    {
      vHave != [] && forall i: int :: LocatorAt(start, vHave, i)
    }

    static lemma LocatorExact(start: BlockIndex, vHave: seq<BlockIndex>)
      requires start.Linked() && LocatorOf(start, vHave)
      ensures IsLocator(start, vHave)
    {
      var heights := LocatorHeights(start.nHeight, 0);
      LocatorFalls(start.nHeight, 0);
      forall i: int ensures LocatorAt(start, vHave, i) {
        if 0 <= i < |vHave| {
          assert AtHeight(start, vHave, heights, i);
          LocatorClosed(start.nHeight, 0, i);
          start.Below(heights[i]);
        }
      }
    }

    method GetLocator(from: BlockIndex?) returns (vHave: seq<BlockIndex>)
      requires Valid() && (from != null ==> from.Linked() && from.Skips())
      requires Tip() != null ==> Tip().Skips()
      ensures from == null && Tip() == null ==> vHave == []
      ensures from != null || Tip() != null ==> LocatorOf(if from == null then Tip() else from, vHave)
      ensures from != null || Tip() != null ==> IsLocator(if from == null then Tip() else from, vHave)
    {
      var start := if from == null then Tip() else from;
      if start == null { return []; }
      vHave := LocatorFrom(start);
      LocatorExact(start, vHave);
    }

    method LocatorFrom(start: BlockIndex) returns (vHave: seq<BlockIndex>)
      requires Valid() && start.Linked() && start.Skips()
      ensures LocatorOf(start, vHave)
    {
      var nStep := 1;
      vHave := [];
      var pindex: BlockIndex := start;
      ghost var heights := LocatorHeights(start.nHeight, 0);
      while pindex.nHeight > 0
        invariant nStep == LocatorStep(|vHave|) && pindex.nHeight <= start.nHeight && pindex == start.At(pindex.nHeight)
        invariant Listed(start, vHave, heights) && Left(heights, |vHave|, pindex.nHeight)
        decreases pindex.nHeight
      {
        LeftNext(heights, |vHave|, pindex.nHeight);
        LocatorStepPositive(|vHave|);
        ListNext(start, vHave, heights, pindex);
        vHave := vHave + [pindex];
        var nHeight := if pindex.nHeight - nStep > 0 then pindex.nHeight - nStep else 0;
        pindex := StepDown(start, pindex, nHeight);
        if |vHave| > 10 { nStep := nStep * 2; }
      }
      LeftNext(heights, |vHave|, 0);
      ListNext(start, vHave, heights, pindex);
      vHave := vHave + [pindex];
    }
  }
}
