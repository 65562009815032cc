/** Partial Merkle trees (src/merkleblock.cpp, src/merkleblock.h; BIP 37, "Partial
    Merkle branch format") as values: the tree over a list of txids, what the builder
    writes for a set of matches, and what the reader makes of any bits and hashes. */
module Merkle {
  import opened Common
  import opened Powers

  datatype Digest = Digest(id: nat)

  const ZERO := Digest(0)

  type Hash2 = (Digest, Digest) -> Digest

  // ---------------------------------------------------------------- the shape

  /** The shape of the tree below a node.  The last node of a level may have a single
      child, whose hash is then used twice. */
  datatype Tree = Leaf(pos: nat) | Solo(child: Tree) | Pair(left: Tree, right: Tree)

  /** The number of nodes at a height. */
  function Width(n: nat, h: nat): nat {
    if h == 0 then n else (Width(n, h - 1) + 1) / 2
  }

  /** ... which the source computes by rounding up a division. */
  lemma {:induction false} WidthIsRoundedUp(n: nat, h: nat)
    ensures Width(n, h) == (n + Pow2(h) - 1) / Pow2(h)
  {
    if h > 0 {
      WidthIsRoundedUp(n, h - 1);
      RoundUpTwice(n, Pow2(h - 1));
    }
  }

  lemma RoundUpTwice(n: nat, p: nat)
    requires p > 0
    ensures ((n + p - 1) / p + 1) / 2 == (n + 2 * p - 1) / (2 * p)
  {
    var w := (n + p - 1) / p;
    var r := (n + p - 1) % p;
    assert n + p - 1 == w * p + r;
    var q, s := (w + 1) / 2, (w + 1) % 2;
    assert w + 1 == 2 * q + s;
    Distribute(w, 1, p);
    Distribute(2 * q, s, p);
    assert 2 * q * p == q * (2 * p);
    assert s * p == if s == 0 then 0 else p;
    DivUnique(n + 2 * p - 1, 2 * p, q, s * p + r);
  }

  function Shape(n: nat, h: nat, pos: nat): Tree
    decreases h
  {
    if h == 0 then Leaf(pos)
    else if 2 * pos + 1 < Width(n, h - 1) then Pair(Shape(n, h - 1, 2 * pos), Shape(n, h - 1, 2 * pos + 1))
    else Solo(Shape(n, h - 1, 2 * pos))
  }

  /** The height at which one node is left. */
  function HeightFrom(n: nat, h: nat): (r: nat)
    ensures r >= h && Width(n, r) <= 1
    decreases Width(n, h)
  {
    if Width(n, h) <= 1 then h else HeightFrom(n, h + 1)
  }

  function Height(n: nat): nat { HeightFrom(n, 0) }

  function Whole(n: nat): Tree { Shape(n, Height(n), 0) }

  /** The first leaf and the end of the leaves. */
  function Start(tr: Tree): nat {
    match tr
    case Leaf(pos) => pos
    case Solo(c) => Start(c)
    case Pair(l, _) => Start(l)
  }

  function End(tr: Tree): nat {
    match tr
    case Leaf(pos) => pos + 1
    case Solo(c) => End(c)
    case Pair(_, r) => End(r)
  }

  /** The leaves stand side by side, all at depth h. */
  ghost predicate Regular(tr: Tree, h: nat) {
    match tr
    case Leaf(_) => h == 0
    case Solo(c) => h > 0 && Regular(c, h - 1)
    case Pair(l, r) => h > 0 && Regular(l, h - 1) && Regular(r, h - 1) && End(l) == Start(r)
  }

  lemma {:induction false} StartBeforeEnd(tr: Tree, h: nat)
    requires Regular(tr, h)
    ensures Start(tr) < End(tr)
  {
    match tr
    case Leaf(_) =>
    case Solo(c) => StartBeforeEnd(c, h - 1);
    case Pair(l, r) =>
      StartBeforeEnd(l, h - 1);
      StartBeforeEnd(r, h - 1);
  }

  lemma FirstHalf(h: nat, pos: nat)
    requires h > 0
    ensures 2 * pos * Pow2(h - 1) == pos * Pow2(h) && (2 * pos + 2) * Pow2(h - 1) == (pos + 1) * Pow2(h)
    ensures (2 * pos + 1) * Pow2(h - 1) < (pos + 1) * Pow2(h)
  {
    var p := Pow2(h - 1);
    assert Pow2(h) == 2 * p;
    MulAssoc(pos, 2, p);
    MulAssoc(pos + 1, 2, p);
    assert 2 * (pos + 1) == 2 * pos + 2;
    MulStrict(2 * pos + 1, 2 * pos + 2, p);
  }

  /** A node exists if and only if its first leaf does. */
  lemma {:induction false} FirstInRange(n: nat, h: nat, pos: nat)
    ensures pos < Width(n, h) <==> pos * Pow2(h) < n
    decreases h
  {
    if h > 0 {
      FirstInRange(n, h - 1, 2 * pos);
      FirstHalf(h, pos);
    }
  }

  /** The leaves below a node are the range the source shifts out of its position. */
  lemma {:induction false} ShapeRange(n: nat, h: nat, pos: nat)
    requires pos < Width(n, h)
    ensures Regular(Shape(n, h, pos), h)
    ensures Start(Shape(n, h, pos)) == pos * Pow2(h) && End(Shape(n, h, pos)) == Min((pos + 1) * Pow2(h), n)
    decreases h
  {
    if h > 0 {
      FirstHalf(h, pos);
      FirstInRange(n, h - 1, 2 * pos + 1);
      ShapeRange(n, h - 1, 2 * pos);
      if 2 * pos + 1 < Width(n, h - 1) { ShapeRange(n, h - 1, 2 * pos + 1); }
    }
  }

  lemma {:induction false} WidthPositive(n: nat, h: nat)
    requires n > 0
    ensures Width(n, h) > 0
  {
    if h > 0 { WidthPositive(n, h - 1); }
  }

  lemma WholeRange(n: nat)
    requires n > 0
    ensures Width(n, Height(n)) == 1
    ensures Regular(Whole(n), Height(n)) && Start(Whole(n)) == 0 && End(Whole(n)) == n
  {
    var h := Height(n);
    WidthPositive(n, h);
    ShapeRange(n, h, 0);
    FirstInRange(n, h, 1);
  }

  // ---------------------------------------------------------------- hashes

  function Txid(txids: seq<Digest>, pos: nat): Digest { if pos < |txids| then txids[pos] else ZERO }

  /** CalcHash. */
  function HashOf(H: Hash2, txids: seq<Digest>, tr: Tree): Digest {
    match tr
    case Leaf(pos) => Txid(txids, pos)
    case Solo(c) => var left := HashOf(H, txids, c); H(left, left)
    case Pair(l, r) => H(HashOf(H, txids, l), HashOf(H, txids, r))
  }

  function Root(H: Hash2, txids: seq<Digest>): Digest { HashOf(H, txids, Whole(|txids|)) }

  ghost predicate SameInput(H: Hash2, a: Digest, b: Digest, c: Digest, d: Digest) {
    H(a, b) == H(c, d) ==> a == c && b == d
  }

  /** Nobody has other inputs that hash to this combination. */
  ghost predicate NoOther(H: Hash2, x: Digest, y: Digest) {
    forall a: Digest, b: Digest :: SameInput(H, a, b, x, y)
  }

  /** No node of the tree has a second preimage. */
  ghost predicate Binding(H: Hash2, txids: seq<Digest>, tr: Tree) {
    match tr
    case Leaf(_) => true
    case Solo(c) => NoOther(H, HashOf(H, txids, c), HashOf(H, txids, c)) && Binding(H, txids, c)
    case Pair(l, r) => NoOther(H, HashOf(H, txids, l), HashOf(H, txids, r)) && Binding(H, txids, l) && Binding(H, txids, r)
  }

  /** An injective pair hash is binding for every list. */
  lemma {:induction false} InjectiveIsBinding(H: Hash2, txids: seq<Digest>, tr: Tree)
    requires forall x: Digest, y: Digest :: NoOther(H, x, y)
    ensures Binding(H, txids, tr)
  {
    match tr
    case Leaf(_) =>
    case Solo(c) => InjectiveIsBinding(H, txids, c);
    case Pair(l, r) =>
      InjectiveIsBinding(H, txids, l);
      InjectiveIsBinding(H, txids, r);
  }

  ghost predicate DistinctIds(txids: seq<Digest>) {
    forall i, j :: 0 <= i < j < |txids| ==> txids[i] != txids[j]
  }

  /** Trees of one depth that begin with different transactions have different hashes. */
  lemma {:induction false} HashesDiffer(H: Hash2, txids: seq<Digest>, a: Tree, b: Tree, h: nat)
    requires Binding(H, txids, b) && Regular(a, h) && Regular(b, h)
    requires Txid(txids, Start(a)) != Txid(txids, Start(b))
    ensures HashOf(H, txids, a) != HashOf(H, txids, b)
  {
    if h > 0 {
      var a', b' := if a.Solo? then a.child else a.left, if b.Solo? then b.child else b.left;
      HashesDiffer(H, txids, a', b', h - 1);
      var ra := HashOf(H, txids, if a.Solo? then a.child else a.right);
      var rb := HashOf(H, txids, if b.Solo? then b.child else b.right);
      assert SameInput(H, HashOf(H, txids, a'), ra, HashOf(H, txids, b'), rb);
    }
  }

  // ---------------------------------------------------------------- matches below a node

  /** Some leaf is matched. */
  predicate Any(match_: seq<bool>, tr: Tree) {
    match tr
    case Leaf(pos) => pos < |match_| && match_[pos]
    case Solo(c) => Any(match_, c)
    case Pair(l, r) => Any(match_, l) || Any(match_, r)
  }

  /** The matched leaves, in order. */
  function Below(match_: seq<bool>, tr: Tree): seq<nat> {
    match tr
    case Leaf(pos) => if pos < |match_| && match_[pos] then [pos] else []
    case Solo(c) => Below(match_, c)
    case Pair(l, r) => Below(match_, l) + Below(match_, r)
  }

  lemma {:induction false} AnyExact(match_: seq<bool>, tr: Tree)
    ensures Any(match_, tr) <==> Below(match_, tr) != []
  {
    match tr
    case Leaf(_) =>
    case Solo(c) => AnyExact(match_, c);
    case Pair(l, r) =>
      AnyExact(match_, l);
      AnyExact(match_, r);
  }

  /** The matched positions from lo on and below hi, in order. */
  function Positions(match_: seq<bool>, lo: nat, hi: nat): seq<nat>
    requires lo <= hi <= |match_|
    decreases hi - lo
  {
    if lo == hi then [] else (if match_[lo] then [lo] else []) + Positions(match_, lo + 1, hi)
  }

  lemma {:induction false} PositionsSplit(match_: seq<bool>, lo: nat, mid: nat, hi: nat)
    requires lo <= mid <= hi <= |match_|
    ensures Positions(match_, lo, hi) == Positions(match_, lo, mid) + Positions(match_, mid, hi)
    decreases mid - lo
  {
    if lo < mid { PositionsSplit(match_, lo + 1, mid, hi); }
  }

  lemma {:induction false} PositionsExact(match_: seq<bool>, lo: nat, hi: nat, p: nat)
    requires lo <= hi <= |match_|
    ensures p in Positions(match_, lo, hi) <==> lo <= p < hi && match_[p]
    decreases hi - lo
  {
    if lo < hi { PositionsExact(match_, lo + 1, hi, p); }
  }

  lemma {:induction false} BelowIsRange(match_: seq<bool>, tr: Tree, h: nat)
    requires Regular(tr, h) && End(tr) <= |match_|
    ensures Start(tr) < End(tr) && Below(match_, tr) == Positions(match_, Start(tr), End(tr))
  {
    StartBeforeEnd(tr, h);
    match tr
    case Leaf(pos) => assert Positions(match_, pos + 1, pos + 1) == [];
    case Solo(c) => BelowIsRange(match_, c, h - 1);
    case Pair(l, r) =>
      StartBeforeEnd(l, h - 1);
      StartBeforeEnd(r, h - 1);
      BelowIsRange(match_, l, h - 1);
      BelowIsRange(match_, r, h - 1);
      PositionsSplit(match_, Start(l), End(l), End(r));
  }

  // ---------------------------------------------------------------- building

  datatype Partial = Partial(bits: seq<bool>, hashes: seq<Digest>)

  /** TraverseAndBuild. */
  function Build(H: Hash2, txids: seq<Digest>, match_: seq<bool>, tr: Tree): Partial {
    if tr.Leaf? || !Any(match_, tr) then Partial([Any(match_, tr)], [HashOf(H, txids, tr)])
    else if tr.Solo? then
      var c := Build(H, txids, match_, tr.child);
      Partial([true] + c.bits, c.hashes)
    else
      var l, r := Build(H, txids, match_, tr.left), Build(H, txids, match_, tr.right);
      Partial([true] + l.bits + r.bits, l.hashes + r.hashes)
  }

  /** The stored hashes are at most the leaves ... */
  lemma {:induction false} HashesPerLeaf(H: Hash2, txids: seq<Digest>, match_: seq<bool>, tr: Tree, h: nat)
    requires Regular(tr, h)
    ensures 1 <= |Build(H, txids, match_, tr).hashes| <= End(tr) - Start(tr)
    decreases tr
  {
    StartBeforeEnd(tr, h);
    if !tr.Leaf? && Any(match_, tr) {
      if tr.Solo? {
        HashesPerLeaf(H, txids, match_, tr.child, h - 1);
      } else {
        HashesPerLeaf(H, txids, match_, tr.left, h - 1);
        HashesPerLeaf(H, txids, match_, tr.right, h - 1);
      }
    }
  }

  lemma OneLevelMore(l: nat, r: nat, h: nat)
    requires h > 0 && l + r > 0
    ensures 1 + l * (h - 1) + (1 + r * (h - 1)) <= 1 + (l + r) * h
    ensures l * (h - 1) <= l * h
  {
  }

  /** ... and at most one more than the matches times the height. */
  lemma {:induction false} HashesPerMatch(H: Hash2, txids: seq<Digest>, match_: seq<bool>, tr: Tree, h: nat)
    requires Regular(tr, h)
    ensures |Build(H, txids, match_, tr).hashes| <= 1 + |Below(match_, tr)| * h
    decreases tr
  {
    AnyExact(match_, tr);
    if !tr.Leaf? && Any(match_, tr) {
      if tr.Solo? {
        HashesPerMatch(H, txids, match_, tr.child, h - 1);
        OneLevelMore(|Below(match_, tr.child)|, 0, h);
      } else {
        HashesPerMatch(H, txids, match_, tr.left, h - 1);
        HashesPerMatch(H, txids, match_, tr.right, h - 1);
        OneLevelMore(|Below(match_, tr.left)|, |Below(match_, tr.right)|, h);
      }
    }
  }

  /** Nodes with a single child that have a match below them. */
  function LoneNodes(match_: seq<bool>, tr: Tree): nat {
    match tr
    case Leaf(_) => 0
    case Solo(c) => LoneNodes(match_, c) + if Any(match_, tr) then 1 else 0
    case Pair(l, r) => LoneNodes(match_, l) + LoneNodes(match_, r)
  }

  lemma {:induction false} NoneLone(match_: seq<bool>, tr: Tree)
    requires !Any(match_, tr)
    ensures LoneNodes(match_, tr) == 0
  {
    match tr
    case Leaf(_) =>
    case Solo(c) => NoneLone(match_, c);
    case Pair(l, r) =>
      NoneLone(match_, l);
      NoneLone(match_, r);
  }

  /** How many flag bits there are, exactly.  The promise of at most 2 N - 1 bits for N
      hashes holds if and only if no node with a single child has a match below it. */
  lemma {:induction false} BitCount(H: Hash2, txids: seq<Digest>, match_: seq<bool>, tr: Tree)
    ensures var t := Build(H, txids, match_, tr);
            |t.bits| == 2 * |t.hashes| - 1 + LoneNodes(match_, tr)
  {
    if tr.Leaf? || !Any(match_, tr) {
      if !tr.Leaf? { NoneLone(match_, tr); }
    } else if tr.Solo? {
      BitCount(H, txids, match_, tr.child);
    } else {
      BitCount(H, txids, match_, tr.left);
      BitCount(H, txids, match_, tr.right);
    }
  }

  /** Three transactions of which the last is matched need four bits for two hashes. */
  lemma BitPromiseFails(H: Hash2, a: Digest, b: Digest, c: Digest)
    ensures var t := Build(H, [a, b, c], [false, false, true], Whole(3));
            |t.bits| == 4 && |t.hashes| == 2
  {
    assert Width(3, 0) == 3 && Width(3, 1) == 2 && Width(3, 2) == 1;
    assert HeightFrom(3, 1) == HeightFrom(3, 2) == 2;
    assert Shape(3, 1, 0) == Pair(Leaf(0), Leaf(1)) && Shape(3, 1, 1) == Solo(Leaf(2));
    var m := [false, false, true];
    assert !Any(m, Pair(Leaf(0), Leaf(1))) && Any(m, Solo(Leaf(2)));
    assert Build(H, [a, b, c], m, Leaf(2)) == Partial([true], [c]);
    assert Build(H, [a, b, c], m, Solo(Leaf(2))) == Partial([true, true], [c]);
  }

  // ---------------------------------------------------------------- reading

  /** What reading below one node gives: how far it got, the matches it found, and
      the hash it computed. */
  datatype Found = Found(bitsUsed: nat, hashUsed: nat, matched: seq<Digest>, index: seq<nat>, bad: bool, hash: Digest)

  /** TraverseAndExtract on any bits and hashes. */
  function Extract(H: Hash2, t: Partial, tr: Tree, b: nat, u: nat): Found {
    if b >= |t.bits| then Found(b, u, [], [], true, ZERO)
    else if tr.Leaf? || !t.bits[b] then ReadHash(t, tr, b, u)
    else if tr.Solo? then
      var l := Extract(H, t, tr.child, b + 1, u);
      l.(hash := H(l.hash, l.hash))
    else
      var l := Extract(H, t, tr.left, b + 1, u);
      Combine(H, l, Extract(H, t, tr.right, l.bitsUsed, l.hashUsed))
  }

  function ReadHash(t: Partial, tr: Tree, b: nat, u: nat): Found
    requires b < |t.bits|
  {
    if u >= |t.hashes| then Found(b + 1, u, [], [], true, ZERO)
    else if tr.Leaf? && t.bits[b] then Found(b + 1, u + 1, [t.hashes[u]], [tr.pos], false, t.hashes[u])
    else Found(b + 1, u + 1, [], [], false, t.hashes[u])
  }

  /** Equal branches are refused. */
  function Combine(H: Hash2, l: Found, r: Found): Found {
    Found(r.bitsUsed, r.hashUsed, l.matched + r.matched, l.index + r.index, l.bad || r.bad || r.hash == l.hash, H(l.hash, r.hash))
  }

  const MAX_TRANSACTIONS: nat := 4000000 / 240

  datatype Extraction = Extraction(root: Digest, matched: seq<Digest>, index: seq<nat>, bad: bool)

  predicate Plausible(t: Partial, n: nat) {
    0 < n <= MAX_TRANSACTIONS && |t.hashes| <= n && |t.bits| >= |t.hashes|
  }

  predicate AllUsed(t: Partial, f: Found) {
    (f.bitsUsed + 7) / 8 == (|t.bits| + 7) / 8 && f.hashUsed == |t.hashes|
  }

  /** ExtractMatches; a failure gives the null hash. */
  function ExtractMatches(H: Hash2, t: Partial, n: nat, fBad: bool): Extraction {
    if !Plausible(t, n) then Extraction(ZERO, [], [], fBad)
    else
      var f := Extract(H, t, Whole(n), 0, 0);
      var bad := fBad || f.bad;
      Extraction(if bad || !AllUsed(t, f) then ZERO else f.hash, f.matched, f.index, bad)
  }

  // ---------------------------------------------------------------- soundness

  /** Every match is a transaction of the list, at its real place. */
  ghost predicate Genuine(txids: seq<Digest>, matched: seq<Digest>, index: seq<nat>) {
    |matched| == |index| && forall k :: 0 <= k < |index| ==> matched[k] == Txid(txids, index[k])
  }

  /** Whatever the bits and hashes are: if the hash computed for a node is the real
      one, everything found below it is real. */
  lemma {:induction false} ExtractSound(H: Hash2, txids: seq<Digest>, t: Partial, tr: Tree, b: nat, u: nat)
    requires Binding(H, txids, tr) && Extract(H, t, tr, b, u).hash == HashOf(H, txids, tr)
    ensures var f := Extract(H, t, tr, b, u);
            Genuine(txids, f.matched, f.index)
  {
    if b < |t.bits| && !tr.Leaf? && t.bits[b] {
      if tr.Solo? {
        var l := Extract(H, t, tr.child, b + 1, u);
        var x := HashOf(H, txids, tr.child);
        assert SameInput(H, l.hash, l.hash, x, x);
        ExtractSound(H, txids, t, tr.child, b + 1, u);
      } else {
        var l := Extract(H, t, tr.left, b + 1, u);
        var r := Extract(H, t, tr.right, l.bitsUsed, l.hashUsed);
        assert SameInput(H, l.hash, r.hash, HashOf(H, txids, tr.left), HashOf(H, txids, tr.right));
        ExtractSound(H, txids, t, tr.left, b + 1, u);
        ExtractSound(H, txids, t, tr.right, l.bitsUsed, l.hashUsed);
      }
    }
  }

  ghost predicate Ascending(index: seq<nat>, lo: int, hi: int) {
    && (forall k :: 0 <= k < |index| ==> lo <= index[k] < hi)
    && (forall j, k :: 0 <= j < k < |index| ==> index[j] < index[k])
  }

  lemma AscendingJoin(a: seq<nat>, b: seq<nat>, lo: int, mid: int, hi: int)
    requires Ascending(a, lo, mid) && Ascending(b, mid, hi) && lo <= mid <= hi
    ensures Ascending(a + b, lo, hi)
  {
  }

  /** The indices found are strictly ascending and below the node. */
  lemma {:induction false} ExtractAscends(H: Hash2, t: Partial, tr: Tree, h: nat, b: nat, u: nat)
    requires Regular(tr, h)
    ensures Ascending(Extract(H, t, tr, b, u).index, Start(tr), End(tr))
    decreases tr
  {
    if b < |t.bits| && !tr.Leaf? && t.bits[b] {
      if tr.Solo? {
        ExtractAscends(H, t, tr.child, h - 1, b + 1, u);
      } else {
        var l := Extract(H, t, tr.left, b + 1, u);
        var r := Extract(H, t, tr.right, l.bitsUsed, l.hashUsed);
        ExtractAscends(H, t, tr.left, h - 1, b + 1, u);
        ExtractAscends(H, t, tr.right, h - 1, l.bitsUsed, l.hashUsed);
        StartBeforeEnd(tr.left, h - 1);
        StartBeforeEnd(tr.right, h - 1);
        AscendingJoin(l.index, r.index, Start(tr), Start(tr.right), End(tr));
      }
    }
  }

  /** Soundness: any bits and hashes that yield the real root of a list yield only
      real transactions of that list, each at its real place, each once. */
  lemma MatchesAreGenuine(H: Hash2, txids: seq<Digest>, t: Partial, fBad: bool)
    requires |txids| > 0 && Binding(H, txids, Whole(|txids|))
    requires ExtractMatches(H, t, |txids|, fBad).root == Root(H, txids) != ZERO
    ensures var r := ExtractMatches(H, t, |txids|, fBad);
            Genuine(txids, r.matched, r.index) && Ascending(r.index, 0, |txids|)
  {
    WholeRange(|txids|);
    ExtractSound(H, txids, t, Whole(|txids|), 0, 0);
    ExtractAscends(H, t, Whole(|txids|), Height(|txids|), 0, 0);
  }

  // ---------------------------------------------------------------- completeness

  /** The transactions at some positions. */
  function Pick(txids: seq<Digest>, index: seq<nat>): (r: seq<Digest>)
    ensures Genuine(txids, r, index)
  {
    seq(|index|, k requires 0 <= k < |index| => Txid(txids, index[k]))
  }

  lemma PickJoin(txids: seq<Digest>, a: seq<nat>, b: seq<nat>)
    ensures Pick(txids, a + b) == Pick(txids, a) + Pick(txids, b)
  {
  }

  ghost predicate Holds<T>(s: seq<T>, at: nat, part: seq<T>) {
    at + |part| <= |s| && s[at..at + |part|] == part
  }

  lemma HoldsParts<T>(s: seq<T>, at: nat, a: seq<T>, b: seq<T>)
    requires Holds(s, at, a + b)
    ensures Holds(s, at, a) && Holds(s, at + |a|, b)
  {
    var m := at + |a|;
    assert s[at..m] == (a + b)[..|a|] == a;
    assert s[m..m + |b|] == (a + b)[|a|..] == b;
  }

  lemma HoldsFirst<T>(s: seq<T>, b: nat, x: T)
    requires Holds(s, b, [x])
    ensures b < |s| && s[b] == x
  {
    assert s[b] == s[b..b + 1][0];
  }

  /** What reading the built data of a node should give. */
  ghost function Expected(H: Hash2, txids: seq<Digest>, match_: seq<bool>, tr: Tree, b: nat, u: nat): Found {
    var g := Build(H, txids, match_, tr);
    Found(b + |g.bits|, u + |g.hashes|, Pick(txids, Below(match_, tr)), Below(match_, tr), false, HashOf(H, txids, tr))
  }

  /** The built data of a node, wherever it stands, is read back exactly. */
  lemma {:induction false} ExtractBuilt(H: Hash2, txids: seq<Digest>, match_: seq<bool>, t: Partial, tr: Tree, h: nat, b: nat, u: nat)
    requires Binding(H, txids, tr) && DistinctIds(txids) && Regular(tr, h) && End(tr) <= |txids|
    requires Holds(t.bits, b, Build(H, txids, match_, tr).bits)
    requires Holds(t.hashes, u, Build(H, txids, match_, tr).hashes)
    ensures Extract(H, t, tr, b, u) == Expected(H, txids, match_, tr, b, u)
    decreases tr
  {
    if tr.Leaf? || !Any(match_, tr) {
      HoldsFirst(t.bits, b, Any(match_, tr));
      HoldsFirst(t.hashes, u, HashOf(H, txids, tr));
      AnyExact(match_, tr);
      if tr.Leaf? { assert Pick(txids, [tr.pos]) == [Txid(txids, tr.pos)]; }
    } else if tr.Solo? {
      var c := Build(H, txids, match_, tr.child);
      HoldsParts(t.bits, b, [true], c.bits);
      HoldsFirst(t.bits, b, true);
      ExtractBuilt(H, txids, match_, t, tr.child, h - 1, b + 1, u);
    } else {
      BuiltTwo(H, txids, match_, t, tr, h, b, u);
    }
  }

  lemma {:induction false} BuiltTwo(H: Hash2, txids: seq<Digest>, match_: seq<bool>, t: Partial, tr: Tree, h: nat, b: nat, u: nat)
    requires tr.Pair? && Any(match_, tr)
    requires Binding(H, txids, tr) && DistinctIds(txids) && Regular(tr, h) && End(tr) <= |txids|
    requires Holds(t.bits, b, Build(H, txids, match_, tr).bits)
    requires Holds(t.hashes, u, Build(H, txids, match_, tr).hashes)
    ensures Extract(H, t, tr, b, u) == Expected(H, txids, match_, tr, b, u)
    decreases tr, 0
  {
    assert HashOf(H, txids, tr.left) != HashOf(H, txids, tr.right) && End(tr.left) <= |txids| by {
      SiblingsDiffer(H, txids, tr, h);
    }
    var b', u' := TwoParts(H, txids, match_, t, tr, b, u);
    assert Extract(H, t, tr.left, b + 1, u) == Expected(H, txids, match_, tr.left, b + 1, u) by {
      ExtractBuilt(H, txids, match_, t, tr.left, h - 1, b + 1, u);
    }
    assert Extract(H, t, tr.right, b', u') == Expected(H, txids, match_, tr.right, b', u') by {
      ExtractBuilt(H, txids, match_, t, tr.right, h - 1, b', u');
    }
    TwoRead(H, txids, match_, t, tr, b, u, b', u');
  }

  lemma TwoRead(H: Hash2, txids: seq<Digest>, match_: seq<bool>, t: Partial, tr: Tree, b: nat, u: nat, b': nat, u': nat)
    requires tr.Pair? && Any(match_, tr) && b < |t.bits| && t.bits[b]
    requires HashOf(H, txids, tr.left) != HashOf(H, txids, tr.right)
    requires Extract(H, t, tr.left, b + 1, u) == Expected(H, txids, match_, tr.left, b + 1, u)
    requires var l := Build(H, txids, match_, tr.left); b' == b + 1 + |l.bits| && u' == u + |l.hashes|
    requires Extract(H, t, tr.right, b', u') == Expected(H, txids, match_, tr.right, b', u')
    ensures Extract(H, t, tr, b, u) == Expected(H, txids, match_, tr, b, u)
  {
    PickJoin(txids, Below(match_, tr.left), Below(match_, tr.right));
  }

  lemma SiblingsDiffer(H: Hash2, txids: seq<Digest>, tr: Tree, h: nat)
    requires tr.Pair? && Binding(H, txids, tr) && DistinctIds(txids) && Regular(tr, h) && End(tr) <= |txids|
    ensures End(tr.left) <= |txids| && HashOf(H, txids, tr.left) != HashOf(H, txids, tr.right)
  {
    StartBeforeEnd(tr.left, h - 1);
    StartBeforeEnd(tr.right, h - 1);
    HashesDiffer(H, txids, tr.left, tr.right, h - 1);
  }

  /** Where the data of two children stand. */
  lemma TwoParts(H: Hash2, txids: seq<Digest>, match_: seq<bool>, t: Partial, tr: Tree, b: nat, u: nat) returns (b': nat, u': nat)
    requires tr.Pair? && Any(match_, tr)
    requires Holds(t.bits, b, Build(H, txids, match_, tr).bits)
    requires Holds(t.hashes, u, Build(H, txids, match_, tr).hashes)
    ensures var l := Build(H, txids, match_, tr.left);
            b' == b + 1 + |l.bits| && u' == u + |l.hashes| && Holds(t.bits, b + 1, l.bits) && Holds(t.hashes, u, l.hashes)
    ensures var r := Build(H, txids, match_, tr.right);
            Holds(t.bits, b', r.bits) && Holds(t.hashes, u', r.hashes)
    ensures b < |t.bits| && t.bits[b]
  {
    var l, r := Build(H, txids, match_, tr.left), Build(H, txids, match_, tr.right);
    b', u' := b + 1 + |l.bits|, u + |l.hashes|;
    assert [true] + l.bits + r.bits == [true] + (l.bits + r.bits);
    HoldsParts(t.bits, b, [true], l.bits + r.bits);
    HoldsFirst(t.bits, b, true);
    HoldsParts(t.bits, b + 1, l.bits, r.bits);
    HoldsParts(t.hashes, u, l.hashes, r.hashes);
  }

  /** Padding to whole bytes. */
  ghost predicate Padded(bits: seq<bool>, padded: seq<bool>) {
    |padded| == (|bits| + 7) / 8 * 8 && padded[..|bits|] == bits
  }

  lemma PaddedRead(H: Hash2, txids: seq<Digest>, match_: seq<bool>, tr: Tree, h: nat, padded: seq<bool>)
    requires DistinctIds(txids) && Binding(H, txids, tr) && Regular(tr, h) && Start(tr) == 0 && End(tr) == |txids|
    requires Padded(Build(H, txids, match_, tr).bits, padded)
    ensures var t := Partial(padded, Build(H, txids, match_, tr).hashes);
            && Extract(H, t, tr, 0, 0) == Expected(H, txids, match_, tr, 0, 0)
            && AllUsed(t, Extract(H, t, tr, 0, 0)) && |t.hashes| <= |txids| && |t.hashes| <= |t.bits|
  {
    var g := Build(H, txids, match_, tr);
    var t := Partial(padded, g.hashes);
    assert Holds(t.bits, 0, g.bits) && Holds(t.hashes, 0, g.hashes);
    ExtractBuilt(H, txids, match_, t, tr, h, 0, 0);
    HashesPerLeaf(H, txids, match_, tr, h);
    BitCount(H, txids, match_, tr);
  }

  /** Completeness: building for any matches, padding the bits to bytes and
      extracting gives the real root and exactly the matched transactions, in order. */
  lemma MatchesAreComplete(H: Hash2, txids: seq<Digest>, match_: seq<bool>, padded: seq<bool>)
    requires 0 < |txids| == |match_| <= MAX_TRANSACTIONS && DistinctIds(txids) && Binding(H, txids, Whole(|txids|))
    requires Padded(Build(H, txids, match_, Whole(|txids|)).bits, padded)
    ensures var r := ExtractMatches(H, Partial(padded, Build(H, txids, match_, Whole(|txids|)).hashes), |txids|, false);
            && r.root == Root(H, txids) && !r.bad
            && r.index == Positions(match_, 0, |txids|) && Genuine(txids, r.matched, r.index)
  {
    WholeRange(|txids|);
    PaddedRead(H, txids, match_, Whole(|txids|), Height(|txids|), padded);
    BelowIsRange(match_, Whole(|txids|), Height(|txids|));
  }
}
