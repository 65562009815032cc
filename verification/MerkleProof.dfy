/**
 What a partial Merkle tree that is accepted must look like: its bits and hashes are those
 of a cut of the tree, written out in depth-first order, with nothing left over.
 */
module MerkleProof {
  import opened Common
  import opened Merkle

  /** A tree cut off at the nodes whose hashes are given. */
  datatype Cut = Stored(hash: Digest) | Match(hash: Digest, pos: nat) | One(child: Cut) | Two(left: Cut, right: Cut)

  predicate Fits(c: Cut, tr: Tree) {
    match c
    case Stored(_) => true
    case Match(_, pos) => tr == Leaf(pos)
    case One(d) => tr.Solo? && Fits(d, tr.child)
    case Two(l, r) => tr.Pair? && Fits(l, tr.left) && Fits(r, tr.right)
  }

  function RootOf(H: Hash2, c: Cut): Digest {
    match c
    case Stored(hash) => hash
    case Match(hash, _) => hash
    case One(d) => H(RootOf(H, d), RootOf(H, d))
    case Two(l, r) => H(RootOf(H, l), RootOf(H, r))
  }

  /** No node has two equal branches. */
  predicate NoTwins(H: Hash2, c: Cut) {
    match c
    case One(d) => NoTwins(H, d)
    case Two(l, r) => NoTwins(H, l) && NoTwins(H, r) && RootOf(H, l) != RootOf(H, r)
    case _ => true
  }

  /** One bit for each node, one hash for each node where the tree is cut. */
  function Bits(c: Cut): seq<bool> {
    match c
    case Stored(_) => [false]
    case Match(_, _) => [true]
    case One(d) => [true] + Bits(d)
    case Two(l, r) => [true] + (Bits(l) + Bits(r))
  }

  function Hashes(c: Cut): seq<Digest> {
    match c
    case Stored(hash) => [hash]
    case Match(hash, _) => [hash]
    case One(d) => Hashes(d)
    case Two(l, r) => Hashes(l) + Hashes(r)
  }

  function Matched(c: Cut): seq<Digest> {
    match c
    case Stored(_) => []
    case Match(hash, _) => [hash]
    case One(d) => Matched(d)
    case Two(l, r) => Matched(l) + Matched(r)
  }

  function Places(c: Cut): seq<nat> {
    match c
    case Stored(_) => []
    case Match(_, pos) => [pos]
    case One(d) => Places(d)
    case Two(l, r) => Places(l) + Places(r)
  }

  /** How many bits and hashes that makes. */
  function BitLength(c: Cut): nat {
    match c
    case One(d) => 1 + BitLength(d)
    case Two(l, r) => 1 + BitLength(l) + BitLength(r)
    case _ => 1
  }

  function HashLength(c: Cut): nat {
    match c
    case One(d) => HashLength(d)
    case Two(l, r) => HashLength(l) + HashLength(r)
    case _ => 1
  }

  /** The bits of a cut stand at b, its hashes at u. */
  predicate BitsAt(bits: seq<bool>, b: nat, c: Cut)
    decreases c
  {
    b < |bits| &&
    match c
    case Stored(_) => !bits[b]
    case Match(_, _) => bits[b]
    case One(d) => bits[b] && BitsAt(bits, b + 1, d)
    case Two(l, r) => bits[b] && BitsAt(bits, b + 1, l) && BitsAt(bits, b + 1 + BitLength(l), r)
  }

  predicate HashesAt(hashes: seq<Digest>, u: nat, c: Cut)
    decreases c
  {
    match c
    case Stored(hash) => u < |hashes| && hashes[u] == hash
    case Match(hash, _) => u < |hashes| && hashes[u] == hash
    case One(d) => HashesAt(hashes, u, d)
    case Two(l, r) => HashesAt(hashes, u, l) && HashesAt(hashes, u + HashLength(l), r)
  }

  predicate Written(t: Partial, b: nat, u: nat, c: Cut) { BitsAt(t.bits, b, c) && HashesAt(t.hashes, u, c) }

  lemma {:induction false} Counts(c: Cut)
    ensures BitLength(c) == |Bits(c)| && HashLength(c) == |Hashes(c)|
  {
    match c
    case One(d) => Counts(d);
    case Two(l, r) =>
      Counts(l);
      Counts(r);
    case _ =>
  }

  ghost predicate Stands<T>(s: seq<T>, at: nat, part: seq<T>) {
    at + |part| <= |s| && forall k :: at <= k < at + |part| ==> s[k] == part[k - at]
  }

  lemma StandsBoth<T>(s: seq<T>, at: nat, a: seq<T>, b: seq<T>)
    ensures Stands(s, at, a + b) <==> Stands(s, at, a) && Stands(s, at + |a|, b)
  {
    if Stands(s, at, a + b) {
      forall k | at <= k < at + |a| ensures s[k] == a[k - at] { assert (a + b)[k - at] == a[k - at]; }
      forall k | at + |a| <= k < at + |a| + |b| ensures s[k] == b[k - (at + |a|)] { assert (a + b)[k - at] == b[k - at - |a|]; }
    }
  }

  lemma StandsNode(s: seq<bool>, at: nat, a: seq<bool>, b: seq<bool>)
    ensures Stands(s, at, [true] + (a + b)) <==>
            at < |s| && s[at] && Stands(s, at + 1, a) && Stands(s, at + 1 + |a|, b)
  {
    StandsBoth(s, at, [true], a + b);
    StandsBoth(s, at + 1, a, b);
  }

  lemma {:induction false} BitsExact(bits: seq<bool>, b: nat, c: Cut)
    ensures BitsAt(bits, b, c) <==> Stands(bits, b, Bits(c))
    decreases c
  {
    match c
    case One(d) =>
      BitsExact(bits, b + 1, d);
      StandsBoth(bits, b, [true], Bits(d));
    case Two(l, r) =>
      Counts(l);
      BitsExact(bits, b + 1, l);
      BitsExact(bits, b + 1 + BitLength(l), r);
      StandsNode(bits, b, Bits(l), Bits(r));
    case _ =>
  }

  lemma {:induction false} HashesExact(hashes: seq<Digest>, u: nat, c: Cut)
    ensures HashesAt(hashes, u, c) <==> Stands(hashes, u, Hashes(c))
    decreases c
  {
    match c
    case One(d) => HashesExact(hashes, u, d);
    case Two(l, r) =>
      Counts(l);
      HashesExact(hashes, u, l);
      HashesExact(hashes, u + HashLength(l), r);
      StandsBoth(hashes, u, Hashes(l), Hashes(r));
    case _ =>
  }

  /** What reading a cut should give. */
  function Reading(H: Hash2, c: Cut, b: nat, u: nat): Found {
    Found(b + BitLength(c), u + HashLength(c), Matched(c), Places(c), false, RootOf(H, c))
  }

  lemma PairRead(H: Hash2, t: Partial, tr: Tree, b: nat, u: nat, l: Cut, r: Cut)
    requires tr.Pair? && b < |t.bits| && t.bits[b]
    requires Extract(H, t, tr.left, b + 1, u) == Reading(H, l, b + 1, u)
    requires Extract(H, t, tr.right, b + 1 + BitLength(l), u + HashLength(l)) == Reading(H, r, b + 1 + BitLength(l), u + HashLength(l))
    ensures Extract(H, t, tr, b, u) == Reading(H, Two(l, r), b, u).(bad := RootOf(H, l) == RootOf(H, r))
  {
  }

  /** A cut, wherever it stands, is read as that cut. */
  lemma {:induction false} CutIsRead(H: Hash2, t: Partial, tr: Tree, b: nat, u: nat, c: Cut)
    requires Fits(c, tr) && NoTwins(H, c) && Written(t, b, u, c)
    ensures Extract(H, t, tr, b, u) == Reading(H, c, b, u)
    decreases c
  {
    match c
    case One(d) => CutIsRead(H, t, tr.child, b + 1, u, d);
    case Two(l, r) =>
      CutIsRead(H, t, tr.left, b + 1, u, l);
      CutIsRead(H, t, tr.right, b + 1 + BitLength(l), u + HashLength(l), r);
      PairRead(H, t, tr, b, u, l, r);
    case _ =>
  }

  /** Whatever is read without a complaint is a cut. */
  lemma {:induction false} ReadIsCut(H: Hash2, t: Partial, tr: Tree, b: nat, u: nat) returns (c: Cut)
    requires !Extract(H, t, tr, b, u).bad
    ensures Fits(c, tr) && NoTwins(H, c) && Written(t, b, u, c)
    ensures Extract(H, t, tr, b, u) == Reading(H, c, b, u)
    decreases tr, 1
  {
    if tr.Leaf? && t.bits[b] {
      c := Match(t.hashes[u], tr.pos);
    } else if tr.Leaf? || !t.bits[b] {
      c := Stored(t.hashes[u]);
    } else if tr.Solo? {
      var d := ReadIsCut(H, t, tr.child, b + 1, u);
      c := One(d);
    } else {
      c := ReadIsPair(H, t, tr, b, u);
    }
  }

  lemma {:induction false} ReadIsPair(H: Hash2, t: Partial, tr: Tree, b: nat, u: nat) returns (c: Cut)
    requires tr.Pair? && b < |t.bits| && t.bits[b] && !Extract(H, t, tr, b, u).bad
    ensures Fits(c, tr) && NoTwins(H, c) && Written(t, b, u, c)
    ensures Extract(H, t, tr, b, u) == Reading(H, c, b, u)
    decreases tr, 0
  {
    var l := ReadIsCut(H, t, tr.left, b + 1, u);
    var r := ReadIsCut(H, t, tr.right, b + 1 + BitLength(l), u + HashLength(l));
    c := Two(l, r);
    assert Written(t, b, u, c);
    PairRead(H, t, tr, b, u, l, r);
  }

  /** A cut has no more hashes than the tree has leaves, and a bit for each. */
  lemma {:induction false} CutSize(c: Cut, tr: Tree, h: nat)
    requires Fits(c, tr) && Regular(tr, h)
    ensures |Hashes(c)| <= |Bits(c)| && |Hashes(c)| <= End(tr) - Start(tr)
    decreases c
  {
    StartBeforeEnd(tr, h);
    match c
    case One(d) => CutSize(d, tr.child, h - 1);
    case Two(l, r) =>
      CutSize(l, tr.left, h - 1);
      CutSize(r, tr.right, h - 1);
    case _ =>
  }

  /** Bits filled up to whole bytes. */
  predicate Filled(bits: seq<bool>, all: seq<bool>) {
    bits <= all && (|bits| + 7) / 8 == (|all| + 7) / 8
  }

  ghost predicate IsProof(H: Hash2, t: Partial, n: nat, c: Cut) {
    && 0 < n <= 16666 && Fits(c, Whole(n)) && NoTwins(H, c)
    && t.hashes == Hashes(c) && Filled(Bits(c), t.bits)
  }

  /** Every cut of the tree is accepted, if its hashes are all there are and its bits fill
      all bytes ... */
  lemma ProofAccepted(H: Hash2, t: Partial, n: nat, c: Cut)
    requires IsProof(H, t, n, c)
    ensures ExtractMatches(H, t, n, false) == Extraction(RootOf(H, c), Matched(c), Places(c), false)
  {
    assert |t.hashes| <= n && |t.hashes| <= |t.bits| by {
      WholeRange(n);
      CutSize(c, Whole(n), Height(n));
    }
    assert Written(t, 0, 0, c) by {
      BitsExact(t.bits, 0, c);
      HashesExact(t.hashes, 0, c);
      assert Stands(t.bits, 0, Bits(c)) && Stands(t.hashes, 0, Hashes(c));
    }
    CutIsRead(H, t, Whole(n), 0, 0, c);
    Counts(c);
  }

  /** ... and nothing else is: a root other than the null hash is that of a cut whose hashes
      are all there are and whose bits leave less than a byte. */
  lemma AcceptedIsProof(H: Hash2, t: Partial, n: nat, fBad: bool) returns (c: Cut)
    requires ExtractMatches(H, t, n, fBad).root != ZERO
    ensures !fBad && IsProof(H, t, n, c) && |t.bits| - |Bits(c)| < 8
    ensures ExtractMatches(H, t, n, fBad) == Extraction(RootOf(H, c), Matched(c), Places(c), false)
  {
    c := ReadIsCut(H, t, Whole(n), 0, 0);
    BitsExact(t.bits, 0, c);
    HashesExact(t.hashes, 0, c);
    Counts(c);
    assert t.hashes[..|t.hashes|] == t.hashes;
    assert t.bits[0..|Bits(c)|] == t.bits[..|Bits(c)|];
  }
}
