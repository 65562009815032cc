/** The partial Merkle tree object (src/merkleblock.h, src/merkleblock.cpp): its
    traversals append to and consume its fields. */
module MerkleTree {
  import opened Powers
  import opened Bytes
  import opened Common
  import opened Merkle
  import MerkleProof

  lemma Join<T>(a: seq<T>, b: seq<T>, c: seq<T>)
    ensures a + (b + c) == a + b + c
  {
  }

  /** What a traversal finds, put after what was found before. */
  function After(vMatch: seq<Digest>, vnIndex: seq<nat>, bad: bool, f: Found): Found {
    f.(matched := vMatch + f.matched, index := vnIndex + f.index, bad := bad || f.bad)
  }

  lemma AfterNone(vMatch: seq<Digest>, vnIndex: seq<nat>, bad: bool, b: nat, u: nat)
    ensures After(vMatch, vnIndex, bad, Found(b, u, [], [], true, ZERO)) == Found(b, u, vMatch, vnIndex, true, ZERO)
  {
    assert vMatch + [] == vMatch && vnIndex + [] == vnIndex;
  }

  /** What is read below a node with a match, from what is read below its children. */
  lemma AfterOne(H: Hash2, t: Partial, tr: Tree, b: nat, u: nat, vMatch: seq<Digest>, vnIndex: seq<nat>, bad: bool)
    requires tr.Solo? && b < |t.bits| && t.bits[b]
    ensures var f := After(vMatch, vnIndex, bad, Extract(H, t, tr.child, b + 1, u));
            After(vMatch, vnIndex, bad, Extract(H, t, tr, b, u)) == f.(hash := H(f.hash, f.hash))
  {
  }

  lemma AfterBoth(H: Hash2, t: Partial, tr: Tree, b: nat, u: nat, vMatch: seq<Digest>, vnIndex: seq<nat>, bad: bool)
    requires tr.Pair? && b < |t.bits| && t.bits[b]
    ensures var l := After(vMatch, vnIndex, bad, Extract(H, t, tr.left, b + 1, u));
            var r := After(l.matched, l.index, l.bad, Extract(H, t, tr.right, l.bitsUsed, l.hashUsed));
            After(vMatch, vnIndex, bad, Extract(H, t, tr, b, u)) == r.(hash := H(l.hash, r.hash), bad := r.bad || r.hash == l.hash)
  {
    var l := Extract(H, t, tr.left, b + 1, u);
    var r := Extract(H, t, tr.right, l.bitsUsed, l.hashUsed);
    Join(vMatch, l.matched, r.matched);
    Join(vnIndex, l.index, r.index);
  }

  class PartialMerkleTree {
    const H: Hash2
    var nTransactions: nat
    var vBits: seq<bool>
    var vHash: seq<Digest>
    var fBad: bool

    function CalcTreeWidth(height: nat): (w: nat)
      reads `nTransactions
      ensures w == Width(nTransactions, height)
    {
      WidthIsRoundedUp(nTransactions, height);
      (nTransactions + Pow2(height) - 1) / Pow2(height)
    }

    method CalcHash(height: nat, pos: nat, vTxid: seq<Digest>) returns (hash: Digest)
      requires |vTxid| == nTransactions && pos < Width(nTransactions, height)
      ensures hash == HashOf(H, vTxid, Shape(nTransactions, height, pos))
      decreases height
    {
      if height == 0 { return vTxid[pos]; }
      var left := CalcHash(height - 1, pos * 2, vTxid);
      var right := left;
      if pos * 2 + 1 < CalcTreeWidth(height - 1) {
        right := CalcHash(height - 1, pos * 2 + 1, vTxid);
      }
      return H(left, right);
    }

    /** Scan the leaves below a node for a match. */
    method ParentOfMatch(height: nat, pos: nat, vMatch: seq<bool>) returns (fParentOfMatch: bool)
      requires |vMatch| == nTransactions && pos < Width(nTransactions, height)
      ensures fParentOfMatch == Any(vMatch, Shape(nTransactions, height, pos))
    {
      ghost var tr := Shape(nTransactions, height, pos);
      ShapeRange(nTransactions, height, pos);
      BelowIsRange(vMatch, tr, height);
      AnyExact(vMatch, tr);
      fParentOfMatch := false;
      var p, end := pos * Pow2(height), Min((pos + 1) * Pow2(height), nTransactions);
      while p < end
        invariant Start(tr) <= p <= end == End(tr)
        invariant fParentOfMatch || Positions(vMatch, p, end) != [] <==> Any(vMatch, tr)
      {
        fParentOfMatch := fParentOfMatch || vMatch[p];
        p := p + 1;
      }
    }

    method TraverseAndBuild(height: nat, pos: nat, vTxid: seq<Digest>, vMatch: seq<bool>, ghost tr: Tree)
      requires |vTxid| == |vMatch| == nTransactions && pos < Width(nTransactions, height) && tr == Shape(nTransactions, height, pos)
      modifies `vBits, `vHash
      ensures vBits == old(vBits) + Build(H, vTxid, vMatch, tr).bits && vHash == old(vHash) + Build(H, vTxid, vMatch, tr).hashes
      decreases height
    {
      var fParentOfMatch := ParentOfMatch(height, pos, vMatch);
      ghost var bits, hashes := vBits, vHash;
      vBits := vBits + [fParentOfMatch];
      if height == 0 || !fParentOfMatch {
        var hash := CalcHash(height, pos, vTxid);
        vHash := vHash + [hash];
      } else {
        ghost var child := if tr.Pair? then tr.left else tr.child;
        ghost var l := Build(H, vTxid, vMatch, child);
        TraverseAndBuild(height - 1, pos * 2, vTxid, vMatch, child);
        Join(bits, [true], l.bits);
        if pos * 2 + 1 < CalcTreeWidth(height - 1) {
          ghost var r := Build(H, vTxid, vMatch, tr.right);
          TraverseAndBuild(height - 1, pos * 2 + 1, vTxid, vMatch, tr.right);
          Join(bits, [true] + l.bits, r.bits);
          Join(hashes, l.hashes, r.hashes);
        }
      }
    }

    method TreeHeight() returns (nHeight: nat)
      ensures nHeight == Height(nTransactions)
    {
      nHeight := 0;
      while CalcTreeWidth(nHeight) > 1
        invariant HeightFrom(nTransactions, nHeight) == Height(nTransactions)
        decreases Width(nTransactions, nHeight)
      {
        nHeight := nHeight + 1;
      }
    }

    constructor (hash: Hash2, vTxid: seq<Digest>, vMatch: seq<bool>)
      requires |vTxid| == |vMatch| > 0
      ensures H == hash && nTransactions == |vTxid| && !fBad
      ensures Partial(vBits, vHash) == Build(hash, vTxid, vMatch, Whole(|vTxid|))
    {
      H, nTransactions, fBad, vBits, vHash := hash, |vTxid|, false, [], [];
      new;
      var nHeight := TreeHeight();
      WidthPositive(nTransactions, nHeight);
      TraverseAndBuild(nHeight, 0, vTxid, vMatch, Whole(nTransactions));
      assert [] + vBits == vBits && [] + vHash == vHash;
    }

    /** An object read from the wire. */
    constructor Received(hash: Hash2, n: nat, hashes: seq<Digest>, bits: seq<bool>)
      ensures H == hash && nTransactions == n && vHash == hashes && vBits == bits && !fBad
    {
      H, nTransactions, vHash, vBits, fBad := hash, n, hashes, bits, false;
    }

    /** A node whose hash is stored, and at the lowest level perhaps a match. */
    method ReadStored(height: nat, pos: nat, nBitsUsed: nat, nHashUsed: nat, vMatch: seq<Digest>, vnIndex: seq<nat>, ghost tr: Tree, ghost t: Partial)
      returns (hash: Digest, b: nat, u: nat, matched: seq<Digest>, index: seq<nat>)
      requires t == Partial(vBits, vHash) && tr == Shape(nTransactions, height, pos)
      requires nBitsUsed < |vBits| && (height == 0 || !vBits[nBitsUsed])
      modifies `fBad
      ensures Found(b, u, matched, index, fBad, hash) == After(vMatch, vnIndex, old(fBad), Extract(H, t, tr, nBitsUsed, nHashUsed))
    {
      b, u, matched, index := nBitsUsed + 1, nHashUsed, vMatch, vnIndex;
      if u >= |vHash| {
        fBad := true;
        return ZERO, b, u, matched, index;
      }
      hash := vHash[u];
      u := u + 1;
      if height == 0 && vBits[nBitsUsed] {
        matched := matched + [hash];
        index := index + [pos];
      }
    }

    /** Reading below a node, tr, of the tree stored as t. */
    method TraverseAndExtract(height: nat, pos: nat, nBitsUsed: nat, nHashUsed: nat, vMatch: seq<Digest>, vnIndex: seq<nat>, ghost tr: Tree, ghost t: Partial)
      returns (hash: Digest, b: nat, u: nat, matched: seq<Digest>, index: seq<nat>)
      requires t == Partial(vBits, vHash) && tr == Shape(nTransactions, height, pos)
      modifies `fBad
      ensures Found(b, u, matched, index, fBad, hash) == After(vMatch, vnIndex, old(fBad), Extract(H, t, tr, nBitsUsed, nHashUsed))
      decreases height
    {
      if nBitsUsed >= |vBits| {
        AfterNone(vMatch, vnIndex, fBad, nBitsUsed, nHashUsed);
        fBad := true;
        return ZERO, nBitsUsed, nHashUsed, vMatch, vnIndex;
      }
      var fParentOfMatch := vBits[nBitsUsed];
      if height == 0 || !fParentOfMatch {
        hash, b, u, matched, index := ReadStored(height, pos, nBitsUsed, nHashUsed, vMatch, vnIndex, tr, t);
        return;
      }
      ghost var bad, child := fBad, if tr.Pair? then tr.left else tr.child;
      var left, right;
      left, b, u, matched, index := TraverseAndExtract(height - 1, pos * 2, nBitsUsed + 1, nHashUsed, vMatch, vnIndex, child, t);
      if pos * 2 + 1 < CalcTreeWidth(height - 1) {
        AfterBoth(H, t, tr, nBitsUsed, nHashUsed, vMatch, vnIndex, bad);
        right, b, u, matched, index := TraverseAndExtract(height - 1, pos * 2 + 1, b, u, matched, index, tr.right, t);
        if right == left { fBad := true; }
        hash := H(left, right);
      } else {
        AfterOne(H, t, tr, nBitsUsed, nHashUsed, vMatch, vnIndex, bad);
        hash := H(left, left);
      }
    }

    /** The list of matches is replaced; the list of indices is appended to. */
    method ExtractMatches(vnIndex: seq<nat>) returns (root: Digest, vMatch: seq<Digest>, index: seq<nat>)
      modifies `fBad
      ensures var r := Merkle.ExtractMatches(H, Partial(vBits, vHash), nTransactions, old(fBad));
              root == r.root && vMatch == r.matched && index == vnIndex + r.index && fBad == r.bad
      ensures root != ZERO ==>
                exists c :: MerkleProof.IsProof(H, Partial(vBits, vHash), nTransactions, c) && root == MerkleProof.RootOf(H, c)
                            && vMatch == MerkleProof.Matched(c) && index == vnIndex + MerkleProof.Places(c)
    {
      if Merkle.ExtractMatches(H, Partial(vBits, vHash), nTransactions, fBad).root != ZERO {
        ghost var c := MerkleProof.AcceptedIsProof(H, Partial(vBits, vHash), nTransactions, fBad);
      }
      vMatch, index := [], vnIndex;
      if nTransactions == 0 { return ZERO, vMatch, index; }
      if nTransactions > MAX_TRANSACTIONS { return ZERO, vMatch, index; }
      if |vHash| > nTransactions { return ZERO, vMatch, index; }
      if |vBits| < |vHash| { return ZERO, vMatch, index; }
      var nHeight := TreeHeight();
      var nBitsUsed, nHashUsed;
      root, nBitsUsed, nHashUsed, vMatch, index := TraverseAndExtract(nHeight, 0, 0, 0, vMatch, index, Whole(nTransactions), Partial(vBits, vHash));
      if fBad { return ZERO, vMatch, index; }
      if (nBitsUsed + 7) / 8 != (|vBits| + 7) / 8 { return ZERO, vMatch, index; }
      if nHashUsed != |vHash| { return ZERO, vMatch, index; }
    }
  }

  // ---------------------------------------------------------------- flag bits as bytes

  /** What the p-th bit of some bytes says. */
  predicate BitAt(vBytes: seq<bv8>, p: nat)
    requires p < 8 * |vBytes|
  {
    IsSet(vBytes[p / 8], p % 8)
  }

  /** Pack the flag bits, eight to a byte, least significant bit first. */
  method PackBits(vBits: seq<bool>) returns (vBytes: seq<bv8>)
    ensures |vBytes| == (|vBits| + 7) / 8
    ensures forall p :: 0 <= p < 8 * |vBytes| ==> (BitAt(vBytes, p) <==> p < |vBits| && vBits[p])
  {
    vBytes := seq((|vBits| + 7) / 8, i => 0);
    for p := 0 to |vBits|
      invariant |vBytes| == (|vBits| + 7) / 8
      invariant forall q :: 0 <= q < 8 * |vBytes| ==> (BitAt(vBytes, q) <==> q < p && vBits[q])
    {
      if vBits[p] {
        AddBit(vBytes, p);
        vBytes := vBytes[p / 8 := vBytes[p / 8] | Mask(p % 8)];
      }
    }
  }

  lemma AddBit(vBytes: seq<bv8>, p: nat)
    requires p < 8 * |vBytes|
    ensures var r := vBytes[p / 8 := vBytes[p / 8] | Mask(p % 8)];
            forall q :: 0 <= q < 8 * |vBytes| ==> (BitAt(r, q) <==> q == p || BitAt(vBytes, q))
  {
  }

  method UnpackBits(vBytes: seq<bv8>) returns (vBits: seq<bool>)
    ensures |vBits| == 8 * |vBytes| && forall p :: 0 <= p < |vBits| ==> vBits[p] == BitAt(vBytes, p)
  {
    vBits := [];
    for p := 0 to 8 * |vBytes|
      invariant |vBits| == p && forall q :: 0 <= q < p ==> vBits[q] == BitAt(vBytes, q)
    {
      vBits := vBits + [vBytes[p / 8] & Mask(p % 8) != 0];
    }
  }

  /** Packing and unpacking pads the bits to whole bytes. */
  lemma PackingPads(vBits: seq<bool>, vBytes: seq<bv8>, unpacked: seq<bool>)
    requires |vBytes| == (|vBits| + 7) / 8
    requires forall p :: 0 <= p < 8 * |vBytes| ==> (BitAt(vBytes, p) <==> p < |vBits| && vBits[p])
    requires |unpacked| == 8 * |vBytes| && forall p :: 0 <= p < |unpacked| ==> unpacked[p] == BitAt(vBytes, p)
    ensures Padded(vBits, unpacked)
  {
  }

  /** A partial tree sent and received: the receiver gets the root and exactly the
      matched transactions with their places. */
  method Relay(hash: Hash2, vTxid: seq<Digest>, vMatch: seq<bool>) returns (root: Digest, matched: seq<Digest>, index: seq<nat>)
    requires 0 < |vTxid| == |vMatch| <= MAX_TRANSACTIONS && DistinctIds(vTxid) && Binding(hash, vTxid, Whole(|vTxid|))
    ensures root == Root(hash, vTxid) && index == Positions(vMatch, 0, |vTxid|) && Genuine(vTxid, matched, index)
  {
    var sender := new PartialMerkleTree(hash, vTxid, vMatch);
    var vBytes := PackBits(sender.vBits);
    var bits := UnpackBits(vBytes);
    PackingPads(sender.vBits, vBytes, bits);
    MatchesAreComplete(hash, vTxid, vMatch, bits);
    var receiver := new PartialMerkleTree.Received(hash, sender.nTransactions, sender.vHash, bits);
    root, matched, index := receiver.ExtractMatches([]);
    assert [] + index == index;
  }
}
