/** Compact block messages and the object that rebuilds a block from one
    (src/blockencodings.h, src/blockencodings.cpp). */
module BlockEncodings {
  import opened Common
  import opened CompactBlock

  datatype ReadStatus = Ok | Invalid | Failed | CheckBlockFailed

  datatype Verdict = Good | Mutated | Bad

  // ---------------------------------------------------------------- the sender

  /** The coinbase is prefilled; all others are named by short ids. */
  method Encode(block: seq<Tx>, sid: Tx -> nat) returns (m: Message)
    requires |block| > 0
    ensures m.hasHeader && m.prefilled == [Prefilled(0, Some(block[0]))]
    ensures |m.shortIds| == |block| - 1 && forall i :: 0 < i < |block| ==> m.shortIds[i - 1] == sid(block[i])
  {
    var shortIds: seq<nat> := seq<nat>(|block| - 1, (i: nat) => 0);
    for i := 1 to |block|
      invariant |shortIds| == |block| - 1 && forall j :: 0 < j < i ==> shortIds[j - 1] == sid(block[j])
    {
      shortIds := shortIds[i - 1 := sid(block[i])];
    }
    m := Message(true, shortIds, [Prefilled(0, Some(block[0]))]);
  }

  lemma {:induction false} OnlyFirstTaken(s: Slots, p: nat)
    requires 0 < p <= |s| && s[0].Some? && forall i :: 0 < i < |s| ==> s[i].None?
    ensures FreeBelow(s, p) == p - 1
  {
    if p == 1 { assert FreeBelow(s, 0) == 0; } else { OnlyFirstTaken(s, p - 1); }
  }

  lemma EncodeDescribes(block: seq<Tx>, sid: Tx -> nat, m: Message)
    requires |block| > 0 && m.hasHeader && m.prefilled == [Prefilled(0, Some(block[0]))]
    requires |m.shortIds| == |block| - 1 && forall i :: 0 < i < |block| ==> m.shortIds[i - 1] == sid(block[i])
    ensures PlaceOk(m, 0) && Describes(Placed(m, 1), m.shortIds, block, sid)
  {
    assert Place(m.prefilled, 0) == 0;
    var s := Placed(m, 1);
    assert s == Placed(m, 0)[0 := Some(block[0])];
    forall p: int ensures RightAt(s, block, p) {}
    forall i: int, p: int ensures IdAt(s, m.shortIds, block, sid, i, p) {
      if 0 < p < |block| { OnlyFirstTaken(s, p); }
    }
  }

  lemma EncodeDistinct(block: seq<Tx>, sid: Tx -> nat, m: Message)
    requires |m.shortIds| == |block| - 1 && forall i :: 0 < i < |block| ==> m.shortIds[i - 1] == sid(block[i])
    ensures (forall i, j :: 0 < i < j < |block| ==> sid(block[i]) != sid(block[j])) ==> DistinctIds(m.shortIds)
  {
    if forall i, j :: 0 < i < j < |block| ==> sid(block[i]) != sid(block[j]) {
      forall i, j | 0 <= i < j < |m.shortIds| ensures m.shortIds[i] != m.shortIds[j] {
        assert m.shortIds[(i + 1) - 1] == sid(block[i + 1]) && m.shortIds[(j + 1) - 1] == sid(block[j + 1]);
      }
    }
  }

  // ---------------------------------------------------------------- the receiver

  /** Some bucket of the hash map is too full after one of the first n short ids. */
  ghost predicate AnyCrowded(crowded: nat -> bool, n: nat) { exists i: nat :: i < n && crowded(i) }

  /** A prefilled transaction that is missing, or beyond what 16 bits hold, or so far on that
      the transactions before it cannot all be known. */
  predicate Misplaced(m: Message, i: nat)
    requires i < |m.prefilled|
  {
    m.prefilled[i].tx.None? || Skipped(m.prefilled, i) + i > 65535 || Skipped(m.prefilled, i) > |m.shortIds|
  }

  lemma MisplacedExact(m: Message)
    ensures (forall i :: 0 <= i < |m.prefilled| ==> PlaceOk(m, i)) <==> !exists i :: 0 <= i < |m.prefilled| && Misplaced(m, i)
  {
    forall i | 0 <= i < |m.prefilled| ensures PlaceOk(m, i) <==> !Misplaced(m, i) { PlaceIsSum(m.prefilled, i); }
  }

  class PartiallyDownloadedBlock {
    var hasHeader: bool
    var txnAvailable: Slots
    var prefilledCount: nat
    var mempoolCount: int
    var extraCount: int

    constructor ()
      ensures !hasHeader && txnAvailable == [] && mempoolCount == 0 && extraCount == 0
    {
      hasHeader, txnAvailable, prefilledCount, mempoolCount, extraCount := false, [], 0, 0, 0;
    }

    /** Put the prefilled transactions at their places. */
    method PutPrefilled(m: Message) returns (ok: bool)
      requires Received(m)
      modifies `txnAvailable
      ensures ok <==> forall i :: 0 <= i < |m.prefilled| ==> PlaceOk(m, i)
      ensures ok ==> txnAvailable == Placed(m, |m.prefilled|)
    {
      txnAvailable := seq(TxCount(m), i => None);
      var last := -1;
      for i := 0 to |m.prefilled|
        invariant last == (if i == 0 then -1 else Place(m.prefilled, i - 1)) && last <= 65535
        invariant forall j :: 0 <= j < i ==> PlaceOk(m, j)
        invariant txnAvailable == Placed(m, i)
      {
        if m.prefilled[i].tx.None? {
          assert !PlaceOk(m, i);
          return false;
        }
        last := last + m.prefilled[i].index + 1;
        if last > 65535 {
          assert !PlaceOk(m, i);
          return false;
        }
        if last > |m.shortIds| + i {
          assert !PlaceOk(m, i);
          return false;
        }
        assert PlaceOk(m, i);
        txnAvailable := txnAvailable[last := m.prefilled[i].tx];
      }
      return true;
    }

    /** The inner scan: it stops at a free place before the end. */
    method SkipTaken(i: nat, offset0: nat) returns (offset: nat)
      requires i + offset0 <= |txnAvailable| && FreeBelow(txnAvailable, i + offset0) == i
      requires i < FreeBelow(txnAvailable, |txnAvailable|)
      ensures IsFree(txnAvailable, i, i + offset) && FreeBelow(txnAvailable, i + offset + 1) == i + 1
    {
      offset := offset0;
      while txnAvailable[i + offset].Some?
        invariant i + offset < |txnAvailable| && FreeBelow(txnAvailable, i + offset) == i
        decreases |txnAvailable| - offset
      {
        offset := offset + 1;
      }
    }

    method MapOne(shortIds: seq<nat>, i: nat, offset0: nat, ids0: map<nat, nat>) returns (offset: nat, ids: map<nat, nat>)
      requires i < |shortIds| == FreeBelow(txnAvailable, |txnAvailable|) && MappedSoFar(txnAvailable, shortIds, i, ids0)
      requires i + offset0 <= |txnAvailable| && FreeBelow(txnAvailable, i + offset0) == i
      ensures i + 1 + offset <= |txnAvailable| && FreeBelow(txnAvailable, i + 1 + offset) == i + 1
      ensures MappedSoFar(txnAvailable, shortIds, i + 1, ids)
    {
      offset := SkipTaken(i, offset0);
      ids := ids0[shortIds[i] := i + offset];
      MapNext(txnAvailable, shortIds, i, ids0, i + offset);
    }

    /** Give the i-th short id the i-th free place, until a bucket of the hash map holds too
        many ids, as `crowded` says. */
    method MapEach(shortIds: seq<nat>, crowded: nat -> bool) returns (ok: bool, ids: map<nat, nat>)
      requires FreeBelow(txnAvailable, |txnAvailable|) == |shortIds|
      ensures ok <==> !AnyCrowded(crowded, |shortIds|)
      ensures ok ==> MappedSoFar(txnAvailable, shortIds, |shortIds|, ids)
    {
      ids := map[];
      var offset: nat := 0;
      for i := 0 to |shortIds|
        invariant i + offset <= |txnAvailable| && FreeBelow(txnAvailable, i + offset) == i
        invariant MappedSoFar(txnAvailable, shortIds, i, ids)
        invariant !AnyCrowded(crowded, i)
      {
        offset, ids := MapOne(shortIds, i, offset, ids);
        if crowded(i) { return false, ids; }
      }
      ok := true;
    }

    /** Different short ids must have different places. */
    method MapShortIds(shortIds: seq<nat>, crowded: nat -> bool) returns (ok: bool, ids: map<nat, nat>)
      requires FreeBelow(txnAvailable, |txnAvailable|) == |shortIds|
      ensures ok <==> DistinctIds(shortIds) && !AnyCrowded(crowded, |shortIds|)
      ensures ok ==> Maps(txnAvailable, shortIds, ids) && |ids| == |shortIds|
    {
      ok, ids := MapEach(shortIds, crowded);
      if !ok { return; }
      AllMapped(txnAvailable, shortIds, ids);
      ok := |ids| == |shortIds|;
    }

    ghost function State(have: seq<bool>): Search
      reads this
    {
      Search(txnAvailable, have, mempoolCount)
    }

    /** One mempool transaction with the short id k. */
    method OfferPool(ids: map<nat, nat>, k: nat, tx: Tx, have0: seq<bool>) returns (have: seq<bool>)
      requires Ranged(State(have0), ids)
      modifies `txnAvailable, `mempoolCount
      ensures State(have) == TryPool(old(State(have0)), ids, k, tx)
    {
      have := have0;
      if k in ids {
        var p := ids[k];
        if !have[p] {
          txnAvailable := txnAvailable[p := Some(tx)];
          have := have[p := true];
          mempoolCount := mempoolCount + 1;
        } else if txnAvailable[p].Some? {
          txnAvailable := txnAvailable[p := None];
          mempoolCount := mempoolCount - 1;
        }
      }
    }

    /** One extra transaction with the short id k. */
    method OfferExtra(ids: map<nat, nat>, k: nat, tx: Tx, have0: seq<bool>) returns (have: seq<bool>)
      requires Ranged(State(have0), ids)
      modifies `txnAvailable, `mempoolCount, `extraCount
      ensures State(have) == TryExtra(old(State(have0)), ids, k, tx)
      ensures extraCount == mempoolCount + old(extraCount - mempoolCount)
    {
      have := have0;
      if k in ids {
        var p := ids[k];
        if !have[p] {
          txnAvailable := txnAvailable[p := Some(tx)];
          have := have[p := true];
          mempoolCount := mempoolCount + 1;
          extraCount := extraCount + 1;
        } else if txnAvailable[p].Some? && txnAvailable[p].value.witnessHash != tx.witnessHash {
          txnAvailable := txnAvailable[p := None];
          mempoolCount := mempoolCount - 1;
          extraCount := extraCount - 1;
        }
      }
    }

    method SearchPool(ids: map<nat, nat>, want: nat, sid: Tx -> nat, pool: seq<Tx>) returns (have: seq<bool>, ghost n: nat)
      requires Ranged(Begin(txnAvailable), ids) && mempoolCount == 0
      modifies `txnAvailable, `mempoolCount
      ensures n <= |pool| && (n < |pool| ==> mempoolCount == want)
      ensures PoolNotDone(Begin(old(txnAvailable)), ids, want, sid, pool, n)
      ensures State(have) == Pool(Begin(old(txnAvailable)), ids, sid, pool, n)
    {
      have := seq(|txnAvailable|, i => false);
      ghost var s0 := State(have);
      n := 0;
      for i := 0 to |pool|
        invariant n == i && State(have) == Pool(s0, ids, sid, pool, n)
        invariant PoolNotDone(s0, ids, want, sid, pool, n) && (i > 0 ==> mempoolCount != want)
      {
        PoolNext(s0, ids, want, sid, pool, i);
        have := OfferPool(ids, sid(pool[i]), pool[i], have);
        n := n + 1;
        if mempoolCount == want { return; }
      }
    }

    method SearchExtra(ids: map<nat, nat>, want: nat, sid: Tx -> nat, extra: seq<Tx>, have0: seq<bool>) returns (have: seq<bool>, ghost n: nat)
      requires Ranged(State(have0), ids)
      modifies `txnAvailable, `mempoolCount, `extraCount
      ensures n <= |extra| && (n < |extra| ==> mempoolCount == want)
      ensures ExtraNotDone(old(State(have0)), ids, want, sid, extra, n)
      ensures extraCount == mempoolCount + old(extraCount - mempoolCount)
      ensures State(have) == Extra(old(State(have0)), ids, sid, extra, n)
    {
      have := have0;
      ghost var s0, d := State(have), extraCount - mempoolCount;
      n := 0;
      for i := 0 to |extra|
        invariant n == i && State(have) == Extra(s0, ids, sid, extra, i)
        invariant ExtraNotDone(s0, ids, want, sid, extra, i)
        invariant i > 0 ==> mempoolCount != want
        invariant extraCount == mempoolCount + d
      {
        assert ExtraNotDone(s0, ids, want, sid, extra, i + 1) by { ExtraNext(s0, ids, want, sid, extra, i); }
        have := OfferExtra(ids, sid(extra[i]), extra[i], have);
        n := n + 1;
        if mempoolCount == want { return; }
      }
    }

    /** What the whole search leaves, for the number of transactions it looked at. */
    ghost predicate Searched(m: Message, ids: map<nat, nat>, sid: Tx -> nat, pool: seq<Tx>, extra: seq<Tx>, nPool: nat, nExtra: nat)
      requires forall i :: 0 <= i < |m.prefilled| ==> PlaceOk(m, i)
      reads this
    {
      var s0 := Start(m);
      && nPool <= |pool| && nExtra <= |extra| && Ranged(s0, ids)
      && Maps(s0.avail, m.shortIds, ids) && |ids| == |m.shortIds|
      && txnAvailable == Extra(Pool(s0, ids, sid, pool, nPool), ids, sid, extra, nExtra).avail
      && mempoolCount == |Filled(txnAvailable, ids)|
      && PoolNotDone(s0, ids, |ids|, sid, pool, nPool) && ExtraNotDone(Pool(s0, ids, sid, pool, nPool), ids, |ids|, sid, extra, nExtra)
      && (nExtra < |extra| ==> mempoolCount == |ids|)
    }

    method InitData(m: Message, sid: Tx -> nat, pool: seq<Tx>, extra: seq<Tx>, crowded: nat -> bool)
      returns (status: ReadStatus, ghost ids: map<nat, nat>, ghost nPool: nat, ghost nExtra: nat)
      requires Received(m) && !hasHeader && txnAvailable == [] && mempoolCount == 0
      modifies this
      ensures status == Invalid <==>
              || !m.hasHeader || |m.shortIds| + |m.prefilled| == 0 || |m.shortIds| + |m.prefilled| > 100000
              || exists i :: 0 <= i < |m.prefilled| && Misplaced(m, i)
      ensures status == Failed <==>
              status != Invalid && (!DistinctIds(m.shortIds) || AnyCrowded(crowded, |m.shortIds|))
      ensures status == Ok ==> hasHeader && |txnAvailable| == TxCount(m) && prefilledCount == |m.prefilled|
      ensures status == Ok ==> forall i :: 0 <= i < |m.prefilled| ==> PlaceOk(m, i)
      ensures status == Ok ==> Searched(m, ids, sid, pool, extra, nPool, nExtra)
      ensures status != CheckBlockFailed
    {
      ids, nPool, nExtra := map[], 0, 0;
      if !m.hasHeader || (m.shortIds == [] && m.prefilled == []) { return Invalid, ids, nPool, nExtra; }
      if |m.shortIds| + |m.prefilled| > MAX_TXS { return Invalid, ids, nPool, nExtra; }
      hasHeader := true;
      var placed := PutPrefilled(m);
      MisplacedExact(m);
      if !placed { return Invalid, ids, nPool, nExtra; }
      prefilledCount := |m.prefilled|;
      PlacedFree(m, |m.prefilled|);
      ghost var s0 := Start(m);
      var mapped, idMap := MapShortIds(m.shortIds, crowded);
      if !mapped { return Failed, ids, nPool, nExtra; }
      ids := idMap;
      StartSound(m, ids);
      var have;
      have, nPool := SearchPool(idMap, |idMap|, sid, pool);
      have, nExtra := SearchExtra(idMap, |idMap|, sid, extra, have);
      PoolSound(s0, ids, s0.avail, m.shortIds, sid, pool, nPool);
      ExtraSound(Pool(s0, ids, sid, pool, nPool), ids, s0.avail, m.shortIds, sid, extra, nExtra);
      status := Ok;
    }

    /** Complete the block with the missing transactions.  Entries are moved out as they
        are used; `check` stands for the block's own validity. */
    method FillBlock(missing: seq<Tx>, check: seq<Tx> -> Verdict) returns (status: ReadStatus, block: seq<Tx>)
      requires hasHeader
      modifies this
      ensures |missing| != FreeBelow(old(txnAvailable), |old(txnAvailable)|) ==> status == Invalid
      ensures |missing| == FreeBelow(old(txnAvailable), |old(txnAvailable)|) ==>
                && block == Completed(old(txnAvailable), missing, |old(txnAvailable)|)
                && status == (match check(block) case Good => Ok case Mutated => Failed case Bad => CheckBlockFailed)
      ensures |missing| >= FreeBelow(old(txnAvailable), |old(txnAvailable)|) ==> !hasHeader && txnAvailable == []
    {
      ghost var avail := txnAvailable;
      block := [];
      var offset := 0;
      for i := 0 to |txnAvailable|
        invariant |txnAvailable| == |avail| && offset == FreeBelow(avail, i) <= |missing|
        invariant forall j :: i <= j < |avail| ==> txnAvailable[j] == avail[j]
        invariant block == Completed(avail, missing, i)
      {
        if txnAvailable[i].None? {
          if |missing| <= offset {
            FreeMonotone(avail, i + 1, |avail|);
            return Invalid, block;
          }
          block := block + [missing[offset]];
          offset := offset + 1;
        } else {
          block := block + [txnAvailable[i].value];
          txnAvailable := txnAvailable[i := None];
        }
      }
      hasHeader := false;
      txnAvailable := [];
      if |missing| != offset { return Invalid, block; }
      match check(block)
      case Good => return Ok, block;
      case Mutated => return Failed, block;
      case Bad => return CheckBlockFailed, block;
    }
  }

  // ---------------------------------------------------------------- mapping the short ids

  ghost predicate KeyAt(part: seq<nat>, ids: map<nat, nat>, k: nat) { k in ids <==> k in part }

  ghost predicate MappedSoFar(s: Slots, shortIds: seq<nat>, n: nat, ids: map<nat, nat>)
    requires n <= |shortIds|
  {
    var part := shortIds[..n];
    (forall k: nat :: KeyAt(part, ids, k)) && (DistinctIds(part) ==> Maps(s, part, ids))
  }

  lemma MapNext(s: Slots, shortIds: seq<nat>, n: nat, ids: map<nat, nat>, p: nat)
    requires n < |shortIds| && MappedSoFar(s, shortIds, n, ids) && IsFree(s, n, p)
    ensures MappedSoFar(s, shortIds, n + 1, ids[shortIds[n] := p])
  {
    var k := shortIds[n];
    var part, part', ids' := shortIds[..n], shortIds[..n + 1], ids[k := p];
    assert part' == part + [k];
    assert KeyAt(part, ids, k);
    forall l: nat ensures KeyAt(part', ids', l) { assert KeyAt(part, ids, l); }
    DistinctNext(part, k);
    if k !in part && DistinctIds(part) { MapsNext(s, part, ids, k, p); }
  }

  lemma DistinctNext(part: seq<nat>, k: nat)
    ensures DistinctIds(part + [k]) <==> DistinctIds(part) && k !in part
  {
    var part' := part + [k];
    if k in part {
      var j :| 0 <= j < |part| && part[j] == k;
      assert part'[j] == part'[|part|];
    }
    if !DistinctIds(part) {
      var i, j :| 0 <= i < j < |part| && part[i] == part[j];
      assert part'[i] == part'[j];
    }
  }

  /** As many keys as ids if and only if the ids are distinct. */
  lemma {:induction false} KeyCount(part: seq<nat>, keys: set<nat>)
    requires forall k: nat :: k in keys <==> k in part
    ensures |keys| <= |part| && (|keys| == |part| <==> DistinctIds(part))
    decreases |part|
  {
    if part == [] {
      assert keys == {};
    } else {
      var init, k := part[..|part| - 1], part[|part| - 1];
      assert part == init + [k];
      DistinctNext(init, k);
      if k in init { KeyCount(init, keys); } else { KeyCount(init, keys - {k}); }
    }
  }

  lemma MapsNext(s: Slots, part: seq<nat>, ids: map<nat, nat>, k: nat, p: nat)
    requires Maps(s, part, ids) && k !in part && IsFree(s, |part|, p)
    ensures Maps(s, part + [k], ids[k := p])
  {
    var part', ids' := part + [k], ids[k := p];
    forall i: int ensures MapsAt(s, part', ids', i) { assert MapsAt(s, part, ids, i); }
  }

  lemma AllMapped(s: Slots, shortIds: seq<nat>, ids: map<nat, nat>)
    requires MappedSoFar(s, shortIds, |shortIds|, ids)
    ensures |ids| == |shortIds| <==> DistinctIds(shortIds)
    ensures DistinctIds(shortIds) ==> Maps(s, shortIds, ids)
  {
    assert shortIds[..|shortIds|] == shortIds;
    forall k: nat ensures k in ids.Keys <==> k in shortIds { assert KeyAt(shortIds, ids, k); }
    KeyCount(shortIds, ids.Keys);
    assert |ids| == |ids.Keys|;
  }

  // ---------------------------------------------------------------- the search as a whole

  ghost function Start(m: Message): Search
    requires forall i :: 0 <= i < |m.prefilled| ==> PlaceOk(m, i)
  {
    Begin(Placed(m, |m.prefilled|))
  }

  lemma StartSound(m: Message, ids: map<nat, nat>)
    requires forall i :: 0 <= i < |m.prefilled| ==> PlaceOk(m, i)
    requires Maps(Placed(m, |m.prefilled|), m.shortIds, ids)
    ensures Sound(Start(m), ids, Placed(m, |m.prefilled|))
  {
    var s := Placed(m, |m.prefilled|);
    forall k | k in ids ensures ids[k] < |s| && s[ids[k]].None? {
      var i :| 0 <= i < |m.shortIds| && m.shortIds[i] == k;
      assert MapsAt(s, m.shortIds, ids, i);
    }
    assert Filled(s, ids) == {};
  }

  /** If the message describes a block and no transaction looked at has a false short
      id, whatever the search has filled in is right. */
  lemma SearchIsRight(m: Message, ids: map<nat, nat>, block: seq<Tx>, sid: Tx -> nat, pool: seq<Tx>, extra: seq<Tx>, nPool: nat, nExtra: nat)
    requires forall i :: 0 <= i < |m.prefilled| ==> PlaceOk(m, i)
    requires Ranged(Start(m), ids) && Maps(Start(m).avail, m.shortIds, ids) && nPool <= |pool| && nExtra <= |extra|
    requires Describes(Start(m).avail, m.shortIds, block, sid) && NoFalseMatch(pool, block, sid) && NoFalseMatch(extra, block, sid)
    ensures Right(Extra(Pool(Start(m), ids, sid, pool, nPool), ids, sid, extra, nExtra).avail, block)
  {
    PoolRight(Start(m), ids, Start(m).avail, m.shortIds, block, sid, pool, nPool);
    ExtraRight(Pool(Start(m), ids, sid, pool, nPool), ids, Start(m).avail, m.shortIds, block, sid, extra, nExtra);
  }

  /** The transactions at the places a receiver reports as not available. */
  method AnswerRequest(block: seq<Tx>, avail: Slots) returns (missing: seq<Tx>)
    requires |avail| == |block|
    ensures missing == MissingOf(avail, block, |block|)
  {
    missing := [];
    for i := 0 to |block|
      invariant missing == MissingOf(avail, block, i)
    {
      if avail[i].None? { missing := missing + [block[i]]; }
    }
  }

  /** A block sent as a compact block: unless short ids collide or a bucket overflows,
      the receiver, with the transactions it asks for, has exactly the block. */
  method Relay(block: seq<Tx>, sid: Tx -> nat, pool: seq<Tx>, extra: seq<Tx>, crowded: nat -> bool, check: seq<Tx> -> Verdict)
    returns (status: ReadStatus, received: seq<Tx>)
    requires 0 < |block| <= 65535 && NoFalseMatch(pool, block, sid) && NoFalseMatch(extra, block, sid)
    ensures status == Ok ==> received == block
    ensures check(block) == Good && (forall i, j :: 0 < i < j < |block| ==> sid(block[i]) != sid(block[j])) && (forall i: nat :: !crowded(i)) ==> status == Ok
  {
    received := [];
    var m := Encode(block, sid);
    EncodeDescribes(block, sid, m);
    assert (forall i, j :: 0 < i < j < |block| ==> sid(block[i]) != sid(block[j])) ==> DistinctIds(m.shortIds) by { EncodeDistinct(block, sid, m); }
    var partial := new PartiallyDownloadedBlock();
    ghost var ids, nPool, nExtra;
    status, ids, nPool, nExtra := partial.InitData(m, sid, pool, extra, crowded);
    if status != Ok { return; }
    SearchIsRight(m, ids, block, sid, pool, extra, nPool, nExtra);
    Rebuilds(partial.txnAvailable, block, |block|);
    assert block[..|block|] == block;
    var missing := AnswerRequest(block, partial.txnAvailable);
    status, received := partial.FillBlock(missing, check);
  }
}
