/** Rebuilding a block from a compact block message (src/blockencodings.cpp; BIP 152)
    as values: where prefilled transactions and short ids go, and what the searches
    through the mempool and the extra transactions fill in. */
module CompactBlock {
  import opened Common

  datatype Tx = Tx(id: nat, witnessHash: nat)

  type Slots = seq<Option<Tx>>

  /** `index` counts the places skipped since the previous prefilled transaction. */
  datatype Prefilled = Prefilled(index: nat, tx: Option<Tx>)

  datatype Message = Message(hasHeader: bool, shortIds: seq<nat>, prefilled: seq<Prefilled>)

  const MAX_TXS: nat := 4000000 / 40

  function TxCount(m: Message): nat { |m.shortIds| + |m.prefilled| }

  /** What the deserializer guarantees: 16 bits hold every index and the count. */
  predicate Received(m: Message) {
    TxCount(m) <= 65535 && forall i :: 0 <= i < |m.prefilled| ==> m.prefilled[i].index <= 65535
  }

  // ---------------------------------------------------------------- prefilled transactions

  /** The place of the i-th prefilled transaction. */
  function Place(ps: seq<Prefilled>, i: nat): nat
    requires i < |ps|
  {
    if i == 0 then ps[0].index else Place(ps, i - 1) + ps[i].index + 1
  }

  /** The places skipped before the i-th prefilled transaction. */
  function Skipped(ps: seq<Prefilled>, i: nat): nat
    requires i < |ps|
  {
    ps[i].index + if i == 0 then 0 else Skipped(ps, i - 1)
  }

  /** A prefilled transaction comes after those skipped and the i that are before it. */
  lemma {:induction false} PlaceIsSum(ps: seq<Prefilled>, i: nat)
    requires i < |ps|
    ensures Place(ps, i) == Skipped(ps, i) + i
  {
    if i > 0 { PlaceIsSum(ps, i - 1); }
  }

  lemma {:induction false} PlacesAscend(ps: seq<Prefilled>, i: nat, j: nat)
    requires i < j < |ps|
    ensures Place(ps, i) < Place(ps, j)
    decreases j
  {
    if i < j - 1 { PlacesAscend(ps, i, j - 1); }
  }

  predicate PlaceOk(m: Message, i: nat)
    requires i < |m.prefilled|
  {
    m.prefilled[i].tx.Some? && Place(m.prefilled, i) <= 65535 && Place(m.prefilled, i) <= |m.shortIds| + i
  }

  /** The places after the first k prefilled transactions have been put. */
  function Placed(m: Message, k: nat): (s: Slots)
    requires k <= |m.prefilled| && forall i :: 0 <= i < k ==> PlaceOk(m, i)
    ensures |s| == TxCount(m)
  {
    if k == 0 then seq(TxCount(m), i => None)
    else
      assert PlaceOk(m, k - 1);
      Placed(m, k - 1)[Place(m.prefilled, k - 1) := m.prefilled[k - 1].tx]
  }

  // ---------------------------------------------------------------- free places

  /** The number of empty places below p. */
  function FreeBelow(s: Slots, p: nat): (n: nat)
    requires p <= |s|
    ensures n <= p
  {
    if p == 0 then 0 else FreeBelow(s, p - 1) + if s[p - 1].None? then 1 else 0
  }

  lemma {:induction false} FreeBelowPut(s: Slots, q: nat, t: Option<Tx>, p: nat)
    requires p <= |s| && q < |s| && s[q].None? && t.Some?
    ensures FreeBelow(s[q := t], p) == FreeBelow(s, p) - if q < p then 1 else 0
    decreases p
  {
    if p > 0 { FreeBelowPut(s, q, t, p - 1); }
  }

  lemma {:induction false} AllFree(s: Slots, p: nat)
    requires p <= |s| && forall i :: 0 <= i < p ==> s[i].None?
    ensures FreeBelow(s, p) == p
    decreases p
  {
    if p > 0 { AllFree(s, p - 1); }
  }

  /** Each prefilled transaction takes one free place, above all taken before. */
  lemma {:induction false} PlacedFree(m: Message, k: nat)
    requires k <= |m.prefilled| && forall i :: 0 <= i < k ==> PlaceOk(m, i)
    ensures FreeBelow(Placed(m, k), TxCount(m)) == TxCount(m) - k
    ensures forall p :: 0 <= p < TxCount(m) && (k > 0 ==> p > Place(m.prefilled, k - 1)) ==> Placed(m, k)[p].None?
    decreases k
  {
    if k == 0 {
      AllFree(Placed(m, 0), TxCount(m));
    } else {
      PlacedFree(m, k - 1);
      assert PlaceOk(m, k - 1);
      if k > 1 { PlacesAscend(m.prefilled, k - 2, k - 1); }
      FreeBelowPut(Placed(m, k - 1), Place(m.prefilled, k - 1), m.prefilled[k - 1].tx, TxCount(m));
    }
  }

  /** What the prefilled transactions put where. */
  lemma {:induction false} PlacedExact(m: Message, k: nat, p: nat)
    requires k <= |m.prefilled| && p < TxCount(m) && forall i :: 0 <= i < k ==> PlaceOk(m, i)
    ensures Placed(m, k)[p].Some? ==> exists i :: 0 <= i < k && Place(m.prefilled, i) == p
    ensures forall i :: 0 <= i < k && Place(m.prefilled, i) == p ==> Placed(m, k)[p] == m.prefilled[i].tx && Placed(m, k)[p].Some?
    decreases k
  {
    if k > 0 {
      PlacedExact(m, k - 1, p);
      assert PlaceOk(m, k - 1);
      forall i | 0 <= i < k - 1 ensures Place(m.prefilled, i) != Place(m.prefilled, k - 1) {
        PlacesAscend(m.prefilled, i, k - 1);
      }
      if Place(m.prefilled, k - 1) != p && Placed(m, k)[p].Some? {
        var i :| 0 <= i < k - 1 && Place(m.prefilled, i) == p;
      }
    }
  }

  /** p is the i-th free place. */
  predicate IsFree(s: Slots, i: nat, p: nat) { p < |s| && s[p].None? && FreeBelow(s, p) == i }

  lemma {:induction false} FreeMonotone(s: Slots, p: nat, q: nat)
    requires p <= q <= |s|
    ensures FreeBelow(s, p) <= FreeBelow(s, q)
    ensures p < q && s[p].None? ==> FreeBelow(s, p) < FreeBelow(s, q)
    decreases q
  {
    if p < q { FreeMonotone(s, p, q - 1); }
  }

  lemma FreeUnique(s: Slots, i: nat, p: nat, q: nat)
    requires IsFree(s, i, p) && IsFree(s, i, q)
    ensures p == q
  {
    if p < q { FreeMonotone(s, p, q); }
    if q < p { FreeMonotone(s, q, p); }
  }

  // ---------------------------------------------------------------- short ids

  /** The places of the short ids: the i-th short id has the i-th free place. */
  ghost predicate MapsAt(s: Slots, shortIds: seq<nat>, ids: map<nat, nat>, i: int) {
    0 <= i < |shortIds| ==> shortIds[i] in ids && IsFree(s, i, ids[shortIds[i]])
  }

  ghost predicate Maps(s: Slots, shortIds: seq<nat>, ids: map<nat, nat>) {
    && (forall k :: k in ids ==> k in shortIds)
    && (forall i: int :: MapsAt(s, shortIds, ids, i))
  }

  ghost predicate DistinctIds(shortIds: seq<nat>) {
    forall i, j :: 0 <= i < j < |shortIds| ==> shortIds[i] != shortIds[j]
  }

  /** Different short ids have different places. */
  lemma MapsInjective(s: Slots, shortIds: seq<nat>, ids: map<nat, nat>, k: nat, l: nat)
    requires Maps(s, shortIds, ids) && k in ids && l in ids && ids[k] == ids[l]
    ensures k == l
  {
    var i :| 0 <= i < |shortIds| && shortIds[i] == k;
    var j :| 0 <= j < |shortIds| && shortIds[j] == l;
    assert MapsAt(s, shortIds, ids, i) && MapsAt(s, shortIds, ids, j);
  }

  // ---------------------------------------------------------------- the search

  /** The places, which of them were found before, and how many short-id places are filled. */
  datatype Search = Search(avail: Slots, have: seq<bool>, count: int)

  /** Before the search nothing has been found. */
  function Begin(avail: Slots): Search { Search(avail, seq(|avail|, i => false), 0) }

  ghost predicate Ranged(s: Search, ids: map<nat, nat>) {
    |s.have| == |s.avail| && forall k :: k in ids ==> ids[k] < |s.avail|
  }

  /** One mempool transaction with a short id: the first match fills the place, a
      second one empties it for good. */
  function TryPool(s: Search, ids: map<nat, nat>, k: nat, tx: Tx): (r: Search)
    requires Ranged(s, ids)
    ensures Ranged(r, ids) && |r.avail| == |s.avail|
  {
    if k !in ids then s
    else
      var p := ids[k];
      if !s.have[p] then Search(s.avail[p := Some(tx)], s.have[p := true], s.count + 1)
      else if s.avail[p].Some? then s.(avail := s.avail[p := None], count := s.count - 1)
      else s
  }

  /** One extra transaction: a second match empties the place only if it differs. */
  function TryExtra(s: Search, ids: map<nat, nat>, k: nat, tx: Tx): (r: Search)
    requires Ranged(s, ids)
    ensures Ranged(r, ids) && |r.avail| == |s.avail|
  {
    if k in ids && s.have[ids[k]] && s.avail[ids[k]].Some? && s.avail[ids[k]].value.witnessHash == tx.witnessHash then s
    else TryPool(s, ids, k, tx)
  }

  /** After the first n mempool transactions. */
  function Pool(s: Search, ids: map<nat, nat>, sid: Tx -> nat, txs: seq<Tx>, n: nat): (r: Search)
    requires Ranged(s, ids) && n <= |txs|
    ensures Ranged(r, ids) && |r.avail| == |s.avail|
  {
    if n == 0 then s else TryPool(Pool(s, ids, sid, txs, n - 1), ids, sid(txs[n - 1]), txs[n - 1])
  }

  function Extra(s: Search, ids: map<nat, nat>, sid: Tx -> nat, txs: seq<Tx>, n: nat): (r: Search)
    requires Ranged(s, ids) && n <= |txs|
    ensures Ranged(r, ids) && |r.avail| == |s.avail|
  {
    if n == 0 then s else TryExtra(Extra(s, ids, sid, txs, n - 1), ids, sid(txs[n - 1]), txs[n - 1])
  }

  /** The places filled were not yet as many as wanted before any of n transactions but the first. */
  ghost predicate PoolNotDone(s: Search, ids: map<nat, nat>, want: nat, sid: Tx -> nat, txs: seq<Tx>, n: nat)
    requires Ranged(s, ids) && n <= |txs|
  {
    forall i :: 0 < i < n ==> Pool(s, ids, sid, txs, i).count != want
  }

  ghost predicate ExtraNotDone(s: Search, ids: map<nat, nat>, want: nat, sid: Tx -> nat, txs: seq<Tx>, n: nat)
    requires Ranged(s, ids) && n <= |txs|
  {
    forall i :: 0 < i < n ==> Extra(s, ids, sid, txs, i).count != want
  }

  lemma PoolNext(s: Search, ids: map<nat, nat>, want: nat, sid: Tx -> nat, txs: seq<Tx>, n: nat)
    requires Ranged(s, ids) && n < |txs| && PoolNotDone(s, ids, want, sid, txs, n)
    requires n > 0 ==> Pool(s, ids, sid, txs, n).count != want
    ensures PoolNotDone(s, ids, want, sid, txs, n + 1)
    ensures Pool(s, ids, sid, txs, n + 1) == TryPool(Pool(s, ids, sid, txs, n), ids, sid(txs[n]), txs[n])
  {
  }

  lemma ExtraNext(s: Search, ids: map<nat, nat>, want: nat, sid: Tx -> nat, txs: seq<Tx>, n: nat)
    requires Ranged(s, ids) && n < |txs| && ExtraNotDone(s, ids, want, sid, txs, n)
    requires n > 0 ==> Extra(s, ids, sid, txs, n).count != want
    ensures ExtraNotDone(s, ids, want, sid, txs, n + 1)
    ensures Extra(s, ids, sid, txs, n + 1) == TryExtra(Extra(s, ids, sid, txs, n), ids, sid(txs[n]), txs[n])
  {
  }

  /** The short ids whose places are filled. */
  ghost function Filled(avail: Slots, ids: map<nat, nat>): set<nat>
    requires forall k :: k in ids ==> ids[k] < |avail|
  {
    set k | k in ids && avail[ids[k]].Some?
  }

  ghost predicate FreshAt(s: Search, ids: map<nat, nat>, k: nat) {
    k in ids && ids[k] < |s.avail| == |s.have| && !s.have[ids[k]] ==> s.avail[ids[k]].None?
  }

  /** The count is exact, a place not found before is empty, and places of other
      transactions are as they were. */
  ghost predicate Sound(s: Search, ids: map<nat, nat>, placed: Slots) {
    && Ranged(s, ids) && |s.avail| == |placed|
    && s.count == |Filled(s.avail, ids)|
    && (forall k: nat :: FreshAt(s, ids, k))
    && (forall p :: 0 <= p < |placed| && placed[p].Some? ==> s.avail[p] == placed[p])
  }

  lemma FilledPut(avail: Slots, ids: map<nat, nat>, k: nat, tx: Tx)
    requires forall l :: l in ids ==> ids[l] < |avail|
    requires k in ids && avail[ids[k]].None? && forall l :: l in ids && ids[l] == ids[k] ==> l == k
    ensures |Filled(avail[ids[k] := Some(tx)], ids)| == |Filled(avail, ids)| + 1
  {
    assert Filled(avail[ids[k] := Some(tx)], ids) == Filled(avail, ids) + {k};
  }

  lemma FilledDrop(avail: Slots, ids: map<nat, nat>, k: nat)
    requires forall l :: l in ids ==> ids[l] < |avail|
    requires k in ids && avail[ids[k]].Some? && forall l :: l in ids && ids[l] == ids[k] ==> l == k
    ensures |Filled(avail[ids[k] := None], ids)| == |Filled(avail, ids)| - 1
  {
    assert Filled(avail, ids) == Filled(avail[ids[k] := None], ids) + {k};
  }

  lemma TryPoolSound(s: Search, ids: map<nat, nat>, placed: Slots, shortIds: seq<nat>, k: nat, tx: Tx)
    requires Sound(s, ids, placed) && Maps(placed, shortIds, ids)
    ensures Sound(TryPool(s, ids, k, tx), ids, placed)
  {
    if k in ids {
      var i :| 0 <= i < |shortIds| && shortIds[i] == k;
      assert MapsAt(placed, shortIds, ids, i) && FreshAt(s, ids, k);
      forall l | l in ids && ids[l] == ids[k] ensures l == k { MapsInjective(placed, shortIds, ids, k, l); }
      var r := TryPool(s, ids, k, tx);
      if !s.have[ids[k]] { FilledPut(s.avail, ids, k, tx); }
      else if s.avail[ids[k]].Some? { FilledDrop(s.avail, ids, k); }
      forall l: nat ensures FreshAt(r, ids, l) { assert FreshAt(s, ids, l); }
    }
  }

  lemma {:induction false} PoolSound(s: Search, ids: map<nat, nat>, placed: Slots, shortIds: seq<nat>, sid: Tx -> nat, txs: seq<Tx>, n: nat)
    requires Sound(s, ids, placed) && Maps(placed, shortIds, ids) && n <= |txs|
    ensures Sound(Pool(s, ids, sid, txs, n), ids, placed)
  {
    if n > 0 {
      PoolSound(s, ids, placed, shortIds, sid, txs, n - 1);
      TryPoolSound(Pool(s, ids, sid, txs, n - 1), ids, placed, shortIds, sid(txs[n - 1]), txs[n - 1]);
    }
  }

  lemma {:induction false} ExtraSound(s: Search, ids: map<nat, nat>, placed: Slots, shortIds: seq<nat>, sid: Tx -> nat, txs: seq<Tx>, n: nat)
    requires Sound(s, ids, placed) && Maps(placed, shortIds, ids) && n <= |txs|
    ensures Sound(Extra(s, ids, sid, txs, n), ids, placed)
  {
    if n > 0 {
      ExtraSound(s, ids, placed, shortIds, sid, txs, n - 1);
      TryPoolSound(Extra(s, ids, sid, txs, n - 1), ids, placed, shortIds, sid(txs[n - 1]), txs[n - 1]);
    }
  }

  // ---------------------------------------------------------------- what the search finds

  /** How many of the first n transactions have a short id, and the first of them. */
  function Matches(sid: Tx -> nat, txs: seq<Tx>, n: nat, k: nat): nat
    requires n <= |txs|
  {
    if n == 0 then 0 else Matches(sid, txs, n - 1, k) + if sid(txs[n - 1]) == k then 1 else 0
  }

  function FirstMatch(sid: Tx -> nat, txs: seq<Tx>, n: nat, k: nat): Option<Tx>
    requires n <= |txs|
  {
    if n == 0 then None
    else if FirstMatch(sid, txs, n - 1, k).Some? then FirstMatch(sid, txs, n - 1, k)
    else if sid(txs[n - 1]) == k then Some(txs[n - 1]) else None
  }

  /** The mempool search fills a place if and only if exactly one of the transactions
      it looked at has the short id, and with that one. */
  lemma {:induction false} PoolExact(placed: Slots, ids: map<nat, nat>, shortIds: seq<nat>, sid: Tx -> nat, txs: seq<Tx>, n: nat, k: nat)
    requires Maps(placed, shortIds, ids) && n <= |txs| && k in ids
    requires Ranged(Begin(placed), ids)
    ensures var r := Pool(Begin(placed), ids, sid, txs, n);
            && r.avail[ids[k]] == (if Matches(sid, txs, n, k) == 1 then FirstMatch(sid, txs, n, k) else None)
            && (r.have[ids[k]] <==> Matches(sid, txs, n, k) > 0) && (FirstMatch(sid, txs, n, k).Some? <==> Matches(sid, txs, n, k) > 0)
  {
    if n == 0 {
      var i :| 0 <= i < |shortIds| && shortIds[i] == k;
      assert MapsAt(placed, shortIds, ids, i);
    } else {
      PoolExact(placed, ids, shortIds, sid, txs, n - 1, k);
      var l := sid(txs[n - 1]);
      if l in ids && l != k && ids[l] == ids[k] { MapsInjective(placed, shortIds, ids, k, l); }
    }
  }

  /** Every one of the first n transactions with a short id has this witness hash. */
  predicate AllSame(sid: Tx -> nat, txs: seq<Tx>, n: nat, k: nat, witnessHash: nat)
    requires n <= |txs|
  {
    forall i :: 0 <= i < n && sid(txs[i]) == k ==> txs[i].witnessHash == witnessHash
  }

  /** A transaction, if every extra one with its short id is the same. */
  function Undisputed(tx: Option<Tx>, sid: Tx -> nat, txs: seq<Tx>, n: nat, k: nat): Option<Tx>
    requires n <= |txs|
  {
    if tx.Some? && AllSame(sid, txs, n, k, tx.value.witnessHash) then tx else None
  }

  /** The extra search fills a place that was not found before with the first match, and
      leaves none that another match disputes; a place emptied before stays empty. */
  lemma {:induction false} ExtraExact(s: Search, ids: map<nat, nat>, placed: Slots, shortIds: seq<nat>, sid: Tx -> nat, txs: seq<Tx>, n: nat, k: nat)
    requires Maps(placed, shortIds, ids) && n <= |txs| && k in ids && Ranged(s, ids) && FreshAt(s, ids, k)
    ensures var r := Extra(s, ids, sid, txs, n);
            && (r.have[ids[k]] <==> s.have[ids[k]] || Matches(sid, txs, n, k) > 0)
            && r.avail[ids[k]] == Undisputed(if s.have[ids[k]] then s.avail[ids[k]] else FirstMatch(sid, txs, n, k), sid, txs, n, k)
    ensures FirstMatch(sid, txs, n, k).Some? <==> Matches(sid, txs, n, k) > 0
    ensures Matches(sid, txs, n, k) == 0 <==> forall i :: 0 <= i < n ==> sid(txs[i]) != k
  {
    if n > 0 {
      ExtraExact(s, ids, placed, shortIds, sid, txs, n - 1, k);
      var l := sid(txs[n - 1]);
      if l in ids && l != k && ids[l] == ids[k] { MapsInjective(placed, shortIds, ids, k, l); }
      assert forall w: nat :: AllSame(sid, txs, n, k, w) <==>
                              AllSame(sid, txs, n - 1, k, w) && (l == k ==> txs[n - 1].witnessHash == w);
    }
  }

  /** Both searches: a place is filled if and only if at most one of the mempool's has the
      short id and the extra ones that have it are all the same as it, or as each other. */
  lemma SearchExact(placed: Slots, ids: map<nat, nat>, shortIds: seq<nat>, sid: Tx -> nat, pool: seq<Tx>, nPool: nat, extra: seq<Tx>, nExtra: nat, k: nat)
    requires Maps(placed, shortIds, ids) && nPool <= |pool| && nExtra <= |extra| && k in ids
    requires Ranged(Begin(placed), ids)
    ensures var s := Pool(Begin(placed), ids, sid, pool, nPool);
            Extra(s, ids, sid, extra, nExtra).avail[ids[k]] ==
            match Matches(sid, pool, nPool, k)
            case 0 => Undisputed(FirstMatch(sid, extra, nExtra, k), sid, extra, nExtra, k)
            case 1 => Undisputed(FirstMatch(sid, pool, nPool, k), sid, extra, nExtra, k)
            case _ => None
  {
    PoolExact(placed, ids, shortIds, sid, pool, nPool, k);
    ExtraExact(Pool(Begin(placed), ids, sid, pool, nPool), ids, placed, shortIds, sid, extra, nExtra, k);
  }

  /** The first match is one of the transactions, and no one before it matches. */
  lemma {:induction false} FirstMatchExact(sid: Tx -> nat, txs: seq<Tx>, n: nat, k: nat) returns (i: nat)
    requires n <= |txs|
    ensures FirstMatch(sid, txs, n, k) == if i < n then Some(txs[i]) else None
    ensures i <= n && (i < n ==> sid(txs[i]) == k) && forall j :: 0 <= j < i ==> sid(txs[j]) != k
  {
    if n == 0 {
      i := 0;
    } else {
      i := FirstMatchExact(sid, txs, n - 1, k);
      if i == n - 1 && sid(txs[n - 1]) != k { i := n; }
    }
  }

  // ---------------------------------------------------------------- the original block

  ghost predicate IdAt(placed: Slots, shortIds: seq<nat>, block: seq<Tx>, sid: Tx -> nat, i: int, p: int) {
    0 <= i < |shortIds| && 0 <= p < |block| && IsFree(placed, i, p) ==> shortIds[i] == sid(block[p])
  }

  /** The places hold transactions of this block, and the short ids are those of the
      rest, in order. */
  ghost predicate Describes(placed: Slots, shortIds: seq<nat>, block: seq<Tx>, sid: Tx -> nat) {
    && |placed| == |block| && Right(placed, block)
    && forall i: int, p: int :: IdAt(placed, shortIds, block, sid, i, p)
  }

  ghost predicate RightAt(avail: Slots, block: seq<Tx>, p: int) {
    0 <= p < |avail| == |block| && avail[p].Some? ==> avail[p].value == block[p]
  }

  ghost predicate Right(avail: Slots, block: seq<Tx>) {
    |avail| == |block| && forall p: int :: RightAt(avail, block, p)
  }

  /** No transaction has the short id of a block transaction it is not. */
  ghost predicate NoFalseMatch(txs: seq<Tx>, block: seq<Tx>, sid: Tx -> nat) {
    forall i, p :: 0 <= i < |txs| && 0 <= p < |block| && sid(txs[i]) == sid(block[p]) ==> txs[i] == block[p]
  }

  lemma TryRight(s: Search, ids: map<nat, nat>, placed: Slots, shortIds: seq<nat>, block: seq<Tx>, sid: Tx -> nat, tx: Tx)
    requires Ranged(s, ids) && Right(s.avail, block) && Maps(placed, shortIds, ids) && Describes(placed, shortIds, block, sid)
    requires forall p :: 0 <= p < |block| && sid(tx) == sid(block[p]) ==> tx == block[p]
    ensures Right(TryPool(s, ids, sid(tx), tx).avail, block)
  {
    var k, r := sid(tx), TryPool(s, ids, sid(tx), tx);
    if k in ids {
      var i :| 0 <= i < |shortIds| && shortIds[i] == k;
      assert MapsAt(placed, shortIds, ids, i) && IdAt(placed, shortIds, block, sid, i, ids[k]);
    }
    forall p: int ensures RightAt(r.avail, block, p) { assert RightAt(s.avail, block, p); }
  }

  lemma {:induction false} PoolRight(s: Search, ids: map<nat, nat>, placed: Slots, shortIds: seq<nat>, block: seq<Tx>, sid: Tx -> nat, txs: seq<Tx>, n: nat)
    requires Ranged(s, ids) && Right(s.avail, block) && Maps(placed, shortIds, ids) && Describes(placed, shortIds, block, sid)
    requires n <= |txs| && NoFalseMatch(txs, block, sid)
    ensures Right(Pool(s, ids, sid, txs, n).avail, block)
  {
    if n > 0 {
      PoolRight(s, ids, placed, shortIds, block, sid, txs, n - 1);
      TryRight(Pool(s, ids, sid, txs, n - 1), ids, placed, shortIds, block, sid, txs[n - 1]);
    }
  }

  lemma {:induction false} ExtraRight(s: Search, ids: map<nat, nat>, placed: Slots, shortIds: seq<nat>, block: seq<Tx>, sid: Tx -> nat, txs: seq<Tx>, n: nat)
    requires Ranged(s, ids) && Right(s.avail, block) && Maps(placed, shortIds, ids) && Describes(placed, shortIds, block, sid)
    requires n <= |txs| && NoFalseMatch(txs, block, sid)
    ensures Right(Extra(s, ids, sid, txs, n).avail, block)
  {
    if n > 0 {
      ExtraRight(s, ids, placed, shortIds, block, sid, txs, n - 1);
      TryRight(Extra(s, ids, sid, txs, n - 1), ids, placed, shortIds, block, sid, txs[n - 1]);
    }
  }

  // ---------------------------------------------------------------- filling in the rest

  /** The transactions still missing, in order. */
  function MissingOf(avail: Slots, block: seq<Tx>, p: nat): (r: seq<Tx>)
    requires p <= |avail| == |block|
    ensures |r| == FreeBelow(avail, p)
  {
    if p == 0 then [] else MissingOf(avail, block, p - 1) + if avail[p - 1].None? then [block[p - 1]] else []
  }

  lemma {:induction false} MissingAt(avail: Slots, block: seq<Tx>, n: nat, p: nat)
    requires p < n <= |avail| == |block| && avail[p].None?
    ensures FreeBelow(avail, p) < FreeBelow(avail, n) && MissingOf(avail, block, n)[FreeBelow(avail, p)] == block[p]
    decreases n
  {
    if p < n - 1 { MissingAt(avail, block, n - 1, p); }
  }

  /** FillBlock's list: each empty place takes the next missing transaction. */
  function Completed(avail: Slots, missing: seq<Tx>, n: nat): (r: seq<Tx>)
    requires n <= |avail| && FreeBelow(avail, n) <= |missing|
    ensures |r| == n
  {
    if n == 0 then []
    else Completed(avail, missing, n - 1) + [if avail[n - 1].Some? then avail[n - 1].value else missing[FreeBelow(avail, n - 1)]]
  }

  /** Rebuilding: right places and the missing transactions give the block back. */
  lemma {:induction false} Rebuilds(avail: Slots, block: seq<Tx>, n: nat)
    requires Right(avail, block) && n <= |block|
    ensures FreeBelow(avail, n) <= |MissingOf(avail, block, |block|)|
    ensures Completed(avail, MissingOf(avail, block, |block|), n) == block[..n]
  {
    FreeMonotone(avail, n, |block|);
    if n > 0 {
      Rebuilds(avail, block, n - 1);
      assert RightAt(avail, block, n - 1);
      if avail[n - 1].None? { MissingAt(avail, block, |block|, n - 1); }
      assert block[..n] == block[..n - 1] + [block[n - 1]];
    }
  }
}
