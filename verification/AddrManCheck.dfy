/**
 The self-check of the address manager: what its tests mean, the loops that make them, and
 why they always pass.
 */
module AddrManCheck {
  import opened AddrMan
  import opened AddrManOps
  import opened AddrManager
  import opened Common

  // ---------------------------------------------------------------- what is tested

  /** Looking a missing address up in mapAddr gives 0. */
  function IdAt(addrs: map<Ip, int>, ip: Ip): int { if ip in addrs then addrs[ip] else 0 }

  /** The tests on one entry (errors -1 to -6, -8 and -14). */
  predicate EntryPasses(s: Tables, id: int) {
    id in s.mapInfo ==>
      var i := s.mapInfo[id];
      && (if i.fInTried then i.nLastSuccess != 0 && i.nRefCount == 0
          else 0 < i.nRefCount <= NEW_BUCKETS_PER_ADDRESS)
      && IdAt(s.mapAddr, i.addr.ip) == id
      && 0 <= i.nRandomPos < |s.vRandom| && s.vRandom[i.nRandomPos] == id
      && i.nLastTry >= 0 && i.nLastSuccess >= 0
  }

  /** The occupant of a tried slot is tried, and in its own slot (-17, -18). */
  predicate TriedPlace(c: Config, s: Tables, t: Slot) {
    t in s.vvTried ==>
      && s.vvTried[t] in TriedIds(s.mapInfo)
      && t.bucket == TriedBucket(c, s.mapInfo[s.vvTried[t]].addr)
      && t.pos == BucketPosition(c, s.mapInfo[s.vvTried[t]].addr, false, t.bucket)
  }

  /** The scan of the tried table: no tried id is left over (-13).  None can be found twice
      (-11), because two slots are not both its own. */
  ghost predicate TriedScanPasses(c: Config, s: Tables) {
    && (forall t: Slot :: TriedPlace(c, s, t))
    && TriedIds(s.mapInfo) == Ids(s.vvTried, s.vvTried.Keys)
  }

  /** The occupant of a new slot is untried, and at its position (-19). */
  predicate NewPlace(c: Config, s: Tables, t: Slot) {
    t in s.vvNew ==>
      && s.vvNew[t] in UntriedIds(s.mapInfo)
      && t.pos == BucketPosition(c, s.mapInfo[s.vvNew[t]].addr, true, t.bucket)
  }

  predicate Counted(s: Tables, id: int) {
    id in UntriedIds(s.mapInfo) ==> |Slots(s.vvNew, id)| == s.mapInfo[id].nRefCount
  }

  /** The scan of the new table counts the references down to nothing (-12, -15). */
  ghost predicate NewScanPasses(c: Config, s: Tables) {
    (forall t: Slot :: NewPlace(c, s, t)) && (forall id: int :: Counted(s, id))
  }

  /** All of Check_ but the null key (with the counters, -7, -9 and -10). */
  ghost predicate CheckPasses(c: Config, s: Tables) {
    && |s.vRandom| == s.nTried + s.nNew
    && (forall id: int :: EntryPasses(s, id))
    && |TriedIds(s.mapInfo)| == s.nTried && |UntriedIds(s.mapInfo)| == s.nNew
    && TriedScanPasses(c, s) && NewScanPasses(c, s)
  }

  // ---------------------------------------------------------------- why it passes

  ghost function Members(order: seq<int>): set<int> { set x | x in order }

  lemma {:induction false} MembersCount(order: seq<int>)
    requires forall i, j :: 0 <= i < j < |order| ==> order[i] != order[j]
    ensures |Members(order)| == |order|
  {
    if order != [] {
      var n := |order| - 1;
      MembersCount(order[..n]);
      assert Members(order) == Members(order[..n]) + {order[n]};
    }
  }

  /** The random order lists every entry exactly once. */
  lemma OrderCounts(s: Tables)
    requires RandomOk(s.mapInfo, s.vRandom)
    ensures |s.vRandom| == |TriedIds(s.mapInfo)| + |UntriedIds(s.mapInfo)|
  {
    forall i, j | 0 <= i < j < |s.vRandom| ensures s.vRandom[i] != s.vRandom[j] {
      assert PlaceHolds(s.mapInfo, s.vRandom, i) && PlaceHolds(s.mapInfo, s.vRandom, j);
    }
    MembersCount(s.vRandom);
    forall id: int ensures id in Members(s.vRandom) <==> id in s.mapInfo {
      assert HasPlace(s.mapInfo, s.vRandom, id);
      if id in s.vRandom {
        var k :| 0 <= k < |s.vRandom| && s.vRandom[k] == id;
        assert PlaceHolds(s.mapInfo, s.vRandom, k);
      }
    }
    assert Members(s.vRandom) == TriedIds(s.mapInfo) + UntriedIds(s.mapInfo);
  }

  lemma TriedScan(c: Config, s: Tables)
    requires Consistent(c, s)
    ensures TriedScanPasses(c, s)
  {
    forall t: Slot ensures TriedPlace(c, s, t) { assert TriedSlotOk(c, s.mapInfo, s.vvTried, t); }
    forall id: int ensures id in TriedIds(s.mapInfo) <==> id in Ids(s.vvTried, s.vvTried.Keys) {
      assert InTriedSlot(c, s.mapInfo, s.vvTried, id);
      if t :| t in s.vvTried && s.vvTried[t] == id { assert TriedSlotOk(c, s.mapInfo, s.vvTried, t); }
    }
  }

  lemma NewScan(c: Config, s: Tables)
    requires Consistent(c, s)
    ensures NewScanPasses(c, s)
  {
    forall t: Slot ensures NewPlace(c, s, t) { assert NewSlotOk(c, s.mapInfo, s.vvNew, t); }
    forall id: int ensures Counted(s, id) { assert RefCountOk(s.mapInfo, s.vvNew, {}, id); }
  }

  lemma ConsistentPasses(c: Config, s: Tables)
    requires Consistent(c, s)
    ensures CheckPasses(c, s)
  {
    OrderCounts(s);
    TriedScan(c, s);
    NewScan(c, s);
    forall id: int ensures EntryPasses(s, id) {
      assert HasPlace(s.mapInfo, s.vRandom, id) && IsFound(s.mapInfo, s.mapAddr, id) && IdOk(s.nIdCount, s.mapInfo, id);
      assert RefCountOk(s.mapInfo, s.vvNew, {}, id) && InTriedSlot(c, s.mapInfo, s.vvTried, id);
    }
  }

  /** The check passes after every run. */
  lemma CheckAlwaysPasses(c: Config, ops: seq<Op>)
    requires forall i :: 0 <= i < |ops| ==> Timely(ops[i])
    ensures (ClearedConsistent(c); CheckPasses(c, Run(c, CLEARED, ops)))
  {
    EveryRunIsConsistent(c, ops);
    ClearedConsistent(c);
    ConsistentPasses(c, Run(c, CLEARED, ops));
  }

  // ---------------------------------------------------------------- the scan of the tried table

  /** The ids in some slots. */
  function Ids(table: Table, seen: set<Slot>): set<int> { set t | t in seen && t in table :: table[t] }

  /** The slots in `seen` passed, and `setTried` is what they leave over. */
  ghost predicate TriedSeen(c: Config, s: Tables, seen: set<Slot>, setTried: set<int>) {
    && seen <= s.vvTried.Keys
    && (forall t: Slot :: t in seen ==> TriedPlace(c, s, t))
    && setTried == TriedIds(s.mapInfo) - Ids(s.vvTried, seen)
  }

  lemma TriedNext(c: Config, s: Tables, seen: set<Slot>, setTried: set<int>, t: Slot)
    requires TriedSeen(c, s, seen, setTried) && t in s.vvTried && t !in seen
    requires s.vvTried[t] in setTried && TriedPlace(c, s, t)
    ensures TriedSeen(c, s, seen + {t}, setTried - {s.vvTried[t]})
  {
    assert Ids(s.vvTried, seen + {t}) == Ids(s.vvTried, seen) + {s.vvTried[t]};
  }

  lemma TriedFails(c: Config, s: Tables, seen: set<Slot>, setTried: set<int>, t: Slot)
    requires TriedSeen(c, s, seen, setTried) && t in s.vvTried && t !in seen
    requires s.vvTried[t] !in setTried || !TriedPlace(c, s, t)
    ensures !TriedScanPasses(c, s)
  {
    if s.vvTried[t] in Ids(s.vvTried, seen) {
      var u :| u in seen && u in s.vvTried && s.vvTried[u] == s.vvTried[t];
      assert TriedPlace(c, s, u);
    }
    assert !TriedPlace(c, s, t);
  }

  lemma TriedDone(c: Config, s: Tables, setTried: set<int>)
    requires TriedSeen(c, s, s.vvTried.Keys, setTried)
    ensures setTried == {} <==> TriedScanPasses(c, s)
  {
    var ids := Ids(s.vvTried, s.vvTried.Keys);
    forall id | id in ids ensures id in TriedIds(s.mapInfo) {
      var t :| t in s.vvTried && s.vvTried[t] == id;
      assert TriedPlace(c, s, t);
    }
    forall t: Slot ensures TriedPlace(c, s, t) {}
    if setTried == {} {
      forall id | id in TriedIds(s.mapInfo) ensures id in ids { assert id !in setTried; }
    }
  }

  // ---------------------------------------------------------------- the scan of the new table

  function SeenOf(vvNew: Table, seen: set<Slot>, id: int): set<Slot> { Slots(vvNew, id) * seen }

  /** What is left of the count of one id. */
  predicate CountLeft(s: Tables, seen: set<Slot>, mapNew: map<int, int>, id: int) {
    var left := if id in UntriedIds(s.mapInfo) then s.mapInfo[id].nRefCount - |SeenOf(s.vvNew, seen, id)| else 0;
    left >= 0 && (id in mapNew <==> left > 0) && (id in mapNew ==> mapNew[id] == left)
  }

  ghost predicate NewSeen(c: Config, s: Tables, seen: set<Slot>, mapNew: map<int, int>) {
    && seen <= s.vvNew.Keys
    && (forall t: Slot :: t in seen ==> NewPlace(c, s, t))
    && (forall id: int :: CountLeft(s, seen, mapNew, id))
  }

  /** One reference less; an id without any is dropped. */
  function CountDown(mapNew: map<int, int>, id: int): map<int, int>
    requires id in mapNew
  {
    if mapNew[id] - 1 == 0 then mapNew - {id} else mapNew[id := mapNew[id] - 1]
  }

  lemma SeenOfNext(vvNew: Table, seen: set<Slot>, t: Slot, k: int)
    requires t in vvNew && t !in seen
    ensures |SeenOf(vvNew, seen + {t}, k)| == |SeenOf(vvNew, seen, k)| + if k == vvNew[t] then 1 else 0
  {
    if k == vvNew[t] {
      assert SeenOf(vvNew, seen + {t}, k) == SeenOf(vvNew, seen, k) + {t};
    } else {
      assert SeenOf(vvNew, seen + {t}, k) == SeenOf(vvNew, seen, k);
    }
  }

  lemma CountNext(s: Tables, seen: set<Slot>, mapNew: map<int, int>, t: Slot, k: int)
    requires t in s.vvNew && t !in seen && s.vvNew[t] in mapNew && CountLeft(s, seen, mapNew, k)
    ensures CountLeft(s, seen + {t}, CountDown(mapNew, s.vvNew[t]), k)
  {
    SeenOfNext(s.vvNew, seen, t, k);
  }

  lemma NewNext(c: Config, s: Tables, seen: set<Slot>, mapNew: map<int, int>, t: Slot)
    requires NewSeen(c, s, seen, mapNew) && t in s.vvNew && t !in seen
    requires s.vvNew[t] in mapNew && NewPlace(c, s, t)
    ensures NewSeen(c, s, seen + {t}, CountDown(mapNew, s.vvNew[t]))
  {
    var seen', left := seen + {t}, CountDown(mapNew, s.vvNew[t]);
    forall k: int ensures CountLeft(s, seen', left, k) { CountNext(s, seen, mapNew, t, k); }
  }

  lemma NewFails(c: Config, s: Tables, seen: set<Slot>, mapNew: map<int, int>, t: Slot)
    requires NewSeen(c, s, seen, mapNew) && t in s.vvNew && t !in seen
    requires s.vvNew[t] !in mapNew || !NewPlace(c, s, t)
    ensures !NewScanPasses(c, s)
  {
    var id := s.vvNew[t];
    if NewPlace(c, s, t) {
      assert CountLeft(s, seen, mapNew, id);
      SubsetCard(SeenOf(s.vvNew, seen, id) + {t}, Slots(s.vvNew, id));
      assert !Counted(s, id);
    }
  }

  lemma CountDone(s: Tables, mapNew: map<int, int>, id: int)
    requires CountLeft(s, s.vvNew.Keys, mapNew, id)
    ensures id in mapNew <==> !Counted(s, id)
  {
    assert SeenOf(s.vvNew, s.vvNew.Keys, id) == Slots(s.vvNew, id);
  }

  lemma NewDone(c: Config, s: Tables, mapNew: map<int, int>)
    requires NewSeen(c, s, s.vvNew.Keys, mapNew)
    ensures mapNew == map[] <==> NewScanPasses(c, s)
  {
    forall t: Slot ensures NewPlace(c, s, t) {}
    if mapNew == map[] {
      forall id: int ensures Counted(s, id) { CountDone(s, mapNew, id); }
    } else {
      assert mapNew.Keys != {};
      var id := Element(mapNew.Keys);
      CountDone(s, mapNew, id);
    }
  }

  // ---------------------------------------------------------------- the loops

  /** The slots that a scan has passed. */
  predicate Before(t: Slot, bucket: nat, pos: nat) { t.bucket < bucket || (t.bucket == bucket && t.pos < pos) }

  ghost function SeenBefore(table: Table, bucket: nat, pos: nat): set<Slot> { set t | t in table && Before(t, bucket, pos) }

  lemma SeenNext(table: Table, bucket: nat, pos: nat)
    ensures Slot(bucket, pos) in table ==>
              SeenBefore(table, bucket, pos + 1) == SeenBefore(table, bucket, pos) + {Slot(bucket, pos)}
    ensures Slot(bucket, pos) !in table ==> SeenBefore(table, bucket, pos + 1) == SeenBefore(table, bucket, pos)
    ensures Slot(bucket, pos) !in SeenBefore(table, bucket, pos)
  {
  }

  lemma SeenRow(a: array2<int>, bucket: nat)
    requires a.Length1 == BUCKET_SIZE
    ensures SeenBefore(TableOf(a), bucket, BUCKET_SIZE) == SeenBefore(TableOf(a), bucket + 1, 0)
  {
  }

  lemma SeenAll(a: array2<int>)
    ensures SeenBefore(TableOf(a), a.Length0, 0) == TableOf(a).Keys
    ensures SeenBefore(TableOf(a), 0, 0) == {}
  {
  }

  /** Entries before the loop reaches them. */
  ghost predicate EntriesPassed(s: Tables, todo: set<int>) { forall id: int :: id in todo || EntryPasses(s, id) }

  /** Ids of the tried and reference counts of the untried entries outside `todo`. */
  ghost predicate Sorted(s: Tables, todo: set<int>, setTried: set<int>, mapNew: map<int, int>) {
    && setTried == TriedIds(s.mapInfo) - todo
    && mapNew.Keys == UntriedIds(s.mapInfo) - todo
    && forall id :: id in mapNew ==> mapNew[id] == s.mapInfo[id].nRefCount
  }

  /** Two address maps that a look-up cannot tell apart. */
  ghost predicate SameIds(a: map<Ip, int>, b: map<Ip, int>) { forall ip :: IdAt(a, ip) == IdAt(b, ip) }

  /** One entry of the state s: its error code, or 0. */
  method CheckEntry(m: Manager, id: int, i: Info, ghost s: Tables) returns (err: int)
    requires id in s.mapInfo && s.mapInfo[id] == i && m.vRandom == s.vRandom && SameIds(m.mapAddr, s.mapAddr)
    modifies m`mapAddr
    ensures err == 0 <==> EntryPasses(s, id)
    ensures SameIds(m.mapAddr, s.mapAddr) && (i.addr.ip in old(m.mapAddr) ==> m.mapAddr == old(m.mapAddr))
  {
    assert IdAt(m.mapAddr, i.addr.ip) == IdAt(s.mapAddr, i.addr.ip);
    if i.fInTried {
      if i.nLastSuccess == 0 { return -1; }
      if i.nRefCount != 0 { return -2; }
    } else {
      if i.nRefCount < 0 || i.nRefCount > NEW_BUCKETS_PER_ADDRESS { return -3; }
      if i.nRefCount == 0 { return -4; }
    }
    if i.addr.ip !in m.mapAddr { m.mapAddr := m.mapAddr[i.addr.ip := 0]; }
    if m.mapAddr[i.addr.ip] != id { return -5; }
    if i.nRandomPos < 0 || i.nRandomPos >= |m.vRandom| || m.vRandom[i.nRandomPos] != id { return -14; }
    if i.nLastTry < 0 { return -6; }
    if i.nLastSuccess < 0 { return -8; }
    err := 0;
  }

  lemma SortNext(s: Tables, todo: set<int>, id: int, setTried: set<int>, mapNew: map<int, int>)
    requires Sorted(s, todo, setTried, mapNew) && id in todo && id in s.mapInfo
    ensures s.mapInfo[id].fInTried ==> Sorted(s, todo - {id}, setTried + {id}, mapNew)
    ensures !s.mapInfo[id].fInTried ==> Sorted(s, todo - {id}, setTried, mapNew[id := s.mapInfo[id].nRefCount])
  {
  }

  lemma PassNext(s: Tables, todo: set<int>, id: int)
    requires EntriesPassed(s, todo) && EntryPasses(s, id)
    ensures EntriesPassed(s, todo - {id})
  {
  }

  method CheckEntries(m: Manager, ghost s: Tables) returns (err: int, setTried: set<int>, mapNew: map<int, int>)
    requires s.mapInfo == m.mapInfo && s.mapAddr == m.mapAddr && s.vRandom == m.vRandom
    modifies m`mapAddr
    ensures err == 0 <==> forall id: int :: EntryPasses(s, id)
    ensures err == 0 ==> Sorted(s, {}, setTried, mapNew)
    ensures AddrOk(s.mapInfo, s.mapAddr) ==> m.mapAddr == s.mapAddr
  {
    setTried, mapNew := {}, map[];
    var todo := m.mapInfo.Keys;
    ghost var found := AddrOk(s.mapInfo, s.mapAddr);
    while todo != {}
      invariant todo <= m.mapInfo.Keys && EntriesPassed(s, todo) && Sorted(s, todo, setTried, mapNew)
      invariant SameIds(m.mapAddr, s.mapAddr)
      invariant found ==> m.mapAddr == s.mapAddr
      decreases |todo|
    {
      var id := AnyOf(todo);
      var i := m.mapInfo[id];
      assert found ==> IsFound(s.mapInfo, s.mapAddr, id);
      err := CheckEntry(m, id, i, s);
      if err != 0 { return; }
      PassNext(s, todo, id);
      SortNext(s, todo, id, setTried, mapNew);
      if i.fInTried { setTried := setTried + {id}; } else { mapNew := mapNew[id := i.nRefCount]; }
      todo := todo - {id};
    }
    err := 0;
  }

  method ScanTried(m: Manager, ghost s: Tables, setTried0: set<int>) returns (err: int, setTried: set<int>)
    requires m.Shaped() && s.mapInfo == m.mapInfo && s.vvTried == TableOf(m.vvTried) && setTried0 == TriedIds(s.mapInfo)
    ensures err == 0 && setTried == {} <==> TriedScanPasses(m.cfg, s)
  {
    setTried := setTried0;
    SeenAll(m.vvTried);
    for n := 0 to TRIED_BUCKET_COUNT
      invariant TriedSeen(m.cfg, s, SeenBefore(s.vvTried, n, 0), setTried)
    {
      for i := 0 to BUCKET_SIZE
        invariant TriedSeen(m.cfg, s, SeenBefore(s.vvTried, n, i), setTried)
      {
        ghost var seen, t := SeenBefore(s.vvTried, n, i), Slot(n, i);
        SeenNext(s.vvTried, n, i);
        TableAt(m.vvTried, t);
        var id := m.vvTried[n, i];
        if id != EMPTY {
          if id !in setTried { TriedFails(m.cfg, s, seen, setTried, t); return -11, setTried; }
          var bucket := TriedBucket(m.cfg, m.mapInfo[id].addr);
          var pos := BucketPosition(m.cfg, m.mapInfo[id].addr, false, n);
          if bucket != n { TriedFails(m.cfg, s, seen, setTried, t); return -17, setTried; }
          if pos != i { TriedFails(m.cfg, s, seen, setTried, t); return -18, setTried; }
          TriedNext(m.cfg, s, seen, setTried, t);
          setTried := setTried - {id};
        }
      }
      SeenRow(m.vvTried, n);
    }
    TriedDone(m.cfg, s, setTried);
    err := 0;
  }

  /** One slot of the new table. */
  method ScanSlot(m: Manager, ghost s: Tables, n: nat, i: nat, mapNew0: map<int, int>) returns (err: int, mapNew: map<int, int>)
    requires m.Shaped() && s.mapInfo == m.mapInfo && s.vvNew == TableOf(m.vvNew) && n < NEW_BUCKET_COUNT && i < BUCKET_SIZE
    requires NewSeen(m.cfg, s, SeenBefore(s.vvNew, n, i), mapNew0)
    ensures err == 0 ==> NewSeen(m.cfg, s, SeenBefore(s.vvNew, n, i + 1), mapNew)
    ensures err != 0 ==> !NewScanPasses(m.cfg, s)
  {
    mapNew := mapNew0;
    ghost var seen, t := SeenBefore(s.vvNew, n, i), Slot(n, i);
    SeenNext(s.vvNew, n, i);
    TableAt(m.vvNew, t);
    var id := m.vvNew[n, i];
    if id != EMPTY {
      if id !in mapNew { NewFails(m.cfg, s, seen, mapNew, t); return -12, mapNew; }
      assert CountLeft(s, seen, mapNew, id);
      if BucketPosition(m.cfg, m.mapInfo[id].addr, true, n) != i { NewFails(m.cfg, s, seen, mapNew, t); return -19, mapNew; }
      NewNext(m.cfg, s, seen, mapNew, t);
      mapNew := CountDown(mapNew, id);
    }
    err := 0;
  }

  method ScanNew(m: Manager, ghost s: Tables, mapNew0: map<int, int>) returns (err: int, mapNew: map<int, int>)
    requires m.Shaped() && s.mapInfo == m.mapInfo && s.vvNew == TableOf(m.vvNew) && NewSeen(m.cfg, s, {}, mapNew0)
    ensures err == 0 && mapNew == map[] <==> NewScanPasses(m.cfg, s)
  {
    mapNew := mapNew0;
    SeenAll(m.vvNew);
    for n := 0 to NEW_BUCKET_COUNT
      invariant NewSeen(m.cfg, s, SeenBefore(s.vvNew, n, 0), mapNew)
    {
      for i := 0 to BUCKET_SIZE
        invariant NewSeen(m.cfg, s, SeenBefore(s.vvNew, n, i), mapNew)
      {
        err, mapNew := ScanSlot(m, s, n, i, mapNew);
        if err != 0 { return; }
      }
      SeenRow(m.vvNew, n);
    }
    NewDone(m.cfg, s, mapNew);
    err := 0;
  }

  /** All tests on the state s. */
  method CheckAll(m: Manager, keyIsNull: bool, ghost s: Tables) returns (err: int)
    requires m.Shaped() && m.State() == s
    modifies m`mapAddr
    ensures err == 0 <==> CheckPasses(m.cfg, s) && !keyIsNull
    ensures AddrOk(s.mapInfo, s.mapAddr) ==> m.mapAddr == s.mapAddr
  {
    if |m.vRandom| != m.nTried + m.nNew { return -7; }
    var setTried, mapNew;
    err, setTried, mapNew := CheckEntries(m, s);
    if err != 0 { return; }
    if |setTried| != m.nTried { return -9; }
    SortedNew(m.cfg, s, setTried, mapNew);
    if |mapNew| != m.nNew { return -10; }
    err, setTried := ScanTried(m, s, setTried);
    if err != 0 { return; }
    err, mapNew := ScanNew(m, s, mapNew);
    if err != 0 { return; }
    if setTried != {} { return -13; }
    if mapNew != map[] { return -15; }
    if keyIsNull { return -16; }
    err := 0;
  }

  /** Check_ returns 0 if and only if all tests pass and there is a key; on a consistent
      manager it changes nothing. */
  method Check_(m: Manager, keyIsNull: bool) returns (err: int)
    requires m.Shaped()
    modifies m`mapAddr
    ensures err == 0 <==> CheckPasses(m.cfg, old(m.State())) && !keyIsNull
    ensures old(m.Valid()) ==> (err == 0 <==> !keyIsNull) && m.State() == old(m.State())
  {
    ghost var s := m.State();
    if m.Valid() {
      assert AddrOk(s.mapInfo, s.mapAddr);
      ConsistentPasses(m.cfg, s);
    }
    err := CheckAll(m, keyIsNull, s);
  }

  lemma SortedNew(c: Config, s: Tables, setTried: set<int>, mapNew: map<int, int>)
    requires Sorted(s, {}, setTried, mapNew) && forall id: int :: EntryPasses(s, id)
    ensures setTried == TriedIds(s.mapInfo) && |mapNew| == |UntriedIds(s.mapInfo)| && NewSeen(c, s, {}, mapNew)
  {
    assert mapNew.Keys == UntriedIds(s.mapInfo);
    assert |mapNew| == |mapNew.Keys|;
    forall id: int ensures CountLeft(s, {}, mapNew, id) {
      assert EntryPasses(s, id);
      assert SeenOf(s.vvNew, {}, id) == {};
    }
  }
}
