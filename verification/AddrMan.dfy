/**
 The stochastic address manager: addresses indexed six ways at once.

 `Tables` is the whole state as a value, and the functions below say what each
 private operation does to it.  An empty slot of a bucket table is a slot missing
 from the map.  `AddrManager.dfy` holds the object with its fixed-size tables.
 */
module AddrMan {

  const TRIED_BUCKET_COUNT := 256
  const NEW_BUCKET_COUNT := 1024
  const BUCKET_SIZE := 64
  const TRIED_BUCKETS_PER_GROUP := 8
  const NEW_BUCKETS_PER_SOURCE_GROUP := 64
  const NEW_BUCKETS_PER_ADDRESS := 8
  const HORIZON_DAYS := 30
  const RETRIES := 3
  const MAX_FAILURES := 10
  const MIN_FAIL_DAYS := 7
  const REPLACEMENT_HOURS := 4
  const GETADDR_MAX_PCT := 23
  const GETADDR_MAX := 2500
  const SET_TRIED_COLLISION_SIZE := 10
  const TEST_WINDOW := 40 * 60

  type Ip = nat
  type Services = bv64

  /** A network address with its port. */
  datatype Service = Service(ip: Ip, port: nat)

  /** What a peer announces. */
  datatype Address = Address(service: Service, nTime: int, nServices: Services)

  datatype Info = Info(
    addr: Service, nTime: int, nServices: Services, source: Ip,
    nLastTry: int, nLastCountAttempt: int, nLastSuccess: int, nAttempts: int,
    nRefCount: int, fInTried: bool, nRandomPos: int)

  function NewInfo(addr: Address, source: Ip): Info {
    Info(addr.service, addr.nTime, addr.nServices, source, 0, 0, 0, 0, 0, false, -1)
  }

  // ---------------------------------------------------------------- buckets

  datatype Item = ServiceKey(s: Service) | Group(g: nat) | Number(n: nat) | Letter(c: char)

  /** What is outside this model: the keyed hash, the grouping of addresses by
      range or autonomous system, and which addresses count as routable or valid. */
  datatype Config = Config(cheapHash: seq<Item> -> nat, group: Ip -> nat, routable: Service -> bool, valid: Service -> bool)

  datatype Slot = Slot(bucket: nat, pos: nat)

  function TriedBucket(c: Config, a: Service): (b: nat)
    ensures b < TRIED_BUCKET_COUNT
  {
    var hash1 := c.cheapHash([ServiceKey(a)]);
    c.cheapHash([Group(c.group(a.ip)), Number(hash1 % TRIED_BUCKETS_PER_GROUP)]) % TRIED_BUCKET_COUNT
  }

  function NewBucket(c: Config, a: Service, source: Ip): (b: nat)
    ensures b < NEW_BUCKET_COUNT
  {
    var hash1 := c.cheapHash([Group(c.group(a.ip)), Group(c.group(source))]);
    c.cheapHash([Group(c.group(source)), Number(hash1 % NEW_BUCKETS_PER_SOURCE_GROUP)]) % NEW_BUCKET_COUNT
  }

  function BucketPosition(c: Config, a: Service, fNew: bool, bucket: nat): (p: nat)
    ensures p < BUCKET_SIZE
  {
    c.cheapHash([Letter(if fNew then 'N' else 'K'), Number(bucket), ServiceKey(a)]) % BUCKET_SIZE
  }

  function TriedSlot(c: Config, a: Service): (s: Slot)
    ensures s.bucket < TRIED_BUCKET_COUNT && s.pos < BUCKET_SIZE
  {
    Slot(TriedBucket(c, a), BucketPosition(c, a, false, TriedBucket(c, a)))
  }

  function NewSlot(c: Config, a: Service, bucket: nat): (s: Slot)
    ensures s.bucket == bucket && s.pos < BUCKET_SIZE
  {
    Slot(bucket, BucketPosition(c, a, true, bucket))
  }

  predicate IsTerrible(i: Info, nNow: int) {
    if i.nLastTry != 0 && i.nLastTry >= nNow - 60 then false
    else if i.nTime > nNow + 10 * 60 then true
    else if i.nTime == 0 || nNow - i.nTime > HORIZON_DAYS * 24 * 60 * 60 then true
    else if i.nLastSuccess == 0 && i.nAttempts >= RETRIES then true
    else nNow - i.nLastSuccess > MIN_FAIL_DAYS * 24 * 60 * 60 && i.nAttempts >= MAX_FAILURES
  }

  // ---------------------------------------------------------------- state

  datatype Tables = Tables(
    nIdCount: int, mapInfo: map<int, Info>, mapAddr: map<Ip, int>, vRandom: seq<int>,
    nTried: int, vvTried: map<Slot, int>, nNew: int, vvNew: map<Slot, int>,
    nLastGood: int, collisions: set<int>)

  const CLEARED := Tables(0, map[], map[], [], 0, map[], 0, map[], 1, {})

  function With(s: Tables, id: int, i: Info): Tables {
    s.(mapInfo := s.mapInfo[id := i])
  }

  type InfoMap = map<int, Info>
  type Table = map<Slot, int>

  function TriedIds(info: InfoMap): set<int> { set id | id in info && info[id].fInTried }
  function UntriedIds(info: InfoMap): set<int> { set id | id in info && !info[id].fInTried }

  /** The slots of the new table that hold an id. */
  function Slots(vvNew: Table, id: int): set<Slot> { set t | t in vvNew && vvNew[t] == id }

  // ---------------------------------------------------------------- the invariant

  /** vRandom and nRandomPos are inverse to each other. */
  predicate HasPlace(info: InfoMap, order: seq<int>, id: int) {
    id in info ==> 0 <= info[id].nRandomPos < |order| && order[info[id].nRandomPos] == id
  }

  predicate PlaceHolds(info: InfoMap, order: seq<int>, k: int) {
    0 <= k < |order| ==> order[k] in info && info[order[k]].nRandomPos == k
  }

  ghost predicate RandomOk(info: InfoMap, order: seq<int>) {
    (forall id: int :: HasPlace(info, order, id)) && (forall k: int :: PlaceHolds(info, order, k))
  }

  /** mapAddr finds each entry by its network address and nothing else. */
  predicate IsFound(info: InfoMap, addrs: map<Ip, int>, id: int) {
    id in info ==> info[id].addr.ip in addrs && addrs[info[id].addr.ip] == id
  }

  predicate FindsEntry(info: InfoMap, addrs: map<Ip, int>, ip: Ip) {
    ip in addrs ==> addrs[ip] in info && info[addrs[ip]].addr.ip == ip
  }

  ghost predicate AddrOk(info: InfoMap, addrs: map<Ip, int>) {
    (forall id: int :: IsFound(info, addrs, id)) && (forall ip: Ip :: FindsEntry(info, addrs, ip))
  }

  /** The tried table holds each tried entry once, in its own slot, and nothing else. */
  predicate InTriedSlot(c: Config, info: InfoMap, tried: Table, id: int) {
    id in info && info[id].fInTried ==>
      TriedSlot(c, info[id].addr) in tried && tried[TriedSlot(c, info[id].addr)] == id && info[id].nRefCount == 0
  }

  predicate TriedSlotOk(c: Config, info: InfoMap, tried: Table, t: Slot) {
    t in tried ==> tried[t] in info && info[tried[t]].fInTried && t == TriedSlot(c, info[tried[t]].addr)
  }

  ghost predicate TriedOk(c: Config, info: InfoMap, tried: Table) {
    (forall t: Slot :: TriedSlotOk(c, info, tried, t)) && (forall id: int :: InTriedSlot(c, info, tried, id))
  }

  /** The new table holds untried entries only, each at its position in a bucket,
      as often as its reference count says.  Ids in `x` may have no reference. */
  predicate NewSlotOk(c: Config, info: InfoMap, vvNew: Table, t: Slot) {
    t in vvNew ==>
      && vvNew[t] in info && !info[vvNew[t]].fInTried
      && t.bucket < NEW_BUCKET_COUNT && t == NewSlot(c, info[vvNew[t]].addr, t.bucket)
  }

  predicate RefCountOk(info: InfoMap, vvNew: Table, x: set<int>, id: int) {
    id in info ==>
      && info[id].nRefCount == |Slots(vvNew, id)| <= NEW_BUCKETS_PER_ADDRESS
      && (info[id].fInTried || id in x || info[id].nRefCount >= 1)
  }

  ghost predicate NewOk(c: Config, info: InfoMap, vvNew: Table, x: set<int>) {
    (forall t: Slot :: NewSlotOk(c, info, vvNew, t)) && (forall id: int :: RefCountOk(info, vvNew, x, id))
  }

  predicate TimeOk(i: Info) {
    i.nLastTry >= 0 && i.nLastSuccess >= 0 && (i.fInTried ==> i.nLastSuccess != 0)
  }

  predicate IdOk(nIdCount: int, info: InfoMap, id: int) {
    id in info ==> 0 <= id < nIdCount && TimeOk(info[id])
  }

  ghost predicate IdsOk(nIdCount: int, info: InfoMap, collisions: set<int>) {
    && nIdCount >= 0
    && (forall id: int :: IdOk(nIdCount, info, id))
    && (forall id :: id in collisions ==> 0 <= id < nIdCount)
  }

  /** Everything but pending collisions; in the middle of an operation the new
      counter may be `d` behind and the ids in `x` may be without reference. */
  ghost predicate Sound(c: Config, s: Tables, x: set<int>, d: int) {
    && RandomOk(s.mapInfo, s.vRandom) && AddrOk(s.mapInfo, s.mapAddr)
    && TriedOk(c, s.mapInfo, s.vvTried) && NewOk(c, s.mapInfo, s.vvNew, x)
    && IdsOk(s.nIdCount, s.mapInfo, s.collisions)
    && s.nTried == |TriedIds(s.mapInfo)| && s.nNew + d == |UntriedIds(s.mapInfo)|
  }

  /** Every pending collision that still exists has an occupied tried slot. */
  predicate CollisionOk(c: Config, s: Tables, id: int) {
    id in s.collisions && id in s.mapInfo ==> TriedSlot(c, s.mapInfo[id].addr) in s.vvTried
  }

  ghost predicate CollisionsOk(c: Config, s: Tables) {
    forall id: int :: CollisionOk(c, s, id)
  }

  ghost predicate Consistent(c: Config, s: Tables) {
    Sound(c, s, {}, 0) && CollisionsOk(c, s)
  }

  /** What no operation undoes: a filled tried slot stays filled, an id is never
      given to another address, ids only grow. */
  predicate KeepsAddr(s: Tables, r: Tables, id: int) {
    id in r.mapInfo && id < s.nIdCount ==> id in s.mapInfo && r.mapInfo[id].addr == s.mapInfo[id].addr
  }

  ghost predicate KeepsAddrs(s: Tables, r: Tables) {
    s.nIdCount <= r.nIdCount && forall id: int :: KeepsAddr(s, r, id)
  }

  ghost predicate Evolves(s: Tables, r: Tables) {
    KeepsAddrs(s, r) && s.vvTried.Keys <= r.vvTried.Keys
  }

  lemma KeepsAddrsTrans(s: Tables, m: Tables, r: Tables)
    requires KeepsAddrs(s, m) && KeepsAddrs(m, r)
    ensures KeepsAddrs(s, r)
  {
    forall id: int ensures KeepsAddr(s, r, id) {
      assert KeepsAddr(m, r, id) && KeepsAddr(s, m, id);
    }
  }

  lemma ClearedConsistent(c: Config)
    ensures Consistent(c, CLEARED)
  {
    assert TriedIds(map[]) == {} && UntriedIds(map[]) == {};
  }

  lemma EvolvesTrans(s: Tables, m: Tables, r: Tables)
    requires Evolves(s, m) && Evolves(m, r)
    ensures Evolves(s, r)
  {
    KeepsAddrsTrans(s, m, r);
  }

  lemma EvolvesCollisions(c: Config, s: Tables, r: Tables)
    requires Evolves(s, r) && CollisionsOk(c, s) && IdsOk(s.nIdCount, s.mapInfo, s.collisions)
    requires r.collisions <= s.collisions
    ensures CollisionsOk(c, r)
  {
    forall id: int ensures CollisionOk(c, r, id) {
      assert CollisionOk(c, s, id) && KeepsAddr(s, r, id);
    }
  }

  // ---------------------------------------------------------------- updates that touch no index

  /** The part of an entry that the indexes depend on. */
  predicate SameKey(info: InfoMap, info': InfoMap, id: int) {
    id in info && id in info' ==>
      && info[id].addr == info'[id].addr && info[id].fInTried == info'[id].fInTried
      && info[id].nRefCount == info'[id].nRefCount
  }

  ghost predicate SameKeys(info: InfoMap, info': InfoMap) {
    info'.Keys == info.Keys && forall id: int :: SameKey(info, info', id)
  }

  lemma SameKeysAddr(info: InfoMap, info': InfoMap, addrs: map<Ip, int>)
    requires SameKeys(info, info') && AddrOk(info, addrs)
    ensures AddrOk(info', addrs)
  {
    forall id: int ensures IsFound(info', addrs, id) {
      assert SameKey(info, info', id) && IsFound(info, addrs, id);
    }
    forall ip: Ip ensures FindsEntry(info', addrs, ip) {
      assert FindsEntry(info, addrs, ip);
      if ip in addrs { assert SameKey(info, info', addrs[ip]); }
    }
  }

  lemma SameKeysTried(c: Config, info: InfoMap, info': InfoMap, tried: Table)
    requires SameKeys(info, info') && TriedOk(c, info, tried)
    ensures TriedOk(c, info', tried)
  {
    forall t: Slot ensures TriedSlotOk(c, info', tried, t) {
      assert TriedSlotOk(c, info, tried, t);
      if t in tried { assert SameKey(info, info', tried[t]); }
    }
    forall id: int ensures InTriedSlot(c, info', tried, id) {
      assert SameKey(info, info', id) && InTriedSlot(c, info, tried, id);
    }
  }

  lemma SameKeysNew(c: Config, info: InfoMap, info': InfoMap, vvNew: Table, x: set<int>)
    requires SameKeys(info, info') && NewOk(c, info, vvNew, x)
    ensures NewOk(c, info', vvNew, x)
  {
    forall t: Slot ensures NewSlotOk(c, info', vvNew, t) {
      assert NewSlotOk(c, info, vvNew, t);
      if t in vvNew { assert SameKey(info, info', vvNew[t]); }
    }
    forall id: int ensures RefCountOk(info', vvNew, x, id) {
      assert SameKey(info, info', id) && RefCountOk(info, vvNew, x, id);
    }
  }

  lemma SameKeysCounts(info: InfoMap, info': InfoMap)
    requires SameKeys(info, info')
    ensures TriedIds(info') == TriedIds(info) && UntriedIds(info') == UntriedIds(info)
  {
    forall id ensures id in TriedIds(info') <==> id in TriedIds(info) { assert SameKey(info, info', id); }
    forall id ensures id in UntriedIds(info') <==> id in UntriedIds(info) { assert SameKey(info, info', id); }
  }

  /** Statistics and random order may change without touching any other index. */
  lemma SameKeysSound(c: Config, s: Tables, r: Tables, x: set<int>, d: int)
    requires Sound(c, s, x, d)
    requires r == s.(mapInfo := r.mapInfo, vRandom := r.vRandom, nLastGood := r.nLastGood)
    requires SameKeys(s.mapInfo, r.mapInfo) && RandomOk(r.mapInfo, r.vRandom)
    requires forall id: int :: IdOk(r.nIdCount, r.mapInfo, id)
    ensures Sound(c, r, x, d) && Evolves(s, r)
  {
    SameKeysAddr(s.mapInfo, r.mapInfo, s.mapAddr);
    SameKeysTried(c, s.mapInfo, r.mapInfo, s.vvTried);
    SameKeysNew(c, s.mapInfo, r.mapInfo, s.vvNew, x);
    SameKeysCounts(s.mapInfo, r.mapInfo);
    forall id: int ensures KeepsAddr(s, r, id) { assert SameKey(s.mapInfo, r.mapInfo, id); }
  }

  // ---------------------------------------------------------------- Find and Create

  /** Find: the id of the entry with this network address, or -1. */
  function Find(s: Tables, ip: Ip): (id: int)
    ensures id != -1 ==> id in s.mapInfo && ip in s.mapAddr && s.mapAddr[ip] == id
  {
    if ip in s.mapAddr && s.mapAddr[ip] in s.mapInfo then s.mapAddr[ip] else -1
  }

  /** Find succeeds exactly on the network addresses of entries. */
  lemma FindExact(s: Tables, ip: Ip)
    requires AddrOk(s.mapInfo, s.mapAddr) && IdsOk(s.nIdCount, s.mapInfo, s.collisions)
    ensures Find(s, ip) == -1 <==> ip !in s.mapAddr
    ensures Find(s, ip) != -1 ==> s.mapInfo[Find(s, ip)].addr.ip == ip
    ensures forall id :: id in s.mapInfo && s.mapInfo[id].addr.ip == ip ==> Find(s, ip) == id
  {
    assert FindsEntry(s.mapInfo, s.mapAddr, ip);
    if ip in s.mapAddr { assert IdOk(s.nIdCount, s.mapInfo, s.mapAddr[ip]); }
    forall id | id in s.mapInfo && s.mapInfo[id].addr.ip == ip ensures Find(s, ip) == id {
      assert IsFound(s.mapInfo, s.mapAddr, id);
    }
  }

  function Create(s: Tables, addr: Address, source: Ip): Tables {
    var id := s.nIdCount;
    s.(nIdCount := id + 1,
       mapInfo := s.mapInfo[id := NewInfo(addr, source).(nRandomPos := |s.vRandom|)],
       mapAddr := s.mapAddr[addr.service.ip := id],
       vRandom := s.vRandom + [id])
  }

  lemma AppendOrder(info: InfoMap, order: seq<int>, id: int, i: Info)
    requires RandomOk(info, order) && id !in info && i.nRandomPos == |order|
    ensures RandomOk(info[id := i], order + [id])
  {
    var info', order' := info[id := i], order + [id];
    forall k: int ensures HasPlace(info', order', k) { assert HasPlace(info, order, k); }
    forall k: int ensures PlaceHolds(info', order', k) { assert PlaceHolds(info, order, k); }
  }

  lemma AppendAddr(info: InfoMap, addrs: map<Ip, int>, id: int, i: Info)
    requires AddrOk(info, addrs) && id !in info && i.addr.ip !in addrs
    ensures AddrOk(info[id := i], addrs[i.addr.ip := id])
  {
    var info', addrs' := info[id := i], addrs[i.addr.ip := id];
    forall k: int ensures IsFound(info', addrs', k) { assert IsFound(info, addrs, k); }
    forall p: Ip ensures FindsEntry(info', addrs', p) { assert FindsEntry(info, addrs, p); }
  }

  lemma AppendCounts(info: InfoMap, id: int, i: Info)
    requires id !in info && !i.fInTried
    ensures TriedIds(info[id := i]) == TriedIds(info)
    ensures |UntriedIds(info[id := i])| == |UntriedIds(info)| + 1
  {
    assert UntriedIds(info[id := i]) == UntriedIds(info) + {id};
  }

  /** An id without entry holds no slot. */
  lemma NoSlots(c: Config, info: InfoMap, vvNew: Table, x: set<int>, id: int)
    requires NewOk(c, info, vvNew, x) && id !in info
    ensures Slots(vvNew, id) == {}
  {
    forall t | t in vvNew ensures vvNew[t] != id { assert NewSlotOk(c, info, vvNew, t); }
  }

  lemma AppendTables(c: Config, info: InfoMap, tried: Table, vvNew: Table, id: int, i: Info)
    requires TriedOk(c, info, tried) && NewOk(c, info, vvNew, {})
    requires id !in info && !i.fInTried && i.nRefCount == 0
    ensures TriedOk(c, info[id := i], tried) && NewOk(c, info[id := i], vvNew, {id})
  {
    var info' := info[id := i];
    forall t: Slot ensures TriedSlotOk(c, info', tried, t) { assert TriedSlotOk(c, info, tried, t); }
    forall k: int ensures InTriedSlot(c, info', tried, k) { assert InTriedSlot(c, info, tried, k); }
    forall t: Slot ensures NewSlotOk(c, info', vvNew, t) { assert NewSlotOk(c, info, vvNew, t); }
    NoSlots(c, info, vvNew, {}, id);
    forall k: int ensures RefCountOk(info', vvNew, {id}, k) { assert RefCountOk(info, vvNew, {}, k); }
  }

  lemma CreateSound(c: Config, s: Tables, addr: Address, source: Ip)
    requires Sound(c, s, {}, 0) && addr.service.ip !in s.mapAddr
    ensures Sound(c, Create(s, addr, source), {s.nIdCount}, 1)
    ensures Evolves(s, Create(s, addr, source))
  {
    var r := Create(s, addr, source);
    var id := s.nIdCount;
    var i := r.mapInfo[id];
    assert IdOk(s.nIdCount, s.mapInfo, id);
    AppendOrder(s.mapInfo, s.vRandom, id, i);
    AppendAddr(s.mapInfo, s.mapAddr, id, i);
    AppendCounts(s.mapInfo, id, i);
    AppendTables(c, s.mapInfo, s.vvTried, s.vvNew, id, i);
    forall k: int ensures IdOk(r.nIdCount, r.mapInfo, k) { assert IdOk(s.nIdCount, s.mapInfo, k); }
  }

  // ---------------------------------------------------------------- SwapRandom and Delete

  function SwapRandom(s: Tables, p1: int, p2: int): Tables
    requires 0 <= p1 < |s.vRandom| && 0 <= p2 < |s.vRandom|
    requires s.vRandom[p1] in s.mapInfo && s.vRandom[p2] in s.mapInfo
  {
    if p1 == p2 then s
    else
      var id1, id2 := s.vRandom[p1], s.vRandom[p2];
      var m := s.mapInfo[id1 := s.mapInfo[id1].(nRandomPos := p2)];
      s.(mapInfo := m[id2 := m[id2].(nRandomPos := p1)],
         vRandom := s.vRandom[p1 := id2][p2 := id1])
  }

  /** Entries that differ in their place in the random order only. */
  predicate SameButPlace(info: InfoMap, info': InfoMap, id: int) {
    id in info && id in info' ==> info'[id] == info[id].(nRandomPos := info'[id].nRandomPos)
  }

  ghost predicate SameButOrder(info: InfoMap, info': InfoMap) {
    info'.Keys == info.Keys && forall id: int :: SameButPlace(info, info', id)
  }

  lemma SwapKeepsOrder(s: Tables, p1: int, p2: int)
    requires RandomOk(s.mapInfo, s.vRandom) && 0 <= p1 < |s.vRandom| && 0 <= p2 < |s.vRandom|
    requires s.vRandom[p1] in s.mapInfo && s.vRandom[p2] in s.mapInfo
    ensures RandomOk(SwapRandom(s, p1, p2).mapInfo, SwapRandom(s, p1, p2).vRandom)
    ensures SameButOrder(s.mapInfo, SwapRandom(s, p1, p2).mapInfo)
    ensures SwapRandom(s, p1, p2).vRandom == s.vRandom[p1 := s.vRandom[p2]][p2 := s.vRandom[p1]]
  {
    var r := SwapRandom(s, p1, p2);
    assert PlaceHolds(s.mapInfo, s.vRandom, p1) && PlaceHolds(s.mapInfo, s.vRandom, p2);
    forall id: int
      ensures HasPlace(r.mapInfo, r.vRandom, id)
      ensures SameButPlace(s.mapInfo, r.mapInfo, id)
    {
      assert HasPlace(s.mapInfo, s.vRandom, id);
    }
    forall k: int ensures PlaceHolds(r.mapInfo, r.vRandom, k) {
      assert PlaceHolds(s.mapInfo, s.vRandom, k);
    }
  }

  lemma OrderKeepsKeys(n: int, info: InfoMap, info': InfoMap)
    requires SameButOrder(info, info')
    requires forall id: int :: IdOk(n, info, id)
    ensures SameKeys(info, info')
    ensures forall id: int :: IdOk(n, info', id)
  {
    forall id: int ensures SameKey(info, info', id) && IdOk(n, info', id) {
      assert SameButPlace(info, info', id) && IdOk(n, info, id);
    }
  }

  lemma SwapSound(c: Config, s: Tables, p1: int, p2: int, x: set<int>, d: int)
    requires Sound(c, s, x, d) && 0 <= p1 < |s.vRandom| && 0 <= p2 < |s.vRandom|
    ensures s.vRandom[p1] in s.mapInfo && s.vRandom[p2] in s.mapInfo
    ensures Sound(c, SwapRandom(s, p1, p2), x, d) && Evolves(s, SwapRandom(s, p1, p2))
    ensures SameButOrder(s.mapInfo, SwapRandom(s, p1, p2).mapInfo)
    ensures SwapRandom(s, p1, p2).vRandom == s.vRandom[p1 := s.vRandom[p2]][p2 := s.vRandom[p1]]
  {
    assert PlaceHolds(s.mapInfo, s.vRandom, p1) && PlaceHolds(s.mapInfo, s.vRandom, p2);
    SwapKeepsOrder(s, p1, p2);
    OrderKeepsKeys(s.nIdCount, s.mapInfo, SwapRandom(s, p1, p2).mapInfo);
    SameKeysSound(c, s, SwapRandom(s, p1, p2), x, d);
  }

  function Delete(s: Tables, id: int): Tables
    requires RandomOk(s.mapInfo, s.vRandom) && id in s.mapInfo
  {
    assert HasPlace(s.mapInfo, s.vRandom, id);
    assert PlaceHolds(s.mapInfo, s.vRandom, |s.vRandom| - 1);
    DropEntry(SwapRandom(s, s.mapInfo[id].nRandomPos, |s.vRandom| - 1), id)
  }

  /** Remove the entry that is last in the random order. */
  function DropEntry(m: Tables, id: int): Tables
    requires id in m.mapInfo && |m.vRandom| > 0
  {
    m.(vRandom := m.vRandom[..|m.vRandom| - 1],
       mapAddr := m.mapAddr - {m.mapInfo[id].addr.ip},
       mapInfo := m.mapInfo - {id},
       nNew := m.nNew - 1)
  }

  lemma DropLast(info: InfoMap, order: seq<int>, id: int)
    requires RandomOk(info, order) && id in info && info[id].nRandomPos == |order| - 1
    requires |order| > 0
    ensures RandomOk(info - {id}, order[..|order| - 1])
  {
    var info', order' := info - {id}, order[..|order| - 1];
    assert HasPlace(info, order, id);
    forall k: int ensures HasPlace(info', order', k) { assert HasPlace(info, order, k); }
    forall k: int ensures PlaceHolds(info', order', k) { assert PlaceHolds(info, order, k); }
  }

  lemma DropTables(c: Config, info: InfoMap, tried: Table, vvNew: Table, id: int, x: set<int>)
    requires TriedOk(c, info, tried) && NewOk(c, info, vvNew, x) && id in info
    requires !info[id].fInTried && info[id].nRefCount == 0
    ensures TriedOk(c, info - {id}, tried) && NewOk(c, info - {id}, vvNew, x)
  {
    var rest := info - {id};
    assert RefCountOk(info, vvNew, x, id);
    forall t | t in vvNew ensures vvNew[t] != id { assert t !in Slots(vvNew, id); }
    forall t: Slot ensures TriedSlotOk(c, rest, tried, t) { assert TriedSlotOk(c, info, tried, t); }
    forall k: int ensures InTriedSlot(c, rest, tried, k) { assert InTriedSlot(c, info, tried, k); }
    forall t: Slot ensures NewSlotOk(c, rest, vvNew, t) { assert NewSlotOk(c, info, vvNew, t); }
    forall k: int ensures RefCountOk(rest, vvNew, x, k) { assert RefCountOk(info, vvNew, x, k); }
  }

  lemma DropAddr(info: InfoMap, addrs: map<Ip, int>, id: int)
    requires AddrOk(info, addrs) && id in info
    ensures AddrOk(info - {id}, addrs - {info[id].addr.ip})
  {
    var info', addrs' := info - {id}, addrs - {info[id].addr.ip};
    forall k: int ensures IsFound(info', addrs', k) { assert IsFound(info, addrs, k) && IsFound(info, addrs, id); }
    forall p: Ip ensures FindsEntry(info', addrs', p) { assert FindsEntry(info, addrs, p); }
  }

  lemma DropCounts(info: InfoMap, id: int)
    requires id in info && !info[id].fInTried
    ensures TriedIds(info - {id}) == TriedIds(info)
    ensures |UntriedIds(info - {id})| == |UntriedIds(info)| - 1
  {
    assert UntriedIds(info - {id}) == UntriedIds(info) - {id};
  }

  lemma DropSound(c: Config, m: Tables, id: int, x: set<int>, d: int)
    requires Sound(c, m, x, d) && id in m.mapInfo && m.mapInfo[id].nRandomPos == |m.vRandom| - 1
    requires !m.mapInfo[id].fInTried && m.mapInfo[id].nRefCount == 0
    requires |m.vRandom| > 0
    ensures Sound(c, DropEntry(m, id), x, d) && Evolves(m, DropEntry(m, id))
  {
    DropLast(m.mapInfo, m.vRandom, id);
    DropTables(c, m.mapInfo, m.vvTried, m.vvNew, id, x);
    DropAddr(m.mapInfo, m.mapAddr, id);
    DropCounts(m.mapInfo, id);
    forall k: int ensures IdOk(m.nIdCount, m.mapInfo - {id}, k) { assert IdOk(m.nIdCount, m.mapInfo, k); }
  }

  lemma DropOrder(info: InfoMap, info': InfoMap, id: int)
    requires SameButOrder(info, info')
    ensures SameButOrder(info - {id}, info' - {id})
  {
    forall k: int ensures SameButPlace(info - {id}, info' - {id}, k) { assert SameButPlace(info, info', k); }
  }

  lemma SwapFrame(s: Tables, p1: int, p2: int)
    requires 0 <= p1 < |s.vRandom| && 0 <= p2 < |s.vRandom|
    requires s.vRandom[p1] in s.mapInfo && s.vRandom[p2] in s.mapInfo
    ensures var r := SwapRandom(s, p1, p2);
            && r.nIdCount == s.nIdCount && r.mapAddr == s.mapAddr && r.nTried == s.nTried && r.vvTried == s.vvTried
            && r.nNew == s.nNew && r.vvNew == s.vvNew && r.nLastGood == s.nLastGood && r.collisions == s.collisions
  {}

  lemma LastPlace(info: InfoMap, order: seq<int>, id: int)
    requires RandomOk(info, order) && |order| > 0 && order[|order| - 1] == id
    ensures id in info && info[id].nRandomPos == |order| - 1
  {
    assert PlaceHolds(info, order, |order| - 1);
  }

  /** Everything but the entries, the random order and the address map, and one entry less. */
  predicate OneLess(s: Tables, r: Tables) {
    && r.vvNew == s.vvNew && r.vvTried == s.vvTried && r.collisions == s.collisions
    && r.nIdCount == s.nIdCount && r.nTried == s.nTried && r.nNew == s.nNew - 1 && r.nLastGood == s.nLastGood
  }

  /** The first half of Delete moves the entry to the end of the random order. */
  lemma SwapLast(c: Config, s: Tables, id: int, x: set<int>, d: int) returns (m: Tables)
    requires Sound(c, s, x, d) && id in s.mapInfo
    ensures Sound(c, m, x, d) && Evolves(s, m) && SameButOrder(s.mapInfo, m.mapInfo)
    ensures id in m.mapInfo && |m.vRandom| > 0 && m.mapInfo[id].nRandomPos == |m.vRandom| - 1
    ensures OneLess(s, DropEntry(m, id))
    ensures var p, last := s.mapInfo[id].nRandomPos, |s.vRandom| - 1;
            0 <= p <= last && s.vRandom[p] in s.mapInfo && s.vRandom[last] in s.mapInfo && m == SwapRandom(s, p, last)
  {
    assert HasPlace(s.mapInfo, s.vRandom, id);
    var p, last := s.mapInfo[id].nRandomPos, |s.vRandom| - 1;
    assert s.vRandom[p] in s.mapInfo && s.vRandom[last] in s.mapInfo by { SwapSound(c, s, p, last, x, d); }
    m := SwapRandom(s, p, last);
    assert Sound(c, m, x, d) && Evolves(s, m) && SameButOrder(s.mapInfo, m.mapInfo) by { SwapSound(c, s, p, last, x, d); }
    assert m.vRandom == s.vRandom[p := s.vRandom[last]][last := id] by { SwapSound(c, s, p, last, x, d); }
    LastPlace(m.mapInfo, m.vRandom, id);
    SwapFrame(s, p, last);
  }

  lemma DeleteIs(s: Tables, id: int, m: Tables)
    requires RandomOk(s.mapInfo, s.vRandom) && id in s.mapInfo && id in m.mapInfo && |m.vRandom| > 0
    requires var p, last := s.mapInfo[id].nRandomPos, |s.vRandom| - 1;
             0 <= p <= last && s.vRandom[p] in s.mapInfo && s.vRandom[last] in s.mapInfo && m == SwapRandom(s, p, last)
    ensures Delete(s, id) == DropEntry(m, id)
  {
  }

  lemma DropAfter(c: Config, s: Tables, m: Tables, id: int, x: set<int>, d: int)
    requires Sound(c, m, x, d) && Evolves(s, m) && SameButOrder(s.mapInfo, m.mapInfo)
    requires id in m.mapInfo && |m.vRandom| > 0 && m.mapInfo[id].nRandomPos == |m.vRandom| - 1
    requires !s.mapInfo[id].fInTried && s.mapInfo[id].nRefCount == 0
    ensures Sound(c, DropEntry(m, id), x, d) && Evolves(s, DropEntry(m, id))
    ensures SameButOrder(s.mapInfo - {id}, DropEntry(m, id).mapInfo)
  {
    assert SameButPlace(s.mapInfo, m.mapInfo, id);
    DropSound(c, m, id, x, d);
    DropOrder(s.mapInfo, m.mapInfo, id);
    EvolvesTrans(s, m, DropEntry(m, id));
  }

  /** Deleting an unreferenced new entry removes it from every index. */
  lemma DeleteSound(c: Config, s: Tables, id: int, x: set<int>, d: int)
    requires Sound(c, s, x, d) && id in s.mapInfo
    requires !s.mapInfo[id].fInTried && s.mapInfo[id].nRefCount == 0
    ensures Sound(c, Delete(s, id), x, d) && Evolves(s, Delete(s, id))
    ensures SameButOrder(s.mapInfo - {id}, Delete(s, id).mapInfo) && OneLess(s, Delete(s, id))
  {
    var m := SwapLast(c, s, id, x, d);
    DeleteIs(s, id, m);
    DropAfter(c, s, m, id, x, d);
  }

  // ---------------------------------------------------------------- references in the new table

  lemma ForgetExempt(c: Config, s: Tables, x: set<int>, k: int, d: int)
    requires Sound(c, s, x + {k}, d)
    requires k in s.mapInfo ==> s.mapInfo[k].fInTried || s.mapInfo[k].nRefCount >= 1
    ensures Sound(c, s, x, d)
  {
    forall id: int ensures RefCountOk(s.mapInfo, s.vvNew, x, id) {
      assert RefCountOk(s.mapInfo, s.vvNew, x + {k}, id);
    }
  }

  /** A change of one untried entry's reference count. */
  function SetRef(s: Tables, id: int, n: int, vvNew: Table): Tables
    requires id in s.mapInfo
  {
    With(s, id, s.mapInfo[id].(nRefCount := n)).(vvNew := vvNew)
  }

  lemma SetRefSound(c: Config, s: Tables, id: int, n: int, vvNew: Table, x: set<int>, x': set<int>, d: int)
    requires Sound(c, s, x, d) && id in s.mapInfo && !s.mapInfo[id].fInTried
    requires NewOk(c, SetRef(s, id, n, vvNew).mapInfo, vvNew, x')
    ensures Sound(c, SetRef(s, id, n, vvNew), x', d) && Evolves(s, SetRef(s, id, n, vvNew))
  {
    var r := SetRef(s, id, n, vvNew);
    forall k: int
      ensures HasPlace(r.mapInfo, r.vRandom, k) && IsFound(r.mapInfo, r.mapAddr, k)
      ensures InTriedSlot(c, r.mapInfo, r.vvTried, k) && IdOk(r.nIdCount, r.mapInfo, k) && KeepsAddr(s, r, k)
    {
      assert HasPlace(s.mapInfo, s.vRandom, k) && IsFound(s.mapInfo, s.mapAddr, k);
      assert InTriedSlot(c, s.mapInfo, s.vvTried, k) && IdOk(s.nIdCount, s.mapInfo, k);
    }
    forall k: int ensures PlaceHolds(r.mapInfo, r.vRandom, k) { assert PlaceHolds(s.mapInfo, s.vRandom, k); }
    forall ip: Ip ensures FindsEntry(r.mapInfo, r.mapAddr, ip) { assert FindsEntry(s.mapInfo, s.mapAddr, ip); }
    forall t: Slot ensures TriedSlotOk(c, r.mapInfo, r.vvTried, t) { assert TriedSlotOk(c, s.mapInfo, s.vvTried, t); }
    assert TriedIds(r.mapInfo) == TriedIds(s.mapInfo) && UntriedIds(r.mapInfo) == UntriedIds(s.mapInfo);
  }

  /** Empty one occupied slot of the new table. */
  function Unrefer(s: Tables, t: Slot): Tables
    requires t in s.vvNew && s.vvNew[t] in s.mapInfo
  {
    SetRef(s, s.vvNew[t], s.mapInfo[s.vvNew[t]].nRefCount - 1, s.vvNew - {t})
  }

  lemma UnreferNew(c: Config, info: InfoMap, vvNew: Table, x: set<int>, t: Slot)
    requires NewOk(c, info, vvNew, x) && t in vvNew && vvNew[t] in info
    ensures info[vvNew[t]].nRefCount >= 1
    ensures NewOk(c, info[vvNew[t] := info[vvNew[t]].(nRefCount := info[vvNew[t]].nRefCount - 1)], vvNew - {t}, x + {vvNew[t]})
  {
    var id := vvNew[t];
    var info', vvNew' := info[id := info[id].(nRefCount := info[id].nRefCount - 1)], vvNew - {t};
    assert RefCountOk(info, vvNew, x, id);
    assert Slots(vvNew', id) == Slots(vvNew, id) - {t} && t in Slots(vvNew, id);
    forall u: Slot ensures NewSlotOk(c, info', vvNew', u) { assert NewSlotOk(c, info, vvNew, u); }
    forall k: int ensures RefCountOk(info', vvNew', x + {id}, k) {
      assert RefCountOk(info, vvNew, x, k);
      if k != id { assert Slots(vvNew', k) == Slots(vvNew, k); }
    }
  }

  lemma UnreferSound(c: Config, s: Tables, t: Slot, x: set<int>, d: int)
    requires Sound(c, s, x, d) && t in s.vvNew
    ensures s.vvNew[t] in s.mapInfo && !s.mapInfo[s.vvNew[t]].fInTried && s.mapInfo[s.vvNew[t]].nRefCount >= 1
    ensures Sound(c, Unrefer(s, t), x + {s.vvNew[t]}, d) && Evolves(s, Unrefer(s, t))
  {
    assert NewSlotOk(c, s.mapInfo, s.vvNew, t);
    UnreferNew(c, s.mapInfo, s.vvNew, x, t);
    var id := s.vvNew[t];
    SetRefSound(c, s, id, s.mapInfo[id].nRefCount - 1, s.vvNew - {t}, x, x + {id}, d);
  }

  /** Let one more slot hold an untried entry. */
  function Refer(s: Tables, id: int, t: Slot): Tables
    requires id in s.mapInfo
  {
    SetRef(s, id, s.mapInfo[id].nRefCount + 1, s.vvNew[t := id])
  }

  lemma ReferNew(c: Config, info: InfoMap, vvNew: Table, x: set<int>, id: int, t: Slot)
    requires NewOk(c, info, vvNew, x) && id in info && !info[id].fInTried && t !in vvNew
    requires info[id].nRefCount < NEW_BUCKETS_PER_ADDRESS
    requires t.bucket < NEW_BUCKET_COUNT && t == NewSlot(c, info[id].addr, t.bucket)
    ensures NewOk(c, info[id := info[id].(nRefCount := info[id].nRefCount + 1)], vvNew[t := id], x - {id})
  {
    var info', vvNew' := info[id := info[id].(nRefCount := info[id].nRefCount + 1)], vvNew[t := id];
    assert Slots(vvNew', id) == Slots(vvNew, id) + {t} && t !in Slots(vvNew, id);
    forall u: Slot ensures NewSlotOk(c, info', vvNew', u) { assert NewSlotOk(c, info, vvNew, u); }
    forall k: int ensures RefCountOk(info', vvNew', x - {id}, k) {
      assert RefCountOk(info, vvNew, x, k);
      if k != id { assert Slots(vvNew', k) == Slots(vvNew, k); }
    }
  }

  lemma ReferSound(c: Config, s: Tables, id: int, t: Slot, x: set<int>, d: int)
    requires Sound(c, s, x, d) && id in s.mapInfo && !s.mapInfo[id].fInTried && t !in s.vvNew
    requires s.mapInfo[id].nRefCount < NEW_BUCKETS_PER_ADDRESS
    requires t.bucket < NEW_BUCKET_COUNT && t == NewSlot(c, s.mapInfo[id].addr, t.bucket)
    ensures Sound(c, Refer(s, id, t), x - {id}, d) && Evolves(s, Refer(s, id, t))
  {
    ReferNew(c, s.mapInfo, s.vvNew, x, id, t);
    SetRefSound(c, s, id, s.mapInfo[id].nRefCount + 1, s.vvNew[t := id], x, x - {id}, d);
  }

  // ---------------------------------------------------------------- ClearNew

  function ClearNew(s: Tables, t: Slot): Tables
    requires RandomOk(s.mapInfo, s.vRandom)
    requires t in s.vvNew ==> s.vvNew[t] in s.mapInfo
  {
    if t !in s.vvNew then s
    else
      var id := s.vvNew[t];
      var m := Unrefer(s, t);
      UnreferOrder(s, t);
      if m.mapInfo[id].nRefCount == 0 then Delete(m, id) else m
  }

  lemma UnreferOrder(s: Tables, t: Slot)
    requires RandomOk(s.mapInfo, s.vRandom) && t in s.vvNew && s.vvNew[t] in s.mapInfo
    ensures RandomOk(Unrefer(s, t).mapInfo, s.vRandom)
  {
    var r := Unrefer(s, t);
    forall k: int ensures HasPlace(r.mapInfo, s.vRandom, k) { assert HasPlace(s.mapInfo, s.vRandom, k); }
    forall k: int ensures PlaceHolds(r.mapInfo, s.vRandom, k) { assert PlaceHolds(s.mapInfo, s.vRandom, k); }
  }

  /** Every entry but one survives, apart from its place in the random order. */
  predicate Survives(info: InfoMap, info': InfoMap, k: int) {
    k in info ==> k in info' && info'[k] == info[k].(nRandomPos := info'[k].nRandomPos)
  }

  ghost predicate AllSurviveBut(info: InfoMap, info': InfoMap, x: set<int>) {
    info'.Keys <= info.Keys && forall k: int :: k in x || Survives(info, info', k)
  }

  /** The last reference of an entry is gone, and so is the entry. */
  lemma UnreferredGone(c: Config, s: Tables, m: Tables, id: int, x: set<int>, d: int)
    requires Sound(c, m, x + {id}, d) && Evolves(s, m) && AllSurviveBut(s.mapInfo, m.mapInfo, {id}) && id !in x
    requires id in m.mapInfo && !m.mapInfo[id].fInTried && m.mapInfo[id].nRefCount == 0
    ensures var r := Delete(m, id);
            && Sound(c, r, x, d) && Evolves(s, r) && AllSurviveBut(s.mapInfo, r.mapInfo, {id}) && OneLess(m, r)
  {
    DeleteSound(c, m, id, x + {id}, d);
    var r := Delete(m, id);
    ForgetExempt(c, r, x, id, d);
    EvolvesTrans(s, m, r);
    forall k: int ensures k in {id} || Survives(s.mapInfo, r.mapInfo, k) {
      assert k in {id} || Survives(s.mapInfo, m.mapInfo, k);
      assert SameButPlace(m.mapInfo - {id}, r.mapInfo, k);
    }
  }

  /** Clearing a slot keeps every index; its occupant goes when this was its last reference. */
  lemma ClearNewSound(c: Config, s: Tables, t: Slot, x: set<int>, d: int)
    requires Sound(c, s, x, d)
    requires t in s.vvNew ==> s.vvNew[t] !in x
    ensures t in s.vvNew ==> s.vvNew[t] in s.mapInfo
    ensures var r := ClearNew(s, t);
            && Sound(c, r, x, d) && Evolves(s, r)
            && AllSurviveBut(s.mapInfo, r.mapInfo, if t in s.vvNew then {s.vvNew[t]} else {})
            && r.vvNew == s.vvNew - {t} && r.vvTried == s.vvTried && r.collisions == s.collisions
            && r.nIdCount == s.nIdCount && r.nTried == s.nTried && r.nLastGood == s.nLastGood
  {
    if t in s.vvNew {
      var id := s.vvNew[t];
      UnreferSound(c, s, t, x, d);
      var m := Unrefer(s, t);
      UnreferOrder(s, t);
      if m.mapInfo[id].nRefCount == 0 {
        UnreferredGone(c, s, m, id, x, d);
      } else {
        ForgetExempt(c, m, x, id, d);
        forall k: int ensures k in {id} || Survives(s.mapInfo, m.mapInfo, k) {}
      }
    } else {
      assert s.vvNew - {t} == s.vvNew;
      forall k: int ensures Survives(s.mapInfo, s.mapInfo, k) {}
      forall k: int ensures KeepsAddr(s, s, k) {}
    }
  }

  // ---------------------------------------------------------------- MakeTried

  /** Take an entry out of all its new buckets. */
  function Strip(s: Tables, id: int): Tables
    requires id in s.mapInfo
  {
    SetRef(s, id, s.mapInfo[id].nRefCount - |Slots(s.vvNew, id)|, Without(s.vvNew, id))
  }

  function Without(vvNew: Table, id: int): Table { map t | t in vvNew && vvNew[t] != id :: vvNew[t] }

  lemma StripNew(c: Config, info: InfoMap, vvNew: Table, x: set<int>, id: int)
    requires NewOk(c, info, vvNew, x) && id in info
    ensures info[id].nRefCount == |Slots(vvNew, id)|
    ensures NewOk(c, info[id := info[id].(nRefCount := 0)], Without(vvNew, id), x + {id})
  {
    var info', vvNew' := info[id := info[id].(nRefCount := 0)], Without(vvNew, id);
    assert RefCountOk(info, vvNew, x, id);
    assert Slots(vvNew', id) == {};
    forall t: Slot ensures NewSlotOk(c, info', vvNew', t) { assert NewSlotOk(c, info, vvNew, t); }
    forall k: int ensures RefCountOk(info', vvNew', x + {id}, k) {
      assert RefCountOk(info, vvNew, x, k);
      if k != id { assert Slots(vvNew', k) == Slots(vvNew, k); }
    }
  }

  lemma StripSound(c: Config, s: Tables, id: int, x: set<int>, d: int)
    requires Sound(c, s, x, d) && id in s.mapInfo && !s.mapInfo[id].fInTried
    ensures Sound(c, Strip(s, id), x + {id}, d) && Evolves(s, Strip(s, id))
    ensures Strip(s, id).mapInfo[id].nRefCount == 0
  {
    StripNew(c, s.mapInfo, s.vvNew, x, id);
    SetRefSound(c, s, id, 0, Without(s.vvNew, id), x, x + {id}, d);
  }

  /** Take the occupant of a tried slot out of the tried table. */
  function Evict(s: Tables, t: Slot): Tables
    requires t in s.vvTried && s.vvTried[t] in s.mapInfo
  {
    var id := s.vvTried[t];
    With(s, id, s.mapInfo[id].(fInTried := false)).(vvTried := s.vvTried - {t}, nTried := s.nTried - 1)
  }

  lemma EvictTables(c: Config, s: Tables, t: Slot, x: set<int>)
    requires TriedOk(c, s.mapInfo, s.vvTried) && NewOk(c, s.mapInfo, s.vvNew, x)
    requires t in s.vvTried && s.vvTried[t] in s.mapInfo
    ensures TriedOk(c, Evict(s, t).mapInfo, Evict(s, t).vvTried)
    ensures NewOk(c, Evict(s, t).mapInfo, s.vvNew, x + {s.vvTried[t]})
  {
    var id := s.vvTried[t];
    var r := Evict(s, t);
    assert TriedSlotOk(c, s.mapInfo, s.vvTried, t);
    forall u: Slot ensures TriedSlotOk(c, r.mapInfo, r.vvTried, u) {
      assert TriedSlotOk(c, s.mapInfo, s.vvTried, u);
    }
    forall k: int ensures InTriedSlot(c, r.mapInfo, r.vvTried, k) {
      assert InTriedSlot(c, s.mapInfo, s.vvTried, k);
    }
    forall u: Slot ensures NewSlotOk(c, r.mapInfo, s.vvNew, u) { assert NewSlotOk(c, s.mapInfo, s.vvNew, u); }
    forall k: int ensures RefCountOk(r.mapInfo, s.vvNew, x + {id}, k) { assert RefCountOk(s.mapInfo, s.vvNew, x, k); }
  }

  lemma EvictCounts(info: InfoMap, id: int)
    requires id in info && info[id].fInTried
    ensures |TriedIds(info[id := info[id].(fInTried := false)])| == |TriedIds(info)| - 1
    ensures |UntriedIds(info[id := info[id].(fInTried := false)])| == |UntriedIds(info)| + 1
  {
    var info' := info[id := info[id].(fInTried := false)];
    assert TriedIds(info') == TriedIds(info) - {id} && id in TriedIds(info);
    assert UntriedIds(info') == UntriedIds(info) + {id};
  }

  /** A flag change keeps the indexes that do not depend on it. */
  lemma FlagKeeps(s: Tables, id: int, i: Info)
    requires RandomOk(s.mapInfo, s.vRandom) && AddrOk(s.mapInfo, s.mapAddr) && id in s.mapInfo
    requires i == s.mapInfo[id].(fInTried := i.fInTried)
    ensures RandomOk(s.mapInfo[id := i], s.vRandom) && AddrOk(s.mapInfo[id := i], s.mapAddr)
  {
    var info := s.mapInfo[id := i];
    forall k: int ensures HasPlace(info, s.vRandom, k) && IsFound(info, s.mapAddr, k) {
      assert HasPlace(s.mapInfo, s.vRandom, k) && IsFound(s.mapInfo, s.mapAddr, k);
    }
    forall k: int ensures PlaceHolds(info, s.vRandom, k) { assert PlaceHolds(s.mapInfo, s.vRandom, k); }
    forall ip: Ip ensures FindsEntry(info, s.mapAddr, ip) { assert FindsEntry(s.mapInfo, s.mapAddr, ip); }
  }

  lemma EvictSound(c: Config, s: Tables, t: Slot, x: set<int>, d: int)
    requires Sound(c, s, x, d) && t in s.vvTried
    ensures s.vvTried[t] in s.mapInfo && s.mapInfo[s.vvTried[t]].fInTried && s.mapInfo[s.vvTried[t]].nRefCount == 0
    ensures Sound(c, Evict(s, t), x + {s.vvTried[t]}, d + 1) && KeepsAddrs(s, Evict(s, t))
  {
    assert TriedSlotOk(c, s.mapInfo, s.vvTried, t);
    var id := s.vvTried[t];
    assert InTriedSlot(c, s.mapInfo, s.vvTried, id);
    EvictTables(c, s, t, x);
    EvictCounts(s.mapInfo, id);
    FlagKeeps(s, id, s.mapInfo[id].(fInTried := false));
    var r := Evict(s, t);
    forall k: int ensures IdOk(r.nIdCount, r.mapInfo, k) && KeepsAddr(s, r, k) { assert IdOk(s.nIdCount, s.mapInfo, k); }
  }

  /** Put an unreferenced entry into a free slot of the tried table. */
  function PutTried(s: Tables, id: int, t: Slot): Tables
    requires id in s.mapInfo
  {
    With(s, id, s.mapInfo[id].(fInTried := true)).(vvTried := s.vvTried[t := id], nTried := s.nTried + 1)
  }

  lemma PutTables(c: Config, s: Tables, id: int, t: Slot, x: set<int>)
    requires TriedOk(c, s.mapInfo, s.vvTried) && NewOk(c, s.mapInfo, s.vvNew, x)
    requires id in s.mapInfo && !s.mapInfo[id].fInTried && s.mapInfo[id].nRefCount == 0
    requires t == TriedSlot(c, s.mapInfo[id].addr) && t !in s.vvTried
    ensures TriedOk(c, PutTried(s, id, t).mapInfo, PutTried(s, id, t).vvTried)
    ensures NewOk(c, PutTried(s, id, t).mapInfo, s.vvNew, x - {id})
  {
    var r := PutTried(s, id, t);
    assert RefCountOk(s.mapInfo, s.vvNew, x, id);
    forall u | u in s.vvNew ensures s.vvNew[u] != id { assert u !in Slots(s.vvNew, id); }
    forall u: Slot ensures TriedSlotOk(c, r.mapInfo, r.vvTried, u) {
      assert TriedSlotOk(c, s.mapInfo, s.vvTried, u);
    }
    forall k: int ensures InTriedSlot(c, r.mapInfo, r.vvTried, k) {
      assert InTriedSlot(c, s.mapInfo, s.vvTried, k);
    }
    forall u: Slot ensures NewSlotOk(c, r.mapInfo, s.vvNew, u) { assert NewSlotOk(c, s.mapInfo, s.vvNew, u); }
    forall k: int ensures RefCountOk(r.mapInfo, s.vvNew, x - {id}, k) { assert RefCountOk(s.mapInfo, s.vvNew, x, k); }
  }

  lemma PutCounts(info: InfoMap, id: int)
    requires id in info && !info[id].fInTried
    ensures |TriedIds(info[id := info[id].(fInTried := true)])| == |TriedIds(info)| + 1
    ensures |UntriedIds(info[id := info[id].(fInTried := true)])| == |UntriedIds(info)| - 1
  {
    var info' := info[id := info[id].(fInTried := true)];
    assert TriedIds(info') == TriedIds(info) + {id};
    assert UntriedIds(info') == UntriedIds(info) - {id} && id in UntriedIds(info);
  }

  lemma PutTriedSound(c: Config, s: Tables, id: int, t: Slot, x: set<int>, d: int)
    requires Sound(c, s, x, d) && id in s.mapInfo && !s.mapInfo[id].fInTried && s.mapInfo[id].nRefCount == 0
    requires s.mapInfo[id].nLastSuccess != 0
    requires t == TriedSlot(c, s.mapInfo[id].addr) && t !in s.vvTried
    ensures Sound(c, PutTried(s, id, t), x - {id}, d - 1) && KeepsAddrs(s, PutTried(s, id, t))
  {
    PutTables(c, s, id, t, x);
    PutCounts(s.mapInfo, id);
    FlagKeeps(s, id, s.mapInfo[id].(fInTried := true));
    var r := PutTried(s, id, t);
    forall k: int ensures IdOk(r.nIdCount, r.mapInfo, k) && KeepsAddr(s, r, k) { assert IdOk(s.nIdCount, s.mapInfo, k); }
  }

  /** An unreferenced entry occupies no slot. */
  /** An entry that had no slot of the new table gets one. */
  function ReferBack(s: Tables, id: int, t: Slot): Tables
    requires id in s.mapInfo
  {
    Refer(s, id, t).(nNew := s.nNew + 1)
  }

  lemma NotOccupant(c: Config, s: Tables, x: set<int>, d: int, id: int, t: Slot)
    requires Sound(c, s, x, d) && id in s.mapInfo && s.mapInfo[id].nRefCount == 0
    ensures t in s.vvNew ==> s.vvNew[t] != id && s.vvNew[t] in s.mapInfo
  {
    assert RefCountOk(s.mapInfo, s.vvNew, x, id);
    assert t !in Slots(s.vvNew, id);
    assert NewSlotOk(c, s.mapInfo, s.vvNew, t);
  }

  /** The slot of the new table an entry belongs to by its own source. */
  function HomeSlot(c: Config, i: Info): (t: Slot)
    ensures t.bucket < NEW_BUCKET_COUNT && t.pos < BUCKET_SIZE
  {
    NewSlot(c, i.addr, NewBucket(c, i.addr, i.source))
  }

  /** Move the occupant of a tried slot back to its own new bucket, making room there. */
  ghost function Demote(c: Config, s: Tables, id: int, t: Slot): Tables
    requires Sound(c, s, {id}, 1) && id in s.mapInfo && !s.mapInfo[id].fInTried && s.mapInfo[id].nRefCount == 0
    requires t in s.vvTried
  {
    EvictSound(c, s, t, {id}, 1);
    var evicted := s.vvTried[t];
    var m := Evict(s, t);
    var home := HomeSlot(c, m.mapInfo[evicted]);
    NotOccupant(c, m, {id} + {evicted}, 2, id, home);
    NotOccupant(c, m, {id} + {evicted}, 2, evicted, home);
    ClearNewSound(c, m, home, {id} + {evicted}, 2);
    var n := ClearNew(m, home);
    assert evicted in {s.vvTried[t]} && Survives(m.mapInfo, n.mapInfo, evicted);
    ReferBack(n, evicted, home)
  }

  lemma DemoteSound(c: Config, s: Tables, id: int, t: Slot)
    requires Sound(c, s, {id}, 1) && id in s.mapInfo && !s.mapInfo[id].fInTried && s.mapInfo[id].nRefCount == 0
    requires t in s.vvTried
    ensures var r := Demote(c, s, id, t);
            && Sound(c, r, {id}, 1) && KeepsAddrs(s, r) && Survives(s.mapInfo, r.mapInfo, id)
            && r.vvTried == s.vvTried - {t} && r.collisions == s.collisions && r.nIdCount == s.nIdCount
  {
    EvictSound(c, s, t, {id}, 1);
    var evicted := s.vvTried[t];
    var m := Evict(s, t);
    var home := HomeSlot(c, m.mapInfo[evicted]);
    var x := {id} + {evicted};
    assert home in m.vvNew ==> m.vvNew[home] !in x by {
      NotOccupant(c, m, x, 2, id, home);
      NotOccupant(c, m, x, 2, evicted, home);
    }
    ClearNewSound(c, m, home, x, 2);
    var n := ClearNew(m, home);
    assert Survives(m.mapInfo, n.mapInfo, evicted) && Survives(m.mapInfo, n.mapInfo, id);
    assert KeepsAddrs(s, n) by { KeepsAddrsTrans(s, m, n); }
    ReferAfter(c, s, n, id, evicted, home);
  }

  lemma ReferAfter(c: Config, s: Tables, n: Tables, id: int, evicted: int, home: Slot)
    requires Sound(c, n, {id} + {evicted}, 2) && KeepsAddrs(s, n) && id != evicted
    requires evicted in n.mapInfo && !n.mapInfo[evicted].fInTried && n.mapInfo[evicted].nRefCount == 0 && home !in n.vvNew
    requires home.bucket < NEW_BUCKET_COUNT && home == NewSlot(c, n.mapInfo[evicted].addr, home.bucket)
    ensures var r := ReferBack(n, evicted, home); Sound(c, r, {id}, 1) && KeepsAddrs(s, r) && Survives(n.mapInfo, r.mapInfo, id)
  {
    var r := Refer(n, evicted, home);
    ReferSound(c, n, evicted, home, {id} + {evicted}, 2);
    assert {id} + {evicted} - {evicted} == {id};
    BumpNew(c, r, {id}, 2);
    KeepsAddrsTrans(s, n, r);
    KeepsAddrsTrans(s, r, r.(nNew := n.nNew + 1));
  }

  lemma BumpNew(c: Config, s: Tables, x: set<int>, d: int)
    requires Sound(c, s, x, d)
    ensures Sound(c, s.(nNew := s.nNew + 1), x, d - 1) && KeepsAddrs(s, s.(nNew := s.nNew + 1))
    ensures Sound(c, s.(nNew := s.nNew - 1), x, d + 1) && KeepsAddrs(s, s.(nNew := s.nNew - 1))
  {
  }

  /** Take an entry out of the new table altogether. */
  function Detach(s: Tables, id: int): Tables
    requires id in s.mapInfo
  {
    Strip(s, id).(nNew := s.nNew - 1)
  }

  lemma DetachSound(c: Config, s: Tables, id: int)
    requires Sound(c, s, {}, 0) && id in s.mapInfo && !s.mapInfo[id].fInTried
    ensures var m := Detach(s, id);
            && Sound(c, m, {id}, 1) && KeepsAddrs(s, m) && m.vvTried == s.vvTried
            && m.collisions == s.collisions && m.nIdCount == s.nIdCount
            && id in m.mapInfo && m.mapInfo[id] == s.mapInfo[id].(nRefCount := 0)
  {
    StripSound(c, s, id, {}, 0);
    assert {} + {id} == {id};
    BumpNew(c, Strip(s, id), {id}, 0);
    KeepsAddrsTrans(s, Strip(s, id), Detach(s, id));
  }

  /** Free a tried slot for an entry. */
  ghost function MakeRoom(c: Config, s: Tables, id: int, t: Slot): Tables
    requires Sound(c, s, {id}, 1) && id in s.mapInfo && !s.mapInfo[id].fInTried && s.mapInfo[id].nRefCount == 0
  {
    if t in s.vvTried then Demote(c, s, id, t) else s
  }

  lemma MakeRoomSound(c: Config, s: Tables, id: int, t: Slot)
    requires Sound(c, s, {id}, 1) && id in s.mapInfo && !s.mapInfo[id].fInTried && s.mapInfo[id].nRefCount == 0
    ensures var r := MakeRoom(c, s, id, t);
            && Sound(c, r, {id}, 1) && KeepsAddrs(s, r) && Survives(s.mapInfo, r.mapInfo, id)
            && r.vvTried == s.vvTried - {t} && r.collisions == s.collisions && r.nIdCount == s.nIdCount
  {
    if t in s.vvTried {
      DemoteSound(c, s, id, t);
    } else {
      assert s.vvTried - {t} == s.vvTried;
      forall k: int ensures KeepsAddr(s, s, k) {}
    }
  }

  /** Out of the new table, whoever is in the way back to it, and in. */
  ghost function MakeTried(c: Config, s: Tables, id: int): Tables
    requires Sound(c, s, {}, 0) && id in s.mapInfo && !s.mapInfo[id].fInTried
  {
    DetachSound(c, s, id);
    var t := TriedSlot(c, s.mapInfo[id].addr);
    MakeRoomSound(c, Detach(s, id), id, t);
    PutTried(MakeRoom(c, Detach(s, id), id, t), id, t)
  }

  lemma PutAfter(c: Config, s: Tables, n: Tables, id: int, t: Slot)
    requires Sound(c, n, {id}, 1) && KeepsAddrs(s, n) && id in n.mapInfo && t == TriedSlot(c, n.mapInfo[id].addr)
    requires !n.mapInfo[id].fInTried && n.mapInfo[id].nRefCount == 0 && n.mapInfo[id].nLastSuccess != 0
    requires n.vvTried == s.vvTried - {t}
    ensures var r := PutTried(n, id, t);
            Sound(c, r, {}, 0) && Evolves(s, r) && r.vvTried == s.vvTried[t := id]
  {
    var r := PutTried(n, id, t);
    PutTriedSound(c, n, id, t, {id}, 1);
    assert {id} - {id} == {};
    assert (s.vvTried - {t})[t := id] == s.vvTried[t := id];
    KeepsAddrsTrans(s, n, r);
  }

  /** MakeTried keeps every index exact, fills the entry's tried slot, and empties none. */
  lemma MakeTriedSound(c: Config, s: Tables, id: int)
    requires Sound(c, s, {}, 0) && id in s.mapInfo && !s.mapInfo[id].fInTried && s.mapInfo[id].nLastSuccess != 0
    ensures var r := MakeTried(c, s, id);
            && Sound(c, r, {}, 0) && Evolves(s, r) && r.collisions == s.collisions && r.nIdCount == s.nIdCount
            && r.vvTried == s.vvTried[TriedSlot(c, s.mapInfo[id].addr) := id]
            && id in r.mapInfo && r.mapInfo[id].fInTried && r.mapInfo[id].addr == s.mapInfo[id].addr
  {
    DetachSound(c, s, id);
    var t := TriedSlot(c, s.mapInfo[id].addr);
    var m := Detach(s, id);
    MakeRoomSound(c, m, id, t);
    var n := MakeRoom(c, m, id, t);
    assert KeepsAddrs(s, n) by { KeepsAddrsTrans(s, m, n); }
    PutAfter(c, s, n, id, t);
  }
}
