/**
 The operations behind the address manager's interface, and what holds in every
 state they can reach.  Times and random choices are parameters.
 */
module AddrManOps {
  import opened AddrMan
  import opened Common

  // ---------------------------------------------------------------- statistics

  /** A change of one entry that no index depends on. */
  predicate OnlyStatistics(i: Info, j: Info) {
    i.addr == j.addr && i.fInTried == j.fInTried && i.nRefCount == j.nRefCount && i.nRandomPos == j.nRandomPos
  }

  lemma StatisticsSound(c: Config, s: Tables, id: int, i: Info, x: set<int>, d: int)
    requires Sound(c, s, x, d) && id in s.mapInfo && OnlyStatistics(s.mapInfo[id], i) && TimeOk(i)
    ensures Sound(c, With(s, id, i), x, d) && Evolves(s, With(s, id, i))
  {
    var r := With(s, id, i);
    forall k: int
      ensures SameKey(s.mapInfo, r.mapInfo, k) && HasPlace(r.mapInfo, r.vRandom, k) && IdOk(r.nIdCount, r.mapInfo, k)
    {
      assert HasPlace(s.mapInfo, s.vRandom, k) && IdOk(s.nIdCount, s.mapInfo, k);
    }
    forall k: int ensures PlaceHolds(r.mapInfo, r.vRandom, k) { assert PlaceHolds(s.mapInfo, s.vRandom, k); }
    assert r.mapInfo.Keys == s.mapInfo.Keys;
    SameKeysSound(c, s, r, x, d);
  }

  lemma EvolvesRefl(s: Tables, r: Tables)
    requires r == s.(nLastGood := r.nLastGood, collisions := r.collisions)
    ensures Evolves(s, r)
  {
    forall k: int ensures KeepsAddr(s, r, k) {}
  }

  /** Find an entry by address and port. */
  function FindExactly(s: Tables, addr: Service): (id: int)
    ensures id != -1 ==> id in s.mapInfo && s.mapInfo[id].addr == addr
  {
    var id := Find(s, addr.ip);
    if id != -1 && s.mapInfo[id].addr == addr then id else -1
  }

  /** It finds the entry of that address and port, and nothing if and only if there is none. */
  lemma FindsExactly(s: Tables, addr: Service)
    requires AddrOk(s.mapInfo, s.mapAddr) && IdsOk(s.nIdCount, s.mapInfo, s.collisions)
    ensures forall id :: id in s.mapInfo && s.mapInfo[id].addr == addr ==> FindExactly(s, addr) == id
    ensures FindExactly(s, addr) == -1 <==> forall id :: id in s.mapInfo ==> s.mapInfo[id].addr != addr
  {
    FindExact(s, addr.ip);
    forall id | id in s.mapInfo && s.mapInfo[id].addr == addr ensures FindExactly(s, addr) == id != -1 {
      assert IdOk(s.nIdCount, s.mapInfo, id);
    }
    var found := FindExactly(s, addr);
    if found != -1 { assert s.mapInfo[found].addr == addr; }
  }

  function Attempt(s: Tables, addr: Service, fCountFailure: bool, nTime: int): Tables {
    var id := FindExactly(s, addr);
    if id == -1 then s
    else
      var i := s.mapInfo[id].(nLastTry := nTime);
      With(s, id, if fCountFailure && i.nLastCountAttempt < s.nLastGood
                  then i.(nLastCountAttempt := nTime, nAttempts := i.nAttempts + 1) else i)
  }

  function Connected(s: Tables, addr: Service, nTime: int): Tables {
    var id := FindExactly(s, addr);
    if id == -1 then s
    else if nTime - s.mapInfo[id].nTime > 20 * 60 then With(s, id, s.mapInfo[id].(nTime := nTime))
    else s
  }

  function SetServices(s: Tables, addr: Service, nServices: Services): Tables {
    var id := FindExactly(s, addr);
    if id == -1 then s else With(s, id, s.mapInfo[id].(nServices := nServices))
  }

  // ---------------------------------------------------------------- Good

  /** Some new bucket holds the entry at its position there. */
  predicate InSomeBucket(c: Config, s: Tables, id: int)
    requires id in s.mapInfo
  {
    exists b: nat :: b < NEW_BUCKET_COUNT && HeldIn(c, s, id, b)
  }

  predicate HeldIn(c: Config, s: Tables, id: int, b: nat)
    requires id in s.mapInfo
  {
    NewSlot(c, s.mapInfo[id].addr, b) in s.vvNew && s.vvNew[NewSlot(c, s.mapInfo[id].addr, b)] == id
  }

  /** The bail-out of Good_ for an entry found in no bucket is never taken. */
  lemma AlwaysInSomeBucket(c: Config, s: Tables, id: int)
    requires Sound(c, s, {}, 0) && id in s.mapInfo && !s.mapInfo[id].fInTried
    ensures InSomeBucket(c, s, id)
  {
    assert RefCountOk(s.mapInfo, s.vvNew, {}, id);
    var t :| t in Slots(s.vvNew, id);
    assert NewSlotOk(c, s.mapInfo, s.vvNew, t);
    assert HeldIn(c, s, id, t.bucket);
  }

  function GoodStats(i: Info, nTime: int): Info {
    i.(nLastSuccess := nTime, nLastTry := nTime, nAttempts := 0)
  }

  ghost function Good(c: Config, s: Tables, addr: Service, testBeforeEvict: bool, nTime: int): Tables
    requires Sound(c, s, {}, 0) && nTime > 0
  {
    var g := s.(nLastGood := nTime);
    var id := FindExactly(s, addr);
    if id == -1 then g
    else
      var m := With(g, id, GoodStats(g.mapInfo[id], nTime));
      GoodStatsSound(c, s, id, nTime);
      if m.mapInfo[id].fInTried || !InSomeBucket(c, m, id) then m
      else Promote(c, m, id, testBeforeEvict)
  }

  /** Move an entry to the tried table, or note the collision. */
  ghost function Promote(c: Config, m: Tables, id: int, testBeforeEvict: bool): Tables
    requires Sound(c, m, {}, 0) && id in m.mapInfo && !m.mapInfo[id].fInTried
  {
    if testBeforeEvict && TriedSlot(c, m.mapInfo[id].addr) in m.vvTried then
      if |m.collisions| < SET_TRIED_COLLISION_SIZE then m.(collisions := m.collisions + {id}) else m
    else MakeTried(c, m, id)
  }

  lemma NewGoodTime(c: Config, s: Tables, nTime: int)
    requires Sound(c, s, {}, 0)
    ensures Sound(c, s.(nLastGood := nTime), {}, 0)
  {}

  lemma GoodStatsSound(c: Config, s: Tables, id: int, nTime: int)
    requires Sound(c, s, {}, 0) && nTime > 0 && id in s.mapInfo
    ensures var m := With(s.(nLastGood := nTime), id, GoodStats(s.mapInfo[id], nTime));
            Sound(c, m, {}, 0) && Evolves(s, m)
  {
    var g := s.(nLastGood := nTime);
    NewGoodTime(c, s, nTime);
    StatisticsSound(c, g, id, GoodStats(s.mapInfo[id], nTime), {}, 0);
    EvolvesRefl(s, g);
    EvolvesTrans(s, g, With(g, id, GoodStats(s.mapInfo[id], nTime)));
  }

  lemma GoodConsistent(c: Config, s: Tables, addr: Service, testBeforeEvict: bool, nTime: int)
    requires Consistent(c, s) && nTime > 0
    ensures var r := Good(c, s, addr, testBeforeEvict, nTime);
            Consistent(c, r) && Evolves(s, r)
  {
    var g := s.(nLastGood := nTime);
    var id := FindExactly(s, addr);
    NewGoodTime(c, s, nTime);
    EvolvesRefl(s, g);
    if id == -1 {
      EvolvesCollisions(c, s, g);
    } else {
      var m := With(g, id, GoodStats(g.mapInfo[id], nTime));
      GoodStatsSound(c, s, id, nTime);
      EvolvesCollisions(c, s, m);
      if !m.mapInfo[id].fInTried && InSomeBucket(c, m, id) {
        PromoteConsistent(c, m, id, testBeforeEvict);
        EvolvesTrans(s, m, Promote(c, m, id, testBeforeEvict));
      }
    }
  }

  lemma PromoteConsistent(c: Config, m: Tables, id: int, testBeforeEvict: bool)
    requires Consistent(c, m) && id in m.mapInfo && !m.mapInfo[id].fInTried && m.mapInfo[id].nLastSuccess != 0
    ensures var r := Promote(c, m, id, testBeforeEvict);
            Consistent(c, r) && Evolves(m, r)
  {
    EvolvesRefl(m, m);
    if testBeforeEvict && TriedSlot(c, m.mapInfo[id].addr) in m.vvTried {
      var r := m.(collisions := m.collisions + {id});
      assert IdOk(m.nIdCount, m.mapInfo, id);
      forall k: int ensures CollisionOk(c, r, k) { assert CollisionOk(c, m, k); }
      EvolvesRefl(m, r);
    } else {
      MakeTriedSound(c, m, id);
      EvolvesCollisions(c, m, MakeTried(c, m, id));
    }
  }

  // ---------------------------------------------------------------- Add

  /** The second half of Add_: give an entry a slot in the bucket of this source. */
  ghost function Place(c: Config, s: Tables, id: int, source: Ip, nNow: int): Tables
    requires Sound(c, s, {id}, 0) && id in s.mapInfo
  {
    var i := s.mapInfo[id];
    var t := NewSlot(c, i.addr, NewBucket(c, i.addr, source));
    if t in s.vvNew && s.vvNew[t] == id then s
    else
      assert NewSlotOk(c, s.mapInfo, s.vvNew, t);
      var fInsert := t !in s.vvNew || (var e := s.mapInfo[s.vvNew[t]]; IsTerrible(e, nNow) || (e.nRefCount > 1 && i.nRefCount == 0));
      if fInsert then
        ClearNewSound(c, s, t, {id}, 0);
        assert Survives(s.mapInfo, ClearNew(s, t).mapInfo, id);
        Refer(ClearNew(s, t), id, t)
      else if i.nRefCount == 0 then Delete(s, id)
      else s
  }

  lemma PlaceSound(c: Config, s: Tables, id: int, source: Ip, nNow: int)
    requires Sound(c, s, {id}, 0) && id in s.mapInfo && !s.mapInfo[id].fInTried
    requires s.mapInfo[id].nRefCount < NEW_BUCKETS_PER_ADDRESS
    ensures var r := Place(c, s, id, source, nNow);
            Sound(c, r, {}, 0) && Evolves(s, r) && r.collisions == s.collisions
  {
    var i := s.mapInfo[id];
    var t := NewSlot(c, i.addr, NewBucket(c, i.addr, source));
    var r := Place(c, s, id, source, nNow);
    assert {} + {id} == {id} && {id} - {id} == {};
    assert NewSlotOk(c, s.mapInfo, s.vvNew, t) && RefCountOk(s.mapInfo, s.vvNew, {id}, id);
    EvolvesRefl(s, s);
    if t in s.vvNew && s.vvNew[t] == id {
      assert t in Slots(s.vvNew, id);
      ForgetExempt(c, s, {}, id, 0);
    } else if t !in s.vvNew || (var e := s.mapInfo[s.vvNew[t]]; IsTerrible(e, nNow) || (e.nRefCount > 1 && i.nRefCount == 0)) {
      ClearNewSound(c, s, t, {id}, 0);
      var m := ClearNew(s, t);
      assert Survives(s.mapInfo, m.mapInfo, id);
      ReferSound(c, m, id, t, {id}, 0);
      EvolvesTrans(s, m, r);
    } else if i.nRefCount == 0 {
      DeleteSound(c, s, id, {id}, 0);
      ForgetExempt(c, r, {}, id, 0);
    } else {
      ForgetExempt(c, s, {}, id, 0);
    }
  }

  /** What an announcement changes in an entry that exists already. */
  function Refresh(i: Info, addr: Address, nTimePenalty: int, nNow: int): Info {
    var nUpdateInterval := if nNow - addr.nTime < 24 * 60 * 60 then 60 * 60 else 24 * 60 * 60;
    var nTime := if addr.nTime != 0 && (i.nTime == 0 || i.nTime < addr.nTime - nUpdateInterval - nTimePenalty)
                 then Max(0, addr.nTime - nTimePenalty) else i.nTime;
    i.(nTime := nTime, nServices := i.nServices | addr.nServices)
  }

  /** 2^n: how much harder the next reference is to get. */
  function Factor(n: int): int { if n <= 0 then 1 else 2 * Factor(n - 1) }

  lemma {:induction false} FactorPositive(n: int)
    ensures Factor(n) >= 1
  {
    if n > 0 { FactorPositive(n - 1); }
  }

  /** Whether Add_ stops after refreshing an entry.  `nRnd` is the random draw. */
  predicate NotReferredAgain(i: Info, addr: Address, nRnd: nat) {
    || addr.nTime == 0 || (i.nTime != 0 && addr.nTime <= i.nTime)
    || i.fInTried
    || i.nRefCount == NEW_BUCKETS_PER_ADDRESS
    || (FactorPositive(i.nRefCount); Factor(i.nRefCount) > 1 && nRnd % Factor(i.nRefCount) != 0)
  }

  /** A new entry, counted but not yet referenced. */
  function Admit(s: Tables, addr: Address, source: Ip, nTimePenalty: int): Tables {
    var m := Create(s, addr, source);
    var i := m.mapInfo[s.nIdCount];
    EnterNew(m, s.nIdCount, i.(nTime := Max(0, i.nTime - nTimePenalty)))
  }

  /** The new counter catches up with an entry. */
  function EnterNew(m: Tables, id: int, i: Info): Tables { With(m, id, i).(nNew := m.nNew + 1) }

  lemma EnterNewSound(c: Config, s: Tables, m: Tables, id: int, i: Info)
    requires Sound(c, m, {id}, 1) && Evolves(s, m) && id in m.mapInfo && OnlyStatistics(m.mapInfo[id], i) && TimeOk(i)
    ensures Sound(c, EnterNew(m, id, i), {id}, 0) && Evolves(s, EnterNew(m, id, i))
  {
    StatisticsSound(c, m, id, i, {id}, 1);
    EvolvesTrans(s, m, With(m, id, i));
    BumpNew(c, With(m, id, i), {id}, 1);
    KeepsAddrsTrans(s, With(m, id, i), EnterNew(m, id, i));
  }

  lemma AdmitSound(c: Config, s: Tables, addr: Address, source: Ip, nTimePenalty: int)
    requires Sound(c, s, {}, 0) && addr.service.ip !in s.mapAddr
    ensures var r := Admit(s, addr, source, nTimePenalty);
            && Sound(c, r, {s.nIdCount}, 0) && Evolves(s, r) && r.collisions == s.collisions
            && s.nIdCount in r.mapInfo && !r.mapInfo[s.nIdCount].fInTried && r.mapInfo[s.nIdCount].nRefCount == 0
  {
    var id := s.nIdCount;
    CreateSound(c, s, addr, source);
    var m := Create(s, addr, source);
    var i := m.mapInfo[id];
    EnterNewSound(c, s, m, id, i.(nTime := Max(0, i.nTime - nTimePenalty)));
  }

  lemma Exempt(c: Config, s: Tables, id: int, d: int)
    requires Sound(c, s, {}, d)
    ensures Sound(c, s, {id}, d)
  {
    forall k: int ensures RefCountOk(s.mapInfo, s.vvNew, {id}, k) { assert RefCountOk(s.mapInfo, s.vvNew, {}, k); }
  }

  lemma RefreshSound(c: Config, s: Tables, id: int, addr: Address, nTimePenalty: int, nNow: int)
    requires Sound(c, s, {}, 0) && id in s.mapInfo
    ensures var m := With(s, id, Refresh(s.mapInfo[id], addr, nTimePenalty, nNow));
            Sound(c, m, {}, 0) && Sound(c, m, {id}, 0) && Evolves(s, m)
  {
    assert IdOk(s.nIdCount, s.mapInfo, id);
    RefreshKeeps(s.mapInfo[id], addr, nTimePenalty, nNow);
    StatisticsBoth(c, s, id, Refresh(s.mapInfo[id], addr, nTimePenalty, nNow));
  }

  lemma RefreshKeeps(i: Info, addr: Address, nTimePenalty: int, nNow: int)
    requires TimeOk(i)
    ensures var j := Refresh(i, addr, nTimePenalty, nNow); OnlyStatistics(i, j) && TimeOk(j)
  {
  }

  lemma StatisticsBoth(c: Config, s: Tables, id: int, i: Info)
    requires Sound(c, s, {}, 0) && id in s.mapInfo && OnlyStatistics(s.mapInfo[id], i) && TimeOk(i)
    ensures var m := With(s, id, i); Sound(c, m, {}, 0) && Sound(c, m, {id}, 0) && Evolves(s, m)
  {
    StatisticsSound(c, s, id, i, {}, 0);
    Exempt(c, With(s, id, i), id, 0);
  }

  ghost function AddKnown(c: Config, s: Tables, id: int, addr: Address, source: Ip, nTimePenalty: int, nNow: int, nRnd: nat): Tables
    requires Sound(c, s, {}, 0) && id in s.mapInfo
  {
    var m := With(s, id, Refresh(s.mapInfo[id], addr, nTimePenalty, nNow));
    RefreshSound(c, s, id, addr, nTimePenalty, nNow);
    if NotReferredAgain(m.mapInfo[id], addr, nRnd) then m else Place(c, m, id, source, nNow)
  }

  ghost function AddUnknown(c: Config, s: Tables, addr: Address, source: Ip, nTimePenalty: int, nNow: int): Tables
    requires Sound(c, s, {}, 0) && addr.service.ip !in s.mapAddr
  {
    AdmitSound(c, s, addr, source, nTimePenalty);
    Place(c, Admit(s, addr, source, nTimePenalty), s.nIdCount, source, nNow)
  }

  datatype Added = Added(tables: Tables, fNew: bool)

  /** Add_: `nRnd` is the random draw of the stochastic test. */
  ghost function Add(c: Config, s: Tables, addr: Address, source: Ip, nTimePenaltyIn: int, nNow: int, nRnd: nat): Added
    requires Sound(c, s, {}, 0)
  {
    if !c.routable(addr.service) then Added(s, false)
    else
      var nTimePenalty := if addr.service.ip == source then 0 else nTimePenaltyIn;
      var id := Find(s, addr.service.ip);
      FindExact(s, addr.service.ip);
      if id != -1 then Added(AddKnown(c, s, id, addr, source, nTimePenalty, nNow, nRnd), false)
      else Added(AddUnknown(c, s, addr, source, nTimePenalty, nNow), true)
  }

  lemma AddKnownSound(c: Config, s: Tables, id: int, addr: Address, source: Ip, nTimePenalty: int, nNow: int, nRnd: nat)
    requires Sound(c, s, {}, 0) && id in s.mapInfo
    ensures var r := AddKnown(c, s, id, addr, source, nTimePenalty, nNow, nRnd);
            Sound(c, r, {}, 0) && Evolves(s, r) && r.collisions == s.collisions
  {
    var m := With(s, id, Refresh(s.mapInfo[id], addr, nTimePenalty, nNow));
    RefreshSound(c, s, id, addr, nTimePenalty, nNow);
    assert RefCountOk(m.mapInfo, m.vvNew, {}, id);
    if !NotReferredAgain(m.mapInfo[id], addr, nRnd) {
      PlaceSound(c, m, id, source, nNow);
      EvolvesTrans(s, m, Place(c, m, id, source, nNow));
    }
  }

  lemma AddUnknownSound(c: Config, s: Tables, addr: Address, source: Ip, nTimePenalty: int, nNow: int)
    requires Sound(c, s, {}, 0) && addr.service.ip !in s.mapAddr
    ensures var r := AddUnknown(c, s, addr, source, nTimePenalty, nNow);
            Sound(c, r, {}, 0) && Evolves(s, r) && r.collisions == s.collisions
  {
    var m := Admit(s, addr, source, nTimePenalty);
    AdmitSound(c, s, addr, source, nTimePenalty);
    PlaceSound(c, m, s.nIdCount, source, nNow);
    EvolvesTrans(s, m, Place(c, m, s.nIdCount, source, nNow));
  }

  lemma AddConsistent(c: Config, s: Tables, addr: Address, source: Ip, nTimePenaltyIn: int, nNow: int, nRnd: nat)
    requires Consistent(c, s)
    ensures var r := Add(c, s, addr, source, nTimePenaltyIn, nNow, nRnd).tables;
            Consistent(c, r) && Evolves(s, r)
  {
    var nTimePenalty := if addr.service.ip == source then 0 else nTimePenaltyIn;
    var id := Find(s, addr.service.ip);
    EvolvesRefl(s, s);
    FindExact(s, addr.service.ip);
    if id != -1 {
      AddKnownSound(c, s, id, addr, source, nTimePenalty, nNow, nRnd);
    } else {
      AddUnknownSound(c, s, addr, source, nTimePenalty, nNow);
    }
    EvolvesCollisions(c, s, Add(c, s, addr, source, nTimePenaltyIn, nNow, nRnd).tables);
  }

  // ---------------------------------------------------------------- GetAddr

  function AddressOf(i: Info): Address { Address(i.addr, i.nTime, i.nServices) }

  function NodesWanted(size: nat): nat {
    var n := GETADDR_MAX_PCT * size / 100;
    if n > GETADDR_MAX then GETADDR_MAX else n
  }

  datatype Picked = Picked(tables: Tables, ids: seq<int>)

  /** A random one of the positions from n on. */
  function Draw(size: nat, n: nat, rnd: nat): (p: nat)
    requires n < size
    ensures n <= p < size
  {
    rnd % (size - n) + n
  }

  /** One round: a random one of the remaining entries moves to position n. */
  ghost function Shuffle(c: Config, s: Tables, n: nat, rnd: nat): (m: Tables)
    requires Sound(c, s, {}, 0) && n < |s.vRandom|
    ensures Sound(c, m, {}, 0) && Evolves(s, m) && m.collisions == s.collisions
    ensures |m.vRandom| == |s.vRandom| && m.vRandom[n] in m.mapInfo
  {
    var p := Draw(|s.vRandom|, n, rnd);
    SwapSound(c, s, n, p, {}, 0);
    SwapFrame(s, n, p);
    assert PlaceHolds(SwapRandom(s, n, p).mapInfo, SwapRandom(s, n, p).vRandom, n);
    SwapRandom(s, n, p)
  }

  function Keep(s: Tables, n: nat, ids: seq<int>, nNow: int): seq<int>
    requires n < |s.vRandom| && s.vRandom[n] in s.mapInfo
  {
    if IsTerrible(s.mapInfo[s.vRandom[n]], nNow) then ids else ids + [s.vRandom[n]]
  }

  /** The loop of GetAddr_ from position n on; `pick` gives the random draws. */
  ghost function GetAddrFrom(c: Config, s: Tables, n: nat, ids: seq<int>, wanted: nat, pick: nat -> nat, nNow: int): (r: Picked)
    requires Sound(c, s, {}, 0) && n <= |s.vRandom|
    ensures Sound(c, r.tables, {}, 0) && Evolves(s, r.tables) && r.tables.collisions == s.collisions
    decreases |s.vRandom| - n
  {
    EvolvesRefl(s, s);
    if n == |s.vRandom| || |ids| >= wanted then Picked(s, ids)
    else
      var m := Shuffle(c, s, n, pick(n));
      var r := GetAddrFrom(c, m, n + 1, Keep(m, n, ids, nNow), wanted, pick, nNow);
      EvolvesTrans(s, m, r.tables);
      r
  }

  ghost function GetAddr(c: Config, s: Tables, pick: nat -> nat, nNow: int): Picked
    requires Sound(c, s, {}, 0)
  {
    GetAddrFrom(c, s, 0, [], NodesWanted(|s.vRandom|), pick, nNow)
  }

  /** The ids gathered so far: the good ones among the first n of the order. */
  ghost predicate Gathered(s: Tables, n: nat, ids: seq<int>, nNow: int)
    requires n <= |s.vRandom|
  {
    && (forall k: int :: PickedAt(s, n, ids, nNow, k))
    && (forall k: int :: NotSkipped(s, n, ids, nNow, k))
    && (forall i, j :: 0 <= i < j < |ids| ==> ids[i] != ids[j])
  }

  predicate PickedAt(s: Tables, n: nat, ids: seq<int>, nNow: int, k: int)
    requires n <= |s.vRandom|
  {
    0 <= k < |ids| ==> ids[k] in s.vRandom[..n] && ids[k] in s.mapInfo && !IsTerrible(s.mapInfo[ids[k]], nNow)
  }

  predicate NotSkipped(s: Tables, n: nat, ids: seq<int>, nNow: int, k: int)
    requires n <= |s.vRandom|
  {
    0 <= k < n ==> s.vRandom[k] in ids || (s.vRandom[k] in s.mapInfo && IsTerrible(s.mapInfo[s.vRandom[k]], nNow))
  }

  lemma OrderInjective(info: InfoMap, order: seq<int>, i: int, j: int)
    requires RandomOk(info, order) && 0 <= i < |order| && 0 <= j < |order| && order[i] == order[j]
    ensures i == j
  {
    assert PlaceHolds(info, order, i) && PlaceHolds(info, order, j);
  }

  lemma SwapTail(s: Tables, n: nat, p: nat)
    requires RandomOk(s.mapInfo, s.vRandom) && n <= p < |s.vRandom|
    ensures var order := s.vRandom[n := s.vRandom[p]][p := s.vRandom[n]];
            && order[..n] == s.vRandom[..n] && order[n] == s.vRandom[p] && s.vRandom[p] !in s.vRandom[..n]
  {
    forall j | 0 <= j < n ensures s.vRandom[j] != s.vRandom[p] {
      if s.vRandom[j] == s.vRandom[p] { OrderInjective(s.mapInfo, s.vRandom, j, p); }
    }
  }

  lemma ShuffleFacts(c: Config, s: Tables, n: nat, rnd: nat)
    requires Sound(c, s, {}, 0) && n < |s.vRandom|
    ensures var m := Shuffle(c, s, n, rnd);
            SameButOrder(s.mapInfo, m.mapInfo) && m.vRandom[..n] == s.vRandom[..n] && m.vRandom[n] !in s.vRandom[..n]
  {
    var p := Draw(|s.vRandom|, n, rnd);
    SwapSound(c, s, n, p, {}, 0);
    SwapTail(s, n, p);
  }

  lemma ShuffleOrder(c: Config, s: Tables, n: nat, rnd: nat)
    requires Sound(c, s, {}, 0) && n < |s.vRandom|
    ensures SameButOrder(s.mapInfo, Shuffle(c, s, n, rnd).mapInfo)
  {
    SwapSound(c, s, n, Draw(|s.vRandom|, n, rnd), {}, 0);
  }

  /** One round of the loop, and its end. */
  lemma GetAddrNext(c: Config, s: Tables, n: nat, ids: seq<int>, wanted: nat, pick: nat -> nat, nNow: int)
    requires Sound(c, s, {}, 0) && n < |s.vRandom| && |ids| < wanted
    ensures var m := Shuffle(c, s, n, pick(n));
            GetAddrFrom(c, s, n, ids, wanted, pick, nNow) == GetAddrFrom(c, m, n + 1, Keep(m, n, ids, nNow), wanted, pick, nNow)
  {
  }

  lemma GetAddrDone(c: Config, s: Tables, n: nat, ids: seq<int>, wanted: nat, pick: nat -> nat, nNow: int)
    requires Sound(c, s, {}, 0) && n <= |s.vRandom| && (n == |s.vRandom| || |ids| >= wanted)
    ensures GetAddrFrom(c, s, n, ids, wanted, pick, nNow) == Picked(s, ids)
  {
  }

  lemma GatherOne(s: Tables, m: Tables, n: nat, ids: seq<int>, nNow: int)
    requires n < |s.vRandom| == |m.vRandom| && Gathered(s, n, ids, nNow)
    requires SameButOrder(s.mapInfo, m.mapInfo) && m.vRandom[..n] == s.vRandom[..n] && m.vRandom[n] !in s.vRandom[..n]
    requires m.vRandom[n] in m.mapInfo
    ensures Gathered(m, n + 1, Keep(m, n, ids, nNow), nNow)
  {
    var e, id := n + 1, m.vRandom[n];
    var ids' := Keep(m, n, ids, nNow);
    assert m.vRandom[..e] == m.vRandom[..n] + [id];
    forall k: int ensures PickedAt(m, e, ids', nNow, k) {
      assert PickedAt(s, n, ids, nNow, k);
      if 0 <= k < |ids| { assert SameButPlace(s.mapInfo, m.mapInfo, ids[k]); }
    }
    forall k: int ensures NotSkipped(m, e, ids', nNow, k) {
      assert NotSkipped(s, n, ids, nNow, k);
      if 0 <= k < n { assert m.vRandom[..n][k] == s.vRandom[..n][k] && SameButPlace(s.mapInfo, m.mapInfo, s.vRandom[k]); }
    }
    forall i | 0 <= i < |ids| ensures ids[i] != id { assert PickedAt(s, n, ids, nNow, i); }
  }

  /** The loop stopped at position e. */
  ghost predicate StoppedAt(r: Picked, wanted: nat, nNow: int, e: nat) {
    && e <= |r.tables.vRandom| && Gathered(r.tables, e, r.ids, nNow)
    && |r.ids| <= wanted && (|r.ids| < wanted ==> e == |r.tables.vRandom|)
  }

  /** What the loop gives from position n on. */
  ghost predicate Yields(c: Config, s: Tables, n: nat, ids: seq<int>, wanted: nat, pick: nat -> nat, nNow: int, r: Picked)
    requires Sound(c, s, {}, 0) && n <= |s.vRandom|
  {
    r == GetAddrFrom(c, s, n, ids, wanted, pick, nNow)
  }

  lemma GatherNext(c: Config, s: Tables, n: nat, ids: seq<int>, wanted: nat, pick: nat -> nat, nNow: int, r: Picked)
    requires Sound(c, s, {}, 0) && n < |s.vRandom| && Gathered(s, n, ids, nNow) && |ids| < wanted
    requires Yields(c, s, n, ids, wanted, pick, nNow, r)
    ensures var m := Shuffle(c, s, n, pick(n)); var ids' := Keep(m, n, ids, nNow);
            Gathered(m, n + 1, ids', nNow) && Yields(c, m, n + 1, ids', wanted, pick, nNow, r)
  {
    ShuffleFacts(c, s, n, pick(n));
    GatherOne(s, Shuffle(c, s, n, pick(n)), n, ids, nNow);
  }

  lemma StopsHere(c: Config, s: Tables, n: nat, ids: seq<int>, wanted: nat, pick: nat -> nat, nNow: int, r: Picked)
    requires Sound(c, s, {}, 0) && n <= |s.vRandom| && Yields(c, s, n, ids, wanted, pick, nNow, r)
    requires Gathered(s, n, ids, nNow) && |ids| <= wanted && (n == |s.vRandom| || |ids| >= wanted)
    ensures StoppedAt(r, wanted, nNow, n)
  {
    GetAddrDone(c, s, n, ids, wanted, pick, nNow);
  }

  /** The loop stops with StoppedAt. */
  lemma {:induction false} GetAddrStops(c: Config, s: Tables, n: nat, ids: seq<int>, wanted: nat, pick: nat -> nat, nNow: int, r: Picked)
    returns (e: nat)
    requires Sound(c, s, {}, 0) && n <= |s.vRandom| && Yields(c, s, n, ids, wanted, pick, nNow, r)
    requires Gathered(s, n, ids, nNow) && |ids| <= wanted
    ensures StoppedAt(r, wanted, nNow, e)
    decreases |s.vRandom| - n, 1
  {
    if n == |s.vRandom| || |ids| >= wanted {
      e := n;
      StopsHere(c, s, n, ids, wanted, pick, nNow, r);
    } else {
      e := StopsLater(c, s, n, ids, wanted, pick, nNow, r);
    }
  }

  lemma {:induction false} StopsLater(c: Config, s: Tables, n: nat, ids: seq<int>, wanted: nat, pick: nat -> nat, nNow: int, r: Picked)
    returns (e: nat)
    requires Sound(c, s, {}, 0) && n < |s.vRandom| && Yields(c, s, n, ids, wanted, pick, nNow, r)
    requires Gathered(s, n, ids, nNow) && |ids| < wanted
    ensures StoppedAt(r, wanted, nNow, e)
    decreases |s.vRandom| - n, 0
  {
    var m := Shuffle(c, s, n, pick(n));
    GatherNext(c, s, n, ids, wanted, pick, nNow, r);
    var ids' := Keep(m, n, ids, nNow);
    assert |ids'| <= wanted;
    assert |m.vRandom| == |s.vRandom|;
    e := GetAddrStops(c, m, n + 1, ids', wanted, pick, nNow, r);
  }

  /** GetAddr_ returns distinct entries, none of them terrible, at most 2500 and
      at most 23 per cent of all; and if it returns fewer than that many, it
      returns every entry that is not terrible. */
  lemma GetAddrExact(c: Config, s: Tables, pick: nat -> nat, nNow: int)
    requires Consistent(c, s)
    ensures var r := GetAddr(c, s, pick, nNow);
            && Consistent(c, r.tables) && Evolves(s, r.tables)
            && |r.ids| <= GETADDR_MAX && 100 * |r.ids| <= GETADDR_MAX_PCT * |s.vRandom|
            && (forall i :: 0 <= i < |r.ids| ==> r.ids[i] in r.tables.mapInfo && !IsTerrible(r.tables.mapInfo[r.ids[i]], nNow))
            && (forall i, j :: 0 <= i < j < |r.ids| ==> r.ids[i] != r.ids[j])
            && (|r.ids| < NodesWanted(|s.vRandom|) ==>
                  forall id :: id in r.tables.mapInfo && !IsTerrible(r.tables.mapInfo[id], nNow) ==> id in r.ids)
  {
    var r := GetAddr(c, s, pick, nNow);
    EvolvesCollisions(c, s, r.tables);
    var e := GetAddrStops(c, s, 0, [], NodesWanted(|s.vRandom|), pick, nNow, r);
    forall i | 0 <= i < |r.ids|
      ensures r.ids[i] in r.tables.mapInfo && !IsTerrible(r.tables.mapInfo[r.ids[i]], nNow)
    {
      assert PickedAt(r.tables, e, r.ids, nNow, i);
    }
    if |r.ids| < NodesWanted(|s.vRandom|) {
      forall id | id in r.tables.mapInfo && !IsTerrible(r.tables.mapInfo[id], nNow)
        ensures id in r.ids
      {
        assert HasPlace(r.tables.mapInfo, r.tables.vRandom, id);
        assert NotSkipped(r.tables, e, r.ids, nNow, r.tables.mapInfo[id].nRandomPos);
      }
    }
  }

  // ---------------------------------------------------------------- collisions

  datatype Verdict = KeepPending | Erase | MoveAndErase

  /** What ResolveCollisions_ decides about one pending collision. */
  function Judge(c: Config, s: Tables, id: int, nNow: int): Verdict {
    if id !in s.mapInfo then Erase
    else
      var i := s.mapInfo[id];
      var t := TriedSlot(c, i.addr);
      if !c.valid(i.addr) then Erase
      else if t in s.vvTried && s.vvTried[t] in s.mapInfo then
        var o := s.mapInfo[s.vvTried[t]];
        if nNow - o.nLastSuccess < REPLACEMENT_HOURS * (60 * 60) then Erase
        else if nNow - o.nLastTry < REPLACEMENT_HOURS * (60 * 60) then
          if nNow - o.nLastTry > 60 then MoveAndErase else KeepPending
        else if nNow - i.nLastSuccess > TEST_WINDOW then MoveAndErase
        else KeepPending
      else MoveAndErase
  }

  ghost function ResolveOne(c: Config, s: Tables, id: int, nNow: int): (r: Tables)
    requires Consistent(c, s) && nNow > 0
    ensures Consistent(c, r) && Evolves(s, r)
  {
    var v := Judge(c, s, id, nNow);
    EvolvesRefl(s, s);
    if v.KeepPending? then s
    else if v.Erase? then
      ErasePending(c, s, id);
      s.(collisions := s.collisions - {id})
    else
      var g := Good(c, s, s.mapInfo[id].addr, false, nNow);
      GoodConsistent(c, s, s.mapInfo[id].addr, false, nNow);
      ErasePending(c, g, id);
      EvolvesTrans(s, g, g.(collisions := g.collisions - {id}));
      g.(collisions := g.collisions - {id})
  }

  lemma ErasePending(c: Config, s: Tables, id: int)
    requires Consistent(c, s)
    ensures var r := s.(collisions := s.collisions - {id});
            Consistent(c, r) && Evolves(s, r)
  {
    var r := s.(collisions := s.collisions - {id});
    EvolvesRefl(s, r);
    EvolvesCollisions(c, s, r);
  }

  predicate IsLeast(todo: set<int>, id: int) {
    id in todo && forall k :: k in todo ==> id <= k
  }

  lemma Element<T>(s: set<T>) returns (k: T)
    requires s != {}
    ensures k in s
  {
    k :| k in s;
  }

  lemma {:induction false} HasLeast(todo: set<int>)
    requires todo != {}
    ensures exists id :: IsLeast(todo, id)
    decreases |todo|
  {
    var k := Element(todo);
    var rest := todo - {k};
    if rest == {} {
      assert IsLeast(todo, k) by { forall j | j in todo ensures k <= j { assert j !in rest; } }
    } else {
      HasLeast(rest);
      var m :| IsLeast(rest, m);
      var l := if k < m then k else m;
      assert IsLeast(todo, l) by { forall j | j in todo ensures l <= j { assert j == k || j in rest; } }
    }
  }

  ghost function Least(todo: set<int>): (id: int)
    requires todo != {}
    ensures IsLeast(todo, id)
  {
    HasLeast(todo);
    var id :| IsLeast(todo, id);
    id
  }

  /** Pending collisions are looked at in increasing order of id. */
  ghost function ResolveFrom(c: Config, s: Tables, todo: set<int>, nNow: int): (r: Tables)
    requires Consistent(c, s) && nNow > 0
    ensures Consistent(c, r) && Evolves(s, r)
    decreases |todo|
  {
    EvolvesRefl(s, s);
    if todo == {} then s
    else
      var id := Least(todo);
      var m := ResolveOne(c, s, id, nNow);
      var r := ResolveFrom(c, m, todo - {id}, nNow);
      EvolvesTrans(s, m, r);
      r
  }

  /** SelectTriedCollision_: the entry that the pending collision `id` would evict.
      A pending id whose entry is gone is erased. */
  function SelectCollision(s: Tables, id: int): Tables {
    if id in s.collisions && id !in s.mapInfo then s.(collisions := s.collisions - {id}) else s
  }

  /** SelectTriedCollision_ only ever reads an existing tried entry. */
  lemma SelectReadsTried(c: Config, s: Tables, id: int)
    requires Consistent(c, s) && id in s.collisions && id in s.mapInfo
    ensures var t := TriedSlot(c, s.mapInfo[id].addr);
            && t in s.vvTried && s.vvTried[t] in s.mapInfo && s.mapInfo[s.vvTried[t]].fInTried
            && TriedSlot(c, s.mapInfo[s.vvTried[t]].addr) == t
  {
    assert CollisionOk(c, s, id);
    assert TriedSlotOk(c, s.mapInfo, s.vvTried, TriedSlot(c, s.mapInfo[id].addr));
  }

  // ---------------------------------------------------------------- every run

  datatype Op =
    | OpAdd(addr: Address, source: Ip, nTimePenalty: int, nNow: int, nRnd: nat)
    | OpGood(service: Service, testBeforeEvict: bool, nTime: int)
    | OpAttempt(service: Service, fCountFailure: bool, nTime: int)
    | OpConnected(service: Service, nTime: int)
    | OpSetServices(service: Service, nServices: Services)
    | OpGetAddr(pick: nat -> nat, nNow: int)
    | OpResolve(nNow: int)
    | OpSelect(id: int)

  /** Clocks are positive. */
  predicate Timely(op: Op) {
    match op
    case OpGood(_, _, nTime) => nTime > 0
    case OpAttempt(_, _, nTime) => nTime >= 0
    case OpResolve(nNow) => nNow > 0
    case _ => true
  }

  lemma StatisticsConsistent(c: Config, s: Tables, id: int, i: Info)
    requires Consistent(c, s) && id in s.mapInfo && OnlyStatistics(s.mapInfo[id], i) && TimeOk(i)
    ensures Consistent(c, With(s, id, i)) && Evolves(s, With(s, id, i))
  {
    StatisticsSound(c, s, id, i, {}, 0);
    EvolvesCollisions(c, s, With(s, id, i));
  }

  lemma AttemptConsistent(c: Config, s: Tables, addr: Service, fCountFailure: bool, nTime: int)
    requires Consistent(c, s) && nTime >= 0
    ensures Consistent(c, Attempt(s, addr, fCountFailure, nTime)) && Evolves(s, Attempt(s, addr, fCountFailure, nTime))
  {
    var id := FindExactly(s, addr);
    EvolvesRefl(s, s);
    if id != -1 {
      assert IdOk(s.nIdCount, s.mapInfo, id);
      StatisticsConsistent(c, s, id, Attempt(s, addr, fCountFailure, nTime).mapInfo[id]);
    }
  }

  lemma ConnectedConsistent(c: Config, s: Tables, addr: Service, nTime: int, nServices: Services)
    requires Consistent(c, s)
    ensures Consistent(c, Connected(s, addr, nTime)) && Evolves(s, Connected(s, addr, nTime))
    ensures Consistent(c, SetServices(s, addr, nServices)) && Evolves(s, SetServices(s, addr, nServices))
  {
    var id := FindExactly(s, addr);
    EvolvesRefl(s, s);
    if id != -1 {
      assert IdOk(s.nIdCount, s.mapInfo, id);
      StatisticsConsistent(c, s, id, s.mapInfo[id].(nTime := nTime));
      StatisticsConsistent(c, s, id, s.mapInfo[id].(nServices := nServices));
    }
  }

  ghost function Step(c: Config, s: Tables, op: Op): (r: Tables)
    requires Consistent(c, s) && Timely(op)
    ensures Consistent(c, r) && Evolves(s, r)
  {
    match op
    case OpAdd(addr, source, nTimePenalty, nNow, nRnd) =>
      AddConsistent(c, s, addr, source, nTimePenalty, nNow, nRnd);
      Add(c, s, addr, source, nTimePenalty, nNow, nRnd).tables
    case OpGood(service, testBeforeEvict, nTime) =>
      GoodConsistent(c, s, service, testBeforeEvict, nTime);
      Good(c, s, service, testBeforeEvict, nTime)
    case OpAttempt(service, fCountFailure, nTime) =>
      AttemptConsistent(c, s, service, fCountFailure, nTime);
      Attempt(s, service, fCountFailure, nTime)
    case OpConnected(service, nTime) =>
      ConnectedConsistent(c, s, service, nTime, 0);
      Connected(s, service, nTime)
    case OpSetServices(service, nServices) =>
      ConnectedConsistent(c, s, service, 0, nServices);
      SetServices(s, service, nServices)
    case OpGetAddr(pick, nNow) =>
      GetAddrExact(c, s, pick, nNow);
      GetAddr(c, s, pick, nNow).tables
    case OpResolve(nNow) =>
      ResolveFrom(c, s, s.collisions, nNow)
    case OpSelect(id) =>
      ErasePending(c, s, id);
      EvolvesRefl(s, s);
      SelectCollision(s, id)
  }

  ghost function Run(c: Config, s: Tables, ops: seq<Op>): Tables
    requires Consistent(c, s) && forall i :: 0 <= i < |ops| ==> Timely(ops[i])
    decreases |ops|
  {
    if ops == [] then s else Run(c, Step(c, s, ops[0]), ops[1..])
  }

  lemma {:induction false} RunConsistent(c: Config, s: Tables, ops: seq<Op>)
    requires Consistent(c, s) && forall i :: 0 <= i < |ops| ==> Timely(ops[i])
    ensures Consistent(c, Run(c, s, ops)) && Evolves(s, Run(c, s, ops))
    decreases |ops|
  {
    EvolvesRefl(s, s);
    if ops != [] {
      var m := Step(c, s, ops[0]);
      RunConsistent(c, m, ops[1..]);
      EvolvesTrans(s, m, Run(c, m, ops[1..]));
    }
  }

  /** Main result: after any operations on a fresh manager, every index is exact
      (see Sound) and every pending collision that still exists has an occupied
      tried slot. */
  lemma EveryRunIsConsistent(c: Config, ops: seq<Op>)
    requires forall i :: 0 <= i < |ops| ==> Timely(ops[i])
    ensures Consistent(c, Run(c, CLEARED, ops))
  {
    ClearedConsistent(c);
    RunConsistent(c, CLEARED, ops);
  }

  /** Between any two moments of a run a filled tried slot stays filled, and an
      id that is in use at both still means the same address. */
  lemma NothingIsUndone(c: Config, before: seq<Op>, after: seq<Op>)
    requires forall i :: 0 <= i < |before| ==> Timely(before[i])
    requires forall i :: 0 <= i < |after| ==> Timely(after[i])
    ensures (ClearedConsistent(c); RunConsistent(c, CLEARED, before);
             var s := Run(c, CLEARED, before); var r := Run(c, s, after);
             && (forall t :: t in s.vvTried ==> t in r.vvTried)
             && (forall id :: id in s.mapInfo && id in r.mapInfo ==> r.mapInfo[id].addr == s.mapInfo[id].addr)
             && (forall id :: id in r.mapInfo && id !in s.mapInfo ==> id >= s.nIdCount))
  {
    ClearedConsistent(c);
    RunConsistent(c, CLEARED, before);
    var s := Run(c, CLEARED, before);
    RunConsistent(c, s, after);
    var r := Run(c, s, after);
    forall id | id in s.mapInfo && id in r.mapInfo ensures r.mapInfo[id].addr == s.mapInfo[id].addr {
      assert KeepsAddr(s, r, id) && IdOk(s.nIdCount, s.mapInfo, id);
    }
    forall id | id in r.mapInfo && id !in s.mapInfo ensures id >= s.nIdCount {
      assert KeepsAddr(s, r, id);
    }
  }

  // ---------------------------------------------------------------- the purpose of the buckets

  /** Addresses of one group reach at most eight tried buckets. */
  lemma GroupReachesFewTried(c: Config, group: nat, buckets: set<nat>)
    requires forall b :: b in buckets ==> exists a: Service :: c.group(a.ip) == group && b == TriedBucket(c, a)
    ensures |buckets| <= 8
  {
    var f := (k: nat) => c.cheapHash([Group(group), Number(k)]) % TRIED_BUCKET_COUNT;
    forall b | b in buckets ensures InImage(f, TRIED_BUCKETS_PER_GROUP, b) {
      var a: Service :| c.group(a.ip) == group && b == TriedBucket(c, a);
      var k := c.cheapHash([ServiceKey(a)]) % TRIED_BUCKETS_PER_GROUP;
      ImageWitness(f, TRIED_BUCKETS_PER_GROUP, k);
      assert f(k) == b;
    }
    ImageIsSmall(f, TRIED_BUCKETS_PER_GROUP, buckets);
  }

  /** Entries learnt from one source group reach at most sixty-four new buckets. */
  lemma GroupReachesFewNew(c: Config, group: nat, buckets: set<nat>)
    requires forall b :: b in buckets ==> exists a: Service, src: Ip :: c.group(src) == group && b == NewBucket(c, a, src)
    ensures |buckets| <= 64
  {
    var g := (k: nat) => c.cheapHash([Group(group), Number(k)]) % NEW_BUCKET_COUNT;
    forall b | b in buckets ensures InImage(g, NEW_BUCKETS_PER_SOURCE_GROUP, b) {
      var a: Service, src: Ip :| c.group(src) == group && b == NewBucket(c, a, src);
      var k := c.cheapHash([Group(c.group(a.ip)), Group(c.group(src))]) % NEW_BUCKETS_PER_SOURCE_GROUP;
      ImageWitness(g, NEW_BUCKETS_PER_SOURCE_GROUP, k);
      assert g(k) == b;
    }
    ImageIsSmall(g, NEW_BUCKETS_PER_SOURCE_GROUP, buckets);
  }

  ghost predicate InImage(f: nat -> nat, n: nat, b: nat) {
    exists k: nat :: k < n && f(k) == b
  }

  lemma ImageWitness(f: nat -> nat, n: nat, k: nat)
    requires k < n
    ensures InImage(f, n, f(k))
  {}

  lemma {:induction false} ImageIsSmall(f: nat -> nat, n: nat, s: set<nat>)
    requires forall b :: b in s ==> InImage(f, n, b)
    ensures |s| <= n
  {
    if n == 0 {
      if s != {} {
        var b := Element(s);
        assert false;
      }
    } else {
      var rest := s - {f(n - 1)};
      forall b | b in rest ensures InImage(f, n - 1, b) {
        assert InImage(f, n, b);
        var k: nat :| k < n && f(k) == b;
      }
      ImageIsSmall(f, n - 1, rest);
      SubsetCard(s, rest + {f(n - 1)});
    }
  }
}
