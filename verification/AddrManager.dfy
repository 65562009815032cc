/**
 The address manager object.  The bucket tables are fixed-size arrays with -1 for
 an empty slot; every method is proved against the function of the same name on
 the state as a value, and the assertions of the original are preconditions and
 assertions here.
 */
module AddrManager {
  import opened AddrMan
  import opened Common
  import Ops = AddrManOps

  const EMPTY := -1

  /** The occupied slots of a table. */
  ghost function TableOf(a: array2<int>): Table
    reads a
  {
    map b: nat, p: nat | b < a.Length0 && p < a.Length1 && a[b, p] != EMPTY :: Slot(b, p) := a[b, p]
  }

  lemma TableAt(a: array2<int>, t: Slot)
    requires t.bucket < a.Length0 && t.pos < a.Length1
    ensures t in TableOf(a) <==> a[t.bucket, t.pos] != EMPTY
    ensures t in TableOf(a) ==> TableOf(a)[t] == a[t.bucket, t.pos]
  {
    assert Slot(t.bucket, t.pos) == t;
  }

  method SetSlot(a: array2<int>, t: Slot, id: int)
    requires t.bucket < a.Length0 && t.pos < a.Length1
    modifies a
    ensures TableOf(a) == if id == EMPTY then old(TableOf(a)) - {t} else old(TableOf(a))[t := id]
    ensures a[t.bucket, t.pos] == id
  {
    a[t.bucket, t.pos] := id;
    ghost var r := if id == EMPTY then old(TableOf(a)) - {t} else old(TableOf(a))[t := id];
    assert TableOf(a).Keys == r.Keys;
  }

  class Manager {
    const cfg: Config
    var nIdCount: int
    var mapInfo: map<int, Info>
    var mapAddr: map<Ip, int>
    var vRandom: seq<int>
    var nTried: int
    const vvTried: array2<int>
    var nNew: int
    const vvNew: array2<int>
    var nLastGood: int
    var collisions: set<int>

    ghost predicate Shaped() {
      && vvTried.Length0 == TRIED_BUCKET_COUNT && vvTried.Length1 == BUCKET_SIZE
      && vvNew.Length0 == NEW_BUCKET_COUNT && vvNew.Length1 == BUCKET_SIZE
      && vvTried != vvNew
    }

    ghost function State(): Tables
      reads this, vvTried, vvNew
    {
      Tables(nIdCount, mapInfo, mapAddr, vRandom, nTried, TableOf(vvTried), nNew, TableOf(vvNew), nLastGood, collisions)
    }

    ghost predicate Valid()
      reads this, vvTried, vvNew
    {
      Shaped() && Consistent(cfg, State())
    }

    constructor (config: Config)
      ensures Valid() && cfg == config && State() == CLEARED
      ensures fresh(vvTried) && fresh(vvNew)
    {
      cfg := config;
      nIdCount, mapInfo, mapAddr, vRandom := 0, map[], map[], [];
      nTried, nNew, nLastGood, collisions := 0, 0, 1, {};
      vvTried := new int[TRIED_BUCKET_COUNT, BUCKET_SIZE]((i, j) => EMPTY);
      vvNew := new int[NEW_BUCKET_COUNT, BUCKET_SIZE]((i, j) => EMPTY);
      new;
      assert TableOf(vvTried) == map[] && TableOf(vvNew) == map[];
      ClearedConsistent(cfg);
    }

    method Find(ip: Ip) returns (id: int)
      ensures id == AddrMan.Find(State(), ip)
    {
      if ip in mapAddr && mapAddr[ip] in mapInfo { id := mapAddr[ip]; } else { id := -1; }
    }

    method Create(addr: Address, source: Ip) returns (id: int)
      modifies this
      ensures id == old(nIdCount) && State() == AddrMan.Create(old(State()), addr, source)
    {
      id := nIdCount;
      nIdCount := nIdCount + 1;
      mapInfo := mapInfo[id := NewInfo(addr, source)];
      mapAddr := mapAddr[addr.service.ip := id];
      mapInfo := mapInfo[id := mapInfo[id].(nRandomPos := |vRandom|)];
      vRandom := vRandom + [id];
    }

    method SwapRandom(p1: int, p2: int)
      requires 0 <= p1 < |vRandom| && 0 <= p2 < |vRandom|
      requires vRandom[p1] in mapInfo && vRandom[p2] in mapInfo
      modifies `mapInfo, `vRandom
      ensures State() == AddrMan.SwapRandom(old(State()), p1, p2)
    {
      if p1 == p2 { return; }
      var id1, id2 := vRandom[p1], vRandom[p2];
      mapInfo := mapInfo[id1 := mapInfo[id1].(nRandomPos := p2)];
      mapInfo := mapInfo[id2 := mapInfo[id2].(nRandomPos := p1)];
      vRandom := vRandom[p1 := id2];
      vRandom := vRandom[p2 := id1];
    }

    method DropLast(id: int)
      requires id in mapInfo && |vRandom| > 0
      modifies `vRandom, `mapAddr, `mapInfo, `nNew
      ensures State() == DropEntry(old(State()), id)
    {
      vRandom := vRandom[..|vRandom| - 1];
      mapAddr := mapAddr - {mapInfo[id].addr.ip};
      mapInfo := mapInfo - {id};
      nNew := nNew - 1;
    }

    method Delete(id: int)
      requires RandomOk(mapInfo, vRandom)
      requires id in mapInfo && !mapInfo[id].fInTried && mapInfo[id].nRefCount == 0
      modifies this
      ensures State() == AddrMan.Delete(old(State()), id)
    {
      assert HasPlace(mapInfo, vRandom, id) && PlaceHolds(mapInfo, vRandom, |vRandom| - 1);
      SwapRandom(mapInfo[id].nRandomPos, |vRandom| - 1);
      DropLast(id);
    }

    method ClearNew(t: Slot, ghost x: set<int>, ghost d: int)
      requires Shaped() && Sound(cfg, State(), x, d)
      requires t.bucket < NEW_BUCKET_COUNT && t.pos < BUCKET_SIZE
      modifies this, vvNew
      ensures t in old(TableOf(vvNew)) ==> old(TableOf(vvNew))[t] in old(mapInfo)
      ensures State() == AddrMan.ClearNew(old(State()), t)
      ensures vvNew[t.bucket, t.pos] == EMPTY
    {
      TableAt(vvNew, t);
      ghost var s := State();
      if vvNew[t.bucket, t.pos] != EMPTY {
        var id := vvNew[t.bucket, t.pos];
        UnreferSound(cfg, s, t, x, d);
        UnreferOrder(s, t);
        assert mapInfo[id].nRefCount > 0;
        mapInfo := mapInfo[id := mapInfo[id].(nRefCount := mapInfo[id].nRefCount - 1)];
        SetSlot(vvNew, t, EMPTY);
        assert State() == Unrefer(s, t);
        if mapInfo[id].nRefCount == 0 {
          Delete(id);
        }
      }
    }

    method RemoveFromSlot(id: int, t: Slot)
      requires Shaped() && id in mapInfo && id != EMPTY
      requires t.bucket < NEW_BUCKET_COUNT && t.pos < BUCKET_SIZE
      modifies `mapInfo, vvNew
      ensures State() == UnreferIf(old(State()), id, t)
    {
      TableAt(vvNew, t);
      if vvNew[t.bucket, t.pos] == id {
        SetSlot(vvNew, t, EMPTY);
        mapInfo := mapInfo[id := mapInfo[id].(nRefCount := mapInfo[id].nRefCount - 1)];
      }
    }

    /** The first loop of MakeTried: walk all new buckets. */
    method RemoveFromNew(id: int)
      requires Shaped() && id in mapInfo && id != EMPTY
      requires AtHome(cfg, mapInfo[id].addr, TableOf(vvNew), id)
      modifies `mapInfo, vvNew
      ensures State() == Strip(old(State()), id)
    {
      ghost var s := State();
      var addr, n := mapInfo[id].addr, NEW_BUCKET_COUNT;
      for bucket := 0 to n
        invariant n == NEW_BUCKET_COUNT && id in mapInfo && State() == StripRounds(cfg, s, id, addr, bucket)
      {
        RemoveFromSlot(id, NewSlot(cfg, addr, bucket));
      }
      StripEnds(cfg, s, id, n);
    }

    method EvictFrom(t: Slot)
      requires Shaped() && t.bucket < TRIED_BUCKET_COUNT && t.pos < BUCKET_SIZE
      requires t in TableOf(vvTried) && TableOf(vvTried)[t] in mapInfo
      modifies `mapInfo, `nTried, vvTried
      ensures State() == Evict(old(State()), t)
      ensures vvTried[t.bucket, t.pos] == EMPTY
    {
      TableAt(vvTried, t);
      var evicted := vvTried[t.bucket, t.pos];
      assert evicted in mapInfo;
      mapInfo := mapInfo[evicted := mapInfo[evicted].(fInTried := false)];
      SetSlot(vvTried, t, EMPTY);
      nTried := nTried - 1;
    }

    /** Let a free slot of the new table hold an entry. */
    method ReferTo(id: int, t: Slot)
      requires Shaped() && id in mapInfo && id != EMPTY
      requires t.bucket < NEW_BUCKET_COUNT && t.pos < BUCKET_SIZE
      modifies `mapInfo, vvNew
      ensures State() == Refer(old(State()), id, t)
    {
      mapInfo := mapInfo[id := mapInfo[id].(nRefCount := mapInfo[id].nRefCount + 1)];
      SetSlot(vvNew, t, id);
    }

    method ReferBackTo(id: int, t: Slot)
      requires Shaped() && id in mapInfo && id != EMPTY
      requires t.bucket < NEW_BUCKET_COUNT && t.pos < BUCKET_SIZE
      modifies `mapInfo, `nNew, vvNew
      ensures State() == ReferBack(old(State()), id, t)
    {
      ReferTo(id, t);
      nNew := nNew + 1;
    }

    method EnterTried(id: int, t: Slot)
      requires Shaped() && id in mapInfo && id != EMPTY
      requires t.bucket < TRIED_BUCKET_COUNT && t.pos < BUCKET_SIZE && vvTried[t.bucket, t.pos] == EMPTY
      modifies `mapInfo, `nTried, vvTried
      ensures State() == PutTried(old(State()), id, t)
    {
      SetSlot(vvTried, t, id);
      nTried := nTried + 1;
      mapInfo := mapInfo[id := mapInfo[id].(fInTried := true)];
    }

    /** MakeTried's eviction of the entry in the way. */
    method MakeSpace(id: int, t: Slot)
      requires Shaped() && Sound(cfg, State(), {id}, 1)
      requires id in mapInfo && !mapInfo[id].fInTried && mapInfo[id].nRefCount == 0
      requires t.bucket < TRIED_BUCKET_COUNT && t.pos < BUCKET_SIZE && t in TableOf(vvTried)
      modifies this, vvNew, vvTried
      ensures t in old(State()).vvTried && State() == Demote(cfg, old(State()), id, t)
    {
      ghost var s := State();
      DemoteSteps(cfg, s, id, t);
      TableAt(vvTried, t);
      var evicted := vvTried[t.bucket, t.pos];
      EvictFrom(t);
      var home := HomeSlot(cfg, mapInfo[evicted]);
      ClearNew(home, {id} + {evicted}, 2);
      assert vvNew[home.bucket, home.pos] == EMPTY && mapInfo[evicted].nRefCount == 0;
      ReferBackTo(evicted, home);
    }

    method MakeTried(id: int)
      requires Shaped() && Sound(cfg, State(), {}, 0)
      requires id in mapInfo && !mapInfo[id].fInTried && mapInfo[id].nLastSuccess != 0
      modifies this, vvNew, vvTried
      ensures State() == AddrMan.MakeTried(cfg, old(State()), id)
    {
      ghost var s := State();
      SoundAtHome(cfg, s, id);
      DetachSound(cfg, s, id);
      RemoveFromNew(id);
      nNew := nNew - 1;
      assert mapInfo[id].nRefCount == 0;
      var t := TriedSlot(cfg, mapInfo[id].addr);
      ghost var m := State();
      MakeRoomSound(cfg, m, id, t);
      TableAt(vvTried, t);
      if vvTried[t.bucket, t.pos] != EMPTY {
        MakeSpace(id, t);
      }
      ghost var n := State();
      assert n == MakeRoom(cfg, m, id, t);
      TableAt(vvTried, t);
      assert vvTried[t.bucket, t.pos] == EMPTY;
      assert Survives(m.mapInfo, n.mapInfo, id) && IdOk(s.nIdCount, s.mapInfo, id);
      EnterTried(id, t);
    }

    /** Good_'s search for a bucket that holds the entry, from a random start. */
    method FindBucket(id: int, nRnd: nat) returns (nUBucket: int)
      requires Shaped() && id in mapInfo && nRnd < NEW_BUCKET_COUNT
      ensures nUBucket == -1 <==> !Ops.InSomeBucket(cfg, State(), id)
      ensures nUBucket != -1 ==> 0 <= nUBucket < NEW_BUCKET_COUNT && Ops.HeldIn(cfg, State(), id, nUBucket)
    {
      for n := 0 to NEW_BUCKET_COUNT
        invariant forall b: nat :: b < NEW_BUCKET_COUNT && Visited(b, nRnd, n) ==> !Ops.HeldIn(cfg, State(), id, b)
      {
        var nB := (n + nRnd) % NEW_BUCKET_COUNT;
        var t := NewSlot(cfg, mapInfo[id].addr, nB);
        TableAt(vvNew, t);
        if vvNew[t.bucket, t.pos] == id && id != EMPTY {
          assert Ops.HeldIn(cfg, State(), id, nB);
          return nB;
        }
        assert !Ops.HeldIn(cfg, State(), id, nB);
      }
      nUBucket := -1;
    }

    method Good_(addr: Service, testBeforeEvict: bool, nTime: int, nRnd: nat)
      requires Valid() && nTime > 0 && nRnd < NEW_BUCKET_COUNT
      modifies this, vvNew, vvTried
      ensures Valid() && State() == Ops.Good(cfg, old(State()), addr, testBeforeEvict, nTime)
      ensures collisions <= old(collisions) + {Ops.FindExactly(old(State()), addr)}
      ensures !testBeforeEvict ==> collisions == old(collisions)
    {
      ghost var s := State();
      Ops.GoodConsistent(cfg, s, addr, testBeforeEvict, nTime);
      nLastGood := nTime;
      var id := Find(addr.ip);
      if id == -1 { return; }
      if mapInfo[id].addr != addr { return; }
      mapInfo := mapInfo[id := mapInfo[id].(nLastSuccess := nTime, nLastTry := nTime, nAttempts := 0)];
      Ops.GoodStatsSound(cfg, s, id, nTime);
      ghost var m := State();
      assert m == With(s.(nLastGood := nTime), id, Ops.GoodStats(s.mapInfo[id], nTime));
      if mapInfo[id].fInTried { return; }
      var nUBucket := FindBucket(id, nRnd);
      Ops.AlwaysInSomeBucket(cfg, m, id);
      assert nUBucket != -1;
      PromoteOrPend(id, testBeforeEvict);
    }

    /** The last part of Good_. */
    method PromoteOrPend(id: int, testBeforeEvict: bool)
      requires Shaped() && Sound(cfg, State(), {}, 0)
      requires id in mapInfo && !mapInfo[id].fInTried && mapInfo[id].nLastSuccess != 0
      modifies this, vvNew, vvTried
      ensures State() == Ops.Promote(cfg, old(State()), id, testBeforeEvict)
      ensures collisions <= old(collisions) + {id}
      ensures !testBeforeEvict ==> collisions == old(collisions)
    {
      var t := TriedSlot(cfg, mapInfo[id].addr);
      TableAt(vvTried, t);
      if testBeforeEvict && vvTried[t.bucket, t.pos] != EMPTY {
        if |collisions| < SET_TRIED_COLLISION_SIZE {
          collisions := collisions + {id};
        }
      } else {
        MakeTriedSound(cfg, State(), id);
        MakeTried(id);
      }
    }

    method Attempt_(addr: Service, fCountFailure: bool, nTime: int)
      requires Valid() && nTime >= 0
      modifies `mapInfo
      ensures Valid() && State() == Ops.Attempt(old(State()), addr, fCountFailure, nTime)
    {
      Ops.AttemptConsistent(cfg, State(), addr, fCountFailure, nTime);
      var id := Find(addr.ip);
      if id == -1 || mapInfo[id].addr != addr { return; }
      var info := mapInfo[id].(nLastTry := nTime);
      if fCountFailure && info.nLastCountAttempt < nLastGood {
        info := info.(nLastCountAttempt := nTime, nAttempts := info.nAttempts + 1);
      }
      mapInfo := mapInfo[id := info];
    }

    method Connected_(addr: Service, nTime: int)
      requires Valid()
      modifies `mapInfo
      ensures Valid() && State() == Ops.Connected(old(State()), addr, nTime)
    {
      Ops.ConnectedConsistent(cfg, State(), addr, nTime, 0);
      var id := Find(addr.ip);
      if id == -1 || mapInfo[id].addr != addr { return; }
      var nUpdateInterval := 20 * 60;
      if nTime - mapInfo[id].nTime > nUpdateInterval {
        mapInfo := mapInfo[id := mapInfo[id].(nTime := nTime)];
      }
    }

    method SetServices_(addr: Service, nServices: Services)
      requires Valid()
      modifies `mapInfo
      ensures Valid() && State() == Ops.SetServices(old(State()), addr, nServices)
    {
      Ops.ConnectedConsistent(cfg, State(), addr, 0, nServices);
      var id := Find(addr.ip);
      if id == -1 || mapInfo[id].addr != addr { return; }
      mapInfo := mapInfo[id := mapInfo[id].(nServices := nServices)];
    }

    /** The second half of Add_. */
    method PlaceInNew(id: int, source: Ip, nNow: int)
      requires Shaped() && Sound(cfg, State(), {id}, 0) && id in mapInfo && !mapInfo[id].fInTried
      requires mapInfo[id].nRefCount < NEW_BUCKETS_PER_ADDRESS
      modifies this, vvNew
      ensures State() == Ops.Place(cfg, old(State()), id, source, nNow)
    {
      ghost var s := State();
      assert IdOk(s.nIdCount, s.mapInfo, id);
      var t := NewSlot(cfg, mapInfo[id].addr, NewBucket(cfg, mapInfo[id].addr, source));
      TableAt(vvNew, t);
      assert NewSlotOk(cfg, s.mapInfo, s.vvNew, t);
      if vvNew[t.bucket, t.pos] != id {
        var fInsert := vvNew[t.bucket, t.pos] == EMPTY;
        if !fInsert {
          var existing := mapInfo[vvNew[t.bucket, t.pos]];
          if IsTerrible(existing, nNow) || (existing.nRefCount > 1 && mapInfo[id].nRefCount == 0) {
            fInsert := true;
          }
        }
        if fInsert {
          ClearNewSound(cfg, s, t, {id}, 0);
          ClearNew(t, {id}, 0);
          assert Survives(s.mapInfo, mapInfo, id);
          ReferTo(id, t);
        } else if mapInfo[id].nRefCount == 0 {
          Delete(id);
        }
      }
    }

    method Add_(addr: Address, source: Ip, nTimePenaltyIn: int, nNow: int, nRnd: nat) returns (fNew: bool)
      requires Valid()
      modifies this, vvNew
      ensures Valid()
      ensures Ops.Added(State(), fNew) == Ops.Add(cfg, old(State()), addr, source, nTimePenaltyIn, nNow, nRnd)
    {
      ghost var s := State();
      Ops.AddConsistent(cfg, s, addr, source, nTimePenaltyIn, nNow, nRnd);
      if !cfg.routable(addr.service) { return false; }
      var nTimePenalty := if addr.service.ip == source then 0 else nTimePenaltyIn;
      var id := Find(addr.service.ip);
      if id != -1 {
        AddKnown(id, addr, source, nTimePenalty, nNow, nRnd);
        fNew := false;
      } else {
        FindExact(s, addr.service.ip);
        AddUnknown(addr, source, nTimePenalty, nNow);
        fNew := true;
      }
    }

    method AddKnown(id: int, addr: Address, source: Ip, nTimePenalty: int, nNow: int, nRnd: nat)
      requires Shaped() && Sound(cfg, State(), {}, 0) && id in mapInfo
      modifies this, vvNew
      ensures State() == Ops.AddKnown(cfg, old(State()), id, addr, source, nTimePenalty, nNow, nRnd)
    {
      ghost var s := State();
      Ops.RefreshSound(cfg, s, id, addr, nTimePenalty, nNow);
      mapInfo := mapInfo[id := Ops.Refresh(mapInfo[id], addr, nTimePenalty, nNow)];
      ghost var m := State();
      assert RefCountOk(m.mapInfo, m.vvNew, {}, id);
      var stop := Unlucky(mapInfo[id], addr, nRnd);
      if !stop {
        PlaceInNew(id, source, nNow);
      }
    }

    method AddUnknown(addr: Address, source: Ip, nTimePenalty: int, nNow: int)
      requires Shaped() && Sound(cfg, State(), {}, 0) && addr.service.ip !in mapAddr
      modifies this, vvNew
      ensures State() == Ops.AddUnknown(cfg, old(State()), addr, source, nTimePenalty, nNow)
    {
      ghost var s := State();
      Ops.AdmitSound(cfg, s, addr, source, nTimePenalty);
      var id := AdmitEntry(addr, source, nTimePenalty);
      PlaceInNew(id, source, nNow);
    }

    method AdmitEntry(addr: Address, source: Ip, nTimePenalty: int) returns (id: int)
      modifies this
      ensures id == old(nIdCount) && State() == Ops.Admit(old(State()), addr, source, nTimePenalty)
    {
      id := Create(addr, source);
      mapInfo := mapInfo[id := mapInfo[id].(nTime := Max(0, mapInfo[id].nTime - nTimePenalty))];
      nNew := nNew + 1;
    }

    /** Add_'s reasons not to refer to an entry again, with its doubling loop. */
    method Unlucky(info: Info, addr: Address, nRnd: nat) returns (stop: bool)
      requires 0 <= info.nRefCount
      ensures stop == Ops.NotReferredAgain(info, addr, nRnd)
    {
      if addr.nTime == 0 || (info.nTime != 0 && addr.nTime <= info.nTime) { return true; }
      if info.fInTried { return true; }
      if info.nRefCount == NEW_BUCKETS_PER_ADDRESS { return true; }
      var nFactor := 1;
      for n := 0 to info.nRefCount
        invariant nFactor == Ops.Factor(n) && nFactor >= 1
      {
        nFactor := nFactor * 2;
      }
      return nFactor > 1 && nRnd % nFactor != 0;
    }

    /** One round of GetAddr_: a random one of the remaining ids moves to position n. */
    method ShuffleTo(n: nat, rnd: nat, ghost s: Tables)
      requires State() == s && Sound(cfg, s, {}, 0) && n < |vRandom|
      modifies `mapInfo, `vRandom
      ensures State() == Ops.Shuffle(cfg, s, n, rnd)
    {
      var nRndPos := Ops.Draw(|vRandom|, n, rnd);
      assert vRandom[n] in mapInfo && vRandom[nRndPos] in mapInfo by { SwapSound(cfg, s, n, nRndPos, {}, 0); }
      SwapRandom(n, nRndPos);
    }

    /** The loop of GetAddr_; its result is that of the loop on values. */
    method Gather(pick: nat -> nat, nNow: int, nNodes: nat, ghost s: Tables, ghost goal: Ops.Picked) returns (vAddr: seq<Address>)
      requires State() == s && Sound(cfg, s, {}, 0) && goal == Ops.GetAddrFrom(cfg, s, 0, [], nNodes, pick, nNow)
      modifies `mapInfo, `vRandom
      ensures State() == goal.tables && IsAddressesOf(vAddr, mapInfo, goal.ids)
    {
      vAddr := [];
      ghost var ids: seq<int>, m := [], s;
      var n := 0;
      while n < |vRandom| && |vAddr| < nNodes
        invariant n <= |m.vRandom| && Sound(cfg, m, {}, 0) && State() == m
        invariant IsAddressesOf(vAddr, m.mapInfo, ids)
        invariant Ops.GetAddrFrom(cfg, m, n, ids, nNodes, pick, nNow) == goal
        decreases |vRandom| - n
      {
        ghost var next := Ops.Shuffle(cfg, m, n, pick(n));
        Ops.GetAddrNext(cfg, m, n, ids, nNodes, pick, nNow);
        assert IsAddressesOf(vAddr, next.mapInfo, ids) by {
          Ops.ShuffleOrder(cfg, m, n, pick(n));
          ShuffleKeepsAddresses(m.mapInfo, next.mapInfo, vAddr, ids);
        }
        ShuffleTo(n, pick(n), m);
        m := next;
        TakesAddress(m, n, vAddr, ids, nNow);
        ids := Ops.Keep(m, n, ids, nNow);
        if !IsTerrible(mapInfo[vRandom[n]], nNow) {
          vAddr := vAddr + [Ops.AddressOf(mapInfo[vRandom[n]])];
        }
        n := n + 1;
      }
      Ops.GetAddrDone(cfg, m, n, ids, nNodes, pick, nNow);
    }

    /** `pick` stands for the random draws. */
    method GetAddr_(pick: nat -> nat, nNow: int) returns (vAddr: seq<Address>)
      requires Valid()
      modifies `mapInfo, `vRandom
      ensures Valid() && State() == Ops.GetAddr(cfg, old(State()), pick, nNow).tables
      ensures IsAddressesOf(vAddr, mapInfo, Ops.GetAddr(cfg, old(State()), pick, nNow).ids)
    {
      ghost var s := State();
      ghost var goal := Ops.GetAddr(cfg, s, pick, nNow);
      assert Consistent(cfg, goal.tables) by { Ops.GetAddrExact(cfg, s, pick, nNow); }
      var nNodes := GETADDR_MAX_PCT * |vRandom| / 100;
      if nNodes > GETADDR_MAX { nNodes := GETADDR_MAX; }
      vAddr := Gather(pick, nNow, nNodes, s, goal);
    }

    /** What ResolveCollisions_ does about one pending collision. */
    method JudgeCollision(id: int, nNow: int) returns (v: Ops.Verdict)
      requires Valid()
      ensures v == Ops.Judge(cfg, State(), id, nNow)
    {
      if id !in mapInfo { return Ops.Erase; }
      var info := mapInfo[id];
      var t := TriedSlot(cfg, info.addr);
      TableAt(vvTried, t);
      if !cfg.valid(info.addr) { return Ops.Erase; }
      if vvTried[t.bucket, t.pos] == EMPTY { return Ops.MoveAndErase; }
      assert TriedSlotOk(cfg, State().mapInfo, State().vvTried, t);
      var old_ := mapInfo[vvTried[t.bucket, t.pos]];
      if nNow - old_.nLastSuccess < REPLACEMENT_HOURS * (60 * 60) { return Ops.Erase; }
      if nNow - old_.nLastTry < REPLACEMENT_HOURS * (60 * 60) {
        return if nNow - old_.nLastTry > 60 then Ops.MoveAndErase else Ops.KeepPending;
      }
      return if nNow - info.nLastSuccess > TEST_WINDOW then Ops.MoveAndErase else Ops.KeepPending;
    }

    method ResolveCollision(id: int, nNow: int, nRnd: nat)
      requires Valid() && nNow > 0 && nRnd < NEW_BUCKET_COUNT
      modifies this, vvNew, vvTried
      ensures Valid() && State() == Ops.ResolveOne(cfg, old(State()), id, nNow)
    {
      ghost var r := Ops.ResolveOne(cfg, State(), id, nNow);
      var v := JudgeCollision(id, nNow);
      if v == Ops.MoveAndErase {
        Good_(mapInfo[id].addr, false, nNow, nRnd);
      }
      if v != Ops.KeepPending {
        collisions := collisions - {id};
      }
      assert State() == r;
    }

    /** `rnd` stands for the random draws of the nested Good_ calls. */
    method ResolveCollisions_(nNow: int, rnd: int -> nat)
      requires Valid() && nNow > 0
      modifies this, vvNew, vvTried
      ensures Valid() && State() == Ops.ResolveFrom(cfg, old(State()), old(collisions), nNow)
    {
      ghost var goal := Ops.ResolveFrom(cfg, State(), collisions, nNow);
      var todo := collisions;
      while todo != {}
        invariant Valid() && Ops.ResolveFrom(cfg, State(), todo, nNow) == goal
        decreases |todo|
      {
        var id := LeastOf(todo);
        LeastUnique(todo, id);
        ResolveCollision(id, nNow, rnd(id) % NEW_BUCKET_COUNT);
        todo := todo - {id};
      }
    }

    /** `id` is the randomly drawn pending collision.  The entry returned is in
        the tried table, in the slot the pending entry wants. */
    method SelectTriedCollision_(id: int) returns (found: bool, info: Info)
      requires Valid() && (collisions != {} ==> id in collisions)
      modifies `collisions
      ensures Valid()
      ensures found <==> id in old(collisions) && id in mapInfo
      ensures old(collisions) != {} ==> State() == Ops.SelectCollision(old(State()), id)
      ensures found ==> info.fInTried && TriedSlot(cfg, info.addr) == TriedSlot(cfg, mapInfo[id].addr)
    {
      ghost var s := State();
      info := NewInfo(Address(Service(0, 0), 0, 0), 0);
      if |collisions| == 0 {
        assert collisions == {};
        return false, info;
      }
      Ops.ErasePending(cfg, s, id);
      if id !in mapInfo {
        collisions := collisions - {id};
        return false, info;
      }
      Ops.SelectReadsTried(cfg, s, id);
      var t := TriedSlot(cfg, mapInfo[id].addr);
      TableAt(vvTried, t);
      return true, mapInfo[vvTried[t.bucket, t.pos]];
    }
  }

  ghost predicate IsAddressesOf(vAddr: seq<Address>, info: InfoMap, ids: seq<int>) {
    && |vAddr| == |ids|
    && forall i :: 0 <= i < |ids| ==> ids[i] in info && vAddr[i] == Ops.AddressOf(info[ids[i]])
  }

  lemma ShuffleKeepsAddresses(info: InfoMap, info': InfoMap, vAddr: seq<Address>, ids: seq<int>)
    requires SameButOrder(info, info') && IsAddressesOf(vAddr, info, ids)
    ensures IsAddressesOf(vAddr, info', ids)
  {
    forall i | 0 <= i < |ids| ensures ids[i] in info' && vAddr[i] == Ops.AddressOf(info'[ids[i]]) {
      assert SameButPlace(info, info', ids[i]);
    }
  }

  lemma TakesAddress(s: Tables, n: nat, vAddr: seq<Address>, ids: seq<int>, nNow: int)
    requires IsAddressesOf(vAddr, s.mapInfo, ids) && n < |s.vRandom| && s.vRandom[n] in s.mapInfo
    ensures var i := s.mapInfo[s.vRandom[n]];
            IsAddressesOf(if IsTerrible(i, nNow) then vAddr else vAddr + [Ops.AddressOf(i)], s.mapInfo, Ops.Keep(s, n, ids, nNow))
  {
  }

  method LeastOf(todo: set<int>) returns (id: int)
    requires todo != {}
    ensures Ops.IsLeast(todo, id)
  {
    id := AnyOf(todo);
    var rest := todo - {id};
    while rest != {}
      invariant rest <= todo && id in todo
      invariant forall k :: k in todo && k !in rest ==> id <= k
      decreases |rest|
    {
      var k := AnyOf(rest);
      if k < id { id := k; }
      rest := rest - {k};
    }
  }

  method AnyOf<T(==)>(s: set<T>) returns (x: T)
    requires s != {}
    ensures x in s
  {
    x :| x in s;
  }

  lemma LeastUnique(todo: set<int>, id: int)
    requires todo != {} && Ops.IsLeast(todo, id)
    ensures id == Ops.Least(todo)
  {
  }

  /** The buckets seen in the first n rounds of a search that starts at nRnd. */
  ghost predicate Visited(b: nat, nRnd: nat, n: nat)
    requires b < NEW_BUCKET_COUNT && nRnd < NEW_BUCKET_COUNT
  {
    (if b >= nRnd then b - nRnd else b + NEW_BUCKET_COUNT - nRnd) < n
  }

  /** The intermediate states of Demote. */
  lemma DemoteSteps(c: Config, s: Tables, id: int, t: Slot)
    requires Sound(c, s, {id}, 1) && id in s.mapInfo && !s.mapInfo[id].fInTried && s.mapInfo[id].nRefCount == 0
    requires t in s.vvTried
    ensures s.vvTried[t] in s.mapInfo && s.vvTried[t] != EMPTY
    ensures var evicted := s.vvTried[t];
            var m := Evict(s, t);
            var home := HomeSlot(c, m.mapInfo[evicted]);
            && Sound(c, m, {id} + {evicted}, 2)
            && (home in m.vvNew ==> m.vvNew[home] in m.mapInfo)
            && evicted in ClearNew(m, home).mapInfo && ClearNew(m, home).mapInfo[evicted].nRefCount == 0
            && Demote(c, s, id, t) == ReferBack(ClearNew(m, home), evicted, home)
  {
    EvictSound(c, s, t, {id}, 1);
    var evicted := s.vvTried[t];
    var m := Evict(s, t);
    var home := HomeSlot(c, m.mapInfo[evicted]);
    NotOccupant(c, m, {id} + {evicted}, 2, id, home);
    NotOccupant(c, m, {id} + {evicted}, 2, evicted, home);
    ClearNewSound(c, m, home, {id} + {evicted}, 2);
    assert Survives(m.mapInfo, ClearNew(m, home).mapInfo, evicted);
    assert IdOk(s.nIdCount, s.mapInfo, evicted);
  }

  // ---------------------------------------------------------------- the loop over all new buckets

  function UnreferIf(s: Tables, id: int, t: Slot): Tables
    requires id in s.mapInfo
  {
    if t in s.vvNew && s.vvNew[t] == id then SetRef(s, id, s.mapInfo[id].nRefCount - 1, s.vvNew - {t}) else s
  }

  ghost function SlotsBelow(vvNew: Table, id: int, b: nat): set<Slot> {
    set t | t in vvNew && vvNew[t] == id && t.bucket < b
  }

  ghost function WithoutBelow(vvNew: Table, id: int, b: nat): Table {
    map t | t in vvNew && !(vvNew[t] == id && t.bucket < b) :: vvNew[t]
  }

  /** The state after the loop has walked the first b buckets. */
  ghost function StripBelow(s: Tables, id: int, b: nat): Tables
    requires id in s.mapInfo
  {
    SetRef(s, id, s.mapInfo[id].nRefCount - |SlotsBelow(s.vvNew, id, b)|, WithoutBelow(s.vvNew, id, b))
  }

  lemma BelowNext(vvNew: Table, id: int, b: nat, t: Slot)
    requires t.bucket == b
    requires forall u :: u in vvNew && vvNew[u] == id && u.bucket == b ==> u == t
    ensures if t in vvNew && vvNew[t] == id then
              && t in WithoutBelow(vvNew, id, b) && WithoutBelow(vvNew, id, b + 1) == WithoutBelow(vvNew, id, b) - {t}
              && |SlotsBelow(vvNew, id, b + 1)| == |SlotsBelow(vvNew, id, b)| + 1
            else
              && WithoutBelow(vvNew, id, b + 1) == WithoutBelow(vvNew, id, b)
              && |SlotsBelow(vvNew, id, b + 1)| == |SlotsBelow(vvNew, id, b)|
  {
    if t in vvNew && vvNew[t] == id {
      assert SlotsBelow(vvNew, id, b + 1) == SlotsBelow(vvNew, id, b) + {t};
    } else {
      assert SlotsBelow(vvNew, id, b + 1) == SlotsBelow(vvNew, id, b);
    }
  }

  /** In each bucket an entry can only sit at its own position. */
  ghost predicate AtHome(c: Config, addr: Service, vvNew: Table, id: int) {
    forall t: Slot :: HomeAt(c, addr, vvNew, id, t)
  }

  ghost predicate HomeAt(c: Config, addr: Service, vvNew: Table, id: int, t: Slot) {
    t in vvNew && vvNew[t] == id ==> t.bucket < NEW_BUCKET_COUNT && t == NewSlot(c, addr, t.bucket)
  }

  lemma SoundAtHome(c: Config, s: Tables, id: int)
    requires Sound(c, s, {}, 0) && id in s.mapInfo
    ensures id != EMPTY && AtHome(c, s.mapInfo[id].addr, s.vvNew, id)
  {
    assert IdOk(s.nIdCount, s.mapInfo, id);
    forall t: Slot ensures HomeAt(c, s.mapInfo[id].addr, s.vvNew, id, t) {
      assert NewSlotOk(c, s.mapInfo, s.vvNew, t);
    }
  }

  lemma StripOne(c: Config, s: Tables, id: int, b: nat)
    requires id in s.mapInfo && AtHome(c, s.mapInfo[id].addr, s.vvNew, id) && b < NEW_BUCKET_COUNT
    ensures StripBelow(s, id, b + 1) == UnreferIf(StripBelow(s, id, b), id, NewSlot(c, s.mapInfo[id].addr, b))
  {
    var t := NewSlot(c, s.mapInfo[id].addr, b);
    forall u | u in s.vvNew && s.vvNew[u] == id && u.bucket == b ensures u == t {
      assert HomeAt(c, s.mapInfo[id].addr, s.vvNew, id, u);
    }
    BelowNext(s.vvNew, id, b, t);
  }

  /** The loop itself. */
  ghost function StripRounds(c: Config, s: Tables, id: int, addr: Service, b: nat): (r: Tables)
    requires id in s.mapInfo
    ensures id in r.mapInfo
  {
    if b == 0 then s else UnreferIf(StripRounds(c, s, id, addr, b - 1), id, NewSlot(c, addr, b - 1))
  }

  lemma StripNone(s: Tables, id: int)
    requires id in s.mapInfo
    ensures StripBelow(s, id, 0) == s
  {
    assert WithoutBelow(s.vvNew, id, 0) == s.vvNew && SlotsBelow(s.vvNew, id, 0) == {};
  }

  lemma {:induction false} StripsBelow(c: Config, s: Tables, id: int, b: nat)
    requires id in s.mapInfo && AtHome(c, s.mapInfo[id].addr, s.vvNew, id) && b <= NEW_BUCKET_COUNT
    ensures StripRounds(c, s, id, s.mapInfo[id].addr, b) == StripBelow(s, id, b)
  {
    if b == 0 {
      StripNone(s, id);
    } else {
      StripsBelow(c, s, id, b - 1);
      StripOne(c, s, id, b - 1);
    }
  }

  lemma AllBelow(c: Config, addr: Service, vvNew: Table, id: int, b: nat)
    requires AtHome(c, addr, vvNew, id) && b == NEW_BUCKET_COUNT
    ensures WithoutBelow(vvNew, id, b) == Without(vvNew, id) && SlotsBelow(vvNew, id, b) == Slots(vvNew, id)
  {
    forall t | t in vvNew && vvNew[t] == id ensures t.bucket < b { assert HomeAt(c, addr, vvNew, id, t); }
  }

  lemma StripEnds(c: Config, s: Tables, id: int, b: nat)
    requires id in s.mapInfo && AtHome(c, s.mapInfo[id].addr, s.vvNew, id) && b == NEW_BUCKET_COUNT
    ensures StripRounds(c, s, id, s.mapInfo[id].addr, b) == Strip(s, id)
  {
    StripsBelow(c, s, id, b);
    AllBelow(c, s.mapInfo[id].addr, s.vvNew, id, b);
  }
}
