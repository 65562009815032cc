/**
 What the operations of the address manager do to the addresses they know: who becomes
 tried, who goes back to the new table, and who is forgotten.
 */
module AddrManEffects {
  import opened AddrMan
  import opened AddrManOps

  /** An entry is in the new table, at the slot of its own source and nowhere else. */
  predicate BackHome(c: Config, s: Tables, id: int) {
    && id in s.mapInfo && !s.mapInfo[id].fInTried && s.mapInfo[id].nRefCount == 1
    && HomeSlot(c, s.mapInfo[id]) in s.vvNew && s.vvNew[HomeSlot(c, s.mapInfo[id])] == id
  }

  /** All that is lost is a new entry whose last reference was in the slot t. */
  predicate LostOnlyFrom(s: Tables, r: Tables, t: Slot, k: int) {
    k in s.mapInfo && k !in r.mapInfo ==>
      !s.mapInfo[k].fInTried && s.mapInfo[k].nRefCount == 1 && t in s.vvNew && s.vvNew[t] == k
  }

  lemma ClearNewLoses(c: Config, s: Tables, t: Slot, x: set<int>, d: int, k: int)
    requires Sound(c, s, x, d) && (t in s.vvNew ==> s.vvNew[t] !in x)
    ensures t in s.vvNew ==> s.vvNew[t] in s.mapInfo
    ensures LostOnlyFrom(s, ClearNew(s, t), t, k)
    ensures k in s.mapInfo && s.mapInfo[k].fInTried ==> Survives(s.mapInfo, ClearNew(s, t).mapInfo, k)
  {
    ClearNewSound(c, s, t, x, d);
    var r := ClearNew(s, t);
    assert k in (if t in s.vvNew then {s.vvNew[t]} else {}) || Survives(s.mapInfo, r.mapInfo, k);
    if t in s.vvNew && k == s.vvNew[t] {
      UnreferSound(c, s, t, x, d);
      UnreferOrder(s, t);
    }
  }

  /** The occupant of a tried slot that has to go is not forgotten: it is back in the
      new table.  Only one entry can be lost for it. */
  lemma DemoteReturns(c: Config, s: Tables, id: int, t: Slot, k: int)
    requires Sound(c, s, {id}, 1) && id in s.mapInfo && !s.mapInfo[id].fInTried && s.mapInfo[id].nRefCount == 0
    requires t in s.vvTried
    ensures s.vvTried[t] in s.mapInfo
    ensures var r := Demote(c, s, id, t); var e := s.vvTried[t];
            && BackHome(c, r, e) && r.mapInfo[e].addr == s.mapInfo[e].addr && r.mapInfo[e].source == s.mapInfo[e].source
            && LostOnlyFrom(s, r, HomeSlot(c, s.mapInfo[e]), k)
            && (k != e && k in s.mapInfo && s.mapInfo[k].fInTried ==> Survives(s.mapInfo, r.mapInfo, k))
  {
    EvictSound(c, s, t, {id}, 1);
    var e := s.vvTried[t];
    var m := Evict(s, t);
    var home := HomeSlot(c, m.mapInfo[e]);
    NotOccupant(c, m, {id} + {e}, 2, id, home);
    NotOccupant(c, m, {id} + {e}, 2, e, home);
    ClearNewLoses(c, m, home, {id} + {e}, 2, k);
    ClearNewSound(c, m, home, {id} + {e}, 2);
    assert Survives(m.mapInfo, ClearNew(m, home).mapInfo, e);
  }

  /** MakeTried: the entry is tried and otherwise as it was; the old occupant of its slot
      is back in the new table; every other tried entry stays; at most one entry is lost. */
  lemma MakeTriedEffect(c: Config, s: Tables, id: int, k: int)
    requires Sound(c, s, {}, 0) && id in s.mapInfo && !s.mapInfo[id].fInTried && s.mapInfo[id].nLastSuccess != 0
    ensures var r := MakeTried(c, s, id); var t := TriedSlot(c, s.mapInfo[id].addr);
            && id in r.mapInfo
            && r.mapInfo[id] == s.mapInfo[id].(fInTried := true, nRefCount := 0, nRandomPos := r.mapInfo[id].nRandomPos)
            && (if t in s.vvTried then
                  && s.vvTried[t] in s.mapInfo && BackHome(c, r, s.vvTried[t])
                  && r.mapInfo[s.vvTried[t]].addr == s.mapInfo[s.vvTried[t]].addr
                  && LostOnlyFrom(s, r, HomeSlot(c, s.mapInfo[s.vvTried[t]]), k)
                else k in s.mapInfo ==> k in r.mapInfo)
            && (k in s.mapInfo && s.mapInfo[k].fInTried && !(t in s.vvTried && k == s.vvTried[t]) ==> Survives(s.mapInfo, r.mapInfo, k))
  {
    DetachSound(c, s, id);
    var t := TriedSlot(c, s.mapInfo[id].addr);
    var m := Detach(s, id);
    MakeRoomSound(c, m, id, t);
    assert TriedSlotOk(c, s.mapInfo, s.vvTried, t);
    if t in s.vvTried {
      DemoteReturns(c, m, id, t, k);
      DetachFrame(s, id, k);
    }
  }

  lemma DetachFrame(s: Tables, id: int, k: int)
    requires id in s.mapInfo
    ensures var m := Detach(s, id);
            && (k != id ==> (k in m.mapInfo <==> k in s.mapInfo) && (k in s.mapInfo ==> m.mapInfo[k] == s.mapInfo[k]))
            && forall t :: t in m.vvNew ==> t in s.vvNew && m.vvNew[t] == s.vvNew[t]
  {
  }

  // ---------------------------------------------------------------- Good

  lemma MakeTriedTime(c: Config, s: Tables, id: int)
    requires Sound(c, s, {}, 0) && id in s.mapInfo && !s.mapInfo[id].fInTried
    ensures MakeTried(c, s, id).nLastGood == s.nLastGood
  {
  }

  /** What MakeTried does to the entry itself. */
  lemma MakeTriedEntry(c: Config, s: Tables, id: int)
    requires Sound(c, s, {}, 0) && id in s.mapInfo && !s.mapInfo[id].fInTried && s.mapInfo[id].nLastSuccess != 0
    ensures var r := MakeTried(c, s, id);
            && id in r.mapInfo && r.mapInfo[id].fInTried && r.mapInfo[id].addr == s.mapInfo[id].addr
            && r.mapInfo[id].nLastSuccess == s.mapInfo[id].nLastSuccess && r.mapInfo[id].nLastTry == s.mapInfo[id].nLastTry
            && r.mapInfo[id].nAttempts == s.mapInfo[id].nAttempts
            && r.vvTried == s.vvTried[TriedSlot(c, s.mapInfo[id].addr) := id] && r.collisions == s.collisions && r.nLastGood == s.nLastGood
  {
    var r := MakeTried(c, s, id);
    assert id in r.mapInfo && r.mapInfo[id] == s.mapInfo[id].(fInTried := true, nRefCount := 0, nRandomPos := r.mapInfo[id].nRandomPos) by {
      MakeTriedEffect(c, s, id, id);
    }
    assert r.vvTried == s.vvTried[TriedSlot(c, s.mapInfo[id].addr) := id] && r.collisions == s.collisions by { MakeTriedSound(c, s, id); }
    MakeTriedTime(c, s, id);
  }

  lemma PromoteEffect(c: Config, s: Tables, id: int, testBeforeEvict: bool)
    requires Sound(c, s, {}, 0) && id in s.mapInfo && !s.mapInfo[id].fInTried && s.mapInfo[id].nLastSuccess != 0
    ensures var r := Promote(c, s, id, testBeforeEvict); var t := TriedSlot(c, s.mapInfo[id].addr);
            && id in r.mapInfo && r.mapInfo[id].addr == s.mapInfo[id].addr && r.nLastGood == s.nLastGood
            && r.mapInfo[id].nLastSuccess == s.mapInfo[id].nLastSuccess && r.mapInfo[id].nLastTry == s.mapInfo[id].nLastTry
            && r.mapInfo[id].nAttempts == s.mapInfo[id].nAttempts
            && (r.mapInfo[id].fInTried <==> !testBeforeEvict || t !in s.vvTried)
            && (r.mapInfo[id].fInTried ==> r.vvTried == s.vvTried[t := id] && r.collisions == s.collisions)
            && (!r.mapInfo[id].fInTried ==>
                  && r.mapInfo == s.mapInfo && r.vvNew == s.vvNew && r.vvTried == s.vvTried
                  && r.collisions == if |s.collisions| < 10 then s.collisions + {id} else s.collisions)
  {
    if !(testBeforeEvict && TriedSlot(c, s.mapInfo[id].addr) in s.vvTried) { MakeTriedEntry(c, s, id); }
  }

  lemma GoodFound(c: Config, s: Tables, addr: Service, testBeforeEvict: bool, nTime: int)
    requires Consistent(c, s) && nTime > 0 && FindExactly(s, addr) != -1
    ensures var r := Good(c, s, addr, testBeforeEvict, nTime); var id := FindExactly(s, addr);
            && r.nLastGood == nTime && id in r.mapInfo && r.mapInfo[id].addr == addr
            && r.mapInfo[id].nLastSuccess == nTime && r.mapInfo[id].nLastTry == nTime && r.mapInfo[id].nAttempts == 0
            && (r.mapInfo[id].fInTried <==> s.mapInfo[id].fInTried || !testBeforeEvict || TriedSlot(c, addr) !in s.vvTried)
            && (r.mapInfo[id].fInTried ==> r.vvTried == s.vvTried[TriedSlot(c, addr) := id] && r.collisions == s.collisions)
            && (!r.mapInfo[id].fInTried ==>
                  && r.mapInfo.Keys == s.mapInfo.Keys && r.vvNew == s.vvNew && r.vvTried == s.vvTried
                  && r.collisions == if |s.collisions| < 10 then s.collisions + {id} else s.collisions)
  {
    var id := FindExactly(s, addr);
    var m := With(s.(nLastGood := nTime), id, GoodStats(s.mapInfo[id], nTime));
    GoodStatsSound(c, s, id, nTime);
    assert InTriedSlot(c, s.mapInfo, s.vvTried, id);
    if !m.mapInfo[id].fInTried {
      AlwaysInSomeBucket(c, m, id);
      PromoteEffect(c, m, id, testBeforeEvict);
    }
  }

  /** A confirmed address is tried afterwards, unless its slot is taken and eviction has to
      wait for a test: then nothing moves and the collision is noted while there is room. */
  lemma GoodEffect(c: Config, s: Tables, addr: Service, testBeforeEvict: bool, nTime: int, id: int)
    requires Consistent(c, s) && nTime > 0 && id in s.mapInfo && s.mapInfo[id].addr == addr
    ensures var r := Good(c, s, addr, testBeforeEvict, nTime);
            && r.nLastGood == nTime && id in r.mapInfo && r.mapInfo[id].addr == addr
            && r.mapInfo[id].nLastSuccess == nTime && r.mapInfo[id].nLastTry == nTime && r.mapInfo[id].nAttempts == 0
            && (r.mapInfo[id].fInTried <==> s.mapInfo[id].fInTried || !testBeforeEvict || TriedSlot(c, addr) !in s.vvTried)
            && (r.mapInfo[id].fInTried ==> r.vvTried == s.vvTried[TriedSlot(c, addr) := id] && r.collisions == s.collisions)
            && (!r.mapInfo[id].fInTried ==>
                  && r.mapInfo.Keys == s.mapInfo.Keys && r.vvNew == s.vvNew && r.vvTried == s.vvTried
                  && r.collisions == if |s.collisions| < 10 then s.collisions + {id} else s.collisions)
  {
    assert FindExactly(s, addr) == id != -1 by {
      FindsExactly(s, addr);
      assert IdOk(s.nIdCount, s.mapInfo, id);
    }
    GoodFound(c, s, addr, testBeforeEvict, nTime);
  }

  /** A confirmed address that is not known, with that port, only sets the time. */
  lemma GoodUnknown(c: Config, s: Tables, addr: Service, testBeforeEvict: bool, nTime: int)
    requires Consistent(c, s) && nTime > 0 && forall id :: id in s.mapInfo ==> s.mapInfo[id].addr != addr
    ensures Good(c, s, addr, testBeforeEvict, nTime) == s.(nLastGood := nTime)
  {
    FindsExactly(s, addr);
  }

  /** Without a test the old occupant of the slot is back in the new table, and every other
      tried entry stays as it is. */
  lemma GoodReturns(c: Config, s: Tables, addr: Service, nTime: int, id: int, k: int)
    requires Consistent(c, s) && nTime > 0 && id in s.mapInfo && s.mapInfo[id].addr == addr && !s.mapInfo[id].fInTried
    requires k in s.mapInfo && s.mapInfo[k].fInTried
    ensures var r := Good(c, s, addr, false, nTime); var t := TriedSlot(c, addr);
            if t in s.vvTried && s.vvTried[t] == k then BackHome(c, r, k) && r.mapInfo[k].addr == s.mapInfo[k].addr
            else Survives(s.mapInfo, r.mapInfo, k)
  {
    var m := GoodMoves(c, s, addr, nTime, id);
    MakeTriedEffect(c, m, id, k);
  }

  lemma GoodMoves(c: Config, s: Tables, addr: Service, nTime: int, id: int) returns (m: Tables)
    requires Consistent(c, s) && nTime > 0 && id in s.mapInfo && s.mapInfo[id].addr == addr && !s.mapInfo[id].fInTried
    ensures m == With(s.(nLastGood := nTime), id, GoodStats(s.mapInfo[id], nTime)) && Sound(c, m, {}, 0)
    ensures Good(c, s, addr, false, nTime) == MakeTried(c, m, id)
  {
    assert FindExactly(s, addr) == id != -1 by {
      FindsExactly(s, addr);
      assert IdOk(s.nIdCount, s.mapInfo, id);
    }
    m := With(s.(nLastGood := nTime), id, GoodStats(s.mapInfo[id], nTime));
    GoodStatsSound(c, s, id, nTime);
    AlwaysInSomeBucket(c, m, id);
  }

  /** Good forgets no tried address. */
  lemma GoodKeepsTried(c: Config, s: Tables, addr: Service, testBeforeEvict: bool, nTime: int, k: int)
    requires Consistent(c, s) && nTime > 0 && k in s.mapInfo && s.mapInfo[k].fInTried
    ensures var r := Good(c, s, addr, testBeforeEvict, nTime);
            k in r.mapInfo && r.mapInfo[k].addr == s.mapInfo[k].addr
  {
    var id := FindExactly(s, addr);
    if id != -1 {
      var m := With(s.(nLastGood := nTime), id, GoodStats(s.mapInfo[id], nTime));
      GoodStatsSound(c, s, id, nTime);
      if !m.mapInfo[id].fInTried { MakeTriedEffect(c, m, id, k); }
    }
  }

  // ---------------------------------------------------------------- Add

  /** There is room in a slot: it is free, or its occupant is worthless or has other slots. */
  predicate HasRoom(s: Tables, t: Slot, nNow: int) {
    t in s.vvNew && s.vvNew[t] in s.mapInfo ==> IsTerrible(s.mapInfo[s.vvNew[t]], nNow) || s.mapInfo[s.vvNew[t]].nRefCount > 1
  }

  function SourceSlot(c: Config, addr: Service, source: Ip): Slot {
    NewSlot(c, addr, NewBucket(c, addr, source))
  }

  /** An entry without references is kept if and only if there is room for it. */
  lemma PlaceFresh(c: Config, s: Tables, id: int, source: Ip, nNow: int, k: int)
    requires Sound(c, s, {id}, 0) && id in s.mapInfo && !s.mapInfo[id].fInTried && s.mapInfo[id].nRefCount == 0
    ensures var r := Place(c, s, id, source, nNow); var t := SourceSlot(c, s.mapInfo[id].addr, source);
            && r.vvTried == s.vvTried
            && (id in r.mapInfo <==> HasRoom(s, t, nNow))
            && (id in r.mapInfo ==> t in r.vvNew && r.vvNew[t] == id && r.mapInfo[id].nRefCount == 1 && r.mapInfo[id].addr == s.mapInfo[id].addr)
            && (id in r.mapInfo ==> LostOnlyFrom(s, r, t, k))
            && (id !in r.mapInfo ==> r == Delete(s, id))
  {
    var t := SourceSlot(c, s.mapInfo[id].addr, source);
    NotOccupant(c, s, {id}, 0, id, t);
    assert NewSlotOk(c, s.mapInfo, s.vvNew, t);
    if HasRoom(s, t, nNow) {
      ClearNewSound(c, s, t, {id}, 0);
      ClearNewLoses(c, s, t, {id}, 0, k);
      assert Survives(s.mapInfo, ClearNew(s, t).mapInfo, id);
    } else {
      DeleteSound(c, s, id, {id}, 0);
    }
  }

  /** Deleting an entry that was just created leaves only the id counter changed. */
  lemma DeleteAdmitted(s: Tables, addr: Address, source: Ip, penalty: int)
    requires s.nIdCount !in s.mapInfo && addr.service.ip !in s.mapAddr
    requires RandomOk(Admit(s, addr, source, penalty).mapInfo, Admit(s, addr, source, penalty).vRandom)
    ensures Delete(Admit(s, addr, source, penalty), s.nIdCount) == s.(nIdCount := s.nIdCount + 1)
  {
    var id, m := s.nIdCount, Admit(s, addr, source, penalty);
    assert m.vRandom[..|m.vRandom| - 1] == s.vRandom;
    assert m.mapInfo - {id} == s.mapInfo && m.mapAddr - {addr.service.ip} == s.mapAddr;
  }

  /** An unknown routable address gets the next id and its source's slot if there is room
      there; otherwise the announcement changes nothing but the id counter. */
  lemma AddNewEffect(c: Config, s: Tables, addr: Address, source: Ip, nTimePenalty: int, nNow: int, nRnd: nat, k: int)
    requires Consistent(c, s) && c.routable(addr.service) && addr.service.ip !in s.mapAddr
    ensures var a := Add(c, s, addr, source, nTimePenalty, nNow, nRnd); var r := a.tables; var id := s.nIdCount;
            var t := SourceSlot(c, addr.service, source);
            && a.fNew && r.vvTried == s.vvTried
            && (id in r.mapInfo <==> HasRoom(s, t, nNow))
            && (id in r.mapInfo ==> t in r.vvNew && r.vvNew[t] == id && r.mapInfo[id].addr == addr.service && LostOnlyFrom(s, r, t, k))
            && (id !in r.mapInfo ==> r == s.(nIdCount := s.nIdCount + 1))
  {
    var penalty := if addr.service.ip == source then 0 else nTimePenalty;
    FindExact(s, addr.service.ip);
    var id := s.nIdCount;
    assert IdOk(s.nIdCount, s.mapInfo, id);
    AdmitSound(c, s, addr, source, penalty);
    var m := Admit(s, addr, source, penalty);
    var t := SourceSlot(c, addr.service, source);
    assert NewSlotOk(c, s.mapInfo, s.vvNew, t);
    PlaceFresh(c, m, id, source, nNow, k);
    DeleteAdmitted(s, addr, source, penalty);
  }

  /** An entry that has references already gets one more or none, and stays. */
  lemma PlaceAgain(c: Config, s: Tables, id: int, source: Ip, nNow: int, k: int)
    requires Sound(c, s, {id}, 0) && id in s.mapInfo && !s.mapInfo[id].fInTried && s.mapInfo[id].nRefCount >= 1
    ensures var r := Place(c, s, id, source, nNow);
            && id in r.mapInfo && r.mapInfo[id].addr == s.mapInfo[id].addr
            && r.vvTried == s.vvTried && r.nIdCount == s.nIdCount
            && r.mapInfo[id].nRefCount - s.mapInfo[id].nRefCount in {0, 1}
            && LostOnlyFrom(s, r, SourceSlot(c, s.mapInfo[id].addr, source), k)
  {
    var t := SourceSlot(c, s.mapInfo[id].addr, source);
    assert NewSlotOk(c, s.mapInfo, s.vvNew, t);
    if !(t in s.vvNew && s.vvNew[t] == id) {
      ClearNewSound(c, s, t, {id}, 0);
      ClearNewLoses(c, s, t, {id}, 0, k);
      assert Survives(s.mapInfo, ClearNew(s, t).mapInfo, id);
    }
  }

  lemma AddKnownKeeps(c: Config, s: Tables, id: int, addr: Address, source: Ip, penalty: int, nNow: int, nRnd: nat, k: int)
    requires Sound(c, s, {}, 0) && id in s.mapInfo
    ensures var r := AddKnown(c, s, id, addr, source, penalty, nNow, nRnd);
            && id in r.mapInfo && r.mapInfo[id].addr == s.mapInfo[id].addr
            && r.vvTried == s.vvTried && r.nIdCount == s.nIdCount
            && r.mapInfo[id].nRefCount - s.mapInfo[id].nRefCount in {0, 1}
            && LostOnlyFrom(s, r, SourceSlot(c, s.mapInfo[id].addr, source), k)
  {
    var j := Refresh(s.mapInfo[id], addr, penalty, nNow);
    var m := With(s, id, j);
    assert Sound(c, m, {}, 0) && Sound(c, m, {id}, 0) by { RefreshSound(c, s, id, addr, penalty, nNow); }
    assert OnlyStatistics(s.mapInfo[id], j) by { assert IdOk(s.nIdCount, s.mapInfo, id); RefreshKeeps(s.mapInfo[id], addr, penalty, nNow); }
    assert RefCountOk(m.mapInfo, m.vvNew, {}, id);
    if !NotReferredAgain(m.mapInfo[id], addr, nRnd) { PlaceAgain(c, m, id, source, nNow, k); }
  }

  /** An announcement of a known address: the entry stays, no tried slot changes, and at
      most one other new entry is lost. */
  lemma AddKnownEffect(c: Config, s: Tables, addr: Address, source: Ip, nTimePenalty: int, nNow: int, nRnd: nat, k: int)
    requires Consistent(c, s) && c.routable(addr.service) && addr.service.ip in s.mapAddr
    ensures var a := Add(c, s, addr, source, nTimePenalty, nNow, nRnd); var r := a.tables; var id := s.mapAddr[addr.service.ip];
            && !a.fNew && id in s.mapInfo && id in r.mapInfo && r.mapInfo[id].addr == s.mapInfo[id].addr
            && r.vvTried == s.vvTried && r.nIdCount == s.nIdCount
            && r.mapInfo[id].nRefCount - s.mapInfo[id].nRefCount in {0, 1}
            && LostOnlyFrom(s, r, SourceSlot(c, s.mapInfo[id].addr, source), k)
  {
    FindExact(s, addr.service.ip);
    AddKnownKeeps(c, s, Find(s, addr.service.ip), addr, source, if addr.service.ip == source then 0 else nTimePenalty, nNow, nRnd, k);
  }

  // ---------------------------------------------------------------- collisions

  /** Whoever is judged is still pending afterwards if and only if there is no verdict yet. */
  lemma ResolveDecides(c: Config, s: Tables, id: int, nNow: int)
    requires Consistent(c, s) && nNow > 0 && id in s.collisions
    ensures var r := ResolveOne(c, s, id, nNow);
            && r.collisions == (if Judge(c, s, id, nNow).KeepPending? then s.collisions else s.collisions - {id})
            && (Judge(c, s, id, nNow).MoveAndErase? ==> id in r.mapInfo && r.mapInfo[id].fInTried)
            && (!Judge(c, s, id, nNow).MoveAndErase? ==> r.mapInfo == s.mapInfo && r.vvTried == s.vvTried && r.vvNew == s.vvNew)
  {
    if Judge(c, s, id, nNow).MoveAndErase? {
      var addr := s.mapInfo[id].addr;
      assert IsFound(s.mapInfo, s.mapAddr, id) && IdOk(s.nIdCount, s.mapInfo, id);
      GoodEffect(c, s, addr, false, nNow, id);
    }
  }
}
