/**
 What the address manager records about its entries, in terms of their fields: the
 statistics, the news of an announcement, and who is given out.
 */
module AddrManStats {
  import opened AddrMan
  import opened AddrManOps
  import opened AddrManEffects
  import opened Common
  import Powers

  /** Never within a minute of a try; otherwise for a time in the future, for no time or one
      more than 30 days ago, for three failures and no success, and for ten failures and no
      success in a week. */
  lemma TerribleExact(i: Info, nNow: int)
    ensures IsTerrible(i, nNow) <==>
            && (i.nLastTry == 0 || nNow - i.nLastTry > 60)
            && (|| i.nTime - nNow > 600 || i.nTime == 0 || nNow - i.nTime > 2592000
                || (i.nAttempts >= 3 && i.nLastSuccess == 0)
                || (i.nAttempts >= 10 && nNow - i.nLastSuccess > 604800))
  {
  }

  /** All but one entry, and all but that entry's statistics, are as before. */
  ghost predicate OnlyEntry(s: Tables, r: Tables, id: int) {
    && r == s.(mapInfo := r.mapInfo) && r.mapInfo.Keys == s.mapInfo.Keys && id in s.mapInfo
    && (forall k :: k in s.mapInfo && k != id ==> r.mapInfo[k] == s.mapInfo[k])
    && OnlyStatistics(s.mapInfo[id], r.mapInfo[id]) && r.mapInfo[id].source == s.mapInfo[id].source
  }

  ghost predicate Unknown(s: Tables, addr: Service) { forall id :: id in s.mapInfo ==> s.mapInfo[id].addr != addr }

  lemma FindsEntryOf(c: Config, s: Tables, addr: Service, id: int)
    requires Consistent(c, s)
    ensures Unknown(s, addr) ==> FindExactly(s, addr) == -1
    ensures id in s.mapInfo && s.mapInfo[id].addr == addr ==> FindExactly(s, addr) == id != -1
  {
    FindsExactly(s, addr);
    assert IdOk(s.nIdCount, s.mapInfo, id);
  }

  /** An attempt sets the time of the last try, and counts as a failure at most once between
      two successful connections. */
  lemma AttemptEffect(c: Config, s: Tables, addr: Service, fCountFailure: bool, nTime: int, id: int)
    requires Consistent(c, s)
    ensures Unknown(s, addr) ==> Attempt(s, addr, fCountFailure, nTime) == s
    ensures id in s.mapInfo && s.mapInfo[id].addr == addr ==>
              var r := Attempt(s, addr, fCountFailure, nTime);
              OnlyEntry(s, r, id) &&
              var i, j := s.mapInfo[id], r.mapInfo[id]; var counts := fCountFailure && i.nLastCountAttempt < s.nLastGood;
              && j.nLastTry == nTime && j.nLastSuccess == i.nLastSuccess && j.nTime == i.nTime && j.nServices == i.nServices
              && j.nAttempts == i.nAttempts + (if counts then 1 else 0)
              && j.nLastCountAttempt == (if counts then nTime else i.nLastCountAttempt)
  {
    FindsEntryOf(c, s, addr, id);
  }

  /** A connection that lasts more than 20 minutes renews the time, and nothing else. */
  lemma ConnectedEffect(c: Config, s: Tables, addr: Service, nTime: int, id: int)
    requires Consistent(c, s)
    ensures Unknown(s, addr) ==> Connected(s, addr, nTime) == s
    ensures id in s.mapInfo && s.mapInfo[id].addr == addr ==>
              var r := Connected(s, addr, nTime);
              OnlyEntry(s, r, id) && SameBut(s.mapInfo[id], r.mapInfo[id]) && r.mapInfo[id].nServices == s.mapInfo[id].nServices
              && r.mapInfo[id].nTime == (if nTime - s.mapInfo[id].nTime > 1200 then nTime else s.mapInfo[id].nTime)
  {
    FindsEntryOf(c, s, addr, id);
  }

  lemma SetServicesEffect(c: Config, s: Tables, addr: Service, nServices: Services, id: int)
    requires Consistent(c, s)
    ensures Unknown(s, addr) ==> SetServices(s, addr, nServices) == s
    ensures id in s.mapInfo && s.mapInfo[id].addr == addr ==>
              var r := SetServices(s, addr, nServices);
              OnlyEntry(s, r, id) && SameBut(s.mapInfo[id], r.mapInfo[id]) && r.mapInfo[id].nTime == s.mapInfo[id].nTime
              && r.mapInfo[id].nServices == nServices
  {
    FindsEntryOf(c, s, addr, id);
  }

  /** The record of tries and successes is as before. */
  predicate SameBut(i: Info, j: Info) {
    && j.nLastTry == i.nLastTry && j.nLastCountAttempt == i.nLastCountAttempt && j.nLastSuccess == i.nLastSuccess
    && j.nAttempts == i.nAttempts && j.source == i.source
  }

  // ---------------------------------------------------------------- buckets

  /** There are 256 tried and 1024 new buckets of 64 positions: no hash leads beyond, and one
      that is the same for everything leads to every one of them. */
  lemma BucketsExact(c: Config, a: Service, source: Ip, fNew: bool, bucket: nat, n: nat)
    ensures TriedBucket(c, a) < 256 && NewBucket(c, a, source) < 1024 && BucketPosition(c, a, fNew, bucket) < 64
    ensures var k := c.(cheapHash := (items: seq<Item>) => n);
            && (n < 256 ==> TriedBucket(k, a) == n) && (n < 1024 ==> NewBucket(k, a, source) == n)
            && (n < 64 ==> BucketPosition(k, a, fNew, bucket) == n)
  {
  }

  /** An evicted entry goes back to where its own source would have put it. */
  lemma HomeIsOwnSource(c: Config, i: Info)
    ensures HomeSlot(c, i) == SourceSlot(c, i.addr, i.source)
  {
  }

  // ---------------------------------------------------------------- announcements

  /** An announcement takes no service away and adds those announced. */
  lemma RefreshServices(i: Info, addr: Address, nTimePenalty: int, nNow: int)
    ensures var j := Refresh(i, addr, nTimePenalty, nNow); j.nServices == i.nServices | addr.nServices
  {
  }

  /** It renews the time if it is newer by an hour, or by a day for an old one, and by the
      penalty, and leaves everything else. */
  lemma RefreshEffect(i: Info, addr: Address, nTimePenalty: int, nNow: int)
    ensures var j := Refresh(i, addr, nTimePenalty, nNow);
            var margin := if nNow - addr.nTime < 86400 then 3600 else 86400;
            && OnlyStatistics(i, j) && SameBut(i, j)
            && j.nTime == if addr.nTime != 0 && (i.nTime == 0 || addr.nTime - i.nTime > margin + nTimePenalty)
                          then Max(0, addr.nTime - nTimePenalty) else i.nTime
  {
  }

  lemma {:induction false} FactorIsPower(n: nat)
    ensures Factor(n) == Powers.Pow2(n) >= 1
  {
    if n > 0 { FactorIsPower(n - 1); }
  }

  /** The lottery for another reference: news of an untried entry with fewer than eight
      references has a chance of one in 2^references. */
  lemma ReferredAgainExact(i: Info, addr: Address, nRnd: nat)
    requires i.nRefCount >= 0
    ensures !NotReferredAgain(i, addr, nRnd) <==>
            && addr.nTime != 0 && (i.nTime == 0 || i.nTime < addr.nTime) && !i.fInTried && i.nRefCount != 8
            && nRnd % Powers.Pow2(i.nRefCount) == 0
  {
    FactorIsPower(i.nRefCount);
    FactorPositive(i.nRefCount);
  }

  /** An entry with references gets another one if and only if the slot of the source is free
      or its occupant is terrible; if the entry is there already nothing changes. */
  lemma PlaceAgainExact(c: Config, s: Tables, id: int, source: Ip, nNow: int)
    requires Sound(c, s, {id}, 0) && id in s.mapInfo && !s.mapInfo[id].fInTried && s.mapInfo[id].nRefCount >= 1
    ensures var r := Place(c, s, id, source, nNow); var t := SourceSlot(c, s.mapInfo[id].addr, source);
            && (t in s.vvNew ==> s.vvNew[t] in s.mapInfo)
            && id in r.mapInfo
            && (if t !in s.vvNew || (s.vvNew[t] != id && IsTerrible(s.mapInfo[s.vvNew[t]], nNow))
                then r.mapInfo[id].nRefCount == s.mapInfo[id].nRefCount + 1 && r.vvNew == s.vvNew[t := id]
                else r == s)
  {
    var t := SourceSlot(c, s.mapInfo[id].addr, source);
    assert NewSlotOk(c, s.mapInfo, s.vvNew, t);
    if !(t in s.vvNew && s.vvNew[t] == id) {
      ClearNewSound(c, s, t, {id}, 0);
      assert Survives(s.mapInfo, ClearNew(s, t).mapInfo, id);
      assert (s.vvNew - {t})[t := id] == s.vvNew[t := id];
    }
  }

  /** An announcement of a known address: the entry is refreshed, and it gets one more
      reference if and only if it wins the lottery and there is room in the slot of the source. */
  lemma AddKnownExact(c: Config, s: Tables, id: int, addr: Address, source: Ip, penalty: int, nNow: int, nRnd: nat)
    requires Sound(c, s, {}, 0) && id in s.mapInfo
    ensures var r := AddKnown(c, s, id, addr, source, penalty, nNow, nRnd);
            var j := Refresh(s.mapInfo[id], addr, penalty, nNow); var t := SourceSlot(c, s.mapInfo[id].addr, source);
            && id in r.mapInfo && r.mapInfo[id].nTime == j.nTime && r.mapInfo[id].nServices == j.nServices
            && (t in s.vvNew ==> s.vvNew[t] in s.mapInfo)
            && (if !NotReferredAgain(j, addr, nRnd) && (t !in s.vvNew || (s.vvNew[t] != id && IsTerrible(s.mapInfo[s.vvNew[t]], nNow)))
                then r.mapInfo[id].nRefCount == s.mapInfo[id].nRefCount + 1 && r.vvNew == s.vvNew[t := id]
                else r == With(s, id, j))
  {
    var j := Refresh(s.mapInfo[id], addr, penalty, nNow);
    var m := With(s, id, j);
    assert Sound(c, m, {}, 0) && Sound(c, m, {id}, 0) by { RefreshSound(c, s, id, addr, penalty, nNow); }
    assert OnlyStatistics(s.mapInfo[id], j) by { RefreshEffect(s.mapInfo[id], addr, penalty, nNow); }
    assert RefCountOk(m.mapInfo, m.vvNew, {}, id);
    assert NewSlotOk(c, s.mapInfo, s.vvNew, SourceSlot(c, s.mapInfo[id].addr, source));
    if !NotReferredAgain(j, addr, nRnd) {
      PlaceAgainExact(c, m, id, source, nNow);
      PlaceKeepsEntry(c, m, id, source, nNow);
    }
  }

  lemma PlaceKeepsEntry(c: Config, s: Tables, id: int, source: Ip, nNow: int)
    requires Sound(c, s, {id}, 0) && id in s.mapInfo && !s.mapInfo[id].fInTried
    ensures var r := Place(c, s, id, source, nNow);
            id in r.mapInfo ==> r.mapInfo[id] == s.mapInfo[id].(nRefCount := r.mapInfo[id].nRefCount, nRandomPos := r.mapInfo[id].nRandomPos)
  {
    var t := SourceSlot(c, s.mapInfo[id].addr, source);
    assert NewSlotOk(c, s.mapInfo, s.vvNew, t);
    if !(t in s.vvNew && s.vvNew[t] == id) {
      ClearNewSound(c, s, t, {id}, 0);
      assert Survives(s.mapInfo, ClearNew(s, t).mapInfo, id);
    }
  }

  /** An unknown address is recorded if and only if the slot of its source is free, or its
      occupant is terrible or also in another slot.  What is recorded is what was announced,
      without the penalty. */
  lemma AddNewEntry(c: Config, s: Tables, addr: Address, source: Ip, nTimePenalty: int, nNow: int, nRnd: nat)
    requires Consistent(c, s) && c.routable(addr.service) && addr.service.ip !in s.mapAddr
    ensures var r := Add(c, s, addr, source, nTimePenalty, nNow, nRnd).tables; var id := s.nIdCount;
            var t := SourceSlot(c, addr.service, source);
            && (t in s.vvNew ==> s.vvNew[t] in s.mapInfo)
            && (id in r.mapInfo <==>
                t !in s.vvNew || IsTerrible(s.mapInfo[s.vvNew[t]], nNow) || s.mapInfo[s.vvNew[t]].nRefCount > 1)
            && (id in r.mapInfo ==>
              var i := r.mapInfo[id];
              && i.addr == addr.service && i.nServices == addr.nServices && i.source == source
              && i.nTime == Max(0, addr.nTime - if addr.service.ip == source then 0 else nTimePenalty)
              && i.nLastTry == 0 && i.nLastCountAttempt == 0 && i.nLastSuccess == 0 && i.nAttempts == 0 && !i.fInTried)
  {
    var penalty := if addr.service.ip == source then 0 else nTimePenalty;
    AddNewEffect(c, s, addr, source, nTimePenalty, nNow, nRnd, s.nIdCount);
    assert NewSlotOk(c, s.mapInfo, s.vvNew, SourceSlot(c, addr.service, source));
    FindExact(s, addr.service.ip);
    AdmitSound(c, s, addr, source, penalty);
    PlaceKeepsEntry(c, Admit(s, addr, source, penalty), s.nIdCount, source, nNow);
  }

  /** Addresses that are not routable are ignored. */
  lemma AddUnroutable(c: Config, s: Tables, addr: Address, source: Ip, nTimePenalty: int, nNow: int, nRnd: nat)
    requires Consistent(c, s)
    ensures var a := Add(c, s, addr, source, nTimePenalty, nNow, nRnd);
            && (!c.routable(addr.service) ==> a == Added(s, false))
            && (a.fNew <==> c.routable(addr.service) && forall id :: id in s.mapInfo ==> s.mapInfo[id].addr.ip != addr.service.ip)
  {
    FindExact(s, addr.service.ip);
    assert FindsEntry(s.mapInfo, s.mapAddr, addr.service.ip);
    assert addr.service.ip in s.mapAddr <==> exists id :: id in s.mapInfo && s.mapInfo[id].addr.ip == addr.service.ip by {
      if addr.service.ip in s.mapAddr { assert s.mapInfo[s.mapAddr[addr.service.ip]].addr.ip == addr.service.ip; }
      forall id | id in s.mapInfo ensures s.mapInfo[id].addr.ip in s.mapAddr { assert IsFound(s.mapInfo, s.mapAddr, id); }
    }
  }

  // ---------------------------------------------------------------- giving addresses out

  /** As many as allowed, unless there are no more that are not terrible. */
  lemma GetAddrFills(c: Config, s: Tables, pick: nat -> nat, nNow: int)
    requires Consistent(c, s)
    ensures var r := GetAddr(c, s, pick, nNow);
            |r.ids| < 2500 && 100 * (|r.ids| + 1) <= 23 * |s.vRandom| ==>
              forall id :: id in r.tables.mapInfo && !IsTerrible(r.tables.mapInfo[id], nNow) ==> id in r.ids
  {
    GetAddrExact(c, s, pick, nNow);
  }

  lemma AddressOfExact(i: Info)
    ensures AddressOf(i).service == i.addr && AddressOf(i).nTime == i.nTime && AddressOf(i).nServices == i.nServices
  {
  }
}
