/**
 What becomes of pending collisions (src/addrman.cpp:541-598), in terms of the two entries
 and the clock.
 */
module AddrManCollisions {
  import opened AddrMan
  import opened AddrManOps
  import opened AddrManEffects

  /** The tried entry o connected in the last four hours. */
  predicate Fresh(o: Info, nNow: int) { nNow - o.nLastSuccess < 4 * 60 * 60 }

  /** The tried entry o has to go for the pending entry i: o was tried in the last four hours
      without success, though not in the last minute, or i has waited for more than 40
      minutes. */
  predicate Evicts(i: Info, o: Info, nNow: int) {
    !Fresh(o, nNow) && if nNow - o.nLastTry < 4 * 60 * 60 then nNow - o.nLastTry > 60 else nNow - i.nLastSuccess > 40 * 60
  }

  lemma PendingSlot(c: Config, s: Tables, id: int)
    requires Consistent(c, s) && id in s.collisions && id in s.mapInfo
    ensures var t := TriedSlot(c, s.mapInfo[id].addr);
            && t in s.vvTried && s.vvTried[t] in s.mapInfo && s.mapInfo[s.vvTried[t]].fInTried
            && (s.mapInfo[id].fInTried <==> s.vvTried[t] == id)
  {
    SelectReadsTried(c, s, id);
    assert InTriedSlot(c, s.mapInfo, s.vvTried, id);
  }

  /** A collision of an entry that is gone, or whose address is not valid any more, or whose
      opponent connected lately, is erased and nothing moves. */
  lemma ResolveErases(c: Config, s: Tables, id: int, nNow: int)
    requires Consistent(c, s) && nNow > 0 && id in s.collisions
    requires id in s.mapInfo && c.valid(s.mapInfo[id].addr) ==>
               var t := TriedSlot(c, s.mapInfo[id].addr);
               t in s.vvTried && s.vvTried[t] in s.mapInfo && Fresh(s.mapInfo[s.vvTried[t]], nNow)
    ensures ResolveOne(c, s, id, nNow) == s.(collisions := s.collisions - {id})
  {
  }

  lemma ResolveMoves(c: Config, s: Tables, id: int, nNow: int, t: Slot, k: int)
    requires Consistent(c, s) && nNow > 0 && id in s.mapInfo && c.valid(s.mapInfo[id].addr) && t == TriedSlot(c, s.mapInfo[id].addr)
    requires t in s.vvTried && s.vvTried[t] == k && k in s.mapInfo && !Fresh(s.mapInfo[k], nNow)
    ensures var g := Good(c, s, s.mapInfo[id].addr, false, nNow);
            ResolveOne(c, s, id, nNow) ==
            if Evicts(s.mapInfo[id], s.mapInfo[k], nNow) then g.(collisions := g.collisions - {id}) else s
  {
  }

  lemma GoodInstead(c: Config, s: Tables, id: int, nNow: int, t: Slot, k: int)
    requires Consistent(c, s) && nNow > 0 && id in s.mapInfo && t == TriedSlot(c, s.mapInfo[id].addr)
    requires t in s.vvTried && s.vvTried[t] == k && k in s.mapInfo && s.mapInfo[k].fInTried && (s.mapInfo[id].fInTried <==> k == id)
    ensures var r := Good(c, s, s.mapInfo[id].addr, false, nNow);
            && id in r.mapInfo && r.mapInfo[id].fInTried && r.vvTried == s.vvTried[t := id]
            && (k != id ==> BackHome(c, r, k))
  {
    GoodEffect(c, s, s.mapInfo[id].addr, false, nNow, id);
    if k != id { GoodReturns(c, s, s.mapInfo[id].addr, nNow, id, k); }
  }

  /** Otherwise the opponent k goes back to the new table if and only if it has to go, and the
      pending entry is then tried in its place; else nothing happens. */
  lemma ResolveEvicts(c: Config, s: Tables, id: int, nNow: int) returns (k: int)
    requires Consistent(c, s) && nNow > 0 && id in s.collisions && id in s.mapInfo && c.valid(s.mapInfo[id].addr)
    ensures var t := TriedSlot(c, s.mapInfo[id].addr); t in s.vvTried && s.vvTried[t] == k && k in s.mapInfo
    ensures var i, o, r := s.mapInfo[id], s.mapInfo[k], ResolveOne(c, s, id, nNow);
            && (!Fresh(o, nNow) && !Evicts(i, o, nNow) ==> r == s)
            && (Evicts(i, o, nNow) ==>
                  id !in r.collisions && id in r.mapInfo && r.mapInfo[id].fInTried && r.vvTried == s.vvTried[TriedSlot(c, i.addr) := id])
            && (k != id ==> k in r.mapInfo && (!r.mapInfo[k].fInTried <==> Evicts(i, o, nNow)))
            && (k != id && Evicts(i, o, nNow) ==> BackHome(c, r, k))
  {
    PendingSlot(c, s, id);
    var t := TriedSlot(c, s.mapInfo[id].addr);
    k := s.vvTried[t];
    if Fresh(s.mapInfo[k], nNow) {
      ResolveErases(c, s, id, nNow);
    } else {
      ResolveMoves(c, s, id, nNow, t, k);
      if Evicts(s.mapInfo[id], s.mapInfo[k], nNow) { GoodInstead(c, s, id, nNow, t, k); }
    }
  }

  /** An entry that is tried and connected lately. */
  ghost predicate Settled(s: Tables, k: int, nNow: int) {
    k in s.mapInfo && s.mapInfo[k].fInTried && Fresh(s.mapInfo[k], nNow)
  }

  lemma ResolveOneKeeps(c: Config, s: Tables, id: int, nNow: int, k: int)
    requires Consistent(c, s) && nNow > 0 && Settled(s, k, nNow)
    ensures Settled(ResolveOne(c, s, id, nNow), k, nNow)
  {
    if Judge(c, s, id, nNow).MoveAndErase? {
      var addr := s.mapInfo[id].addr;
      assert InTriedSlot(c, s.mapInfo, s.vvTried, id) && InTriedSlot(c, s.mapInfo, s.vvTried, k);
      if s.mapInfo[id].fInTried {
        assert FindExactly(s, addr) == id by { FindsExactly(s, addr); }
      } else {
        GoodReturns(c, s, addr, nNow, id, k);
      }
    }
  }

  /** No entry that connected in the last four hours leaves the tried table. */
  lemma {:induction false} ResolveKeepsFresh(c: Config, s: Tables, todo: set<int>, nNow: int, k: int)
    requires Consistent(c, s) && nNow > 0 && Settled(s, k, nNow)
    ensures Settled(ResolveFrom(c, s, todo, nNow), k, nNow)
    decreases |todo|
  {
    if todo != {} {
      var id := Least(todo);
      ResolveOneKeeps(c, s, id, nNow, k);
      ResolveKeepsFresh(c, ResolveOne(c, s, id, nNow), todo - {id}, nNow, k);
    }
  }

  /** Judging one collision leaves all others pending, and adds none. */
  lemma ResolveOneKeepsOthers(c: Config, s: Tables, id: int, nNow: int)
    requires Consistent(c, s) && nNow > 0
    ensures s.collisions - {id} <= ResolveOne(c, s, id, nNow).collisions <= s.collisions
  {
    if Judge(c, s, id, nNow).MoveAndErase? {
      GoodEffect(c, s, s.mapInfo[id].addr, false, nNow, id);
    }
  }

  /** The loop judges the given collisions only, and adds none. */
  lemma {:induction false} ResolveKeepsOthers(c: Config, s: Tables, todo: set<int>, nNow: int)
    requires Consistent(c, s) && nNow > 0
    ensures s.collisions - todo <= ResolveFrom(c, s, todo, nNow).collisions <= s.collisions
    decreases |todo|
  {
    if todo != {} {
      var id := Least(todo);
      ResolveOneKeepsOthers(c, s, id, nNow);
      ResolveKeepsOthers(c, ResolveOne(c, s, id, nNow), todo - {id}, nNow);
    }
  }

  /** One pending collision is judged as ResolveErases and ResolveEvicts say. */
  lemma ResolveSingle(c: Config, s: Tables, id: int, nNow: int)
    requires Consistent(c, s) && nNow > 0
    ensures ResolveFrom(c, s, {id}, nNow) == ResolveOne(c, s, id, nNow)
  {
    assert Least({id}) == id;
    assert {id} - {id} == {};
  }

  /** A collision that no test can decide for the pending entry. */
  ghost predicate Hopeless(c: Config, s: Tables, id: int, nNow: int) {
    id in s.mapInfo && c.valid(s.mapInfo[id].addr) ==>
      var t := TriedSlot(c, s.mapInfo[id].addr);
      t in s.vvTried && Settled(s, s.vvTried[t], nNow)
  }

  lemma StaysHopeless(c: Config, s: Tables, r: Tables, id: int, k: int, nNow: int)
    requires Consistent(c, s) && Consistent(c, r) && Evolves(s, r) && id in s.mapInfo && id in r.mapInfo
    requires var t := TriedSlot(c, s.mapInfo[id].addr); t in s.vvTried && s.vvTried[t] == k
    requires Settled(s, k, nNow) && Settled(r, k, nNow)
    ensures Hopeless(c, r, id, nNow)
  {
    assert IdOk(s.nIdCount, s.mapInfo, id) && IdOk(s.nIdCount, s.mapInfo, k);
    assert KeepsAddr(s, r, id) && KeepsAddr(s, r, k);
    assert TriedSlotOk(c, s.mapInfo, s.vvTried, TriedSlot(c, s.mapInfo[id].addr));
    assert InTriedSlot(c, r.mapInfo, r.vvTried, k);
  }

  lemma NextHopeless(c: Config, s: Tables, id: int, x: int, nNow: int)
    requires Consistent(c, s) && nNow > 0 && id < s.nIdCount && Hopeless(c, s, id, nNow)
    ensures Hopeless(c, ResolveOne(c, s, x, nNow), id, nNow)
  {
    var r := ResolveOne(c, s, x, nNow);
    assert KeepsAddr(s, r, id);
    if id in r.mapInfo && c.valid(r.mapInfo[id].addr) {
      var k := s.vvTried[TriedSlot(c, s.mapInfo[id].addr)];
      ResolveOneKeeps(c, s, x, nNow, k);
      StaysHopeless(c, s, r, id, k, nNow);
    }
  }

  /** After the loop no such collision is pending. */
  lemma {:induction false} ResolveClears(c: Config, s: Tables, todo: set<int>, nNow: int, id: int)
    requires Consistent(c, s) && nNow > 0 && id in todo && id < s.nIdCount && Hopeless(c, s, id, nNow)
    ensures id !in ResolveFrom(c, s, todo, nNow).collisions
    decreases |todo|
  {
    var x := Least(todo);
    var m := ResolveOne(c, s, x, nNow);
    if x == id {
      assert id !in m.collisions by { if id in s.collisions { ResolveErases(c, s, id, nNow); } else { ResolveOneKeepsOthers(c, s, id, nNow); } }
      ResolveKeepsOthers(c, m, todo - {x}, nNow);
    } else {
      NextHopeless(c, s, id, x, nNow);
      ResolveClears(c, m, todo - {x}, nNow, id);
    }
  }
}
