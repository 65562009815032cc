/** The cuckoo cache with its mutable vectors and its packed collection flags
    (src/cuckoocache.h), proved against the value model. */
module CuckooCache {
  import opened Bytes
  import opened Common
  import opened Cuckoo

  /** How many bytes are allocated for n flags; the sum is taken in 32 bits. */
  function FlagBytes(n: nat): nat { (n + 7) % 0x1_0000_0000 / 8 }

  /** There is a bit for each flag if and only if the sum does not wrap. */
  lemma FlagsFit(n: nat)
    requires n < TWO32
    ensures n <= 8 * FlagBytes(n) <==> n <= TWO32 - 8
  {
    if n <= TWO32 - 8 { assert (n + 7) % 0x1_0000_0000 == n + 7; }
    else { assert (n + 7) % 0x1_0000_0000 == n + 7 - 0x1_0000_0000; }
  }

  /** For the first size that wraps no byte is allocated at all. */
  lemma FlagsPromiseFails()
    ensures FlagBytes(TWO32 - 7) == 0
  {
    assert (TWO32 - 7 + 7) % 0x1_0000_0000 == 0;
  }

  lemma SamePlace(i: nat, j: nat)
    requires i / 8 == j / 8
    ensures i % 8 == j % 8 <==> i == j
  {
  }

  /** The i-th bit after setting, or clearing, the s-th. */
  lemma SetOne(mem: seq<bv8>, s: nat, i: nat)
    requires s / 8 < |mem| && i / 8 < |mem|
    ensures IsSet(mem[s / 8 := mem[s / 8] | Mask(s % 8)][i / 8], i % 8) <==> i == s || IsSet(mem[i / 8], i % 8)
  {
    if i / 8 == s / 8 {
      SetLaw(mem[s / 8], s % 8, i % 8);
      SamePlace(i, s);
    }
  }

  lemma ClearOne(mem: seq<bv8>, s: nat, i: nat)
    requires s / 8 < |mem| && i / 8 < |mem|
    ensures IsSet(mem[s / 8 := mem[s / 8] & !Mask(s % 8)][i / 8], i % 8) <==> i != s && IsSet(mem[i / 8], i % 8)
  {
    if i / 8 == s / 8 {
      ClearLaw(mem[s / 8], s % 8, i % 8);
      SamePlace(i, s);
    }
  }

  class PackedFlags {
    const size: nat
    const mem: array<bv8>
    /** The flags the packed bytes stand for. */
    ghost var flags: seq<bool>

    ghost predicate Unpacks(i: int)
      reads this, mem
    {
      0 <= i < size ==> i < |flags| && i / 8 < mem.Length && flags[i] == IsSet(mem[i / 8], i % 8)
    }

    ghost predicate Valid()
      reads this, mem
    {
      mem.Length == FlagBytes(size) && size <= 8 * mem.Length && |flags| == size && forall i: int :: Unpacks(i)
    }

    constructor (n: nat)
      requires n < TWO32
      ensures size == n && fresh(mem) && mem.Length == FlagBytes(n)
      ensures Valid() <==> n <= TWO32 - 8
      ensures |flags| == n && forall i :: 0 <= i < n ==> flags[i]
    {
      size := n;
      mem := new bv8[FlagBytes(n)](i => 0xFF);
      flags := seq(n, i => true);
      new;
      FlagsFit(n);
      forall i: int | i / 8 < mem.Length ensures Unpacks(i) { if 0 <= i < n { AllSet(i % 8); } }
    }

    method BitSet(s: nat)
      requires Valid() && s < size
      modifies `flags, mem
      ensures Valid() && flags == old(flags)[s := true]
    {
      ghost var m := mem[..];
      mem[s / 8] := mem[s / 8] | Mask(s % 8);
      flags := flags[s := true];
      forall i: int ensures Unpacks(i) {
        assert old(Unpacks(i));
        if 0 <= i < size { SetOne(m, s, i); }
      }
    }

    method BitUnset(s: nat)
      requires Valid() && s < size
      modifies `flags, mem
      ensures Valid() && flags == old(flags)[s := false]
    {
      ghost var m := mem[..];
      mem[s / 8] := mem[s / 8] & !Mask(s % 8);
      flags := flags[s := false];
      forall i: int ensures Unpacks(i) {
        assert old(Unpacks(i));
        if 0 <= i < size { ClearOne(m, s, i); }
      }
    }

    method BitIsSet(s: nat) returns (b: bool)
      requires Valid() && s < size
      ensures b == flags[s]
    {
      assert Unpacks(s);
      b := Mask(s % 8) & mem[s / 8] != 0;
    }
  }

  lemma RoundsNext<T>(c: Config<T>, h: Hand<T>, depth: nat)
    requires 0 < c.size == |h.s| && depth > 0
    ensures var locs := Locs(c, h.elem);
            var k := FreeFrom(h.s, locs, 0);
            if k < 8 then Rounds(c, h, depth).s == h.s[locs[k] := Slot(h.elem, h.epoch, false)]
            else Rounds(c, h, depth) == Rounds(c, Displace(c, h), depth - 1)
  {
  }

  /** The new element is found, unless it was not stored before and bounces. */
  ghost predicate KeepsNew<T>(c: Config<T>, s: Slots<T>, r: Slots<T>, e: T)
    requires 0 < c.size == |s| == |r|
  {
    e != c.blank ==> (Cuckoo.Contains(c, r, e) <==> Stored(c, s, e) || !Bounces(c, s, e))
  }

  lemma NewKept<T>(c: Config<T>, s: Slots<T>, counter: nat, e: T)
    requires c.size > 0 && c.epochSize > 0 && Placed(c, s) && Live(s) + counter <= Bound(c)
    ensures var checked := EpochCheck(c, s, counter); KeepsNew(c, checked.s, Cuckoo.Insert(c, checked.s, e), e)
  {
    EpochCheckPays(c, s, counter);
    if e != c.blank { InsertFound(c, EpochCheck(c, s, counter).s, e); }
  }

  class Cache<T(==)> {
    const cfg: Config<T>
    const table: array<T>
    const epochFlags: array<bool>
    const collectionFlags: PackedFlags
    var counter: nat
    /** The slots the three vectors stand for. */
    ghost var slots: Slots<T>

    ghost predicate Coupled()
      reads `slots, table, epochFlags, collectionFlags, collectionFlags.mem
    {
      && 0 < cfg.size == |slots| == table.Length == epochFlags.Length == collectionFlags.size
      && table as object != epochFlags as object
      && table as object != collectionFlags.mem as object
      && epochFlags as object != collectionFlags.mem as object
      && collectionFlags.Valid()
      && forall i: int :: Holds(i)
    }

    ghost predicate Holds(i: int)
      reads `slots, table, epochFlags, collectionFlags
    {
      && |slots| == table.Length == epochFlags.Length == |collectionFlags.flags|
      && (0 <= i < |slots| ==> slots[i] == Slot(table[i], epochFlags[i], collectionFlags.flags[i]))
    }

    ghost function State(): Checked<T>
      reads this
    {
      Checked(slots, counter)
    }

    ghost predicate Valid()
      reads this, table, epochFlags, collectionFlags, collectionFlags.mem
    {
      Coupled() && Ready(cfg) && Sound(cfg, State())
    }

    /** setup; the depth limit is the rounded logarithm of the size. */
    constructor (newSize: nat, hash: (T, nat) -> nat, blank: T, depthLimit: nat)
      requires newSize < TWO32
      ensures State() == Empty(cfg) && cfg.size == Max(2, newSize) && cfg.blank == blank && cfg.hash == hash
      ensures cfg.depthLimit == depthLimit && counter == cfg.epochSize == EpochSize(cfg.size)
      ensures |slots| == cfg.size && forall i :: 0 <= i < |slots| ==> slots[i] == Slot(blank, false, true)
      ensures Valid() <==> newSize <= TWO32 - 8
    {
      var size: nat := Max(2, newSize);
      var config := Config(size, hash, blank, EpochSize(size), depthLimit);
      cfg := config;
      table := new T[size](i => blank);
      epochFlags := new bool[size](i => false);
      collectionFlags := new PackedFlags(size);
      counter := EpochSize(size);
      slots := Empty(config).s;
      new;
      forall i: int ensures Holds(i) {}
      EmptySound(cfg);
    }

    /** Overwrite a slot and keep it. */
    method Store(loc: nat, e: T, epoch: bool)
      requires Coupled() && loc < cfg.size
      modifies `slots, table, epochFlags, collectionFlags, collectionFlags.mem
      ensures Coupled() && slots == old(slots)[loc := Slot(e, epoch, false)]
    {
      table[loc] := e;
      collectionFlags.BitUnset(loc);
      epochFlags[loc] := epoch;
      slots := slots[loc := Slot(e, epoch, false)];
      forall i: int ensures Holds(i) { assert old(Holds(i)); }
    }

    method AllowErase(loc: nat)
      requires Coupled() && loc < cfg.size
      modifies `slots, collectionFlags, collectionFlags.mem
      ensures Coupled() && slots == old(slots)[loc := old(slots)[loc].(garbage := true)]
    {
      assert Holds(loc);
      collectionFlags.BitSet(loc);
      slots := slots[loc := slots[loc].(garbage := true)];
      forall i: int ensures Holds(i) { assert old(Holds(i)); }
    }

    method Demote(loc: nat)
      requires Coupled() && loc < cfg.size
      modifies `slots, epochFlags
      ensures Coupled() && slots == old(slots)[loc := old(slots)[loc].(epoch := false)]
    {
      assert Holds(loc);
      epochFlags[loc] := false;
      slots := slots[loc := slots[loc].(epoch := false)];
      forall i: int ensures Holds(i) { assert old(Holds(i)); }
    }

    /** Exchange the pair in hand with the pair in a slot. */
    method Swap(loc: nat, e: T, epoch: bool) returns (e': T, epoch': bool)
      requires Coupled() && loc < cfg.size
      modifies `slots, table, epochFlags
      ensures Coupled() && e' == old(slots)[loc].elem && epoch' == old(slots)[loc].epoch
      ensures slots == old(slots)[loc := old(slots)[loc].(elem := e, epoch := epoch)]
    {
      assert Holds(loc);
      e', epoch' := table[loc], epochFlags[loc];
      table[loc] := e;
      epochFlags[loc] := epoch;
      slots := slots[loc := slots[loc].(elem := e, epoch := epoch)];
      forall i: int ensures Holds(i) { assert old(Holds(i)); }
    }

    method Find(locs: seq<nat>, e: T) returns (k: nat)
      requires Coupled() && |locs| == 8 && forall j :: 0 <= j < 8 ==> locs[j] < cfg.size
      ensures k == FindFrom(slots, locs, e, 0)
    {
      k := 0;
      while k < 8
        invariant k <= 8 && FindFrom(slots, locs, e, k) == FindFrom(slots, locs, e, 0)
      {
        assert Holds(locs[k]);
        if table[locs[k]] == e { return; }
        k := k + 1;
      }
    }

    method FindFree(locs: seq<nat>) returns (k: nat)
      requires Coupled() && |locs| == 8 && forall j :: 0 <= j < 8 ==> locs[j] < cfg.size
      ensures k == FreeFrom(slots, locs, 0)
    {
      k := 0;
      while k < 8
        invariant k <= 8 && FreeFrom(slots, locs, k) == FreeFrom(slots, locs, 0)
      {
        assert Holds(locs[k]);
        var free := collectionFlags.BitIsSet(locs[k]);
        if free { return; }
        k := k + 1;
      }
    }

    method CountLive() returns (n: nat)
      requires Coupled()
      ensures n == Live(slots)
    {
      n := 0;
      for i := 0 to cfg.size
        invariant n == Live(slots[..i])
      {
        assert slots[..i + 1][..i] == slots[..i];
        assert Holds(i);
        var erased := collectionFlags.BitIsSet(i);
        if epochFlags[i] && !erased { n := n + 1; }
      }
      assert slots[..cfg.size] == slots;
    }

    method StartEpoch()
      requires Coupled()
      modifies `slots, epochFlags, collectionFlags, collectionFlags.mem
      ensures Coupled() && slots == Age(old(slots))
    {
      ghost var s := slots;
      for i := 0 to cfg.size
        invariant Coupled()
        invariant forall k :: 0 <= k < i ==> slots[k] == AgeSlot(s[k])
        invariant forall k :: i <= k < cfg.size ==> slots[k] == s[k]
      {
        assert Holds(i);
        if epochFlags[i] { Demote(i); } else { AllowErase(i); }
      }
    }

    method CheckEpoch()
      requires Coupled()
      modifies `counter, `slots, epochFlags, collectionFlags, collectionFlags.mem
      ensures Coupled() && State() == EpochCheck(cfg, old(slots), old(counter))
    {
      if counter != 0 {
        counter := counter - 1;
        return;
      }
      var epochUnusedCount := CountLive();
      if epochUnusedCount >= cfg.epochSize {
        StartEpoch();
        counter := cfg.epochSize;
      } else {
        counter := Max(1, Max(cfg.epochSize / 16, cfg.epochSize - epochUnusedCount));
      }
    }

    /** With this pair in hand and so many rounds left, the loop will end in `goal`. */
    ghost predicate Pending(e: T, epoch: bool, last: nat, left: nat, goal: Slots<T>)
      reads `slots
    {
      0 < cfg.size == |slots| && Rounds(cfg, Hand(slots, e, epoch, last), left).s == goal
    }

    /** One round of the displacement loop: settle in a free slot, or swap. */
    method Round(e: T, epoch: bool, last: nat, ghost left: nat, ghost goal: Slots<T>)
      returns (done: bool, e': T, epoch': bool, last': nat)
      requires Coupled() && left > 0 && Pending(e, epoch, last, left, goal)
      modifies `slots, table, epochFlags, collectionFlags, collectionFlags.mem
      ensures Coupled() && if done then slots == goal else Pending(e', epoch', last', left - 1, goal)
    {
      RoundsNext(cfg, Hand(slots, e, epoch, last), left);
      e', epoch', last' := e, epoch, last;
      var locs := Locs(cfg, e);
      var k := FindFree(locs);
      if k < 8 {
        Store(locs[k], e, epoch);
        return true, e', epoch', last';
      }
      last' := NextLoc(locs, last);
      e', epoch' := Swap(last', e, epoch);
      done := false;
    }

    /** The displacement loop of insert. */
    method InsertNew(elem: T)
      requires Coupled()
      modifies `slots, table, epochFlags, collectionFlags, collectionFlags.mem
      ensures Coupled() && slots == InsertAbsent(cfg, old(slots), elem).s
    {
      ghost var goal := InsertAbsent(cfg, slots, elem).s;
      var e, lastLoc, lastEpoch := elem, INVALID, true;
      ghost var left := cfg.depthLimit;
      for depth := 0 to cfg.depthLimit
        invariant left == cfg.depthLimit - depth
        invariant Coupled() && Pending(e, lastEpoch, lastLoc, left, goal)
      {
        var done;
        done, e, lastEpoch, lastLoc := Round(e, lastEpoch, lastLoc, left, goal);
        if done { return; }
        left := left - 1;
      }
    }

    method Insert(e: T)
      requires Valid()
      modifies this, table, epochFlags, collectionFlags, collectionFlags.mem
      ensures Valid() && State() == Step(cfg, old(State()), OpInsert(e))
      ensures var checked := EpochCheck(cfg, old(slots), old(counter));
              counter == checked.counter && slots == Cuckoo.Insert(cfg, checked.s, e) && KeepsNew(cfg, checked.s, slots, e)
    {
      NewKept(cfg, slots, counter, e);
      StepSound(cfg, State(), OpInsert(e));
      CheckEpoch();
      var locs := Locs(cfg, e);
      var k := Find(locs, e);
      if k < 8 {
        Store(locs[k], e, true);
      } else {
        InsertNew(e);
      }
    }

    method Contains(e: T, erase: bool) returns (found: bool)
      requires Valid()
      modifies `slots, collectionFlags, collectionFlags.mem
      ensures Valid() && State() == Step(cfg, old(State()), OpContains(e, erase))
      ensures found <==> Cuckoo.Contains(cfg, old(slots), e)
      ensures counter == old(counter) && (!found || !erase ==> slots == old(slots))
      ensures found && erase ==>
                exists i :: 0 <= i < |old(slots)| && At(cfg, e, i) && old(slots)[i].elem == e && slots == old(slots)[i := old(slots)[i].(garbage := true)]
    {
      ghost var i := EraseMarks(cfg, slots, e);
      StoredExact(cfg, slots, e);
      StepSound(cfg, State(), OpContains(e, erase));
      var locs := Locs(cfg, e);
      var k := Find(locs, e);
      if k == 8 { return false; }
      if erase { AllowErase(locs[k]); }
      return true;
    }
  }
}
