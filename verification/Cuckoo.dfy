/** The cuckoo cache (src/cuckoocache.h) as values: a slot holds an element, its
    epoch bit and its collection flag. */
module Cuckoo {
  import opened Common

  /** `garbage` is the collection flag: the slot may be overwritten. */
  datatype Slot<T> = Slot(elem: T, epoch: bool, garbage: bool)

  type Slots<T> = seq<Slot<T>>

  /** `hash(e, k)` is the k-th 32-bit hash of e; `blank` is the value an element has
      before anything is stored. */
  datatype Config<!T> = Config(size: nat, hash: (T, nat) -> nat, blank: T, epochSize: nat, depthLimit: nat)

  const TWO32: nat := 0x1_0000_0000
  const INVALID: nat := 0xFFFF_FFFF

  /** setup: 45 per cent of the size, the product taken in 32 bits. */
  function EpochSize(size: nat): (r: nat)
    ensures r >= 1 && (45 * size < 0x1_0000_0000 ==> (100 * r <= 45 * size || r == 1) && 45 * size < 100 * (r + 1))
  {
    Max(1, ((45 * size) % 0x1_0000_0000) / 100)
  }

  predicate Ready<T>(c: Config<T>) {
    2 <= c.size < TWO32 && c.epochSize == EpochSize(c.size)
  }

  // ---------------------------------------------------------------- locations

  /** A 32-bit hash is scaled down to the table size without a division. */
  function Scale(h: nat, size: nat): (loc: nat)
    requires h < TWO32 && size > 0
    ensures loc < size
  {
    ScaleFits(h, size);
    h * size / 0x1_0000_0000
  }

  lemma ScaleFits(h: nat, size: nat)
    requires h < TWO32 && size > 0
    ensures 0 <= h * size / 0x1_0000_0000 < size
  {
  }

  function Loc<T>(c: Config<T>, e: T, k: nat): (loc: nat)
    requires c.size > 0
    ensures loc < c.size
  {
    Scale(c.hash(e, k) % 0x1_0000_0000, c.size)
  }

  function Locs<T>(c: Config<T>, e: T): (locs: seq<nat>)
    requires c.size > 0
    ensures |locs| == 8 && forall k :: 0 <= k < 8 ==> locs[k] < c.size
  {
    [Loc(c, e, 0), Loc(c, e, 1), Loc(c, e, 2), Loc(c, e, 3), Loc(c, e, 4), Loc(c, e, 5), Loc(c, e, 6), Loc(c, e, 7)]
  }

  /** The k-th location divides the table as the k-th hash divides 2^32. */
  lemma LocsExact<T>(c: Config<T>, e: T, k: nat)
    requires c.size > 0 && k < 8
    ensures var loc, h := Locs(c, e)[k], c.hash(e, k) % 0x1_0000_0000;
            loc * 0x1_0000_0000 <= h * c.size < (loc + 1) * 0x1_0000_0000
  {
    var h := c.hash(e, k) % 0x1_0000_0000;
    Quotient32(h * c.size);
    assert Locs(c, e)[k] == Scale(h, c.size);
  }

  lemma Quotient32(x: nat)
    ensures x / 0x1_0000_0000 * 0x1_0000_0000 <= x < (x / 0x1_0000_0000 + 1) * 0x1_0000_0000
  {
  }

  ghost predicate At<T>(c: Config<T>, e: T, i: nat)
    requires c.size > 0
  {
    i in Locs(c, e)
  }

  /** The first of the locations that holds e; their number if none does. */
  function FindFrom<T(==)>(s: Slots<T>, locs: seq<nat>, e: T, k: nat): (r: nat)
    requires k <= |locs| && forall j :: 0 <= j < |locs| ==> locs[j] < |s|
    ensures k <= r <= |locs|
    decreases |locs| - k
  {
    if k == |locs| || s[locs[k]].elem == e then k else FindFrom(s, locs, e, k + 1)
  }

  lemma {:induction false} FindExact<T>(s: Slots<T>, locs: seq<nat>, e: T, k: nat)
    requires k <= |locs| && forall j :: 0 <= j < |locs| ==> locs[j] < |s|
    ensures var r := FindFrom(s, locs, e, k);
            && (r < |locs| ==> s[locs[r]].elem == e)
            && (forall j :: k <= j < r ==> s[locs[j]].elem != e)
    decreases |locs| - k
  {
    if k < |locs| && s[locs[k]].elem != e { FindExact(s, locs, e, k + 1); }
  }

  /** The first of the locations that may be overwritten. */
  function FreeFrom<T>(s: Slots<T>, locs: seq<nat>, k: nat): (r: nat)
    requires k <= |locs| && forall j :: 0 <= j < |locs| ==> locs[j] < |s|
    ensures k <= r <= |locs|
    decreases |locs| - k
  {
    if k == |locs| || s[locs[k]].garbage then k else FreeFrom(s, locs, k + 1)
  }

  lemma {:induction false} FreeExact<T>(s: Slots<T>, locs: seq<nat>, k: nat)
    requires k <= |locs| && forall j :: 0 <= j < |locs| ==> locs[j] < |s|
    ensures var r := FreeFrom(s, locs, k);
            && (r < |locs| ==> s[locs[r]].garbage)
            && (forall j :: k <= j < r ==> !s[locs[j]].garbage)
    decreases |locs| - k
  {
    if k < |locs| && !s[locs[k]].garbage { FreeExact(s, locs, k + 1); }
  }

  function IndexFrom(locs: seq<nat>, loc: nat, k: nat): (r: nat)
    requires k <= |locs|
    ensures k <= r <= |locs|
    decreases |locs| - k
  {
    if k == |locs| || locs[k] == loc then k else IndexFrom(locs, loc, k + 1)
  }

  /** The location after the last one used; locs[1] if the last one is none of them. */
  function NextLoc(locs: seq<nat>, last: nat): (r: nat)
    requires |locs| == 8
    ensures r in locs
  {
    locs[(1 + IndexFrom(locs, last, 0)) % 8]
  }

  lemma {:induction false} IndexMissing(locs: seq<nat>, loc: nat, k: nat)
    requires k <= |locs| && forall j :: k <= j < |locs| ==> locs[j] != loc
    ensures IndexFrom(locs, loc, k) == |locs|
    decreases |locs| - k
  {
    if k < |locs| { IndexMissing(locs, loc, k + 1); }
  }

  lemma {:induction false} IndexFound(locs: seq<nat>, loc: nat, k: nat, i: nat)
    requires k <= i < |locs| && locs[i] == loc && forall j :: k <= j < i ==> locs[j] != loc
    ensures IndexFrom(locs, loc, k) == i
    decreases i - k
  {
    if k < i { IndexFound(locs, loc, k + 1, i); }
  }

  /** A later displacement uses the location after the one used last, cyclically. */
  lemma NextDisplacement(locs: seq<nat>, i: nat)
    requires |locs| == 8 && i < 8 && forall j :: 0 <= j < i ==> locs[j] != locs[i]
    ensures NextLoc(locs, locs[i]) == locs[if i == 7 then 0 else i + 1]
  {
    IndexFound(locs, locs[i], 0, i);
  }

  /** The first displacement uses the second location, so it uses the first one if and
      only if the two are the same. */
  lemma FirstDisplacement<T>(c: Config<T>, e: T)
    requires 0 < c.size < TWO32
    ensures NextLoc(Locs(c, e), INVALID) == Locs(c, e)[1]
    ensures NextLoc(Locs(c, e), INVALID) == Locs(c, e)[0] <==> Locs(c, e)[0] == Locs(c, e)[1]
  {
    IndexMissing(Locs(c, e), INVALID, 0);
  }

  /** A table of two slots and an element whose first displacement is not at its first
      location. */
  lemma FirstLocationPromiseFails()
    ensures var c := Config(2, (e: nat, k: nat) => if k == 0 then 0 else 0x8000_0000, 0, 1, 1);
            Locs(c, 7)[0] == 0 && NextLoc(Locs(c, 7), INVALID) == 1
  {
    var c := Config(2, (e: nat, k: nat) => if k == 0 then 0 else 0x8000_0000, 0, 1, 1);
    FirstDisplacement(c, 7);
  }

  // ---------------------------------------------------------------- insert

  /** The loop of insert: the table and the pair in hand. */
  datatype Hand<T> = Hand(s: Slots<T>, elem: T, epoch: bool, last: nat)

  /** What insert did: the table afterwards and the slot contents that are gone. */
  datatype Inserted<T> = Inserted(s: Slots<T>, lost: Slot<T>)

  function Displace<T>(c: Config<T>, h: Hand<T>): (r: Hand<T>)
    requires 0 < c.size == |h.s|
    ensures |r.s| == c.size
  {
    var loc := NextLoc(Locs(c, h.elem), h.last);
    Hand(h.s[loc := h.s[loc].(elem := h.elem, epoch := h.epoch)], h.s[loc].elem, h.s[loc].epoch, loc)
  }

  function Settle<T>(c: Config<T>, h: Hand<T>, loc: nat): Slots<T>
    requires loc < |h.s|
  {
    h.s[loc := Slot(h.elem, h.epoch, false)]
  }

  /** The loop, with `depth` rounds left. */
  function Rounds<T>(c: Config<T>, h: Hand<T>, depth: nat): (r: Inserted<T>)
    requires 0 < c.size == |h.s|
    ensures |r.s| == c.size
    decreases depth, 1
  {
    if depth == 0 then Inserted(h.s, Slot(h.elem, h.epoch, false)) else RoundFrom(c, h, depth)
  }

  /** One round: take a free location, or displace what is in the next one. */
  function RoundFrom<T>(c: Config<T>, h: Hand<T>, depth: nat): (r: Inserted<T>)
    requires 0 < c.size == |h.s| && depth > 0
    ensures |r.s| == c.size
    decreases depth, 0
  {
    var locs := Locs(c, h.elem);
    var k := FreeFrom(h.s, locs, 0);
    if k < 8 then Inserted(Settle(c, h, locs[k]), h.s[locs[k]])
    else Rounds(c, Displace(c, h), depth - 1)
  }

  function InsertAbsent<T>(c: Config<T>, s: Slots<T>, e: T): (r: Inserted<T>)
    requires 0 < c.size == |s|
    ensures |r.s| == c.size
  {
    Rounds(c, Hand(s, e, true, INVALID), c.depthLimit)
  }

  function Insert<T(==)>(c: Config<T>, s: Slots<T>, e: T): (r: Slots<T>)
    requires 0 < c.size == |s|
    ensures |r| == c.size
  {
    var locs := Locs(c, e);
    var k := FindFrom(s, locs, e, 0);
    if k < 8 then s[locs[k] := Slot(e, true, false)] else InsertAbsent(c, s, e).s
  }

  // ---------------------------------------------------------------- contains

  predicate Contains<T(==)>(c: Config<T>, s: Slots<T>, e: T)
    requires 0 < c.size == |s|
  {
    FindFrom(s, Locs(c, e), e, 0) < 8
  }

  /** contains with erase marks the place where e was found. */
  function Erase<T(==)>(c: Config<T>, s: Slots<T>, e: T): (r: Slots<T>)
    requires 0 < c.size == |s|
    ensures |r| == c.size
  {
    var locs := Locs(c, e);
    var k := FindFrom(s, locs, e, 0);
    if k < 8 then s[locs[k] := s[locs[k]].(garbage := true)] else s
  }

  // ---------------------------------------------------------------- conservation

  /** What is in the table and in hand. */
  ghost function Total<T>(h: Hand<T>): multiset<Slot<T>> {
    multiset(h.s) + multiset{Slot(h.elem, h.epoch, false)}
  }

  lemma DisplaceConserves<T>(c: Config<T>, h: Hand<T>)
    requires 0 < c.size == |h.s| && FreeFrom(h.s, Locs(c, h.elem), 0) == 8
    ensures Total(Displace(c, h)) == Total(h)
  {
    var locs := Locs(c, h.elem);
    var loc := NextLoc(locs, h.last);
    FreeExact(h.s, locs, 0);
    var j :| 0 <= j < 8 && locs[j] == loc;
    assert !h.s[locs[j]].garbage;
    assert Slot(h.s[loc].elem, h.s[loc].epoch, false) == h.s[loc];
    assert h.s[loc].(elem := h.elem, epoch := h.epoch) == Slot(h.elem, h.epoch, false);
    assert h.s[loc] in multiset(h.s);
  }

  lemma SettleConserves<T>(c: Config<T>, h: Hand<T>, loc: nat)
    requires loc < |h.s|
    ensures multiset(Settle(c, h, loc)) + multiset{h.s[loc]} == Total(h)
  {
    assert h.s[loc] in multiset(h.s);
  }

  lemma {:induction false} RoundsConserve<T>(c: Config<T>, h: Hand<T>, depth: nat)
    requires 0 < c.size == |h.s|
    ensures var r := Rounds(c, h, depth);
            multiset(r.s) + multiset{r.lost} == Total(h)
    decreases depth
  {
    if depth > 0 {
      var locs := Locs(c, h.elem);
      var k := FreeFrom(h.s, locs, 0);
      if k < 8 {
        SettleConserves(c, h, locs[k]);
      } else {
        DisplaceConserves(c, h);
        RoundsConserve(c, Displace(c, h), depth - 1);
      }
    }
  }

  /** The hand after n displacements. */
  ghost function After<T>(c: Config<T>, h: Hand<T>, n: nat): (r: Hand<T>)
    requires 0 < c.size == |h.s|
    ensures |r.s| == c.size
    decreases n
  {
    if n == 0 then h else After(c, Displace(c, h), n - 1)
  }

  /** All eight locations of the element in hand are kept. */
  ghost predicate Full<T>(c: Config<T>, h: Hand<T>)
    requires 0 < c.size == |h.s|
  {
    forall k :: 0 <= k < 8 ==> !h.s[Locs(c, h.elem)[k]].garbage
  }

  /** After n displacements there is still no room. */
  ghost predicate FullAfter<T>(c: Config<T>, h: Hand<T>, n: int)
    requires 0 < c.size == |h.s|
  {
    n >= 0 ==> Full(c, After(c, h, n))
  }

  lemma NoRoom<T>(c: Config<T>, h: Hand<T>)
    requires 0 < c.size == |h.s|
    ensures Full(c, h) <==> FreeFrom(h.s, Locs(c, h.elem), 0) == 8
  {
    FreeExact(h.s, Locs(c, h.elem), 0);
  }

  /** None of the next rounds has room. */
  ghost predicate AllFull<T>(c: Config<T>, h: Hand<T>, depth: nat)
    requires 0 < c.size == |h.s|
  {
    forall n :: 0 <= n < depth ==> FullAfter(c, h, n)
  }

  /** What the loop may lose: a collectable slot of the table, or, exactly when no round has
      room, what is in hand in the end. */
  ghost predicate MayLose<T>(c: Config<T>, h: Hand<T>, depth: nat, lost: Slot<T>)
    requires 0 < c.size == |h.s|
  {
    && (lost.garbage ==> lost in h.s)
    && (!lost.garbage <==> AllFull(c, h, depth))
    && (!lost.garbage ==> lost == Slot(After(c, h, depth).elem, After(c, h, depth).epoch, false))
  }

  lemma LoseSettled<T>(c: Config<T>, h: Hand<T>, depth: nat)
    requires 0 < c.size == |h.s| && depth > 0
    ensures var k := FreeFrom(h.s, Locs(c, h.elem), 0);
            k < 8 ==> MayLose(c, h, depth, h.s[Locs(c, h.elem)[k]])
  {
    FreeExact(h.s, Locs(c, h.elem), 0);
    if FreeFrom(h.s, Locs(c, h.elem), 0) < 8 { assert !FullAfter(c, h, 0); }
  }

  lemma LoseLater<T>(c: Config<T>, h: Hand<T>, depth: nat, lost: Slot<T>)
    requires 0 < c.size == |h.s| && depth > 0 && FreeFrom(h.s, Locs(c, h.elem), 0) == 8
    requires MayLose(c, Displace(c, h), depth - 1, lost)
    ensures MayLose(c, h, depth, lost)
  {
    NoRoom(c, h);
    FullLater(c, h, depth);
    if lost.garbage { DisplaceKeepsGarbage(c, h, lost); }
  }

  lemma {:induction false} RoundsLose<T>(c: Config<T>, h: Hand<T>, depth: nat)
    requires 0 < c.size == |h.s|
    ensures MayLose(c, h, depth, Rounds(c, h, depth).lost)
    decreases depth
  {
    if depth > 0 {
      LoseSettled(c, h, depth);
      if FreeFrom(h.s, Locs(c, h.elem), 0) == 8 {
        RoundsLose(c, Displace(c, h), depth - 1);
        LoseLater(c, h, depth, Rounds(c, Displace(c, h), depth - 1).lost);
      }
    }
  }

  lemma FullLater<T>(c: Config<T>, h: Hand<T>, depth: nat)
    requires 0 < c.size == |h.s| && Full(c, h) && depth > 0
    ensures AllFull(c, h, depth) <==> AllFull(c, Displace(c, h), depth - 1)
  {
    var d := Displace(c, h);
    if AllFull(c, h, depth) {
      forall n | 0 <= n < depth - 1 ensures FullAfter(c, d, n) { assert FullAfter(c, h, n + 1); }
    }
    if AllFull(c, d, depth - 1) {
      forall n | 0 <= n < depth ensures FullAfter(c, h, n) { if n > 0 { assert FullAfter(c, d, n - 1); } }
    }
  }

  /** A displacement touches no collectable slot. */
  lemma DisplaceKeepsGarbage<T>(c: Config<T>, h: Hand<T>, v: Slot<T>)
    requires 0 < c.size == |h.s| && FreeFrom(h.s, Locs(c, h.elem), 0) == 8 && v.garbage
    ensures v in Displace(c, h).s ==> v in h.s
  {
    DisplaceConserves(c, h);
    if v in Displace(c, h).s {
      assert multiset(Displace(c, h).s)[v] > 0;
      assert Total(h)[v] > 0;
      assert v in multiset(h.s);
    }
  }

  /** Inserting an absent element adds exactly (e, recent, kept) and takes away exactly one
      slot content: a collectable one of the table, or, if and only if each of the rounds
      found its eight locations kept, what was in hand when the depth ran out. */
  lemma InsertConserves<T>(c: Config<T>, s: Slots<T>, e: T)
    requires 0 < c.size == |s|
    ensures var r := InsertAbsent(c, s, e);
            && multiset(r.s) + multiset{r.lost} == multiset(s) + multiset{Slot(e, true, false)}
            && MayLose(c, Hand(s, e, true, INVALID), c.depthLimit, r.lost)
  {
    RoundsConserve(c, Hand(s, e, true, INVALID), c.depthLimit);
    RoundsLose(c, Hand(s, e, true, INVALID), c.depthLimit);
  }

  // ---------------------------------------------------------------- where elements are

  ghost predicate PlacedAt<T>(c: Config<T>, s: Slots<T>, i: int)
    requires c.size > 0
  {
    0 <= i < |s| ==> At(c, s[i].elem, i) || (s[i].elem == c.blank && s[i].garbage)
  }

  ghost predicate OnceAt<T>(c: Config<T>, s: Slots<T>, i: int, j: int) {
    0 <= i < j < |s| && s[i].elem == s[j].elem ==> s[i].elem == c.blank
  }

  /** Every slot holds an element at one of its eight locations, or is still
      untouched; and no element but the blank one is stored twice. */
  ghost predicate Placed<T>(c: Config<T>, s: Slots<T>)
    requires c.size > 0
  {
    && |s| == c.size
    && (forall i: int :: PlacedAt(c, s, i))
    && (forall i: int, j: int :: OnceAt(c, s, i, j))
  }

  /** The element in hand is nowhere in the table (unless it is the blank one). */
  ghost predicate Absent<T>(c: Config<T>, s: Slots<T>, e: T) {
    e == c.blank || forall i :: 0 <= i < |s| ==> s[i].elem != e
  }

  lemma PutPlaced<T>(c: Config<T>, s: Slots<T>, loc: nat, v: Slot<T>)
    requires c.size > 0 && Placed(c, s) && loc < |s| && At(c, v.elem, loc)
    requires Absent(c, s, v.elem) || v.elem == s[loc].elem
    ensures Placed(c, s[loc := v])
    ensures v.elem != s[loc].elem ==> Absent(c, s[loc := v], s[loc].elem)
  {
    var s' := s[loc := v];
    forall i: int ensures PlacedAt(c, s', i) { assert PlacedAt(c, s, i); }
    forall i: int, j: int ensures OnceAt(c, s', i, j) {
      assert OnceAt(c, s, i, j);
      if 0 <= i < j < |s'| && v.elem == s[loc].elem { assert s'[i].elem == s[i].elem && s'[j].elem == s[j].elem; }
    }
    if v.elem != s[loc].elem {
      forall i | 0 <= i < |s'| && s'[i].elem == s[loc].elem ensures s[loc].elem == c.blank {
        assert OnceAt(c, s, i, loc) && OnceAt(c, s, loc, i);
      }
    }
  }

  lemma {:induction false} RoundsPlaced<T>(c: Config<T>, h: Hand<T>, depth: nat)
    requires c.size > 0 && Placed(c, h.s) && Absent(c, h.s, h.elem)
    ensures Placed(c, Rounds(c, h, depth).s)
    decreases depth
  {
    if depth > 0 {
      var locs := Locs(c, h.elem);
      var k := FreeFrom(h.s, locs, 0);
      if k < 8 {
        assert locs[k] in locs;
        PutPlaced(c, h.s, locs[k], Slot(h.elem, h.epoch, false));
      } else {
        var loc := NextLoc(locs, h.last);
        PutPlaced(c, h.s, loc, h.s[loc].(elem := h.elem, epoch := h.epoch));
        var r := Displace(c, h);
        RoundsPlaced(c, r, depth - 1);
      }
    }
  }

  /** contains is exact: it finds an element if and only if some slot holds it (the
      blank one counts only where it was put on purpose). */
  lemma ContainsExact<T>(c: Config<T>, s: Slots<T>, e: T)
    requires c.size > 0 && Placed(c, s)
    ensures Contains(c, s, e) ==> exists i :: 0 <= i < |s| && s[i].elem == e
    ensures (exists i :: 0 <= i < |s| && s[i].elem == e && (e != c.blank || !s[i].garbage)) ==> Contains(c, s, e)
  {
    var locs := Locs(c, e);
    var k := FindFrom(s, locs, e, 0);
    FindExact(s, locs, e, 0);
    if k < 8 {
      assert s[locs[k]].elem == e;
    }
    forall i | 0 <= i < |s| && s[i].elem == e && (e != c.blank || !s[i].garbage)
      ensures k < 8
    {
      assert PlacedAt(c, s, i);
      var j :| 0 <= j < 8 && locs[j] == i;
    }
  }

  lemma InsertPlaced<T>(c: Config<T>, s: Slots<T>, e: T)
    requires c.size > 0 && Placed(c, s)
    ensures Placed(c, Insert(c, s, e))
  {
    var locs := Locs(c, e);
    var k := FindFrom(s, locs, e, 0);
    FindExact(s, locs, e, 0);
    if k < 8 {
      assert locs[k] in locs;
      PutPlaced(c, s, locs[k], Slot(e, true, false));
    } else {
      ContainsExact(c, s, e);
      RoundsPlaced(c, Hand(s, e, true, INVALID), c.depthLimit);
    }
  }

  // ---------------------------------------------------------------- what insert and erase do

  /** Some location of e holds it. */
  ghost predicate Stored<T>(c: Config<T>, s: Slots<T>, e: T)
    requires 0 < c.size == |s|
  {
    exists k :: 0 <= k < 8 && s[Locs(c, e)[k]].elem == e
  }

  lemma StoredExact<T>(c: Config<T>, s: Slots<T>, e: T)
    requires 0 < c.size == |s|
    ensures Stored(c, s, e) <==> FindFrom(s, Locs(c, e), e, 0) < 8
    ensures Contains(c, s, e) <==> Stored(c, s, e)
  {
    FindExact(s, Locs(c, e), e, 0);
  }

  /** An element that is stored is renewed where it is: recent and kept. */
  lemma InsertRenews<T>(c: Config<T>, s: Slots<T>, e: T) returns (i: nat)
    requires 0 < c.size == |s| && Stored(c, s, e)
    ensures At(c, e, i) && i < |s| && s[i].elem == e && Insert(c, s, e) == s[i := Slot(e, true, false)]
    ensures e != c.blank && Placed(c, s) ==> forall j :: 0 <= j < |s| && s[j].elem == e ==> j == i
  {
    var locs := Locs(c, e);
    StoredExact(c, s, e);
    FindExact(s, locs, e, 0);
    i := locs[FindFrom(s, locs, e, 0)];
    if e != c.blank && Placed(c, s) {
      forall j | 0 <= j < |s| && s[j].elem == e ensures j == i { assert OnceAt(c, s, i, j) && OnceAt(c, s, j, i); }
    }
  }

  /** Any other element adds one slot content and loses one. */
  lemma InsertAdds<T>(c: Config<T>, s: Slots<T>, e: T) returns (lost: Slot<T>)
    requires 0 < c.size == |s| && !Stored(c, s, e)
    ensures multiset(Insert(c, s, e)) + multiset{lost} == multiset(s) + multiset{Slot(e, true, false)}
    ensures MayLose(c, Hand(s, e, true, INVALID), c.depthLimit, lost)
  {
    StoredExact(c, s, e);
    InsertConserves(c, s, e);
    lost := InsertAbsent(c, s, e).lost;
  }

  /** Every round finds all locations kept, and what is left in hand is the new element. */
  ghost predicate Bounces<T>(c: Config<T>, s: Slots<T>, e: T)
    requires 0 < c.size == |s|
  {
    var h := Hand(s, e, true, INVALID);
    AllFull(c, h, c.depthLimit) && After(c, h, c.depthLimit).elem == e
  }

  lemma InSlots<T>(s: Slots<T>, v: Slot<T>)
    requires v in multiset(s)
    ensures exists i :: 0 <= i < |s| && s[i] == v
  {
    assert v in s;
  }

  /** An inserted element is found afterwards, unless it was not stored before and bounces. */
  lemma InsertFound<T>(c: Config<T>, s: Slots<T>, e: T)
    requires c.size > 0 && Placed(c, s) && e != c.blank
    ensures Contains(c, Insert(c, s, e), e) <==> Stored(c, s, e) || !Bounces(c, s, e)
  {
    var r, v := Insert(c, s, e), Slot(e, true, false);
    InsertPlaced(c, s, e);
    if Stored(c, s, e) {
      var i := InsertRenews(c, s, e);
      assert r[i] == v;
      ContainsExact(c, r, e);
    } else {
      var lost := InsertAdds(c, s, e);
      assert !Contains(c, s, e) by { StoredExact(c, s, e); }
      NotStored(c, s, e, lost, r);
    }
  }

  lemma NotStored<T>(c: Config<T>, s: Slots<T>, e: T, lost: Slot<T>, r: Slots<T>)
    requires c.size > 0 && Placed(c, s) && Placed(c, r) && e != c.blank && !Contains(c, s, e)
    requires multiset(r) + multiset{lost} == multiset(s) + multiset{Slot(e, true, false)}
    requires MayLose(c, Hand(s, e, true, INVALID), c.depthLimit, lost)
    ensures Contains(c, r, e) <==> !Bounces(c, s, e)
  {
    forall i | 0 <= i < |s| ensures s[i].elem != e { if s[i].elem == e { ContainsExact(c, s, e); } }
    LostIsNew(s, e, lost, r);
    ContainsExact(c, r, e);
  }

  /** Of what is added and what is lost: the table has e afterwards unless that is lost. */
  lemma LostIsNew<T>(s: Slots<T>, e: T, lost: Slot<T>, r: Slots<T>)
    requires forall i :: 0 <= i < |s| ==> s[i].elem != e
    requires multiset(r) + multiset{lost} == multiset(s) + multiset{Slot(e, true, false)}
    ensures lost.elem == e ==> lost == Slot(e, true, false)
    ensures lost.elem == e ==> forall i :: 0 <= i < |r| ==> r[i].elem != e
    ensures lost.elem != e ==> exists i :: 0 <= i < |r| && r[i] == Slot(e, true, false)
  {
    var v := Slot(e, true, false);
    assert lost in multiset(r) + multiset{lost};
    if lost.elem == e {
      if lost != v {
        assert lost in multiset(s);
        InSlots(s, lost);
      }
      assert multiset(r) == multiset(r) + multiset{lost} - multiset{v} == multiset(s) by {
        assert multiset(s) + multiset{v} - multiset{v} == multiset(s);
      }
      forall i | 0 <= i < |r| ensures r[i].elem != e {
        assert r[i] in multiset(s);
        InSlots(s, r[i]);
      }
    } else {
      assert (multiset(r) + multiset{lost})[v] > 0;
      InSlots(r, v);
    }
  }

  /** Inserting makes at most one other element unfindable, the lost one. */
  lemma InsertForgets<T>(c: Config<T>, s: Slots<T>, e: T, x: T)
    requires c.size > 0 && Placed(c, s) && !Stored(c, s, e) && x != c.blank && Contains(c, s, x)
    ensures var lost := InsertAbsent(c, s, e).lost;
            Contains(c, Insert(c, s, e), x) || (lost.elem == x && (lost.garbage || AllFull(c, Hand(s, e, true, INVALID), c.depthLimit)))
  {
    var r, lost := Insert(c, s, e), InsertAbsent(c, s, e).lost;
    assert multiset(r) + multiset{lost} == multiset(s) + multiset{Slot(e, true, false)} by {
      StoredExact(c, s, e);
      InsertConserves(c, s, e);
    }
    assert lost.garbage || AllFull(c, Hand(s, e, true, INVALID), c.depthLimit) by { InsertConserves(c, s, e); }
    if lost.elem != x {
      ContainsExact(c, s, x);
      var i :| 0 <= i < |s| && s[i].elem == x;
      assert (multiset(r) + multiset{lost})[s[i]] > 0;
      InSlots(r, s[i]);
      InsertPlaced(c, s, e);
      ContainsExact(c, r, x);
    }
  }

  /** contains with erase marks one place where e is, and nothing else. */
  lemma EraseMarks<T>(c: Config<T>, s: Slots<T>, e: T) returns (i: nat)
    requires 0 < c.size == |s|
    ensures !Stored(c, s, e) ==> Erase(c, s, e) == s
    ensures Stored(c, s, e) ==> At(c, e, i) && i < |s| && s[i].elem == e && Erase(c, s, e) == s[i := s[i].(garbage := true)]
  {
    var locs := Locs(c, e);
    StoredExact(c, s, e);
    FindExact(s, locs, e, 0);
    i := if Stored(c, s, e) then locs[FindFrom(s, locs, e, 0)] else 0;
  }

  lemma ErasePlaced<T>(c: Config<T>, s: Slots<T>, e: T)
    requires c.size > 0 && Placed(c, s)
    ensures Placed(c, Erase(c, s, e))
  {
    var locs := Locs(c, e);
    var k := FindFrom(s, locs, e, 0);
    FindExact(s, locs, e, 0);
    if k < 8 {
      assert locs[k] in locs;
      PutPlaced(c, s, locs[k], s[locs[k]].(garbage := true));
    }
  }

  // ---------------------------------------------------------------- epochs

  function Recent<T>(v: Slot<T>): nat { if v.epoch && !v.garbage then 1 else 0 }

  /** The kept elements of the current epoch. */
  function Live<T>(s: Slots<T>): (n: nat)
    ensures n <= |s|
  {
    if s == [] then 0 else Live(s[..|s| - 1]) + Recent(s[|s| - 1])
  }

  lemma {:induction false} LiveUpdate<T>(s: Slots<T>, i: nat, v: Slot<T>)
    requires i < |s|
    ensures Live(s[i := v]) == Live(s) - Recent(s[i]) + Recent(v)
    decreases |s|
  {
    var n := |s| - 1;
    if i == n {
      assert s[i := v][..n] == s[..n];
    } else {
      LiveUpdate(s[..n], i, v);
      assert s[i := v][..n] == s[..n][i := v];
    }
  }

  /** The end of an epoch: the recent elements become old, the old ones garbage. */
  function AgeSlot<T>(v: Slot<T>): Slot<T> { if v.epoch then v.(epoch := false) else v.(garbage := true) }

  function Age<T>(s: Slots<T>): Slots<T> { seq(|s|, i requires 0 <= i < |s| => AgeSlot(s[i])) }

  datatype Checked<T> = Checked(s: Slots<T>, counter: nat)

  function EpochCheck<T>(c: Config<T>, s: Slots<T>, counter: nat): (r: Checked<T>)
    ensures |r.s| == |s|
  {
    if counter != 0 then Checked(s, counter - 1)
    else if Live(s) >= c.epochSize then Checked(Age(s), c.epochSize)
    else Checked(s, Max(1, Max(c.epochSize / 16, c.epochSize - Live(s))))
  }

  /** The slots of kept elements of the current epoch. */
  ghost function LiveSlots<T>(s: Slots<T>): set<nat> { set i: nat | i < |s| && s[i].epoch && !s[i].garbage }

  lemma {:induction false} LiveIsCount<T>(s: Slots<T>)
    ensures Live(s) == |LiveSlots(s)|
    decreases |s|
  {
    if s != [] {
      var n := |s| - 1;
      LiveIsCount(s[..n]);
      if s[n].epoch && !s[n].garbage {
        assert LiveSlots(s) == LiveSlots(s[..n]) + {n};
      } else {
        assert LiveSlots(s) == LiveSlots(s[..n]);
      }
    } else {
      assert LiveSlots(s) == {};
    }
  }

  /** An epoch ends if and only if the counter has run out and it has at least epochSize kept
      elements: then those become old but stay kept, and all older ones collectable. */
  lemma EpochCheckExact<T>(c: Config<T>, s: Slots<T>, counter: nat, i: nat)
    requires i < |s|
    ensures var r := EpochCheck(c, s, counter); var n := |LiveSlots(s)|;
            && (counter > 0 ==> r.s == s && r.counter == counter - 1)
            && (counter == 0 && n < c.epochSize ==>
                  r.s == s && 1 <= r.counter && c.epochSize - n <= r.counter && c.epochSize / 16 <= r.counter
                  && (r.counter == 1 || r.counter == c.epochSize - n || r.counter == c.epochSize / 16))
            && (counter == 0 && n >= c.epochSize ==>
                  && r.counter == c.epochSize && r.s[i].elem == s[i].elem && !r.s[i].epoch
                  && (s[i].epoch ==> r.s[i].garbage == s[i].garbage) && (!s[i].epoch ==> r.s[i].garbage))
  {
    LiveIsCount(s);
  }

  lemma {:induction false} NoneLive<T>(s: Slots<T>)
    requires forall i :: 0 <= i < |s| ==> Recent(s[i]) == 0
    ensures Live(s) == 0
    decreases |s|
  {
    if s != [] { NoneLive(s[..|s| - 1]); }
  }

  lemma {:induction false} RoundsLive<T>(c: Config<T>, h: Hand<T>, depth: nat)
    requires 0 < c.size == |h.s|
    ensures Live(Rounds(c, h, depth).s) <= Live(h.s) + (if h.epoch then 1 else 0)
    decreases depth
  {
    if depth > 0 {
      if FreeFrom(h.s, Locs(c, h.elem), 0) < 8 {
        SettleLive(c, h);
      } else {
        DisplaceLive(c, h);
        RoundsLive(c, Displace(c, h), depth - 1);
      }
    }
  }

  lemma SettleLive<T>(c: Config<T>, h: Hand<T>)
    requires 0 < c.size == |h.s| && FreeFrom(h.s, Locs(c, h.elem), 0) < 8
    ensures var locs := Locs(c, h.elem);
            Live(Settle(c, h, locs[FreeFrom(h.s, locs, 0)])) == Live(h.s) + (if h.epoch then 1 else 0)
  {
    var locs := Locs(c, h.elem);
    FreeExact(h.s, locs, 0);
    LiveUpdate(h.s, locs[FreeFrom(h.s, locs, 0)], Slot(h.elem, h.epoch, false));
  }

  /** A displaced element takes its epoch flag along. */
  lemma DisplaceLive<T>(c: Config<T>, h: Hand<T>)
    requires 0 < c.size == |h.s| && FreeFrom(h.s, Locs(c, h.elem), 0) == 8
    ensures var r := Displace(c, h);
            Live(r.s) + (if r.epoch then 1 else 0) == Live(h.s) + (if h.epoch then 1 else 0)
  {
    var locs := Locs(c, h.elem);
    var loc := NextLoc(locs, h.last);
    LiveUpdate(h.s, loc, h.s[loc].(elem := h.elem, epoch := h.epoch));
    FreeExact(h.s, locs, 0);
    var j :| 0 <= j < 8 && locs[j] == loc;
    assert !h.s[locs[j]].garbage;
  }

  /** An insert adds at most one live element, an erase none. */
  lemma InsertLive<T>(c: Config<T>, s: Slots<T>, e: T)
    requires 0 < c.size == |s|
    ensures Live(Insert(c, s, e)) <= Live(s) + 1
    ensures Live(Erase(c, s, e)) <= Live(s)
  {
    var locs := Locs(c, e);
    var k := FindFrom(s, locs, e, 0);
    FindExact(s, locs, e, 0);
    if k < 8 {
      LiveUpdate(s, locs[k], Slot(e, true, false));
      LiveUpdate(s, locs[k], s[locs[k]].(garbage := true));
    } else {
      RoundsLive(c, Hand(s, e, true, INVALID), c.depthLimit);
    }
  }

  /** An epoch never has more live elements than this; the counter pays for the
      inserts until the next scan. */
  function Bound<T>(c: Config<T>): nat { c.epochSize + Max(1, c.epochSize / 16) }

  lemma AgeKeeps<T>(c: Config<T>, s: Slots<T>)
    requires c.size > 0 && Placed(c, s)
    ensures Placed(c, Age(s)) && Live(Age(s)) == 0
  {
    var s' := Age(s);
    forall i: int ensures PlacedAt(c, s', i) { assert PlacedAt(c, s, i); }
    forall i: int, j: int ensures OnceAt(c, s', i, j) { assert OnceAt(c, s, i, j); }
    NoneLive(s');
  }

  lemma EpochCheckPays<T>(c: Config<T>, s: Slots<T>, counter: nat)
    requires c.size > 0 && c.epochSize > 0 && Placed(c, s) && Live(s) + counter <= Bound(c)
    ensures var r := EpochCheck(c, s, counter);
            Placed(c, r.s) && Live(r.s) + r.counter + 1 <= Bound(c)
  {
    AgeKeeps(c, s);
  }

  // ---------------------------------------------------------------- whole runs

  datatype Op<T> = OpInsert(e: T) | OpContains(e: T, erase: bool)

  function Step<T(==)>(c: Config<T>, t: Checked<T>, op: Op<T>): (r: Checked<T>)
    requires 0 < c.size == |t.s|
    ensures |r.s| == c.size
  {
    match op
    case OpInsert(e) => var r := EpochCheck(c, t.s, t.counter); r.(s := Insert(c, r.s, e))
    case OpContains(e, erase) => if erase then t.(s := Erase(c, t.s, e)) else t
  }

  function Run<T(==)>(c: Config<T>, t: Checked<T>, ops: seq<Op<T>>): (r: Checked<T>)
    requires 0 < c.size == |t.s|
    ensures |r.s| == c.size
    decreases |ops|
  {
    if ops == [] then t else Run(c, Step(c, t, ops[0]), ops[1..])
  }

  ghost predicate Sound<T>(c: Config<T>, t: Checked<T>)
    requires c.size > 0
  {
    Placed(c, t.s) && Live(t.s) + t.counter <= Bound(c)
  }

  lemma StepSound<T>(c: Config<T>, t: Checked<T>, op: Op<T>)
    requires c.size > 0 && c.epochSize > 0 && Sound(c, t)
    ensures Sound(c, Step(c, t, op))
  {
    match op
    case OpInsert(e) =>
      var r := EpochCheck(c, t.s, t.counter);
      EpochCheckPays(c, t.s, t.counter);
      InsertPlaced(c, r.s, e);
      InsertLive(c, r.s, e);
    case OpContains(e, erase) =>
      ErasePlaced(c, t.s, e);
      InsertLive(c, t.s, e);
  }

  function Empty<T>(c: Config<T>): (t: Checked<T>)
    ensures |t.s| == c.size && t.counter == c.epochSize
  {
    Checked(seq(c.size, i => Slot(c.blank, false, true)), c.epochSize)
  }

  lemma EmptySound<T>(c: Config<T>)
    requires Ready(c)
    ensures Sound(c, Empty(c))
  {
    var s := Empty(c).s;
    forall i: int ensures PlacedAt(c, s, i) {}
    forall i: int, j: int ensures OnceAt(c, s, i, j) {}
    NoneLive(s);
  }

  lemma {:induction false} RunSound<T>(c: Config<T>, t: Checked<T>, ops: seq<Op<T>>)
    requires c.size > 0 && c.epochSize > 0 && Sound(c, t)
    ensures Sound(c, Run(c, t, ops))
    decreases |ops|
  {
    if ops != [] {
      StepSound(c, t, ops[0]);
      RunSound(c, Step(c, t, ops[0]), ops[1..]);
    }
  }

  /** Over any run the live elements and the counter together stay within the epoch
      size plus a sixteenth (at least one), and whatever a slot keeps is found. */
  lemma EveryRunIsSound<T>(c: Config<T>, ops: seq<Op<T>>)
    requires Ready(c)
    ensures var t := Run(c, Empty(c), ops);
            && Live(t.s) + t.counter <= c.epochSize + Max(1, c.epochSize / 16)
            && forall i :: 0 <= i < |t.s| && !t.s[i].garbage ==> Contains(c, t.s, t.s[i].elem)
  {
    EmptySound(c);
    RunSound(c, Empty(c), ops);
    var t := Run(c, Empty(c), ops);
    forall i | 0 <= i < |t.s| && !t.s[i].garbage ensures Contains(c, t.s, t.s[i].elem) {
      ContainsExact(c, t.s, t.s[i].elem);
    }
  }

  /** Until the next insert, an element that was found is found again, even if the
      first look allowed it to be erased. */
  lemma EraseIsDeferred<T>(c: Config<T>, s: Slots<T>, e: T, x: T)
    requires 0 < c.size == |s|
    ensures Contains(c, Erase(c, s, e), x) <==> Contains(c, s, x)
  {
    var s', locs := Erase(c, s, e), Locs(c, x);
    assert forall j :: 0 <= j < 8 ==> s'[locs[j]].elem == s[locs[j]].elem;
    FindExact(s, locs, x, 0);
    FindExact(s', locs, x, 0);
  }
}
