/**
 The unspent-output cache: a stack of write-back caches over a database.

 A `View` is the whole stack as a value.  The functions below say what each
 operation does to it; `CoinsCache.dfy` holds the objects that do it in place.
 */
module Coins {
  import opened Common

  type Hash = nat
  type Script = seq<nat>

  datatype OutPoint = OutPoint(hash: Hash, n: nat)

  const OP_RETURN := 0x6a
  const MAX_SCRIPT_SIZE := 10000
  const NULL_VALUE := -1
  const NULL_HASH: Hash := 0

  datatype Coin = Coin(nValue: int, script: Script, fCoinBase: bool, nHeight: nat) {
    predicate IsSpent() { nValue == NULL_VALUE }

    predicate IsUnspendable() {
      (|script| > 0 && script[0] == OP_RETURN) || |script| > MAX_SCRIPT_SIZE
    }

    /** Scripts of up to 28 bytes are stored inline; longer ones cost a rounded-up allocation. */
    function DynamicMemoryUsage(): (u: nat) {
      if |script| <= 28 then 0 else (|script| + 31) / 16 * 16
    }
  }

  /** A default-constructed or cleared coin. */
  const EMPTY_COIN := Coin(NULL_VALUE, [], false, 0)

  datatype Entry = Entry(coin: Coin, isDirty: bool, isFresh: bool)

  type CoinsMap = map<OutPoint, Entry>

  datatype View =
    | Database(coins: map<OutPoint, Coin>, best: Hash)
    | Cache(cacheCoins: CoinsMap, usage: int, hashBlock: Hash, base: View)

  // ---------------------------------------------------------------- reading

  function Unspent(c: Coin): Option<Coin> { if c.IsSpent() then None else Some(c) }

  /** The coin a view shows at an outpoint. */
  function Get(v: View, o: OutPoint): Option<Coin> {
    match v
    case Database(coins, _) => if o in coins then Some(coins[o]) else None
    case Cache(cacheCoins, _, _, base) =>
      if o in cacheCoins then Unspent(cacheCoins[o].coin) else Get(base, o)
  }

  /** FetchCoin: pull the entry into every cache on the way down to where it is found. */
  function Fetch(v: View, o: OutPoint): (r: View)
    ensures v.Cache? ==> r.Cache?
  {
    match v
    case Database(_, _) => v
    case Cache(cacheCoins, usage, hashBlock, base) =>
      if o in cacheCoins then v
      else
        var below := Fetch(base, o);
        match Get(below, o)
        case None => v.(base := below)
        case Some(coin) =>
          Cache(cacheCoins[o := Entry(coin, false, coin.IsSpent())],
                usage + coin.DynamicMemoryUsage(), hashBlock, below)
  }

  /** The best block a view shows: its own, or that of its base while it has none. */
  function Best(v: View): Hash {
    match v
    case Database(_, best) => best
    case Cache(_, _, hashBlock, base) => if hashBlock != NULL_HASH then hashBlock else Best(base)
  }

  /** GetBestBlock: a cache that has no best block takes over that of its base. */
  function FetchBest(v: View): (r: View)
    ensures v.Cache? ==> r.Cache?
  {
    match v
    case Database(_, _) => v
    case Cache(_, _, hashBlock, base) =>
      if hashBlock != NULL_HASH then v else v.(hashBlock := Best(base), base := FetchBest(base))
  }

  function SetBest(v: View, hash: Hash): View
    requires v.Cache?
  {
    v.(hashBlock := hash)
  }

  // ---------------------------------------------------------------- changing one cache

  datatype Outcome<+T> = Returned(value: T) | Threw

  /** AddCoin.  `Threw` is "Adding new coin that replaces non-pruned entry". */
  function AddCoin(v: View, o: OutPoint, coin: Coin, overwrite: bool): Outcome<View>
    requires v.Cache?
    requires !coin.IsSpent()
  {
    if coin.IsUnspendable() then Returned(v)
    else
      var entry := if o in v.cacheCoins then v.cacheCoins[o] else Entry(EMPTY_COIN, false, false);
      if !overwrite && !entry.coin.IsSpent() then Threw
      else
        var freshNow := !overwrite && !entry.isDirty;
        Returned(v.(cacheCoins := v.cacheCoins[o := Entry(coin, true, entry.isFresh || freshNow)],
                    usage := v.usage - entry.coin.DynamicMemoryUsage() + coin.DynamicMemoryUsage()))
  }

  /** The memory count after AddCoin, returned or thrown: that of the old entry is taken off
      before the test that may throw. */
  function UsageAfterAdd(v: View, o: OutPoint, coin: Coin, overwrite: bool): int
    requires v.Cache? && !coin.IsSpent()
  {
    match AddCoin(v, o, coin, overwrite)
    case Returned(r) => r.usage
    case Threw => v.usage - v.cacheCoins[o].coin.DynamicMemoryUsage()
  }

  /** SpendCoin, after FetchCoin has run. */
  function SpendFetched(v: View, o: OutPoint): View
    requires v.Cache?
  {
    if o !in v.cacheCoins then v
    else
      var entry := v.cacheCoins[o];
      var lowered := v.usage - entry.coin.DynamicMemoryUsage();
      if entry.isFresh then v.(cacheCoins := v.cacheCoins - {o}, usage := lowered)
      else v.(cacheCoins := v.cacheCoins[o := Entry(EMPTY_COIN, true, false)], usage := lowered)
  }

  function SpendCoin(v: View, o: OutPoint): View
    requires v.Cache?
  {
    SpendFetched(Fetch(v, o), o)
  }

  /** What SpendCoin returns: whether there is an entry, spent or not. */
  predicate SpendResult(v: View, o: OutPoint)
    requires v.Cache?
  {
    o in Fetch(v, o).cacheCoins
  }

  function Uncache(v: View, o: OutPoint): View
    requires v.Cache?
  {
    if o in v.cacheCoins && !v.cacheCoins[o].isDirty && !v.cacheCoins[o].isFresh then
      v.(cacheCoins := v.cacheCoins - {o}, usage := v.usage - v.cacheCoins[o].coin.DynamicMemoryUsage())
    else v
  }

  // ---------------------------------------------------------------- writing back

  /** The "FRESH flag misapplied" exception of BatchWrite. */
  predicate Misapplied(ours: CoinsMap, o: OutPoint, child: Entry) {
    child.isDirty && o in ours && child.isFresh && !ours[o].coin.IsSpent()
  }

  /** What one entry of the child does to our map. */
  function WriteEntry(ours: CoinsMap, o: OutPoint, child: Entry): CoinsMap {
    if !child.isDirty then ours
    else if o !in ours then
      if child.isFresh && child.coin.IsSpent() then ours
      else ours[o := Entry(child.coin, true, child.isFresh)]
    else if ours[o].isFresh && child.coin.IsSpent() then ours - {o}
    else ours[o := Entry(child.coin, true, ours[o].isFresh)]
  }

  /** What all entries of the child do to our map, one outpoint at a time. */
  function Merge(ours: CoinsMap, child: CoinsMap): (r: CoinsMap) {
    map o | o in ours.Keys + child.Keys && o in Written(ours, child, o) :: Written(ours, child, o)[o]
  }

  function Written(ours: CoinsMap, child: CoinsMap, o: OutPoint): CoinsMap {
    if o in child then WriteEntry(ours, o, child[o]) else ours
  }

  /** The same for the database: dirty coins are written, dirty spent ones erased. */
  function WriteDatabase(coins: map<OutPoint, Coin>, o: OutPoint, child: Entry): map<OutPoint, Coin> {
    if !child.isDirty then coins
    else if child.coin.IsSpent() then coins - {o}
    else coins[o := child.coin]
  }

  function MergeDatabase(coins: map<OutPoint, Coin>, child: CoinsMap): map<OutPoint, Coin> {
    map o | o in coins.Keys + child.Keys && !(o in child && child[o].isDirty && child[o].coin.IsSpent())
            && (o in coins || child[o].isDirty)
      :: if o in child && child[o].isDirty then child[o].coin else coins[o]
  }

  predicate AnyMisapplied(ours: CoinsMap, child: CoinsMap) {
    exists o :: o in child && Misapplied(ours, o, child[o])
  }

  /** Entries are written one at a time, in whatever order the map is walked. */
  lemma MergeOne(ours: CoinsMap, child: CoinsMap, todo: set<OutPoint>, o: OutPoint)
    requires o in child && o in todo
    ensures Merge(ours, child - (todo - {o})) == WriteEntry(Merge(ours, child - todo), o, child[o])
    ensures o in Merge(ours, child - todo) <==> o in ours
    ensures o in ours ==> Merge(ours, child - todo)[o] == ours[o]
  {
  }

  lemma MergeDatabaseOne(coins: map<OutPoint, Coin>, child: CoinsMap, todo: set<OutPoint>, o: OutPoint)
    requires o in child && o in todo
    ensures MergeDatabase(coins, child - (todo - {o})) == WriteDatabase(MergeDatabase(coins, child - todo), o, child[o])
  {
  }

  lemma MergeNothing(ours: CoinsMap, coins: map<OutPoint, Coin>)
    ensures Merge(ours, map[]) == ours
    ensures MergeDatabase(coins, map[]) == coins
  {
  }

  // ---------------------------------------------------------------- memory accounting

  /** The dynamic memory of all coins of a map. */
  ghost function Usage(c: CoinsMap): int
    decreases |c|
  {
    if c == map[] then 0
    else
      var o :| o in c;
      c[o].coin.DynamicMemoryUsage() + Usage(c - {o})
  }

  /** Flush: write every entry into the base, then clear this cache.  The database asserts
      that it is given a best block; `Threw` stands for that too. */
  ghost function Flush(v: View): Outcome<View>
    requires v.Cache?
  {
    match v.base
    case Database(coins, _) =>
      if v.hashBlock == NULL_HASH then Threw
      else Returned(Cache(map[], 0, v.hashBlock, Database(MergeDatabase(coins, v.cacheCoins), v.hashBlock)))
    case Cache(ours, usage, _, base) =>
      if AnyMisapplied(ours, v.cacheCoins) then Threw
      else
        var merged := Merge(ours, v.cacheCoins);
        Returned(Cache(map[], 0, v.hashBlock, Cache(merged, usage + Usage(merged) - Usage(ours), v.hashBlock, base)))
  }

  lemma {:induction false} UsageRemove(c: CoinsMap, o: OutPoint)
    requires o in c
    ensures Usage(c) == c[o].coin.DynamicMemoryUsage() + Usage(c - {o})
    decreases |c|
  {
    var p :| p in c && Usage(c) == c[p].coin.DynamicMemoryUsage() + Usage(c - {p});
    if p != o {
      UsageRemove(c - {p}, o);
      UsageRemove(c - {o}, p);
      assert (c - {p}) - {o} == (c - {o}) - {p};
    }
  }

  lemma UsagePut(c: CoinsMap, o: OutPoint, e: Entry)
    ensures Usage(c[o := e]) == e.coin.DynamicMemoryUsage() + Usage(c - {o})
    ensures o in c ==> Usage(c[o := e]) == Usage(c) - c[o].coin.DynamicMemoryUsage() + e.coin.DynamicMemoryUsage()
    ensures o !in c ==> Usage(c[o := e]) == Usage(c) + e.coin.DynamicMemoryUsage()
  {
    UsageRemove(c[o := e], o);
    assert c[o := e] - {o} == c - {o};
    if o in c { UsageRemove(c, o); } else { assert c - {o} == c; }
  }

  // ---------------------------------------------------------------- what the flags mean

  /** DIRTY and FRESH against what the parent view shows at the same outpoint. */
  predicate EntryOk(e: Entry, below: Option<Coin>) {
    && (e.isFresh ==> below == None && !e.coin.IsSpent())
    && (!e.isDirty ==> Unspent(e.coin) == below)
  }

  ghost predicate Valid(v: View) {
    match v
    case Database(coins, _) => forall o :: o in coins ==> !coins[o].IsSpent()
    case Cache(cacheCoins, usage, _, base) =>
      && Valid(base)
      && usage == Usage(cacheCoins)
      && forall o :: o in cacheCoins ==> EntryOk(cacheCoins[o], Get(base, o))
  }

  /** The same picture at every level of the stack. */
  ghost predicate SameViews(v: View, w: View) {
    match v
    case Database(coins, best) => w == v
    case Cache(_, _, hashBlock, base) =>
      && w.Cache? && w.hashBlock == hashBlock
      && (forall o :: Get(v, o) == Get(w, o))
      && SameViews(base, w.base)
  }

  lemma {:induction false} SameViewsRefl(v: View)
    ensures SameViews(v, v)
  {
    if v.Cache? { SameViewsRefl(v.base); }
  }

  lemma GetUnspent(v: View, o: OutPoint)
    requires Valid(v)
    ensures Get(v, o).Some? ==> !Get(v, o).value.IsSpent()
  {}

  /** Reading fills caches and changes nothing that any level shows.  In
      particular the branch that marks a fetched spent coin FRESH is dead. */
  lemma {:induction false} FetchKeeps(v: View, o: OutPoint)
    requires Valid(v)
    ensures Valid(Fetch(v, o)) && SameViews(v, Fetch(v, o))
    ensures forall p :: Get(Fetch(v, o), p) == Get(v, p)
    ensures v.Cache? && Get(v, o).Some? ==>
              o in Fetch(v, o).cacheCoins && Fetch(v, o).cacheCoins[o].coin == Get(v, o).value
  {
    match v
    case Database(_, _) =>
    case Cache(cacheCoins, usage, hashBlock, base) =>
      if o in cacheCoins {
        SameViewsRefl(v);
      } else {
        FetchKeeps(base, o);
        GetUnspent(base, o);
        var r := Fetch(v, o);
        assert r.base == Fetch(base, o);
        if Get(base, o).Some? {
          UsagePut(cacheCoins, o, r.cacheCoins[o]);
        }
        forall p ensures Get(r, p) == Get(v, p) {
          assert Get(r.base, p) == Get(base, p);
        }
        forall p | p in r.cacheCoins ensures EntryOk(r.cacheCoins[p], Get(r.base, p)) {
          assert Get(r.base, p) == Get(base, p);
        }
      }
  }

  /** A read adds at most the outpoint it asks for, as an unmodified entry, and if and only
      if there is a coin; the same happens in the view below. */
  lemma FetchAdds(v: View, o: OutPoint)
    requires Valid(v) && v.Cache?
    ensures var r := Fetch(v, o);
            && (o in r.cacheCoins <==> o in v.cacheCoins || Get(v, o).Some?)
            && (o in r.cacheCoins && o !in v.cacheCoins ==> !r.cacheCoins[o].isDirty && !r.cacheCoins[o].isFresh)
            && (o in v.cacheCoins ==> r == v) && (o !in v.cacheCoins ==> r.base == Fetch(v.base, o))
            && r.cacheCoins - {o} == v.cacheCoins - {o}
  {
    assert Get(Fetch(v.base, o), o) == Get(v.base, o) by { FetchKeeps(v.base, o); }
    GetUnspent(v.base, o);
  }

  /** Uncaching drops the entry if and only if it is neither dirty nor fresh, and drops no other. */
  lemma UncacheExact(v: View, o: OutPoint)
    requires v.Cache?
    ensures var r := Uncache(v, o);
            && r.Cache? && r.base == v.base && r.hashBlock == v.hashBlock
            && (o in r.cacheCoins <==> o in v.cacheCoins && (v.cacheCoins[o].isDirty || v.cacheCoins[o].isFresh))
            && (forall p :: p != o || o in r.cacheCoins ==>
                  (p in r.cacheCoins <==> p in v.cacheCoins) && (p in v.cacheCoins ==> r.cacheCoins[p] == v.cacheCoins[p]))
  {
  }

  /** Uncaching an unmodified entry changes nothing that any level shows. */
  lemma UncacheKeeps(v: View, o: OutPoint)
    requires v.Cache? && Valid(v)
    ensures Valid(Uncache(v, o)) && SameViews(v, Uncache(v, o))
  {
    SameViewsRefl(v.base);
    if o in v.cacheCoins {
      UsageRemove(v.cacheCoins, o);
      assert EntryOk(v.cacheCoins[o], Get(v.base, o));
    }
    var r := Uncache(v, o);
    forall p ensures Get(r, p) == Get(v, p) {}
  }

  /** Spending removes the outpoint from this view and from no other, whatever
      SpendCoin's own result. */
  lemma SpendKeeps(v: View, o: OutPoint)
    requires v.Cache? && Valid(v)
    ensures var r := SpendCoin(v, o);
            && r.Cache? && Valid(r) && SameViews(v.base, r.base) && r.hashBlock == v.hashBlock
            && forall p :: Get(r, p) == if p == o then None else Get(v, p)
  {
    FetchKeeps(v, o);
    var w := Fetch(v, o);
    if o in w.cacheCoins {
      UsageRemove(w.cacheCoins, o);
      UsagePut(w.cacheCoins, o, Entry(EMPTY_COIN, true, false));
      assert EntryOk(w.cacheCoins[o], Get(w.base, o));
    }
    var r := SpendCoin(v, o);
    forall p ensures Get(r, p) == if p == o then None else Get(v, p) {
      assert Get(w, p) == Get(v, p);
    }
  }

  /** On a truthful stack SpendCoin returns true if and only if the view has the coin or
      the cache has an entry, which may be a spent one. */
  lemma SpendResultExact(v: View, o: OutPoint)
    requires v.Cache? && Valid(v)
    ensures SpendResult(v, o) <==> Get(v, o).Some? || o in v.cacheCoins
    ensures (SpendResult(v, o) <==> Get(v, o).Some?) <==> !(o in v.cacheCoins && v.cacheCoins[o].coin.IsSpent())
  {
    FetchKeeps(v, o);
  }

  /** Spending erases the entry if it was fresh, so that it is never written; otherwise it
      leaves a spent one to be written.  No other entry changes. */
  lemma SpendLeaves(v: View, o: OutPoint)
    requires v.Cache? && Valid(v)
    ensures var r := SpendCoin(v, o);
            && r.Cache? && r.cacheCoins - {o} == v.cacheCoins - {o}
            && (o in r.cacheCoins <==> if o in v.cacheCoins then !v.cacheCoins[o].isFresh else Get(v, o).Some?)
            && (o in r.cacheCoins ==> r.cacheCoins[o].coin.IsSpent() && r.cacheCoins[o].isDirty && !r.cacheCoins[o].isFresh)
  {
    FetchAdds(v, o);
  }

  /** Spending twice: the second call also returns true, although the coin is gone. */
  lemma SpendTwice(o: OutPoint, coin: Coin)
    requires !coin.IsSpent()
    ensures var v := Cache(map[], 0, NULL_HASH, Database(map[o := coin], NULL_HASH));
            var w := SpendCoin(v, o);
            w.Cache? && Get(v, o) == Some(coin) && SpendResult(v, o) && Get(w, o) == None && SpendResult(w, o)
  {
    var d := Database(map[o := coin], NULL_HASH);
    assert Fetch(d, o) == d && Get(d, o) == Some(coin);
    var v := Cache(map[], 0, NULL_HASH, d);
    assert Fetch(v, o).cacheCoins == map[o := Entry(coin, false, false)];
    assert SpendCoin(v, o).cacheCoins[o] == Entry(EMPTY_COIN, true, false);
  }

  // ---------------------------------------------------------------- AddCoin

  /** AddCoin without overwrite succeeds and leaves the flags truthful exactly
      when the view shows no coin there; with overwrite it always does. */
  lemma AddCoinExact(v: View, o: OutPoint, coin: Coin, overwrite: bool)
    requires v.Cache? && Valid(v)
    requires !coin.IsSpent() && !coin.IsUnspendable()
    ensures var r := AddCoin(v, o, coin, overwrite);
            r.Returned? && Valid(r.value) <==> overwrite || Get(v, o) == None
  {
    var r := AddCoin(v, o, coin, overwrite);
    if r.Returned? {
      var e := r.value.cacheCoins[o];
      UsagePut(v.cacheCoins, o, e);
      if o in v.cacheCoins { assert EntryOk(v.cacheCoins[o], Get(v.base, o)); }
      if overwrite || Get(v, o) == None {
        forall p | p in r.value.cacheCoins ensures EntryOk(r.value.cacheCoins[p], Get(v.base, p)) {}
      } else {
        assert !EntryOk(e, Get(v.base, o));
      }
    }
  }

  lemma AddCoinShows(v: View, o: OutPoint, coin: Coin, overwrite: bool)
    requires v.Cache? && !coin.IsSpent()
    requires AddCoin(v, o, coin, overwrite).Returned?
    ensures var r := AddCoin(v, o, coin, overwrite).value;
            && r.Cache? && r.base == v.base && r.hashBlock == v.hashBlock
            && forall p :: Get(r, p) == if p == o && !coin.IsUnspendable() then Some(coin) else Get(v, p)
  {}

  /** The new entry is dirty.  It is fresh if the old one was, or if the caller promises that
      nothing is overwritten and there is no modification yet to be written. */
  lemma AddCoinMarks(v: View, o: OutPoint, coin: Coin, overwrite: bool)
    requires v.Cache? && !coin.IsSpent() && !coin.IsUnspendable()
    ensures AddCoin(v, o, coin, overwrite).Threw? <==>
            !overwrite && o in v.cacheCoins && !v.cacheCoins[o].coin.IsSpent()
    ensures AddCoin(v, o, coin, overwrite).Returned? ==>
            var r := AddCoin(v, o, coin, overwrite).value;
            && r.Cache? && r.cacheCoins - {o} == v.cacheCoins - {o}
            && o in r.cacheCoins && r.cacheCoins[o].coin == coin && r.cacheCoins[o].isDirty
            && (r.cacheCoins[o].isFresh <==>
                if o in v.cacheCoins then v.cacheCoins[o].isFresh || (!overwrite && !v.cacheCoins[o].isDirty) else !overwrite)
  {
  }

  /** After AddCoin the memory count is exact if and only if it returned or the coin in the
      way is small enough to cost nothing. */
  lemma UsageAfterAddExact(v: View, o: OutPoint, coin: Coin, overwrite: bool)
    requires v.Cache? && !coin.IsSpent() && v.usage == Usage(v.cacheCoins)
    ensures match AddCoin(v, o, coin, overwrite)
            case Returned(r) => r.Cache? && UsageAfterAdd(v, o, coin, overwrite) == Usage(r.cacheCoins)
            case Threw => UsageAfterAdd(v, o, coin, overwrite) == Usage(v.cacheCoins) <==> |v.cacheCoins[o].coin.script| <= 28
  {
    match AddCoin(v, o, coin, overwrite)
    case Returned(r) => if !coin.IsUnspendable() { UsagePut(v.cacheCoins, o, r.cacheCoins[o]); }
    case Threw =>
  }

  /** A coin with a script of 29 bytes in the way: the count is 48 too low after the throw. */
  lemma ThrowLowersUsage(o: OutPoint, coin: Coin, coin': Coin)
    requires !coin.IsSpent() && |coin.script| == 29 && !coin'.IsSpent() && !coin'.IsUnspendable()
    ensures var m := map[o := Entry(coin, true, true)];
            var v := Cache(m, Usage(m), NULL_HASH, Database(map[], NULL_HASH));
            AddCoin(v, o, coin', false).Threw? && UsageAfterAdd(v, o, coin', false) == Usage(m) - 48
  {
  }

  // ---------------------------------------------------------------- Flush

  lemma MergeEntries(ours: CoinsMap, child: CoinsMap, base: View, o: OutPoint)
    requires o in child ==> EntryOk(child[o], if o in ours then Unspent(ours[o].coin) else Get(base, o))
    requires o in ours ==> EntryOk(ours[o], Get(base, o))
    ensures o in child ==> !Misapplied(ours, o, child[o])
    ensures o in Merge(ours, child) ==> EntryOk(Merge(ours, child)[o], Get(base, o))
    ensures (if o in Merge(ours, child) then Unspent(Merge(ours, child)[o].coin) else Get(base, o))
            == (if o in child then Unspent(child[o].coin) else if o in ours then Unspent(ours[o].coin) else Get(base, o))
  {}

  /** What becomes of one outpoint when a child is written back.  Unmodified entries of the
      child are not written.  A spent one is dropped if no view below this one can have the
      coin; everything else that is written is dirty, and fresh if this cache, or for lack of
      an entry the child, had it fresh. */
  lemma MergeExact(ours: CoinsMap, child: CoinsMap, o: OutPoint)
    ensures var m := Merge(ours, child);
            if o !in child || !child[o].isDirty
            then (o in m <==> o in ours) && (o in ours ==> m[o] == ours[o])
            else
              var isFresh := if o in ours then ours[o].isFresh else child[o].isFresh;
              && (o in m <==> !(isFresh && child[o].coin.IsSpent()))
              && (o in m ==> m[o].coin == child[o].coin && m[o].isDirty && m[o].isFresh == isFresh)
  {
  }

  /** Flush is a commit: the parent now shows what the child showed and no other level
      changes.  It fails if and only if the database is given no best block; the "FRESH flag
      misapplied" exception cannot happen. */
  lemma FlushCommits(v: View)
    requires v.Cache? && Valid(v)
    ensures Flush(v).Threw? <==> v.base.Database? && v.hashBlock == NULL_HASH
    ensures Flush(v).Returned? ==>
            var r := Flush(v).value;
            && r.Cache? && Valid(r) && r.cacheCoins == map[] && r.hashBlock == v.hashBlock
            && (forall o :: Get(r, o) == Get(v, o) && Get(r.base, o) == Get(v, o))
            && (v.base.Cache? <==> r.base.Cache?)
            && (v.base.Cache? ==> r.base.base == v.base.base && r.base.hashBlock == v.hashBlock)
            && (v.base.Database? ==> r.base.best == v.hashBlock)
  {
    match v.base
    case Database(coins, _) =>
      forall o | v.hashBlock != NULL_HASH ensures Get(Flush(v).value.base, o) == Get(v, o) {
        if o in v.cacheCoins { assert EntryOk(v.cacheCoins[o], Get(v.base, o)); }
      }
    case Cache(ours, _, _, base) =>
      forall o
        ensures o in v.cacheCoins ==> !Misapplied(ours, o, v.cacheCoins[o])
        ensures var m := Merge(ours, v.cacheCoins);
                && (o in m ==> EntryOk(m[o], Get(base, o)))
                && (if o in m then Unspent(m[o].coin) else Get(base, o)) == Get(v, o)
      {
        MergeEntries(ours, v.cacheCoins, base, o);
      }
      var r := Flush(v).value;
      assert r.base.cacheCoins == Merge(ours, v.cacheCoins);
  }
}
