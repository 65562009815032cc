/**
 The cache objects.  Each holds a pointer to the view below it; reading through a
 cache fills the caches it passes.  Every method is proved against the function
 of the same name on the whole stack as a value.
 */
module CoinsCache {
  import opened Coins
  import opened Common

  /** The bottom view: a plain store of unspent coins. */
  class CoinsDatabase {
    var coins: map<OutPoint, Coin>
    var best: Hash

    constructor (coinsIn: map<OutPoint, Coin>, bestIn: Hash)
      ensures coins == coinsIn && best == bestIn
    {
      coins, best := coinsIn, bestIn;
    }

    /** `failed` stands for the assertion that there is a best block. */
    method BatchWrite(mapCoins: CoinsMap, hashBlock: Hash) returns (failed: bool)
      modifies this
      ensures failed <==> hashBlock == NULL_HASH
      ensures failed ==> coins == old(coins) && best == old(best)
      ensures !failed ==> coins == MergeDatabase(old(coins), mapCoins) && best == hashBlock
    {
      if hashBlock == NULL_HASH { return true; }
      var todo := mapCoins.Keys;
      assert mapCoins - todo == map[];
      MergeNothing(map[], coins);
      while todo != {}
        invariant todo <= mapCoins.Keys
        invariant coins == MergeDatabase(old(coins), mapCoins - todo)
        decreases |todo|
      {
        var o :| o in todo;
        MergeDatabaseOne(old(coins), mapCoins, todo, o);
        var entry := mapCoins[o];
        if entry.isDirty {
          if entry.coin.IsSpent() { coins := coins - {o}; } else { coins := coins[o := entry.coin]; }
        }
        todo := todo - {o};
      }
      assert mapCoins - {} == mapCoins;
      best := hashBlock;
      failed := false;
    }
  }

  class CoinsViewCache {
    var cacheCoins: CoinsMap
    var cachedCoinsUsage: int
    var hashBlock: Hash
    const parent: CoinsViewCache?     // the cache below, if the base is a cache
    const db: CoinsDatabase           // the database at the bottom of the stack
    ghost const height: nat
    ghost const below: set<CoinsViewCache>

    /** The chain of parents is well-founded, so no cache occurs in it twice. */
    ghost predicate Linked()
      decreases height
    {
      && (forall c :: c in below ==> c.height < height)
      && (parent == null ==> below == {})
      && (parent != null ==>
            && parent.height < height && parent.Linked()
            && parent.db == db && below == parent.below + {parent})
    }

    /** The whole stack, as a value. */
    ghost function Stack(): (v: View)
      requires Linked()
      ensures v.Cache?
      reads this, below, db
      decreases height
    {
      Cache(cacheCoins, cachedCoinsUsage, hashBlock,
            if parent == null then Database(db.coins, db.best) else parent.Stack())
    }

    constructor OnDatabase(database: CoinsDatabase)
      ensures Linked() && parent == null && db == database && below == {}
      ensures Stack() == Cache(map[], 0, 0, Database(db.coins, db.best))
    {
      cacheCoins, cachedCoinsUsage, hashBlock := map[], 0, 0;
      parent, db, height, below := null, database, 0, {};
    }

    constructor OnCache(base: CoinsViewCache)
      requires base.Linked()
      ensures Linked() && parent == base && db == base.db && below == base.below + {base}
      ensures Stack() == Cache(map[], 0, 0, base.Stack())
    {
      cacheCoins, cachedCoinsUsage, hashBlock := map[], 0, 0;
      parent, db, height, below := base, base.db, base.height + 1, base.below + {base};
    }

    /** Look an outpoint up, pulling it into this cache and the ones below. */
    method FetchCoin(o: OutPoint)
      requires Linked()
      modifies this, below
      ensures Stack() == Fetch(old(Stack()), o)
      decreases height, 1
    {
      if o in cacheCoins { return; }
      var found, coin := BaseGetCoin(o);
      if !found { return; }
      cacheCoins := cacheCoins[o := Entry(coin, false, coin.IsSpent())];
      cachedCoinsUsage := cachedCoinsUsage + coin.DynamicMemoryUsage();
    }

    /** base->GetCoin */
    method BaseGetCoin(o: OutPoint) returns (found: bool, coin: Coin)
      requires Linked()
      modifies below
      ensures unchanged(this) && Stack().base == Fetch(old(Stack().base), o)
      ensures found <==> Get(Stack().base, o).Some?
      ensures found ==> coin == Get(Stack().base, o).value
      decreases height, 0
    {
      if parent == null {
        found := o in db.coins;
        coin := if o in db.coins then db.coins[o] else EMPTY_COIN;
      } else {
        found, coin := parent.GetCoin(o);
      }
    }

    method GetCoin(o: OutPoint) returns (found: bool, coin: Coin)
      requires Linked()
      modifies this, below
      ensures Stack() == Fetch(old(Stack()), o)
      ensures found <==> Get(Stack(), o).Some?
      ensures found ==> coin == Get(Stack(), o).value
      decreases height, 2
    {
      FetchCoin(o);
      if o in cacheCoins {
        coin := cacheCoins[o].coin;
        found := !coin.IsSpent();
      } else {
        coin := EMPTY_COIN;
        found := false;
      }
    }

    method HaveCoin(o: OutPoint) returns (have: bool)
      requires Linked()
      modifies this, below
      ensures Stack() == Fetch(old(Stack()), o)
      ensures have <==> Get(Stack(), o).Some?
    {
      FetchCoin(o);
      have := o in cacheCoins && !cacheCoins[o].coin.IsSpent();
    }

    /** The best block of the chain of caches; those without one remember it. */
    method GetBestBlock() returns (hash: Hash)
      requires Linked()
      modifies this, below
      ensures hash == Best(old(Stack())) && Stack() == FetchBest(old(Stack()))
      decreases height
    {
      if hashBlock == NULL_HASH {
        if parent == null {
          hashBlock := db.best;
        } else {
          var h := parent.GetBestBlock();
          hashBlock := h;
        }
      }
      hash := hashBlock;
    }

    method SetBestBlock(hash: Hash)
      requires Linked()
      modifies this
      ensures Stack() == SetBest(old(Stack()), hash)
      ensures hashBlock == hash && cacheCoins == old(cacheCoins) && cachedCoinsUsage == old(cachedCoinsUsage)
    {
      hashBlock := hash;
    }

    /** `threw` stands for the exception; the map is then as before, but the
        memory count has already been lowered. */
    method AddCoin(o: OutPoint, coin: Coin, possibleOverwrite: bool) returns (threw: bool)
      requires Linked() && !coin.IsSpent()
      modifies this
      ensures threw <==> Coins.AddCoin(old(Stack()), o, coin, possibleOverwrite).Threw?
      ensures !threw ==> Returned(Stack()) == Coins.AddCoin(old(Stack()), o, coin, possibleOverwrite)
      ensures cachedCoinsUsage == UsageAfterAdd(old(Stack()), o, coin, possibleOverwrite)
      ensures threw ==>
                && o in cacheCoins && Stack() == old(Stack()).(usage := cachedCoinsUsage)
                && cachedCoinsUsage == old(cachedCoinsUsage) - cacheCoins[o].coin.DynamicMemoryUsage()
    {
      if coin.IsUnspendable() { return false; }
      var inserted := o !in cacheCoins;
      var entry := if inserted then Entry(EMPTY_COIN, false, false) else cacheCoins[o];
      var freshNow := false;
      if !inserted {
        cachedCoinsUsage := cachedCoinsUsage - entry.coin.DynamicMemoryUsage();
      }
      if !possibleOverwrite {
        if !entry.coin.IsSpent() { return true; }
        freshNow := !entry.isDirty;
      }
      cacheCoins := cacheCoins[o := Entry(coin, true, entry.isFresh || freshNow)];
      cachedCoinsUsage := cachedCoinsUsage + coin.DynamicMemoryUsage();
      threw := false;
    }

    method SpendCoin(o: OutPoint) returns (spent: bool, moveout: Coin)
      requires Linked()
      modifies this, below
      ensures Stack() == Coins.SpendCoin(old(Stack()), o)
      ensures spent <==> SpendResult(old(Stack()), o)
      ensures spent ==> moveout == Fetch(old(Stack()), o).cacheCoins[o].coin
      ensures Valid(old(Stack())) && Get(old(Stack()), o).Some? ==> spent && moveout == Get(old(Stack()), o).value
    {
      ghost var v := Stack();
      FetchCoin(o);
      if Valid(v) { FetchKeeps(v, o); }
      if o !in cacheCoins { return false, EMPTY_COIN; }
      var entry := cacheCoins[o];
      SpendEntry(o);
      return true, entry.coin;
    }

    /** Erase an entry, or mark it spent. */
    method SpendEntry(o: OutPoint)
      requires Linked() && o in cacheCoins
      modifies `cacheCoins, `cachedCoinsUsage
      ensures Stack() == SpendFetched(old(Stack()), o)
      ensures o in cacheCoins <==> !old(cacheCoins[o].isFresh)
      ensures o in cacheCoins ==> cacheCoins[o].coin.IsSpent() && cacheCoins[o].isDirty && !cacheCoins[o].isFresh
      ensures cacheCoins - {o} == old(cacheCoins) - {o}
    {
      var entry := cacheCoins[o];
      cachedCoinsUsage := cachedCoinsUsage - entry.coin.DynamicMemoryUsage();
      if entry.isFresh {
        cacheCoins := cacheCoins - {o};
      } else {
        cacheCoins := cacheCoins[o := Entry(EMPTY_COIN, true, false)];
      }
    }

    method Uncache(o: OutPoint)
      requires Linked()
      modifies this
      ensures Stack() == Coins.Uncache(old(Stack()), o)
      ensures o in cacheCoins <==> o in old(cacheCoins) && (old(cacheCoins[o].isDirty) || old(cacheCoins[o].isFresh))
      ensures cacheCoins == old(cacheCoins) || cacheCoins == old(cacheCoins) - {o}
    {
      if o in cacheCoins && !cacheCoins[o].isDirty && !cacheCoins[o].isFresh {
        cachedCoinsUsage := cachedCoinsUsage - cacheCoins[o].coin.DynamicMemoryUsage();
        cacheCoins := cacheCoins - {o};
      }
    }

    /** Take over a child's entries, walking them in an arbitrary order. */
    method BatchWrite(mapCoins: CoinsMap, hashBlockIn: Hash) returns (threw: bool)
      modifies this
      ensures threw <==> AnyMisapplied(old(cacheCoins), mapCoins)
      ensures !threw ==>
                && cacheCoins == Merge(old(cacheCoins), mapCoins)
                && cachedCoinsUsage == old(cachedCoinsUsage) + Usage(cacheCoins) - Usage(old(cacheCoins))
                && hashBlock == hashBlockIn
    {
      ghost var ours := cacheCoins;
      var todo := mapCoins.Keys;
      assert mapCoins - todo == map[];
      MergeNothing(cacheCoins, map[]);
      while todo != {}
        invariant todo <= mapCoins.Keys
        invariant cacheCoins == Merge(ours, mapCoins - todo)
        invariant cachedCoinsUsage == old(cachedCoinsUsage) + Usage(cacheCoins) - Usage(ours)
        invariant forall p :: p in mapCoins && p !in todo ==> !Misapplied(ours, p, mapCoins[p])
        decreases |todo|
      {
        var o :| o in todo;
        MergeOne(ours, mapCoins, todo, o);
        threw := WriteOne(o, mapCoins[o]);
        if threw { return; }
        todo := todo - {o};
      }
      assert mapCoins - {} == mapCoins;
      hashBlock := hashBlockIn;
      threw := false;
    }

    /** The body of BatchWrite's loop. */
    method WriteOne(o: OutPoint, entry: Entry) returns (threw: bool)
      modifies `cacheCoins, `cachedCoinsUsage
      ensures threw <==> Misapplied(old(cacheCoins), o, entry)
      ensures !threw ==>
                && cacheCoins == WriteEntry(old(cacheCoins), o, entry)
                && cachedCoinsUsage == old(cachedCoinsUsage) + Usage(cacheCoins) - Usage(old(cacheCoins))
    {
      if !entry.isDirty { return false; }
      if o !in cacheCoins {
        if !(entry.isFresh && entry.coin.IsSpent()) {
          UsagePut(cacheCoins, o, Entry(entry.coin, true, entry.isFresh));
          cacheCoins := cacheCoins[o := Entry(entry.coin, true, entry.isFresh)];
          cachedCoinsUsage := cachedCoinsUsage + entry.coin.DynamicMemoryUsage();
        }
      } else {
        var us := cacheCoins[o];
        if entry.isFresh && !us.coin.IsSpent() { return true; }
        cachedCoinsUsage := cachedCoinsUsage - us.coin.DynamicMemoryUsage();
        if us.isFresh && entry.coin.IsSpent() {
          UsageRemove(cacheCoins, o);
          cacheCoins := cacheCoins - {o};
        } else {
          UsagePut(cacheCoins, o, Entry(entry.coin, true, us.isFresh));
          cacheCoins := cacheCoins[o := Entry(entry.coin, true, us.isFresh)];
          cachedCoinsUsage := cachedCoinsUsage + entry.coin.DynamicMemoryUsage();
        }
      }
      threw := false;
    }

    method Flush() returns (threw: bool)
      requires Linked()
      modifies this, below, db
      ensures threw <==> Coins.Flush(old(Stack())).Threw?
      ensures !threw ==> Returned(Stack()) == Coins.Flush(old(Stack()))
    {
      if parent == null {
        threw := db.BatchWrite(cacheCoins, hashBlock);
      } else {
        threw := parent.BatchWrite(cacheCoins, hashBlock);
      }
      if threw { return; }
      cacheCoins := map[];
      cachedCoinsUsage := 0;
      threw := false;
    }
  }

  datatype TxOut = TxOut(nValue: int, script: Script)

  function OutputCoin(out: TxOut, nHeight: nat, fCoinBase: bool): Coin {
    Coin(out.nValue, out.script, fCoinBase, nHeight)
  }

  /** The coin a view shows once the first `n` outputs of a transaction are added to it. */
  function WithOutputs(v: View, txid: Hash, vout: seq<TxOut>, n: nat, nHeight: nat, fCoinBase: bool, p: OutPoint): Option<Coin>
    requires n <= |vout|
  {
    if p.hash == txid && p.n < n && !OutputCoin(vout[p.n], nHeight, fCoinBase).IsUnspendable()
    then Some(OutputCoin(vout[p.n], nHeight, fCoinBase))
    else Get(v, p)
  }

  /** Scripts that are too long or begin with OP_RETURN can never be spent from. */
  predicate Spendable(script: Script) {
    |script| <= 10000 && (script == [] || script[0] != 0x6a)
  }

  /** `w` is `v` with the spendable outputs of a transaction, each with its own value and
      script and with the height and kind of the transaction, and is `v` everywhere else. */
  ghost predicate HasOutputs(v: View, w: View, txid: Hash, vout: seq<TxOut>, nHeight: nat, fCoinBase: bool) {
    && (forall i: nat :: i < |vout| && Spendable(vout[i].script) ==>
          var c := Get(w, OutPoint(txid, i));
          && c.Some? && c.value.nValue == vout[i].nValue && c.value.script == vout[i].script
          && c.value.fCoinBase == fCoinBase && c.value.nHeight == nHeight)
    && (forall p: OutPoint :: p.hash != txid || p.n >= |vout| || !Spendable(vout[p.n].script) ==> Get(w, p) == Get(v, p))
  }

  lemma OutputsShown(v: View, w: View, txid: Hash, vout: seq<TxOut>, nHeight: nat, fCoinBase: bool)
    requires forall p :: Get(w, p) == WithOutputs(v, txid, vout, |vout|, nHeight, fCoinBase, p)
    ensures HasOutputs(v, w, txid, vout, nHeight, fCoinBase)
  {
    forall i: nat | i < |vout| && Spendable(vout[i].script)
      ensures Get(w, OutPoint(txid, i)) == Some(OutputCoin(vout[i], nHeight, fCoinBase))
    {
      assert Get(w, OutPoint(txid, i)) == WithOutputs(v, txid, vout, |vout|, nHeight, fCoinBase, OutPoint(txid, i));
    }
  }

  /** Add all outputs of a transaction.  With `check`, or for a coinbase, or when
      none of the outputs is there yet, this cannot throw, keeps every flag of the
      stack truthful, and changes this view by exactly the spendable outputs. */
  method AddCoins(cache: CoinsViewCache, txid: Hash, vout: seq<TxOut>, fCoinBase: bool, nHeight: nat, check: bool)
    returns (threw: bool)
    requires cache.Linked()
    requires forall i :: 0 <= i < |vout| ==> vout[i].nValue != NULL_VALUE
    modifies cache, cache.below
    ensures Valid(old(cache.Stack()))
            && (check || fCoinBase || forall i: nat :: i < |vout| ==> Get(old(cache.Stack()), OutPoint(txid, i)) == None) ==>
              && !threw && Valid(cache.Stack()) && SameViews(old(cache.Stack()).base, cache.Stack().base)
              && forall p :: Get(cache.Stack(), p) == WithOutputs(old(cache.Stack()), txid, vout, |vout|, nHeight, fCoinBase, p)
    ensures Valid(old(cache.Stack()))
            && (check || fCoinBase || forall i: nat :: i < |vout| ==> Get(old(cache.Stack()), OutPoint(txid, i)) == None) ==>
              HasOutputs(old(cache.Stack()), cache.Stack(), txid, vout, nHeight, fCoinBase)
  {
    ghost var v := cache.Stack();
    ghost var sound := Valid(v) && (check || fCoinBase || forall i: nat :: i < |vout| ==> Get(v, OutPoint(txid, i)) == None);
    SameViewsRefl(v.base);
    for i := 0 to |vout|
      invariant sound ==> Valid(cache.Stack()) && SameViews(v.base, cache.Stack().base)
      invariant sound ==> forall p :: Get(cache.Stack(), p) == WithOutputs(v, txid, vout, i, nHeight, fCoinBase, p)
    {
      ghost var before := cache.Stack();
      threw := AddOutput(cache, OutPoint(txid, i), OutputCoin(vout[i], nHeight, fCoinBase), fCoinBase, check);
      if threw { return; }
      if sound { SameViewsTrans(v.base, before.base, cache.Stack().base); }
    }
    if sound { OutputsShown(v, cache.Stack(), txid, vout, nHeight, fCoinBase); }
    threw := false;
  }

  method AddOutput(cache: CoinsViewCache, o: OutPoint, coin: Coin, fCoinBase: bool, check: bool) returns (threw: bool)
    requires cache.Linked() && !coin.IsSpent()
    modifies cache, cache.below
    ensures Valid(old(cache.Stack())) && (check || fCoinBase || Get(old(cache.Stack()), o) == None) ==>
              && !threw && Valid(cache.Stack()) && SameViews(old(cache.Stack()).base, cache.Stack().base)
              && forall p :: Get(cache.Stack(), p) ==
                             if p == o && !coin.IsUnspendable() then Some(coin) else Get(old(cache.Stack()), p)
  {
    ghost var v := cache.Stack();
    var overwrite := fCoinBase;
    SameViewsRefl(v.base);
    if check {
      overwrite := cache.HaveCoin(o);
      if Valid(v) { FetchKeeps(v, o); }
    }
    ghost var w := cache.Stack();
    threw := cache.AddCoin(o, coin, overwrite);
    if Valid(w) && (overwrite || Get(w, o) == None) {
      if !coin.IsUnspendable() { AddCoinExact(w, o, coin, overwrite); }
      AddCoinShows(w, o, coin, overwrite);
    }
  }

  lemma {:induction false} SameViewsTrans(u: View, v: View, w: View)
    requires SameViews(u, v) && SameViews(v, w)
    ensures SameViews(u, w)
  {
    if u.Cache? {
      SameViewsTrans(u.base, v.base, w.base);
      forall o ensures Get(u, o) == Get(w, o) { assert Get(u, o) == Get(v, o); }
    }
  }
}
