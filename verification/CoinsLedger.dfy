/**
 The stack of caches behaves as nested transactions on one flat map of unspent
 outputs: a new cache begins a transaction, Flush commits it to the enclosing
 one, and dropping a cache rolls it back.
 */
module CoinsLedger {
  import opened Coins
  import opened Common

  /** Nested transactions, with no caching and no flags.  A level that has not been told its
      best block has the null hash. */
  datatype Ledger =
    | Root(coins: map<OutPoint, Coin>, best: Hash)
    | Nested(coins: map<OutPoint, Coin>, best: Hash, outer: Ledger)

  /** What the callers of a stack of caches may do.  Reads, Uncache and Flush may
      hit any level (`depth` counts down from the top); coins are added and
      spent, and the best block is set, at the top only. */
  datatype Op =
    | Read(depth: nat, o: OutPoint)
    | ReadBest(depth: nat)
    | WriteBest(hash: Hash)
    | Forget(depth: nat, o: OutPoint)
    | Commit(depth: nat)
    | Add(o: OutPoint, coin: Coin, overwrite: bool)
    | Spend(o: OutPoint)
    | Push
    | Drop

  // ---------------------------------------------------------------- on the ledger

  predicate HasDepth(l: Ledger, depth: nat) {
    l.Nested? && (depth == 0 || HasDepth(l.outer, depth - 1))
  }

  /** The level that is `depth` below the top. */
  function Level(l: Ledger, depth: nat): (r: Ledger)
    requires HasDepth(l, depth)
    ensures r.Nested?
  {
    if depth == 0 then l else Level(l.outer, depth - 1)
  }

  /** The best block of a level: its own, or that of the level it is nested in. */
  function LedgerBest(l: Ledger): Hash {
    if l.Root? || l.best != NULL_HASH then l.best else LedgerBest(l.outer)
  }

  /** Asking for the best block fixes it, on every level that the question reaches. */
  function Pin(l: Ledger): Ledger {
    if l.Root? || l.best != NULL_HASH then l else Nested(l.coins, LedgerBest(l.outer), Pin(l.outer))
  }

  function PinLedger(l: Ledger, depth: nat): Ledger
    requires HasDepth(l, depth)
  {
    if depth == 0 then Pin(l) else l.(outer := PinLedger(l.outer, depth - 1))
  }

  /** The callers' obligations.  An add without overwrite promises that the outpoint holds
      no coin; what reaches the database has a best block. */
  predicate Legal(l: Ledger, op: Op) {
    match op
    case Read(depth, _) => HasDepth(l, depth)
    case ReadBest(depth) => HasDepth(l, depth)
    case WriteBest(_) => l.Nested?
    case Forget(depth, _) => HasDepth(l, depth)
    case Commit(depth) => HasDepth(l, depth) && (Level(l, depth).outer.Root? ==> Level(l, depth).best != NULL_HASH)
    case Add(o, coin, overwrite) => l.Nested? && !coin.IsSpent() && (overwrite || o !in l.coins)
    case Spend(_) => l.Nested?
    case Push => true
    case Drop => l.Nested?
  }

  function CommitLedger(l: Ledger, depth: nat): Ledger
    requires HasDepth(l, depth)
  {
    if depth > 0 then l.(outer := CommitLedger(l.outer, depth - 1))
    else l.(outer := match l.outer
                     case Root(_, _) => Root(l.coins, l.best)
                     case Nested(_, _, outer) => Nested(l.coins, l.best, outer))
  }

  function LedgerStep(l: Ledger, op: Op): Ledger
    requires Legal(l, op)
  {
    match op
    case Read(_, _) => l
    case ReadBest(depth) => PinLedger(l, depth)
    case WriteBest(hash) => l.(best := hash)
    case Forget(_, _) => l
    case Commit(depth) => CommitLedger(l, depth)
    case Add(o, coin, _) => if coin.IsUnspendable() then l else l.(coins := l.coins[o := coin])
    case Spend(o) => l.(coins := l.coins - {o})
    case Push => Nested(l.coins, NULL_HASH, l)
    case Drop => l.outer
  }

  predicate LegalRun(l: Ledger, ops: seq<Op>)
    decreases |ops|
  {
    ops == [] || (Legal(l, ops[0]) && LegalRun(LedgerStep(l, ops[0]), ops[1..]))
  }

  function LedgerRun(l: Ledger, ops: seq<Op>): Ledger
    requires LegalRun(l, ops)
    decreases |ops|
  {
    if ops == [] then l else LedgerRun(LedgerStep(l, ops[0]), ops[1..])
  }

  // ---------------------------------------------------------------- on the caches

  predicate Deep(v: View, depth: nat) {
    v.Cache? && (depth == 0 || Deep(v.base, depth - 1))
  }

  function ReadAt(v: View, depth: nat, o: OutPoint): View
    requires Deep(v, depth)
  {
    if depth == 0 then Fetch(v, o) else v.(base := ReadAt(v.base, depth - 1, o))
  }

  function ReadBestAt(v: View, depth: nat): View
    requires Deep(v, depth)
  {
    if depth == 0 then FetchBest(v) else v.(base := ReadBestAt(v.base, depth - 1))
  }

  function ForgetAt(v: View, depth: nat, o: OutPoint): View
    requires Deep(v, depth)
  {
    if depth == 0 then Uncache(v, o) else v.(base := ForgetAt(v.base, depth - 1, o))
  }

  ghost function FlushAt(v: View, depth: nat): Outcome<View>
    requires Deep(v, depth)
  {
    if depth == 0 then Flush(v)
    else
      match FlushAt(v.base, depth - 1)
      case Threw => Threw
      case Returned(base) => Returned(v.(base := base))
  }

  /** One call on the stack; a call the caller may not make throws. */
  ghost function Step(v: View, op: Op): Outcome<View> {
    match op
    case Read(depth, o) => if Deep(v, depth) then Returned(ReadAt(v, depth, o)) else Threw
    case ReadBest(depth) => if Deep(v, depth) then Returned(ReadBestAt(v, depth)) else Threw
    case WriteBest(hash) => if v.Cache? then Returned(SetBest(v, hash)) else Threw
    case Forget(depth, o) => if Deep(v, depth) then Returned(ForgetAt(v, depth, o)) else Threw
    case Commit(depth) => if Deep(v, depth) then FlushAt(v, depth) else Threw
    case Add(o, coin, overwrite) => if v.Cache? && !coin.IsSpent() then AddCoin(v, o, coin, overwrite) else Threw
    case Spend(o) => if v.Cache? then Returned(SpendCoin(v, o)) else Threw
    case Push => Returned(Cache(map[], 0, NULL_HASH, v))
    case Drop => if v.Cache? then Returned(v.base) else Threw
  }

  ghost function Run(v: View, ops: seq<Op>): Outcome<View>
    decreases |ops|
  {
    if ops == [] then Returned(v)
    else
      match Step(v, ops[0])
      case Threw => Threw
      case Returned(w) => Run(w, ops[1..])
  }

  // ---------------------------------------------------------------- the two agree

  function Lookup(m: map<OutPoint, Coin>, o: OutPoint): Option<Coin> {
    if o in m then Some(m[o]) else None
  }

  ghost predicate Shows(v: View, m: map<OutPoint, Coin>) {
    forall o :: Get(v, o) == Lookup(m, o)
  }

  /** Level by level, the caches show the coins and have the best block of the ledger. */
  ghost predicate Models(v: View, l: Ledger) {
    match v
    case Database(coins, best) => l == Root(coins, best)
    case Cache(_, _, hashBlock, base) => l.Nested? && Shows(v, l.coins) && hashBlock == l.best && Models(base, l.outer)
  }

  lemma {:induction false} BestAgrees(v: View, l: Ledger)
    requires Models(v, l)
    ensures Best(v) == LedgerBest(l)
  {
    if v.Cache? { BestAgrees(v.base, l.outer); }
  }

  /** Asking for the best block changes no coin and models the fixed ledger. */
  lemma {:induction false} FetchBestAgrees(v: View, l: Ledger)
    requires Valid(v) && Models(v, l)
    ensures Valid(FetchBest(v)) && Models(FetchBest(v), Pin(l))
    ensures forall o :: Get(FetchBest(v), o) == Get(v, o)
  {
    if v.Cache? && v.hashBlock == NULL_HASH {
      BestAgrees(v.base, l.outer);
      FetchBestAgrees(v.base, l.outer);
      Rebase(v, FetchBest(v.base));
      var w := v.(base := FetchBest(v.base));
      forall o ensures Get(FetchBest(v), o) == Get(v, o) { assert Get(FetchBest(v), o) == Get(w, o); }
    }
  }

  lemma {:induction false} ReadBestAgrees(v: View, l: Ledger, depth: nat)
    requires Valid(v) && Models(v, l) && Deep(v, depth) && HasDepth(l, depth)
    ensures Valid(ReadBestAt(v, depth)) && Models(ReadBestAt(v, depth), PinLedger(l, depth))
    ensures forall o :: Get(ReadBestAt(v, depth), o) == Get(v, o)
  {
    if depth == 0 {
      FetchBestAgrees(v, l);
    } else {
      ReadBestAgrees(v.base, l.outer, depth - 1);
      Rebase(v, ReadBestAt(v.base, depth - 1));
    }
  }

  /** Asking changes the best block of no level. */
  lemma {:induction false} PinKeepsBest(l: Ledger, depth: nat, level: nat)
    requires HasDepth(l, depth) && HasDepth(l, level)
    ensures HasDepth(PinLedger(l, depth), level)
    ensures LedgerBest(Level(PinLedger(l, depth), level)) == LedgerBest(Level(l, level))
    decreases depth, level
  {
    if depth == 0 {
      PinKeeps(l, level);
    } else if level > 0 {
      PinKeepsBest(l.outer, depth - 1, level - 1);
    } else {
      PinShows(l.outer, depth - 1);
    }
  }

  lemma {:induction false} PinShows(l: Ledger, depth: nat)
    requires HasDepth(l, depth)
    ensures LedgerBest(PinLedger(l, depth)) == LedgerBest(l)
  {
    if depth > 0 { PinShows(l.outer, depth - 1); } else { PinKeeps(l, 0); }
  }

  lemma {:induction false} PinKeeps(l: Ledger, level: nat)
    requires HasDepth(l, level)
    ensures HasDepth(Pin(l), level) && LedgerBest(Level(Pin(l), level)) == LedgerBest(Level(l, level))
  {
    if l.best == NULL_HASH {
      PinRoot(l.outer);
      if level > 0 { PinKeeps(l.outer, level - 1); }
    }
  }

  lemma {:induction false} PinRoot(l: Ledger)
    ensures LedgerBest(Pin(l)) == LedgerBest(l)
  {
    if l.Nested? { PinRoot(l.outer); }
  }

  /** A commit hands on the best block if and only if the inner level has been told one, or
      the level above has nothing to lose. */
  lemma CommitBestExact(l: Ledger)
    requires l.Nested? && l.outer.Nested?
    ensures LedgerBest(CommitLedger(l, 0).outer) == LedgerBest(l)
            <==> l.best != NULL_HASH || LedgerBest(l.outer.outer) == LedgerBest(l.outer)
  {
  }

  /** The middle level loses its best block to a child that was never told one. */
  lemma CommitForgetsBest(root: Ledger, h: Hash)
    requires root == Root(map[], 1) && h > 1
    ensures var l := Nested(map[], NULL_HASH, Nested(map[], h, root));
            LedgerBest(l) == h && LedgerBest(CommitLedger(l, 0)) == 1
  {
    var l := Nested(map[], NULL_HASH, Nested(map[], h, root));
    assert CommitLedger(l, 0).outer == Nested(map[], NULL_HASH, root);
    assert LedgerBest(CommitLedger(l, 0).outer) == LedgerBest(root) == 1;
  }

  lemma ModelsShows(v: View, l: Ledger)
    requires Models(v, l)
    ensures Shows(v, l.coins)
  {}

  lemma {:induction false} DepthsAgree(v: View, l: Ledger, depth: nat)
    requires Models(v, l)
    ensures Deep(v, depth) <==> HasDepth(l, depth)
  {
    if v.Cache? && depth > 0 { DepthsAgree(v.base, l.outer, depth - 1); }
  }

  lemma {:induction false} SameViewsModels(v: View, w: View, l: Ledger)
    requires SameViews(v, w) && Models(v, l)
    ensures Models(w, l)
  {
    if v.Cache? { SameViewsModels(v.base, w.base, l.outer); }
  }

  /** A change below that leaves what the base shows leaves this level valid. */
  lemma Rebase(v: View, base: View)
    requires v.Cache? && Valid(v) && Valid(base)
    requires forall o :: Get(base, o) == Get(v.base, o)
    ensures Valid(v.(base := base))
    ensures forall o :: Get(v.(base := base), o) == Get(v, o)
  {
  }

  lemma {:induction false} ReadAtKeeps(v: View, depth: nat, o: OutPoint)
    requires Valid(v) && Deep(v, depth)
    ensures Valid(ReadAt(v, depth, o)) && SameViews(v, ReadAt(v, depth, o))
  {
    if depth == 0 {
      FetchKeeps(v, o);
    } else {
      ReadAtKeeps(v.base, depth - 1, o);
      SameViewsGet(v.base, ReadAt(v.base, depth - 1, o));
      Rebase(v, ReadAt(v.base, depth - 1, o));
    }
  }

  lemma {:induction false} ForgetAtKeeps(v: View, depth: nat, o: OutPoint)
    requires Valid(v) && Deep(v, depth)
    ensures Valid(ForgetAt(v, depth, o)) && SameViews(v, ForgetAt(v, depth, o))
  {
    if depth == 0 {
      UncacheKeeps(v, o);
    } else {
      ForgetAtKeeps(v.base, depth - 1, o);
      SameViewsGet(v.base, ForgetAt(v.base, depth - 1, o));
      Rebase(v, ForgetAt(v.base, depth - 1, o));
    }
  }

  lemma SameViewsGet(v: View, w: View)
    requires SameViews(v, w)
    ensures forall o :: Get(w, o) == Get(v, o)
  {}

  lemma {:induction false} FlushAtCommits(v: View, l: Ledger, depth: nat)
    requires Valid(v) && Models(v, l) && Deep(v, depth) && Legal(l, Commit(depth))
    ensures FlushAt(v, depth).Returned?
    ensures var w := FlushAt(v, depth).value;
            && w.Cache? && Valid(w) && Models(w, CommitLedger(l, depth))
            && forall o :: Get(w, o) == Get(v, o)
  {
    if depth == 0 {
      FlushCommits(v);
      var w := Flush(v).value;
      if v.base.Database? {
        assert w.base.Database?;
        DatabaseShows(w.base, l.coins);
      }
    } else {
      FlushAtCommits(v.base, l.outer, depth - 1);
      Rebase(v, FlushAt(v.base, depth - 1).value);
    }
  }

  lemma DatabaseShows(d: View, m: map<OutPoint, Coin>)
    requires d.Database? && Shows(d, m)
    ensures d.coins == m
  {
    forall o ensures o in d.coins <==> o in m { assert Get(d, o) == Lookup(m, o); }
    forall o | o in m ensures d.coins[o] == m[o] { assert Get(d, o) == Lookup(m, o); }
  }

  lemma StepAgrees(v: View, l: Ledger, op: Op)
    requires Valid(v) && Models(v, l) && Legal(l, op)
    ensures Step(v, op).Returned?
    ensures Valid(Step(v, op).value) && Models(Step(v, op).value, LedgerStep(l, op))
  {
    match op
    case Read(depth, o) =>
      DepthsAgree(v, l, depth);
      ReadAtKeeps(v, depth, o);
      SameViewsModels(v, ReadAt(v, depth, o), l);
    case ReadBest(depth) =>
      DepthsAgree(v, l, depth);
      ReadBestAgrees(v, l, depth);
    case WriteBest(hash) =>
      forall o ensures Get(SetBest(v, hash), o) == Get(v, o) {}
    case Forget(depth, o) =>
      DepthsAgree(v, l, depth);
      ForgetAtKeeps(v, depth, o);
      SameViewsModels(v, ForgetAt(v, depth, o), l);
    case Commit(depth) =>
      DepthsAgree(v, l, depth);
      FlushAtCommits(v, l, depth);
    case Add(o, coin, overwrite) =>
      AddAgrees(v, l, o, coin, overwrite);
    case Spend(o) =>
      SpendKeeps(v, o);
      SameViewsModels(v.base, SpendCoin(v, o).base, l.outer);
    case Push =>
      ModelsShows(v, l);
      assert Shows(Cache(map[], 0, NULL_HASH, v), l.coins);
    case Drop =>
  }

  lemma AddAgrees(v: View, l: Ledger, o: OutPoint, coin: Coin, overwrite: bool)
    requires Valid(v) && Models(v, l) && Legal(l, Add(o, coin, overwrite))
    ensures var r := AddCoin(v, o, coin, overwrite);
            r.Returned? && Valid(r.value) && Models(r.value, LedgerStep(l, Add(o, coin, overwrite)))
  {
    assert Get(v, o) == Lookup(l.coins, o);
    if !coin.IsUnspendable() {
      AddCoinExact(v, o, coin, overwrite);
      AddCoinShows(v, o, coin, overwrite);
      var r := AddCoin(v, o, coin, overwrite).value;
      forall p ensures Get(r, p) == Lookup(l.coins[o := coin], p) {
        assert Get(v, p) == Lookup(l.coins, p);
      }
    }
  }

  /** Main result: whatever legal calls are made, in whatever order and at
      whatever depth, nothing throws, every cache's flags and memory count stay
      exact, and every level shows what the nested transactions hold. */
  lemma {:induction false} EveryRunIsNestedTransactions(v: View, l: Ledger, ops: seq<Op>)
    requires Valid(v) && Models(v, l) && LegalRun(l, ops)
    ensures Run(v, ops).Returned?
    ensures Valid(Run(v, ops).value) && Models(Run(v, ops).value, LedgerRun(l, ops))
    decreases |ops|
  {
    if ops != [] {
      StepAgrees(v, l, ops[0]);
      EveryRunIsNestedTransactions(Step(v, ops[0]).value, LedgerStep(l, ops[0]), ops[1..]);
    }
  }

  /** The same, from an empty database. */
  lemma RunFromScratch(ops: seq<Op>)
    requires LegalRun(Root(map[], NULL_HASH), ops)
    ensures Run(Database(map[], NULL_HASH), ops).Returned?
    ensures Models(Run(Database(map[], NULL_HASH), ops).value, LedgerRun(Root(map[], NULL_HASH), ops))
  {
    EveryRunIsNestedTransactions(Database(map[], NULL_HASH), Root(map[], NULL_HASH), ops);
  }
}
