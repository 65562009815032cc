/** The rolling Bloom filter (src/bloom.cpp:206-309).  Each position has two bits that
    name one of three generations, or none. */
module RollingBloom {
  import opened Powers

  type Key = seq<bv8>

  /** `hash(tweak, n, key)` is the n-th 32-bit hash; the data are `words` pairs of
      64-bit words. */
  datatype Config = Config(hash: (nat, nat, Key) -> nat, nHashFuncs: nat, perGeneration: nat, words: nat)

  predicate Ready(c: Config) { c.nHashFuncs > 0 && c.perGeneration > 0 && c.words > 0 }

  // ---------------------------------------------------------------- 64-bit words

  /** A word as its bits, the lowest first, with the bitwise operations. */
  type Word = w: seq<bool> | |w| == 64 witness seq(64, i => false)

  function Fill(on: bool): (r: Word)
    ensures forall i :: 0 <= i < 64 ==> r[i] == on
  {
    seq(64, i => on)
  }

  function And(a: Word, b: Word): (r: Word)
    ensures forall i :: 0 <= i < 64 ==> r[i] == (a[i] && b[i])
  {
    seq(64, i requires 0 <= i < 64 => a[i] && b[i])
  }

  function Or(a: Word, b: Word): (r: Word)
    ensures forall i :: 0 <= i < 64 ==> r[i] == (a[i] || b[i])
  {
    seq(64, i requires 0 <= i < 64 => a[i] || b[i])
  }

  function Xor(a: Word, b: Word): (r: Word)
    ensures forall i :: 0 <= i < 64 ==> r[i] == (a[i] != b[i])
  {
    seq(64, i requires 0 <= i < 64 => a[i] != b[i])
  }

  function Not(a: Word): (r: Word)
    ensures forall i :: 0 <= i < 64 ==> r[i] == !a[i]
  {
    seq(64, i requires 0 <= i < 64 => !a[i])
  }

  /** A bit shifted left by b. */
  function Shifted(on: bool, b: nat): (r: Word)
    requires b < 64
    ensures forall i :: 0 <= i < 64 ==> r[i] == (i == b && on)
  {
    seq(64, i => i == b && on)
  }

  // ---------------------------------------------------------------- places and tags

  function FastMod(x: nat, n: nat): (r: nat)
    requires x < 0x1_0000_0000 && n > 0
    ensures r < n
  {
    FastModFits(x, n);
    x * n / 0x1_0000_0000
  }

  lemma FastModFits(x: nat, n: nat)
    requires x < 0x1_0000_0000 && n > 0
    ensures 0 <= x * n / 0x1_0000_0000 < n
  {
  }

  /** A position: a pair of words and a bit in them. */
  datatype Spot = Spot(word: nat, bit: nat)

  function SpotOf(c: Config, tweak: nat, n: nat, key: Key): (s: Spot)
    requires c.words > 0
    ensures s.word < c.words && s.bit < 64
  {
    var h := c.hash(tweak, n, key) % 0x1_0000_0000;
    Spot(FastMod(h, 2 * c.words) / 2, h % 64)
  }

  /** The pair of words is the share of the pairs that the hash is of 2^32, the bit its
      lowest six bits. */
  lemma SpotExact(c: Config, tweak: nat, n: nat, key: Key)
    requires c.words > 0 && c.hash(tweak, n, key) < 0x1_0000_0000
    ensures var h, s := c.hash(tweak, n, key), SpotOf(c, tweak, n, key);
            && s.word * 0x1_0000_0000 <= h * c.words < (s.word + 1) * 0x1_0000_0000
            && s.bit == h % 64
  {
    var h := c.hash(tweak, n, key);
    SmallMod(h, 0x1_0000_0000);
    MulAssoc(h, 2, c.words);
  }

  /** The generation a position is tagged with; 0 if none. */
  function Tag(data: seq<Word>, s: Spot): (t: nat)
    requires 2 * s.word + 1 < |data| && s.bit < 64
    ensures t <= 3
  {
    TagOf(data[2 * s.word][s.bit], data[2 * s.word + 1][s.bit])
  }

  /** One of the first n hashes of a key falls on a spot. */
  predicate Hits(c: Config, tweak: nat, n: nat, key: Key, s: Spot)
    requires c.words > 0
  {
    n > 0 && (SpotOf(c, tweak, n - 1, key) == s || Hits(c, tweak, n - 1, key, s))
  }

  lemma {:induction false} HitsOwn(c: Config, tweak: nat, n: nat, key: Key, m: nat)
    requires c.words > 0 && m < n
    ensures Hits(c, tweak, n, key, SpotOf(c, tweak, m, key))
  {
    if m < n - 1 { HitsOwn(c, tweak, n - 1, key, m); }
  }

  // ---------------------------------------------------------------- generations

  /** The number of the generation the n-th key belongs to, counting from 0. */
  function Generation(c: Config, n: nat): nat
    requires c.perGeneration > 0
  {
    if n == 0 then 0 else (n - 1) / c.perGeneration
  }

  function TagFor(g: nat): nat { g % 3 + 1 }

  /** How many keys of the current generation there are after n keys. */
  function InGeneration(c: Config, n: nat): nat
    requires c.perGeneration > 0
  {
    if n == 0 then 0 else (n - 1) % c.perGeneration + 1
  }

  /** The generation of the last key that falls on a spot, or -1. */
  ghost function LastWritten(c: Config, tweak: nat, keys: seq<Key>, s: Spot): int
    requires c.words > 0 && c.perGeneration > 0
  {
    if keys == [] then -1
    else if Hits(c, tweak, c.nHashFuncs, keys[|keys| - 1], s) then Generation(c, |keys|)
    else LastWritten(c, tweak, keys[..|keys| - 1], s)
  }

  lemma {:induction false} GenerationMonotone(c: Config, m: nat, n: nat)
    requires c.perGeneration > 0 && m <= n
    ensures Generation(c, m) <= Generation(c, n)
    decreases n
  {
    if m < n {
      GenerationMonotone(c, m, n - 1);
      NextGeneration(c, n - 1);
    }
  }

  /** A new generation starts exactly when the current one is full. */
  lemma NextGeneration(c: Config, n: nat)
    requires c.perGeneration > 0
    ensures InGeneration(c, n) <= c.perGeneration
    ensures InGeneration(c, n) == c.perGeneration ==> Generation(c, n + 1) == Generation(c, n) + 1 && InGeneration(c, n + 1) == 1
    ensures InGeneration(c, n) < c.perGeneration ==> Generation(c, n + 1) == Generation(c, n) && InGeneration(c, n + 1) == InGeneration(c, n) + 1
  {
    var p := c.perGeneration;
    if n == 0 {
      DivUnique(0, p, 0, 0);
    } else {
      var q, r := (n - 1) / p, (n - 1) % p;
      assert n - 1 == q * p + r;
      if r + 1 == p {
        Distribute(q, 1, p);
        DivUnique(n, p, q + 1, 0);
      } else {
        DivUnique(n, p, q, r + 1);
      }
    }
  }

  lemma {:induction false} LastWrittenBound(c: Config, tweak: nat, keys: seq<Key>, s: Spot)
    requires c.words > 0 && c.perGeneration > 0
    ensures -1 <= LastWritten(c, tweak, keys, s) <= Generation(c, |keys|)
  {
    if keys != [] {
      LastWrittenBound(c, tweak, keys[..|keys| - 1], s);
      GenerationMonotone(c, |keys| - 1, |keys|);
    }
  }

  /** The tag a spot should have: its last generation, if that is one of the last three. */
  ghost function Expected(last: int, current: int): nat {
    if last >= 0 && last >= current - 2 then TagFor(last) else 0
  }

  ghost predicate TagOk(c: Config, tweak: nat, keys: seq<Key>, current: int, data: seq<Word>, s: Spot)
    requires c.words > 0 && c.perGeneration > 0
  {
    s.word < c.words && s.bit < 64 && |data| == 2 * c.words ==> Tag(data, s) == Expected(LastWritten(c, tweak, keys, s), current)
  }

  /** The data say exactly which spots the last three generations have touched. */
  ghost predicate Exact(c: Config, tweak: nat, keys: seq<Key>, current: int, data: seq<Word>)
    requires c.words > 0 && c.perGeneration > 0
  {
    |data| == 2 * c.words && forall s: Spot :: TagOk(c, tweak, keys, current, data, s)
  }

  // ---------------------------------------------------------------- the wipe

  function TagOf(low: bool, high: bool): nat { (if low then 1 else 0) + (if high then 2 else 0) }

  /** The mask keeps a spot if and only if it is not tagged with this generation. */
  function WipeMask(p1: Word, p2: Word, g: nat): (mask: Word)
    requires 1 <= g <= 3
    ensures forall b :: 0 <= b < 64 ==> (mask[b] <==> TagOf(p1[b], p2[b]) != g)
  {
    Or(Xor(p1, Fill(g % 2 == 1)), Xor(p2, Fill(g / 2 == 1)))
  }

  ghost predicate WipedAt(data: seq<Word>, data': seq<Word>, g: nat, s: Spot) {
    |data| == |data'| && 2 * s.word + 1 < |data| && s.bit < 64 ==> Tag(data', s) == if Tag(data, s) == g then 0 else Tag(data, s)
  }

  ghost predicate Wiped(data: seq<Word>, data': seq<Word>, g: nat) {
    forall s: Spot :: WipedAt(data, data', g, s)
  }

  ghost predicate WipedBelowAt(data: seq<Word>, data': seq<Word>, g: nat, w: nat, s: Spot) {
    s.word < w ==> WipedAt(data, data', g, s)
  }

  /** The first w pairs of words are wiped, the others are as before. */
  ghost predicate WipedBelow(data: seq<Word>, data': seq<Word>, g: nat, w: nat) {
    && |data| == |data'| && (forall k :: 2 * w <= k < |data| ==> data'[k] == data[k])
    && forall s: Spot :: WipedBelowAt(data, data', g, w, s)
  }

  lemma WipeNext(d: seq<Word>, before: seq<Word>, g: nat, w: nat)
    requires 2 * w + 1 < |d| && 1 <= g <= 3 && WipedBelow(d, before, g, w)
    ensures var mask := WipeMask(d[2 * w], d[2 * w + 1], g);
            WipedBelow(d, before[2 * w := And(d[2 * w], mask)][2 * w + 1 := And(d[2 * w + 1], mask)], g, w + 1)
  {
    var p1, p2, w' := d[2 * w], d[2 * w + 1], w + 1;
    var mask := WipeMask(p1, p2, g);
    var after := before[2 * w := And(p1, mask)][2 * w + 1 := And(p2, mask)];
    forall s: Spot ensures WipedBelowAt(d, after, g, w', s) {
      assert WipedBelowAt(d, before, g, w, s);
    }
  }

  /** Wiping the tag of a generation that begins forgets exactly the oldest of the
      last three. */
  lemma WipeKeepsExact(c: Config, tweak: nat, keys: seq<Key>, data: seq<Word>, data': seq<Word>)
    requires c.words > 0 && c.perGeneration > 0
    requires var g := Generation(c, |keys|);
             Exact(c, tweak, keys, g, data) && |data'| == |data| && Wiped(data, data', TagFor(g + 1))
    ensures Exact(c, tweak, keys, Generation(c, |keys|) + 1, data')
  {
    var g := Generation(c, |keys|);
    var g' := g + 1;
    forall s: Spot ensures TagOk(c, tweak, keys, g', data', s) {
      assert TagOk(c, tweak, keys, g, data, s) && WipedAt(data, data', TagFor(g'), s);
      LastWrittenBound(c, tweak, keys, s);
    }
  }

  // ---------------------------------------------------------------- marking

  ghost predicate MarkedAt(c: Config, tweak: nat, n: nat, key: Key, data: seq<Word>, data': seq<Word>, g: nat, s: Spot)
    requires c.words > 0
  {
    s.word < c.words && s.bit < 64 && |data| == |data'| == 2 * c.words ==>
      Tag(data', s) == if Hits(c, tweak, n, key, s) then g else Tag(data, s)
  }

  ghost predicate Marked(c: Config, tweak: nat, n: nat, key: Key, data: seq<Word>, data': seq<Word>, g: nat)
    requires c.words > 0
  {
    forall s: Spot :: MarkedAt(c, tweak, n, key, data, data', g, s)
  }

  /** Marking a key's spots with the current generation. */
  lemma MarkKeepsExact(c: Config, tweak: nat, keys: seq<Key>, key: Key, data: seq<Word>, data': seq<Word>)
    requires c.words > 0 && c.perGeneration > 0
    requires var g := Generation(c, |keys| + 1);
             Exact(c, tweak, keys, g, data) && |data'| == |data| && Marked(c, tweak, c.nHashFuncs, key, data, data', TagFor(g))
    ensures Exact(c, tweak, keys + [key], Generation(c, |keys| + 1), data')
  {
    var g, keys' := Generation(c, |keys| + 1), keys + [key];
    forall s: Spot ensures TagOk(c, tweak, keys', g, data', s) {
      assert TagOk(c, tweak, keys, g, data, s) && MarkedAt(c, tweak, c.nHashFuncs, key, data, data', TagFor(g), s);
      assert keys'[..|keys|] == keys;
    }
  }

  // ---------------------------------------------------------------- what is remembered

  /** One of a key's hashes falls on a spot. */
  ghost predicate Touches(c: Config, tweak: nat, key: Key, s: Spot)
    requires c.words > 0
  {
    exists m: nat :: m < c.nHashFuncs && SpotOf(c, tweak, m, key) == s
  }

  lemma {:induction false} HitsExact(c: Config, tweak: nat, n: nat, key: Key, s: Spot)
    requires c.words > 0
    ensures Hits(c, tweak, n, key, s) <==> exists m: nat :: m < n && SpotOf(c, tweak, m, key) == s
  {
    if n > 0 { HitsExact(c, tweak, n - 1, key, s); }
  }

  /** The i-th key, in generation g or later, touches a spot. */
  ghost predicate TouchedBy(c: Config, tweak: nat, keys: seq<Key>, s: Spot, g: int, i: int)
    requires c.words > 0 && c.perGeneration > 0
  {
    0 <= i < |keys| && Generation(c, i + 1) >= g && Touches(c, tweak, keys[i], s)
  }

  lemma {:induction false} LastWrittenExact(c: Config, tweak: nat, keys: seq<Key>, s: Spot, g: int)
    requires c.words > 0 && c.perGeneration > 0 && g >= 0
    ensures LastWritten(c, tweak, keys, s) >= g <==> exists i: int :: TouchedBy(c, tweak, keys, s, g, i)
  {
    if keys != [] {
      var last := |keys| - 1;
      var before := keys[..last];
      HitsExact(c, tweak, c.nHashFuncs, keys[last], s);
      LastWrittenExact(c, tweak, before, s, g);
      forall i: int | i < last ensures TouchedBy(c, tweak, keys, s, g, i) <==> TouchedBy(c, tweak, before, s, g, i) {}
      if Touches(c, tweak, keys[last], s) {
        forall i: int | TouchedBy(c, tweak, keys, s, g, i) ensures Generation(c, |keys|) >= g { GenerationMonotone(c, i + 1, |keys|); }
        if Generation(c, |keys|) >= g { assert TouchedBy(c, tweak, keys, s, g, last); }
      } else if exists i: int :: TouchedBy(c, tweak, keys, s, g, i) {
        var i: int :| TouchedBy(c, tweak, keys, s, g, i);
        assert TouchedBy(c, tweak, before, s, g, i);
      }
    }
  }

  /** The last two full generations and the keys of the current one. */
  lemma LastThree(c: Config, n: nat, i: nat)
    requires c.perGeneration > 0 && i < n
    ensures Generation(c, i + 1) >= Generation(c, n) - 2 <==> n - i <= 2 * c.perGeneration + InGeneration(c, n)
  {
    var p := c.perGeneration;
    TwoGenerationsBack(n - 1, i, p, (n - 1) / p, (n - 1) % p, i / p, i % p);
  }

  lemma TwoGenerationsBack(m: nat, i: nat, p: nat, q: nat, r: nat, q': nat, r': nat)
    requires r < p && r' < p && m == q * p + r && i == q' * p + r'
    ensures q' >= q - 2 <==> m - i <= 2 * p + r
  {
    Distribute(q, q', p);
    if q' >= q - 2 { MulMono(q - q', 2, p); } else { MulMono(3, q - q', p); }
  }

  /** One of the last keys, two generations and the current one, touches a spot. */
  ghost predicate RecentlyTouched(c: Config, tweak: nat, keys: seq<Key>, s: Spot)
    requires c.words > 0 && c.perGeneration > 0
  {
    exists i: int ::
      0 <= i < |keys| && |keys| - i <= 2 * c.perGeneration + InGeneration(c, |keys|) && Touches(c, tweak, keys[i], s)
  }

  lemma TaggedExact(c: Config, tweak: nat, keys: seq<Key>, data: seq<Word>, s: Spot)
    requires c.words > 0 && c.perGeneration > 0 && s.word < c.words && s.bit < 64
    requires Exact(c, tweak, keys, Generation(c, |keys|), data)
    ensures Tag(data, s) != 0 <==> RecentlyTouched(c, tweak, keys, s)
  {
    var g := Generation(c, |keys|) - 2;
    var since := if g < 0 then 0 else g;
    assert TagOk(c, tweak, keys, g + 2, data, s);
    LastWrittenExact(c, tweak, keys, s, since);
    forall i: int | 0 <= i < |keys|
      ensures TouchedBy(c, tweak, keys, s, since, i) <==>
              |keys| - i <= 2 * c.perGeneration + InGeneration(c, |keys|) && Touches(c, tweak, keys[i], s)
    {
      LastThree(c, |keys|, i);
    }
  }

  /** The filter contains a key if and only if each of the key's spots is touched by one of
      the last keys: those of the last two full generations and of the current one. */
  lemma RemembersExact(c: Config, tweak: nat, keys: seq<Key>, data: seq<Word>, key: Key)
    requires c.words > 0 && c.perGeneration > 0
    requires Exact(c, tweak, keys, Generation(c, |keys|), data)
    ensures Remembers(c, tweak, key, data) <==>
            forall n: nat :: n < c.nHashFuncs ==> RecentlyTouched(c, tweak, keys, SpotOf(c, tweak, n, key))
  {
    forall n: nat ensures Tag(data, SpotOf(c, tweak, n, key)) != 0 <==> RecentlyTouched(c, tweak, keys, SpotOf(c, tweak, n, key)) {
      TaggedExact(c, tweak, keys, data, SpotOf(c, tweak, n, key));
    }
  }

  ghost predicate Remembers(c: Config, tweak: nat, key: Key, data: seq<Word>)
    requires c.words > 0 && |data| == 2 * c.words
  {
    forall n: nat :: n < c.nHashFuncs ==> Tag(data, SpotOf(c, tweak, n, key)) != 0
  }

  /** A spot of the i-th key was written in its generation or later. */
  lemma {:induction false} WrittenSince(c: Config, tweak: nat, keys: seq<Key>, i: nat, n: nat)
    requires c.words > 0 && c.perGeneration > 0 && i < |keys| && n < c.nHashFuncs
    ensures LastWritten(c, tweak, keys, SpotOf(c, tweak, n, keys[i])) >= Generation(c, i + 1)
    decreases |keys|
  {
    var s := SpotOf(c, tweak, n, keys[i]);
    if i == |keys| - 1 {
      HitsOwn(c, tweak, c.nHashFuncs, keys[i], n);
    } else {
      WrittenSince(c, tweak, keys[..|keys| - 1], i, n);
      GenerationMonotone(c, i + 1, |keys|);
    }
  }

  lemma RecentGenerations(c: Config, n: nat, i: nat)
    requires c.perGeneration > 0 && i < n && n - i <= 2 * c.perGeneration
    ensures Generation(c, i + 1) >= Generation(c, n) - 2
  {
    var p := c.perGeneration;
    var q, r, q', r' := (n - 1) / p, (n - 1) % p, i / p, i % p;
    assert n - 1 == q * p + r && i == q' * p + r';
    Distribute(q, q', p);
    if q' < q - 2 { MulMono(3, q - q', p); }
  }

  /** The promise: each of the last nElements keys is remembered. */
  lemma RecentKeysRemembered(c: Config, tweak: nat, keys: seq<Key>, data: seq<Word>, nElements: nat, i: nat)
    requires c.words > 0 && c.perGeneration == (nElements + 1) / 2 > 0
    requires Exact(c, tweak, keys, Generation(c, |keys|), data)
    requires i < |keys| && |keys| - i <= nElements
    ensures Remembers(c, tweak, keys[i], data)
  {
    RecentGenerations(c, |keys|, i);
    forall n: nat | n < c.nHashFuncs ensures Tag(data, SpotOf(c, tweak, n, keys[i])) != 0 {
      WrittenSince(c, tweak, keys, i, n);
      assert TagOk(c, tweak, keys, Generation(c, |keys|), data, SpotOf(c, tweak, n, keys[i]));
    }
  }

  /** The filter.  `keys` are the keys inserted since the last reset. */
  class RollingBloomFilter {
    const c: Config
    const nElements: nat
    const data: array<Word>
    var nTweak: nat
    var nEntriesThisGeneration: nat
    var nGeneration: nat
    ghost var keys: seq<Key>

    ghost predicate Valid()
      reads this, data
    {
      && Ready(c) && c.perGeneration == (nElements + 1) / 2
      && nEntriesThisGeneration == InGeneration(c, |keys|)
      && nGeneration == TagFor(Generation(c, |keys|))
      && Exact(c, nTweak, keys, Generation(c, |keys|), data[..])
    }

    /** The number of hash functions and of filter bits come from the false positive
        rate; both are positive. */
    constructor (elements: nat, hash: (nat, nat, Key) -> nat, nHashFuncs: nat, nFilterBits: nat, tweak: nat)
      requires elements > 0 && nHashFuncs > 0 && nFilterBits > 0
      ensures Valid() && nElements == elements && keys == [] && fresh(data)
      ensures c.hash == hash && c.nHashFuncs == nHashFuncs && 64 * (c.words - 1) < nFilterBits <= 64 * c.words
    {
      nElements := elements;
      c := Config(hash, nHashFuncs, (elements + 1) / 2, (nFilterBits + 63) / 64);
      data := new Word[2 * ((nFilterBits + 63) / 64)](i => Fill(false));
      new;
      Reset(tweak);
    }

    method Reset(tweak: nat)
      requires Ready(c) && c.perGeneration == (nElements + 1) / 2 && data.Length == 2 * c.words
      modifies this, data
      ensures Valid() && keys == [] && nTweak == tweak && nEntriesThisGeneration == 0 && nGeneration == 1
    {
      nTweak := tweak;
      nEntriesThisGeneration := 0;
      nGeneration := 1;
      for i := 0 to data.Length
        modifies data
        invariant forall k :: 0 <= k < i ==> data[k] == Fill(false)
      {
        data[i] := Fill(false);
      }
      keys := [];
      ghost var d := data[..];
      forall s: Spot ensures TagOk(c, nTweak, keys, 0, d, s) {}
    }

    /** Clear every position whose tag is the generation g, for g to be used again. */
    method Wipe(g: nat)
      requires 1 <= g <= 3 && data.Length == 2 * c.words
      modifies data
      ensures Wiped(old(data[..]), data[..], g)
    {
      ghost var d := data[..];
      for w := 0 to c.words
        invariant WipedBelow(d, data[..], g, w)
      {
        ghost var before: seq<Word> := data[..];
        var p1: Word, p2: Word := data[2 * w], data[2 * w + 1];
        var mask := WipeMask(p1, p2, g);
        var q1: Word, q2: Word := And(p1, mask), And(p2, mask);
        data[2 * w] := q1;
        data[2 * w + 1] := q2;
        assert data[..] == before[2 * w := q1][2 * w + 1 := q2];
        WipeNext(d, before, g, w);
      }
      ghost var d' := data[..];
      forall s: Spot ensures WipedAt(d, d', g, s) { assert WipedBelowAt(d, d', g, c.words, s); }
    }

    /** Tag one position. */
    method Mark(s: Spot, g: nat)
      requires data.Length == 2 * c.words && s.word < c.words && s.bit < 64 && 1 <= g <= 3
      modifies data
      ensures Tagged(c, old(data[..]), data[..], s, g)
    {
      ghost var d := data[..];
      var w1, w2 := data[2 * s.word], data[2 * s.word + 1];
      data[2 * s.word] := PlaceBit(w1, s.bit, g % 2 == 1);
      data[2 * s.word + 1] := PlaceBit(w2, s.bit, g / 2 == 1);
      ghost var d' := data[..];
      forall t: Spot ensures TaggedAt(c, d, d', s, g, t) {}
    }

    /** The oldest of the three generations is forgotten. */
    method StartGeneration()
      requires Valid() && nEntriesThisGeneration == c.perGeneration
      modifies `nEntriesThisGeneration, `nGeneration, data
      ensures nEntriesThisGeneration == 0 && nGeneration == TagFor(Generation(c, |keys|) + 1)
      ensures nGeneration == if old(nGeneration) == 3 then 1 else old(nGeneration) + 1
      ensures Exact(c, nTweak, keys, Generation(c, |keys|) + 1, data[..])
    {
      nEntriesThisGeneration := 0;
      nGeneration := nGeneration + 1;
      if nGeneration == 4 { nGeneration := 1; }
      ghost var d := data[..];
      Wipe(nGeneration);
      WipeKeepsExact(c, nTweak, keys, d, data[..]);
    }

    method Insert(key: Key)
      requires Valid()
      modifies this, data
      ensures Valid() && keys == old(keys) + [key] && nTweak == old(nTweak)
      ensures if old(nEntriesThisGeneration) == c.perGeneration
              then nEntriesThisGeneration == 1 && nGeneration == (if old(nGeneration) == 3 then 1 else old(nGeneration) + 1)
              else nEntriesThisGeneration == old(nEntriesThisGeneration) + 1 && nGeneration == old(nGeneration)
    {
      NextGeneration(c, |keys|);
      if nEntriesThisGeneration == c.perGeneration { StartGeneration(); }
      nEntriesThisGeneration := nEntriesThisGeneration + 1;
      ghost var d := data[..];
      MarkAll(key);
      MarkKeepsExact(c, nTweak, keys, key, d, data[..]);
      keys := keys + [key];
    }

    /** Tag all positions of a key with the current generation. */
    method MarkAll(key: Key)
      requires Ready(c) && data.Length == 2 * c.words && 1 <= nGeneration <= 3
      modifies data
      ensures Marked(c, nTweak, c.nHashFuncs, key, old(data[..]), data[..], nGeneration)
    {
      ghost var d := data[..];
      for n := 0 to c.nHashFuncs
        invariant Marked(c, nTweak, n, key, d, data[..], nGeneration)
      {
        ghost var before := data[..];
        var s := SpotOf(c, nTweak, n, key);
        Mark(s, nGeneration);
        MarkedMore(c, nTweak, n, key, d, before, data[..], nGeneration);
      }
    }

    method Contains(key: Key) returns (r: bool)
      requires Valid()
      ensures r <==> Remembers(c, nTweak, key, data[..])
      ensures r <==> forall n: nat :: n < c.nHashFuncs ==> RecentlyTouched(c, nTweak, keys, SpotOf(c, nTweak, n, key))
    {
      RemembersExact(c, nTweak, keys, data[..], key);
      for n := 0 to c.nHashFuncs
        invariant forall m: nat :: m < n ==> Tag(data[..], SpotOf(c, nTweak, m, key)) != 0
      {
        var s := SpotOf(c, nTweak, n, key);
        if !Or(data[2 * s.word], data[2 * s.word + 1])[s.bit] {
          assert Tag(data[..], SpotOf(c, nTweak, n, key)) == 0;
          return false;
        }
      }
      return true;
    }

    /** The filter contains every one of the last nElements keys. */
    lemma ContainsRecent(i: nat)
      requires Valid() && i < |keys| && |keys| - i <= nElements
      ensures Remembers(c, nTweak, keys[i], data[..])
    {
      RecentKeysRemembered(c, nTweak, keys, data[..], nElements, i);
    }
  }

  /** Clear a bit and set it to a value. */
  function PlaceBit(w: Word, b: nat, on: bool): (r: Word)
    requires b < 64
    ensures forall i :: 0 <= i < 64 ==> r[i] == if i == b then on else w[i]
  {
    Or(And(w, Not(Shifted(true, b))), Shifted(on, b))
  }

  ghost predicate TaggedAt(c: Config, d: seq<Word>, d': seq<Word>, s: Spot, g: nat, t: Spot) {
    t.word < c.words && t.bit < 64 && |d| == |d'| == 2 * c.words ==> Tag(d', t) == if t == s then g else Tag(d, t)
  }

  ghost predicate Tagged(c: Config, d: seq<Word>, d': seq<Word>, s: Spot, g: nat) {
    forall t: Spot :: TaggedAt(c, d, d', s, g, t)
  }

  lemma MarkedMore(c: Config, tweak: nat, n: nat, key: Key, d: seq<Word>, before: seq<Word>, after: seq<Word>, g: nat)
    requires c.words > 0 && |d| == |before| == |after| == 2 * c.words
    requires Marked(c, tweak, n, key, d, before, g) && Tagged(c, before, after, SpotOf(c, tweak, n, key), g)
    ensures Marked(c, tweak, n + 1, key, d, after, g)
  {
    var n' := n + 1;
    forall t: Spot ensures MarkedAt(c, tweak, n', key, d, after, g, t) {
      assert MarkedAt(c, tweak, n, key, d, before, g, t) && TaggedAt(c, before, after, SpotOf(c, tweak, n, key), g, t);
    }
  }
}
