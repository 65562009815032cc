/** How many steps the walk over skip pointers (src/chain.cpp) takes: at most b * b for
    heights of b bits. */
module SkipWalk {
  import Chain
  import opened Powers

  // ---------------------------------------------------------------- skip heights, bit by bit

  /** n without its lowest set bit. */
  function Inv(n: nat): nat {
    if n == 0 then 0 else if n % 2 == 1 then n - 1 else 2 * Inv(n / 2)
  }

  function Skip(h: nat): nat {
    if h < 2 then 0 else if h % 2 == 1 then Inv(Inv(h - 1)) + 1 else Inv(h)
  }

  lemma {:induction false} LowestInv(n: nat)
    requires n > 0
    ensures Inv(n) == n - Chain.LowestOne(n)
  {
    if n % 2 == 0 { LowestInv(n / 2); }
  }

  lemma InvIs(n: nat)
    ensures Inv(n) == Chain.InvertLowestOne(n)
  {
    if n > 0 {
      Chain.InvertsLowestOne(n);
      LowestInv(n);
    }
  }

  lemma SkipIs(h: nat)
    ensures Skip(h) == Chain.GetSkipHeight(h)
  {
    if h >= 2 && h % 2 == 1 {
      InvIs(h - 1);
      InvIs(Inv(h - 1));
    } else if h >= 2 {
      InvIs(h);
    }
  }

  lemma {:induction false} InvBelow(n: nat)
    ensures Inv(n) <= n && (n > 0 ==> Inv(n) < n) && Inv(n) % 2 == 0
  {
    if n > 0 && n % 2 == 0 { InvBelow(n / 2); }
  }

  lemma InvOdd(n: nat, k: nat)
    requires n == 2 * k + 1
    ensures Inv(n) == 2 * k
  {
  }

  lemma InvEven(n: nat, k: nat)
    requires n == 2 * k
    ensures Inv(n) == 2 * Inv(k)
  {
  }

  lemma SkipOdd(n: nat, k: nat)
    requires n == 2 * k + 1 && k > 0
    ensures Skip(n) == Inv(Inv(2 * k)) + 1
  {
    assert n % 2 == 1 && n - 1 == 2 * k;
  }

  lemma SkipEven(n: nat, k: nat)
    requires n == 2 * k && k > 0
    ensures Skip(n) == Inv(n)
  {
    assert n % 2 == 0;
  }

  // ---------------------------------------------------------------- the number of set bits

  function Ones(n: nat): nat { if n == 0 then 0 else n % 2 + Ones(n / 2) }

  lemma OnesEven(n: nat, k: nat)
    requires n == 2 * k
    ensures Ones(n) == Ones(k)
  {
    assert n / 2 == k && n % 2 == 0;
  }

  lemma OnesOdd(n: nat, k: nat)
    requires n == 2 * k + 1
    ensures Ones(n) == 1 + Ones(k)
  {
  }

  lemma {:induction false} OnesPositive(n: nat)
    requires n > 0
    ensures Ones(n) > 0
  {
    if n % 2 == 0 { OnesPositive(n / 2); }
  }

  lemma {:induction false} OnesBound(n: nat, e: nat)
    requires n < Pow2(e)
    ensures Ones(n) <= e
    decreases e
  {
    if n > 0 {
      assert Pow2(e) == 2 * Pow2(e - 1);
      OnesBound(n / 2, e - 1);
    }
  }

  /** Clearing the lowest set bit leaves one fewer. */
  lemma {:induction false} InvOnes(n: nat)
    requires n > 0
    ensures Ones(Inv(n)) == Ones(n) - 1
  {
    var k := n / 2;
    if n % 2 == 1 {
      OnesOdd(n, k);
      OnesEven(Inv(n), k);
    } else {
      InvOnes(k);
      OnesEven(n, k);
      OnesEven(Inv(n), Inv(k));
    }
  }

  // ---------------------------------------------------------------- blocks of heights

  /** x is a multiple of 2^e. */
  predicate Aligned(x: nat, e: nat) { e == 0 || (x % 2 == 0 && Aligned(x / 2, e - 1)) }

  lemma {:induction false} InvLocal(x: nat, e: nat, u: nat)
    requires Aligned(x, e) && 0 < u < Pow2(e)
    ensures Inv(x + u) == x + Inv(u)
    decreases e
  {
    var y, k := x / 2, u / 2;
    assert x == 2 * y && Aligned(y, e - 1) && Pow2(e) == 2 * Pow2(e - 1);
    if u % 2 == 1 {
      assert Inv(x + u) == 2 * (y + k) by { InvOdd(x + u, y + k); }
      assert Inv(u) == 2 * k by { InvOdd(u, k); }
    } else {
      InvLocal(y, e - 1, k);
      assert Inv(x + u) == 2 * Inv(y + k) by { InvEven(x + u, y + k); }
      assert Inv(u) == 2 * Inv(k) by { InvEven(u, k); }
    }
  }

  lemma AlignedDouble(x: nat, y: nat, e: nat)
    requires x == 2 * y && e > 0 && Aligned(y, e - 1)
    ensures Aligned(x, e)
  {
    assert x / 2 == y;
  }

  /** The middle of the block of 2^(e+1) heights from f on. */
  lemma {:induction false} MiddleOf(f: nat, e: nat)
    requires Aligned(f, e + 1)
    ensures Inv(f + Pow2(e)) == f && Aligned(f, e) && Aligned(f + Pow2(e), e)
    decreases e
  {
    var g := f / 2;
    assert f == 2 * g && Aligned(g, e);
    if e == 0 {
      InvOdd(f + 1, g);
    } else {
      var p := Pow2(e - 1);
      MiddleOf(g, e - 1);
      assert f + Pow2(e) == 2 * (g + p);
      InvEven(f + Pow2(e), g + p);
      AlignedDouble(f, g, e);
      AlignedDouble(f + Pow2(e), g + p, e);
    }
  }

  lemma AlignedEight(x: nat, e: nat) returns (k: nat)
    requires Aligned(x, e) && e >= 3
    ensures x == 8 * k
  {
    var y := x / 2;
    assert x == 2 * y && Aligned(y, e - 1);
    var z := y / 2;
    assert y == 2 * z && Aligned(z, e - 2);
    k := z / 2;
  }

  // ---------------------------------------------------------------- the walk

  predicate Uses(walk: nat, height: nat)
    requires walk > 0
  {
    var skip, skipPrev := Skip(walk), Skip(walk - 1);
    skip == height || (skip > height && !(skipPrev < skip - 2 && skipPrev >= height))
  }

  function Next(walk: nat, height: nat): nat
    requires walk > height
  {
    if Uses(walk, height) then Skip(walk) else walk - 1
  }

  lemma NextIs(walk: nat, height: nat)
    requires walk > height
    ensures height <= Next(walk, height) == Chain.NextHeight(walk, height) < walk
  {
    SkipIs(walk);
    SkipIs(walk - 1);
  }

  /** The steps of the walk, on skip heights taken bit by bit. */
  function Steps(walk: nat, height: nat): nat
    decreases walk
  {
    if walk <= height then 0 else
      NextIs(walk, height);
      1 + Steps(Next(walk, height), height)
  }

  lemma {:induction false} StepsAre(walk: nat, height: nat)
    ensures Chain.Steps(walk, height) == Steps(walk, height)
    decreases walk
  {
    if walk > height {
      NextIs(walk, height);
      StepsAre(Next(walk, height), height);
    }
  }

  // ---------------------------------------------------------------- one level

  /** A bound on the steps within the upper half of a block: u is the distance from the
      middle, and the wanted height is below it. */
  function Cost(u: nat): nat {
    if u <= 5 then u + 1
    else if u % 2 == 0 then 2 * Ones(u) + 3
    else if Inv(u - 1) == 0 then 6
    else 2 * Ones(u)
  }

  lemma OnesSmall()
    ensures Ones(0) == 0 && Ones(1) == 1 && Ones(2) == 1 && Ones(3) == 2 && Ones(4) == 1 && Ones(5) == 2 && Ones(6) == 2
  {
    OnesOdd(1, 0);
    OnesEven(2, 1);
    OnesOdd(3, 1);
    OnesEven(4, 2);
    OnesOdd(5, 2);
    OnesEven(6, 3);
  }

  lemma CostByOnes(u: nat)
    ensures 1 <= Cost(u) <= 2 * Ones(u) + 3
  {
    OnesSmall();
    if u > 5 && u % 2 == 1 {
      var k := u / 2;
      OnesOdd(u, k);
      if Inv(u - 1) == 0 {
        InvOnes(u - 1);
        OnesEven(u - 1, k);
      }
    }
  }

  lemma CostBound(u: nat, e: nat)
    requires u < Pow2(e)
    ensures Cost(u) <= 2 * e + 1
  {
    if u <= 5 {
      CostSmall(u, e);
    } else if u % 2 == 0 {
      assert Pow2(e) == 2 * Pow2(e - 1);
      OnesEven(u, u / 2);
      OnesBound(u / 2, e - 1);
    } else {
      OnesBound(u, e);
      ThreeBits(u, e);
    }
  }

  lemma ThreeBits(u: nat, e: nat)
    requires 4 <= u < Pow2(e)
    ensures e >= 3
  {
    assert Pow2(0) == 1 && Pow2(1) == 2 && Pow2(2) == 4;
  }

  lemma CostSmall(u: nat, e: nat)
    requires u <= 5 && u < Pow2(e)
    ensures u + 1 <= 2 * e + 1
  {
    assert Pow2(0) == 1 && Pow2(1) == 2 && Pow2(2) == 4;
  }

  /** Where the walk goes from the upper half: down into the lower one, or on at a lower cost. */
  predicate Advances(a: nat, u: nat, t: nat)
    requires t < a
  {
    var next := Next(a + u, t);
    next < a || Cost(next - a) < Cost(u)
  }

  lemma NextBySkips(w: nat, t: nat, skip: nat, skipPrev: nat)
    requires t < w && Skip(w) == skip && Skip(w - 1) == skipPrev
    ensures Next(w, t) == if skip == t || (skip > t && !(skipPrev < skip - 2 && skipPrev >= t)) then skip else w - 1
  {
  }

  lemma AdvanceOdd(f: nat, e: nat, u: nat, t: nat)
    requires Aligned(f, e + 1) && 3 <= u < Pow2(e) && u % 2 == 1 && f <= t < f + Pow2(e)
    ensures Advances(f + Pow2(e), u, t)
  {
    var a := f + Pow2(e);
    var m, s, sp := OddSkips(f, e, u);
    NextBySkips(a + u, t, s, sp);
    if m > 0 { CostAfterTwo(u); } else { CostAfterOne(u); }
  }

  lemma OddSkips(f: nat, e: nat, u: nat) returns (m: nat, s: nat, sp: nat)
    requires Aligned(f, e + 1) && 3 <= u < Pow2(e) && u % 2 == 1
    ensures m == Inv(u - 1) && s == Skip(f + Pow2(e) + u) && sp == Skip(f + Pow2(e) + u - 1) == f + Pow2(e) + m
    ensures s == if m > 0 then f + Pow2(e) + Inv(m) + 1 else f + 1
    ensures Inv(m) <= m < u
  {
    var a := f + Pow2(e);
    m := Inv(u - 1);
    assert Inv(m) <= m < u by {
      InvBelow(u - 1);
      InvBelow(m);
    }
    assert Inv(a) == f && Aligned(a, e) by { MiddleOf(f, e); }
    sp := OddParts(a, e, u, m);
    s := Skip(a + u);
    if m > 0 {
      assert Inv(a + m) == a + Inv(m) by { InvLocal(a, e, m); }
    }
  }

  /** Skip heights of an odd height and of its parent. */
  lemma OddParts(a: nat, e: nat, u: nat, m: nat) returns (sp: nat)
    requires Aligned(a, e) && 3 <= u < Pow2(e) && u % 2 == 1 && m == Inv(u - 1)
    ensures sp == Skip(a + u - 1) == a + m && Skip(a + u) == Inv(sp) + 1
  {
    var k := HalfOf(a, e, u);
    sp := a + m;
    InvLocal(a, e, u - 1);
    SkipOdd(a + u, k);
    SkipEven(a + u - 1, k);
  }

  lemma HalfOf(a: nat, e: nat, u: nat) returns (k: nat)
    requires Aligned(a, e) && 3 <= u < Pow2(e) && u % 2 == 1
    ensures a + u == 2 * k + 1 && k > 0
  {
    assert e > 0;
    k := a / 2 + u / 2;
  }

  lemma CostAfterTwo(u: nat)
    requires u % 2 == 1 && u >= 3 && Inv(u - 1) > 0
    ensures Cost(Inv(Inv(u - 1)) + 1) < Cost(u)
  {
    var m := Inv(Inv(u - 1));
    OnesAfterTwo(u, m);
    InvBelow(Inv(u - 1));
    assert Cost(u) == 2 * Ones(u) by { TwoBits(u); }
    CostByOnes(m + 1);
  }

  lemma OnesAfterTwo(u: nat, m: nat)
    requires u % 2 == 1 && u >= 3 && Inv(u - 1) > 0 && m == Inv(Inv(u - 1))
    ensures Ones(m + 1) == Ones(u) - 2
  {
    var n := Inv(u - 1);
    assert Ones(n) == Ones(u - 1) - 1 by { InvOnes(u - 1); }
    assert Ones(m) == Ones(n) - 1 && m % 2 == 0 by {
      InvOnes(n);
      InvBelow(n);
    }
    OnesNext(u - 1);
    OnesNext(m);
  }

  lemma OnesNext(n: nat)
    requires n % 2 == 0
    ensures Ones(n + 1) == 1 + Ones(n)
  {
    OnesEven(n, n / 2);
    OnesOdd(n + 1, n / 2);
  }

  lemma TwoBits(u: nat)
    requires u % 2 == 1 && u >= 3 && Inv(u - 1) > 0
    ensures u > 5
  {
    SmallInv(2);
    SmallInv(4);
  }

  lemma CostAfterOne(u: nat)
    requires u % 2 == 1 && u >= 3 && Inv(u - 1) == 0
    ensures Cost(u - 1) < Cost(u)
  {
    InvOnes(u - 1);
    OnesSmall();
  }

  lemma Residues(u: nat) returns (k: nat)
    requires u % 2 == 0
    ensures u == 4 * k + 2 || u == 8 * k + 4 || u == 8 * k
  {
    k := if u % 4 == 2 then u / 4 else u / 8;
  }

  /** From an even height the walk takes the skip pointer, or first goes to the parent when
      that of the parent is better; then the distance is no multiple of eight. */
  lemma AdvanceEven(f: nat, e: nat, u: nat, t: nat)
    requires Aligned(f, e + 1) && 0 < u < Pow2(e) && u % 2 == 0 && f <= t < f + Pow2(e)
    ensures Advances(f + Pow2(e), u, t)
  {
    var a := f + Pow2(e);
    if Uses(a + u, t) {
      EvenParts(f, e, u);
      CostAfterSkip(u);
    } else {
      NotUsed(f, e, u, t);
    }
  }

  lemma NotUsed(f: nat, e: nat, u: nat, t: nat)
    requires Aligned(f, e + 1) && 0 < u < Pow2(e) && u % 2 == 0 && t < f + Pow2(e) && !Uses(f + Pow2(e) + u, t)
    ensures Cost(u - 1) < Cost(u)
  {
    var k := Residues(u);
    if u == 8 * k {
      EvenParts(f, e, u);
      NotFromEight(f + Pow2(e), e, u, k - 1, t);
    } else {
      CostAfterStep(u, k);
    }
  }

  lemma EvenParts(f: nat, e: nat, u: nat)
    requires Aligned(f, e + 1) && 0 < u < Pow2(e) && u % 2 == 0
    ensures Skip(f + Pow2(e) + u) == f + Pow2(e) + Inv(u) && Aligned(f + Pow2(e), e)
  {
    var a := f + Pow2(e);
    assert e > 0;
    MiddleOf(f, e);
    InvLocal(a, e, u);
    SkipEven(a + u, a / 2 + u / 2);
  }

  lemma NotFromEight(a: nat, e: nat, u: nat, k: nat, t: nat)
    requires Aligned(a, e) && u == 8 * k + 8 && u < Pow2(e) && t < a
    requires Skip(a + u) == a + Inv(u)
    ensures Uses(a + u, t)
  {
    ThreeBits(u, e);
    var j := AlignedEight(a, e);
    SkipBelowEight(a + u - 1, j + k);
    InvEight(u, k);
  }

  lemma InvEvenTwice(n: nat, k: nat)
    requires n == 4 * k
    ensures Inv(n) == 4 * Inv(k)
  {
    InvEven(n, 2 * k);
    InvEven(2 * k, k);
  }

  lemma InvEightTimes(n: nat, k: nat) returns (i: nat)
    requires n == 8 * k
    ensures i == Inv(k) && Inv(n) == 8 * i
  {
    i := Inv(k);
    InvEven(n, 4 * k);
    InvEvenTwice(4 * k, k);
  }

  lemma InvEight(n: nat, k: nat)
    requires n == 8 * k + 8
    ensures Inv(n) <= 8 * k
  {
    var i := InvEightTimes(n, k + 1);
    InvBelow(k + 1);
  }

  lemma InvTwo(n: nat, k: nat)
    requires n == 4 * k + 2
    ensures Inv(n) == 4 * k
  {
    InvEven(n, 2 * k + 1);
    InvOdd(2 * k + 1, k);
  }

  lemma InvFour(n: nat, k: nat)
    requires n == 8 * k + 4
    ensures Inv(n) == 8 * k
  {
    InvEven(n, 4 * k + 2);
    InvTwo(4 * k + 2, k);
  }

  /** The parent of a multiple of eight skips back by six only. */
  lemma SkipBelowEight(n: nat, k: nat)
    requires n == 8 * k + 7
    ensures Skip(n) == 8 * k + 1
  {
    var m := 8 * k + 6;
    SkipOdd(n, 4 * k + 3);
    InvTwo(m, 2 * k + 1);
    InvFour(8 * k + 4, k);
  }

  lemma CostAfterSkip(u: nat)
    requires u > 0 && u % 2 == 0
    ensures Cost(Inv(u)) < Cost(u)
  {
    InvOnes(u);
    InvBelow(u);
    CostByOnes(Inv(u));
    OnesSmall();
    if u <= 5 { SmallInv(u); }
  }

  lemma SmallInv(u: nat)
    requires u == 2 || u == 4
    ensures Inv(u) == 0
  {
    InvOdd(1, 0);
    InvEven(2, 1);
    InvEven(4, 2);
  }

  lemma CostAfterStep(u: nat, k: nat)
    requires u == 4 * k + 2 || u == 8 * k + 4
    ensures Cost(u - 1) < Cost(u)
  {
    if k > 0 {
      if u == 4 * k + 2 { StepFromTwo(u, k); } else { StepFromFour(u, k); }
    }
  }

  lemma OnesTwo(n: nat, k: nat)
    requires n == 4 * k + 2
    ensures Ones(n) == 1 + Ones(k)
  {
    OnesEven(n, 2 * k + 1);
    OnesOdd(2 * k + 1, k);
  }

  lemma OnesOne(n: nat, k: nat)
    requires n == 4 * k + 1
    ensures Ones(n) == 1 + Ones(k)
  {
    OnesOdd(n, 2 * k);
    OnesEven(2 * k, k);
  }

  lemma OnesFour(n: nat, k: nat)
    requires n == 8 * k + 4
    ensures Ones(n) == 1 + Ones(k)
  {
    OnesEven(n, 4 * k + 2);
    OnesTwo(4 * k + 2, k);
  }

  lemma OnesThree(n: nat, k: nat)
    requires n == 8 * k + 3
    ensures Ones(n) == 2 + Ones(k)
  {
    OnesOdd(n, 4 * k + 1);
    OnesOne(4 * k + 1, k);
  }

  lemma StepFromTwo(u: nat, k: nat)
    requires u == 4 * k + 2 && k > 0
    ensures Cost(u - 1) < Cost(u)
  {
    OnesPositive(k);
    CostEven(u, 2 * k + 1);
    CostOdd(u - 1, 2 * k);
    OnesTwo(u, k);
    OnesOne(u - 1, k);
  }

  lemma StepFromFour(u: nat, k: nat)
    requires u == 8 * k + 4 && k > 0
    ensures Cost(u - 1) < Cost(u)
  {
    OnesPositive(k);
    CostEven(u, 4 * k + 2);
    CostOdd(u - 1, 4 * k + 1);
    OnesFour(u, k);
    OnesThree(u - 1, k);
  }

  lemma CostEven(u: nat, h: nat)
    requires u == 2 * h && u > 5
    ensures Cost(u) == 2 * Ones(u) + 3
  {
    assert u % 2 == 0;
  }

  lemma CostOdd(u: nat, h: nat)
    requires u == 2 * h + 1
    ensures Cost(u) <= 6 || Cost(u) <= 2 * Ones(u)
  {
  }

  lemma AdvanceMiddle(a: nat, t: nat)
    requires t < a
    ensures Advances(a, 0, t)
  {
    NextIs(a, t);
  }

  /** Just above the middle the skip pointer leads below the block, or to height 1. */
  lemma SkipAboveMiddle(f: nat, e: nat) returns (s: nat)
    requires Aligned(f, e + 1) && e > 0
    ensures s == Skip(f + Pow2(e) + 1) && (f == 0 ==> s == 1) && (f > 0 ==> s < f)
  {
    var a := f + Pow2(e);
    MiddleOf(f, e);
    SkipOdd(a + 1, a / 2);
    InvBelow(f);
    s := Inv(f) + 1;
  }

  lemma AdvanceOne(f: nat, e: nat, t: nat)
    requires Aligned(f, e + 1) && e > 0 && f <= t < f + Pow2(e)
    ensures Advances(f + Pow2(e), 1, t)
  {
    var s := SkipAboveMiddle(f, e);
    NextBySkips(f + Pow2(e) + 1, t, s, Skip(f + Pow2(e)));
  }

  lemma Advance(f: nat, e: nat, u: nat, t: nat)
    requires Aligned(f, e + 1) && u < Pow2(e) && f <= t < f + Pow2(e)
    ensures Advances(f + Pow2(e), u, t)
  {
    if u == 0 {
      AdvanceMiddle(f + Pow2(e), t);
    } else if u == 1 {
      AdvanceOne(f, e, t);
    } else if u % 2 == 0 {
      AdvanceEven(f, e, u, t);
    } else {
      AdvanceOdd(f, e, u, t);
    }
  }

  // ---------------------------------------------------------------- all levels

  /** 1 + 3 + ... + (2 b - 1) */
  function Bound(b: nat): nat { if b == 0 then 0 else Bound(b - 1) + 2 * b - 1 }

  lemma {:induction false} BoundIsSquare(b: nat)
    ensures Bound(b) == b * b
  {
    if b > 0 { BoundIsSquare(b - 1); }
  }

  lemma NextFrom(f: nat, e: nat, u: nat, t: nat, a: nat) returns (next: nat)
    requires Aligned(f, e + 1) && u < Pow2(e) && f <= t < a == f + Pow2(e)
    ensures t <= next < a + u && Steps(a + u, t) == 1 + Steps(next, t)
    ensures next < a || Cost(next - a) < Cost(u)
  {
    Advance(f, e, u, t);
    NextIs(a + u, t);
    next := Next(a + u, t);
  }

  /** From the upper half of a block to a height in the lower half. */
  lemma {:induction false} UpperWalk(f: nat, e: nat, u: nat, t: nat, a: nat)
    requires Aligned(f, e + 1) && u < Pow2(e) && f <= t < a == f + Pow2(e)
    ensures Steps(a + u, t) <= Cost(u) + Bound(e)
    decreases e, 1, u
  {
    var next := NextFrom(f, e, u, t, a);
    if next < a {
      assert Aligned(f, e) by { MiddleOf(f, e); }
      WalkBound(f, e, next, t);
      assert Cost(u) >= 1 by { CostByOnes(u); }
    } else {
      UpperWalk(f, e, next - a, t, a);
    }
  }

  /** Within a block of 2^b heights. */
  lemma {:induction false} WalkBound(x: nat, b: nat, walk: nat, height: nat)
    requires Aligned(x, b) && x <= height <= walk < x + Pow2(b)
    ensures Steps(walk, height) <= Bound(b)
    decreases b, 0, walk
  {
    if height < walk {
      var e := b - 1;
      assert Pow2(b) == 2 * Pow2(e);
      var a := x + Pow2(e);
      MiddleOf(x, e);
      if walk < a {
        WalkBound(x, e, walk, height);
      } else if height >= a {
        WalkBound(a, e, walk, height);
      } else {
        UpperWalk(x, e, walk - a, height, a);
        CostBound(walk - a, e);
      }
    }
  }

  lemma {:induction false} ZeroAligned(b: nat)
    ensures Aligned(0, b)
  {
    if b > 0 { ZeroAligned(b - 1); }
  }

  /** The walk from a height of b bits takes at most b * b steps. */
  lemma StepsBound(walk: nat, height: nat, b: nat)
    requires height <= walk < Pow2(b)
    ensures Chain.Steps(walk, height) <= b * b
  {
    ZeroAligned(b);
    WalkBound(0, b, walk, height);
    BoundIsSquare(b);
    StepsAre(walk, height);
  }

  /** In every grown tree: the ancestor of a block of b bits of height, in b * b steps. */
  method Ancestor(tree: Chain.BlockTree, block: Chain.BlockIndex, height: int, ghost b: nat)
    returns (r: Chain.BlockIndex?, ghost steps: nat)
    requires tree.Valid() && block in tree.blocks && block.nHeight < Pow2(b)
    ensures block.Linked() && r == if 0 <= height <= block.nHeight then block.At(height) else null
    ensures 0 <= height <= block.nHeight ==> steps <= b * b
  {
    assert Chain.BlockTree.Sound(block, tree.blocks);
    r, steps := block.WalkTo(height);
    if 0 <= height <= block.nHeight { StepsBound(block.nHeight, height, b); }
  }
}
