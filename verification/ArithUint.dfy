/** Fixed-width unsigned integers on arrays of 32-bit limbs (src/arith_uint256.h,
    src/arith_uint256.cpp).  Operands are given by their limbs. */
module ArithUint {
  import opened Powers
  import opened Limbs

  /** The low 32 bits. */
  function Wrap(x: int): Limb { x % 0x1_0000_0000 }

  /** A carry loop has produced the first i limbs of t. */
  ghost predicate Carrying(s: seq<Limb>, carry: int, i: nat, t: int) {
    i <= |s| && carry >= 0 && Val(s[..i]) + carry * Modulus(i) == t
  }

  lemma CarryOn(s: seq<Limb>, carry: int, i: nat, t: int, d: nat)
    requires Carrying(s, carry, i, t) && i < |s|
    ensures Carrying(s[i := Wrap(carry + d)], (carry + d) / 0x1_0000_0000, i + 1, t + d * Modulus(i))
  {
    var n := carry + d;
    var s' := s[i := Wrap(n)];
    ValAppend(s', i);
    assert s'[..i] == s[..i];
    CarryStep(Val(s[..i]), carry, Modulus(i), n, t);
  }

  lemma CarryOut(s: seq<Limb>, carry: int, t: int)
    requires Carrying(s, carry, |s|, t)
    ensures Val(s) == t % Modulus(|s|)
  {
    assert s[..|s|] == s;
    ValBound(s);
    ModUnique(Val(s), Modulus(|s|), t, carry);
  }

  lemma AddStep(a: seq<Limb>, b: seq<Limb>, s: seq<Limb>, carry: int, i: nat)
    requires i < |s| == |a| == |b| && Carrying(s, carry, i, Val(a[..i]) + Val(b[..i]))
    ensures var n := carry + (a[i] as int + b[i] as int);
            Carrying(s[i := Wrap(n)], n / 0x1_0000_0000, i + 1, Val(a[..i + 1]) + Val(b[..i + 1]))
  {
    var u, d := Val(a[..i]) + Val(b[..i]), a[i] as int + b[i] as int;
    assert Val(a[..i + 1]) + Val(b[..i + 1]) == u + d * Modulus(i) by {
      ValAppend(a, i);
      ValAppend(b, i);
      Distribute(a[i], b[i], Modulus(i));
    }
    CarryOn(s, carry, i, u, d);
  }

  lemma ScaledNext(b: int, u: int, x: int, m: int, v: int, d: int)
    requires v == u + x * m && d == b * x
    ensures b * v == b * u + d * m
  {
  }

  lemma MultiplyStep(a: seq<Limb>, b: Limb, s: seq<Limb>, carry: int, i: nat, d: nat)
    requires i < |s| == |a| && Carrying(s, carry, i, b * Val(a[..i])) && d == b as int * a[i] as int
    ensures Carrying(s[i := Wrap(carry + d)], (carry + d) / 0x1_0000_0000, i + 1, b * Val(a[..i + 1]))
  {
    ValAppend(a, i);
    ScaledNext(b, Val(a[..i]), a[i], Modulus(i), Val(a[..i + 1]), d);
    CarryOn(s, carry, i, b * Val(a[..i]), d);
  }

  lemma ComplementPlace(x: int, y: int, m: int)
    requires x == 0xFFFF_FFFF - y
    ensures x * m == 0xFFFF_FFFF * m - y * m
  {
    Distribute(0xFFFF_FFFF, y, m);
  }

  lemma ComplementStep(a: seq<Limb>, s: seq<Limb>, i: nat)
    requires i < |a| == |s| && Val(s[..i]) == Modulus(i) - 1 - Val(a[..i])
    ensures Val(s[i := Wrap(0xFFFF_FFFF - a[i] as int)][..i + 1]) == Modulus(i + 1) - 1 - Val(a[..i + 1])
  {
    var s' := s[i := Wrap(0xFFFF_FFFF - a[i] as int)];
    ValAppend(s', i);
    assert s'[..i] == s[..i];
    ValAppend(a, i);
    ComplementPlace(s'[i], a[i], Modulus(i));
  }

  lemma IncrementStep(s: seq<Limb>, i: nat)
    requires i < |s|
    ensures var x := Wrap(s[i] as int + 1);
            Val(s[i := x]) == if x == 0 then Val(s) + Modulus(i) - Modulus(i + 1) else Val(s) + Modulus(i)
  {
    var x := Wrap(s[i] as int + 1);
    ValUpdate(s, i, x);
    Distribute(x, s[i], Modulus(i));
    Distribute(s[i], 1, Modulus(i));
  }

  lemma DecrementStep(s: seq<Limb>, i: nat)
    requires i < |s|
    ensures var x := Wrap(s[i] as int - 1);
            Val(s[i := x]) == if x == 0xFFFF_FFFF then Val(s) - Modulus(i) + Modulus(i + 1) else Val(s) - Modulus(i)
  {
    var x := Wrap(s[i] as int - 1);
    ValUpdate(s, i, x);
    Distribute(x, s[i], Modulus(i));
    Distribute(s[i], 1, Modulus(i));
  }

  lemma Reduced(s: seq<Limb>, t: int, q: int)
    requires Val(s) + q * Modulus(|s|) == t
    ensures Val(s) == t % Modulus(|s|)
  {
    ValBound(s);
    ModUnique(Val(s), Modulus(|s|), t, q);
  }

  lemma ModOfMod(a: int, b: int, m: int)
    requires m > 0
    ensures (a + b % m) % m == (a + b) % m
  {
    var q := b / m;
    assert b == q * m + b % m;
    var r := a + b % m;
    assert r == (r / m) * m + r % m;
    assert (r / m + q) * m == (r / m) * m + q * m;
    DivUnique(a + b, m, r / m + q, r % m);
  }

  lemma SubtractIsAdd(v: int, w: int, m: int)
    requires m > 0
    ensures (v + (m - w) % m) % m == (v - w) % m
  {
    ModOfMod(v, m - w, m);
    ModOfMod(v - w, m, m);
    DivUnique(m, m, 1, 0);
  }

  lemma ValWord(s: seq<Limb>, b: nat)
    requires |s| >= 2 && b <= 0xFFFF_FFFF_FFFF_FFFF
    requires s[0] == b % 0x1_0000_0000 && s[1] == b / 0x1_0000_0000 && forall k :: 2 <= k < |s| ==> s[k] == 0
    ensures Val(s) == b
  {
    ValZero(s[2..]);
    assert s[1..][1..] == s[2..];
    assert Val(s[1..]) == s[1] + 0x1_0000_0000 * Val(s[2..]);
  }

  // ---------------------------------------------------------------- the multiplication loops

  /** What the inner loop has added: x times the first i limbs of b, j places up. */
  ghost function Partial(s: seq<Limb>, x: Limb, b: seq<Limb>, i: nat, j: nat): int
    requires i + j <= |s| && i <= |b|
  {
    Val(s[..i + j]) + x * Val(b[..i]) * Modulus(j)
  }

  lemma PartialNext(s: seq<Limb>, x: Limb, b: seq<Limb>, i: nat, j: nat, d: nat)
    requires i + j < |s| && i < |b| && d == s[i + j] as int + x as int * b[i] as int
    ensures Partial(s, x, b, i + 1, j) == Partial(s, x, b, i, j) + d * Modulus(i + j)
  {
    var u, y, m := Val(b[..i]), b[i], Modulus(j);
    ValAppend(s, i + j);
    assert s[..i + j + 1] == s[..i + 1 + j];
    ValAppend(b, i);
    ModulusAdd(i, j);
    Distribute(s[i + j], x * y, Modulus(i + j));
    ProductPlace(x, u, y, Modulus(i), m);
  }

  lemma RowStep(s0: seq<Limb>, x: Limb, b: seq<Limb>, i: nat, j: nat, s: seq<Limb>, carry: Limb, d: nat)
    requires i + j < |s0| == |s| && i < |b| && Carrying(s, carry, i + j, Partial(s0, x, b, i, j))
    requires d == s0[i + j] as int + x as int * b[i] as int
    ensures Carrying(s[i + j := Wrap(carry + d)], (carry + d) / 0x1_0000_0000, i + 1 + j, Partial(s0, x, b, i + 1, j))
  {
    PartialNext(s0, x, b, i, j, d);
    CarryOn(s, carry, i + j, Partial(s0, x, b, i, j), d);
  }

  lemma ProductPlace(x: int, u: int, y: int, p: int, m: int)
    ensures x * (u + y * p) * m == x * u * m + x * y * (p * m)
  {
  }

  /** After the inner loop, with the carry and everything beyond the width dropped. */
  lemma RowDone(a: seq<Limb>, j: nat, b: seq<Limb>, s0: seq<Limb>, s: seq<Limb>, carry: int, q: int) returns (q': int)
    requires j < |a| == |b| == |s0| == |s|
    requires Carrying(s, carry, |s|, Partial(s0, a[j], b, |s| - j, j))
    requires Val(s0) + q * Modulus(|s|) == Val(a[..j]) * Val(b)
    ensures Val(s) + q' * Modulus(|s|) == Val(a[..j + 1]) * Val(b)
  {
    var w := |s|;
    assert s[..w] == s && s0[..w] == s0;
    var low, high, row := RowSplit(a[j], b, j);
    RowNext(a, j, Val(b));
    q' := CollectRow(Val(s), Val(s0), carry, q, high, Modulus(w), low, row, Val(a[..j]) * Val(b), Val(a[..j + 1]) * Val(b));
  }

  lemma CollectRow(v: int, v0: int, carry: int, q: int, r: int, m: int, low: int, row: int, t: int, t': int) returns (q': int)
    requires v + carry * m == v0 + low && v0 + q * m == t && row == low + r * m && t' == t + row
    ensures v + q' * m == t'
  {
    q' := q + carry + r;
    Distribute(q + carry, r, m);
    Distribute(q, carry, m);
  }

  lemma ProductSplit(x: int, v: int, lo: int, hi: int, p: int, m: int)
    requires v == lo + p * hi
    ensures x * v * m == x * lo * m + x * hi * (p * m)
  {
  }

  lemma RowSplit(x: int, b: seq<Limb>, j: nat) returns (low: int, high: int, row: int)
    requires j <= |b|
    ensures row == x * Val(b) * Modulus(j) && low == x * Val(b[..|b| - j]) * Modulus(j)
    ensures row == low + high * Modulus(|b|)
  {
    ValSplit(b, |b| - j);
    ModulusAdd(|b| - j, j);
    ProductSplit(x, Val(b), Val(b[..|b| - j]), Val(b[|b| - j..]), Modulus(|b| - j), Modulus(j));
    row, low, high := x * Val(b) * Modulus(j), x * Val(b[..|b| - j]) * Modulus(j), x * Val(b[|b| - j..]);
  }

  lemma RowNext(a: seq<Limb>, j: nat, v: int)
    requires j < |a|
    ensures Val(a[..j + 1]) * v == Val(a[..j]) * v + a[j] * v * Modulus(j)
  {
    ValAppend(a, j);
    Distribute(Val(a[..j]), a[j] * Modulus(j), v);
    assert a[j] * Modulus(j) * v == a[j] * v * Modulus(j);
  }

  // ---------------------------------------------------------------- long division

  /** The state of the division of n by d: what is left, and a quotient whose bits
      below `place` are not decided yet. */
  ghost predicate Dividing(n: nat, d: nat, num: nat, q: nat, t: nat, place: nat) {
    num + q * d == n && num < d * Pow2(place) && q == t * Pow2(place)
  }

  lemma DividingNext(n: nat, d: nat, num: nat, q: nat, t: nat, p: nat)
    requires Dividing(n, d, num, q, t, p + 1)
    ensures num >= d * Pow2(p) ==> Dividing(n, d, num - d * Pow2(p), q + Pow2(p), 2 * t + 1, p)
    ensures num < d * Pow2(p) ==> Dividing(n, d, num, q, 2 * t, p)
  {
    var w := Pow2(p);
    assert d * (2 * w) == d * w + d * w;
    assert t * (2 * w) == 2 * t * w;
    Distribute(2 * t, 1, w);
    Distribute(q, w, d);
  }

  lemma DividingDone(n: nat, d: nat, num: nat, q: nat, t: nat)
    requires d > 0 && Dividing(n, d, num, q, t, 0)
    ensures n / d == q
  {
    DivUnique(n, d, q, num);
  }

  lemma SmallQuotient(n: nat, d: nat, numBits: nat, divBits: nat)
    requires numBits < divBits && Pow2(divBits - 1) <= d && if numBits == 0 then n == 0 else n < Pow2(numBits)
    ensures d > 0 && n / d == 0
  {
    PowMono(2, numBits, divBits - 1);
    DivUnique(n, d, 0, n);
  }

  /** The shifted divisor has as many bits as the dividend, so it fits. */
  lemma AlignedFits(d: nat, shift: nat, divBits: nat, w: nat)
    requires shift + divBits <= 32 * w && d < Pow2(divBits)
    ensures (d * Pow2(shift)) % Modulus(w) == d * Pow2(shift)
  {
    PowAdd(2, divBits, shift);
    MulStrict(d, Pow2(divBits), Pow2(shift));
    PowMono(2, divBits + shift, 32 * w);
    ModulusIsPower(w);
    SmallMod(d * Pow2(shift), Modulus(w));
  }

  lemma AlignedCovers(n: nat, d: nat, shift: nat, divBits: nat)
    requires divBits > 0 && n < Pow2(divBits + shift) && Pow2(divBits - 1) <= d
    ensures Dividing(n, d, n, 0, 0, shift + 1)
  {
    PowAdd(2, divBits - 1, shift + 1);
    MulMono(Pow2(divBits - 1), d, Pow2(shift + 1));
  }

  lemma ReducedAlready(a: seq<Limb>, b: seq<Limb>)
    requires |a| == |b| && Val(b) <= Val(a)
    ensures (Val(a) - Val(b)) % Modulus(|a|) == Val(a) - Val(b)
  {
    ValBound(a);
    DivUnique(Val(a) - Val(b), Modulus(|a|), 0, Val(a) - Val(b));
  }

  lemma ShiftBackOne(d: nat, shift: nat)
    ensures Pow2(1) == 2 && (shift > 0 ==> d * Pow2(shift) / 2 == d * Pow2(shift - 1))
  {
  }

  ghost function WordLimbs(width: nat, b: nat): (s: seq<Limb>)
    requires width >= 2 && b <= 0xFFFF_FFFF_FFFF_FFFF
    ensures |s| == width && Val(s) == b
    ensures s[0] == b % 0x1_0000_0000 && s[1] == b / 0x1_0000_0000 && forall k :: 2 <= k < width ==> s[k] == 0
  {
    var s: seq<Limb> := [Wrap(b), Wrap(b / 0x1_0000_0000)] + seq<Limb>(width - 2, i => 0);
    ValWord(s, b);
    s
  }

  lemma LowWords(a: seq<Limb>)
    requires |a| >= 2
    ensures BitOr(a[0], a[1] as int * 0x1_0000_0000) == Val(a) % 0x1_0000_0000_0000_0000
  {
    var high := a[1] as int * 0x1_0000_0000;
    Pow2Values();
    OrDisjoint(a[0], a[1], 32, high);
    var rest := Val(a[1..][1..]);
    assert Val(a[1..]) == a[1] + 0x1_0000_0000 * rest;
    DivUnique(Val(a), 0x1_0000_0000_0000_0000, rest, a[0] + high);
  }

  lemma DifferentValues(a: seq<Limb>, b: seq<Limb>, i: nat)
    requires i < |a| == |b| && a[i] != b[i]
    ensures Val(a) != Val(b)
  {
    if Val(a) == Val(b) { ValInjective(a, b); }
  }

  class BaseUint {
    const pn: array<Limb>

    ghost function Value(): (v: nat)
      reads pn
    {
      Val(pn[..])
    }

    /** 0, with the given number of limbs. */
    constructor (width: nat)
      ensures fresh(pn) && pn.Length == width && Value() == 0
    {
      pn := new Limb[width](i => 0);
      new;
      ValZero(pn[..]);
    }

    constructor Copy(b: seq<Limb>)
      ensures fresh(pn) && pn[..] == b
    {
      pn := new Limb[|b|](i requires 0 <= i < |b| => b[i]);
    }

    /** = */
    method Assign(b: nat)
      requires pn.Length >= 2 && b <= 0xFFFF_FFFF_FFFF_FFFF
      modifies pn
      ensures Value() == b
    {
      pn[0] := Wrap(b);
      pn[1] := Wrap(b / 0x1_0000_0000);
      for i := 2 to pn.Length
        invariant pn[0] == Wrap(b) && pn[1] == Wrap(b / 0x1_0000_0000)
        invariant forall k :: 2 <= k < i ==> pn[k] == 0
      {
        pn[i] := 0;
      }
      ValWord(pn[..], b);
    }

    /** += */
    method Add(b: seq<Limb>)
      requires |b| == pn.Length
      modifies pn
      ensures Value() == (old(Value()) + Val(b)) % Modulus(pn.Length)
    {
      ghost var a := pn[..];
      var carry := 0;
      for i := 0 to pn.Length
        invariant carry <= 1 && pn[i..] == a[i..]
        invariant Carrying(pn[..], carry, i, Val(a[..i]) + Val(b[..i]))
      {
        ghost var s := pn[..];
        assert pn[i] == pn[i..][0] == a[i];
        AddStep(a, b, s, carry, i);
        var n := carry + (pn[i] as int + b[i] as int);
        pn[i] := Wrap(n);
        carry := n / 0x1_0000_0000;
        assert pn[..] == s[i := Wrap(n)];
      }
      assert a[..pn.Length] == a && b[..pn.Length] == b;
      CarryOut(pn[..], carry, Val(a) + Val(b));
    }

    /** ~ */
    method Complement() returns (ret: BaseUint)
      ensures fresh(ret) && fresh(ret.pn) && ret.pn.Length == pn.Length
      ensures ret.Value() == Modulus(pn.Length) - 1 - Value()
    {
      ret := new BaseUint(pn.Length);
      ghost var a := pn[..];
      for i := 0 to pn.Length
        invariant Val(ret.pn[..][..i]) == Modulus(i) - 1 - Val(a[..i])
      {
        ghost var s := ret.pn[..];
        ComplementStep(a, s, i);
        ret.pn[i] := Wrap(0xFFFF_FFFF - pn[i] as int);
        assert ret.pn[..] == s[i := Wrap(0xFFFF_FFFF - a[i] as int)];
      }
      assert a[..pn.Length] == a && ret.pn[..][..pn.Length] == ret.pn[..];
    }

    /** ++ */
    method Increment()
      modifies pn
      ensures Value() == (old(Value()) + 1) % Modulus(pn.Length)
    {
      ghost var v := Value();
      var i := 0;
      while i < pn.Length
        invariant i <= pn.Length && Value() + Modulus(i) == v + 1
      {
        ghost var s := pn[..];
        IncrementStep(s, i);
        pn[i] := Wrap(pn[i] as int + 1);
        assert pn[..] == s[i := Wrap(s[i] as int + 1)];
        if pn[i] != 0 {
          Reduced(pn[..], v + 1, 0);
          return;
        }
        i := i + 1;
      }
      Reduced(pn[..], v + 1, 1);
    }

    /** -- */
    method Decrement()
      modifies pn
      ensures Value() == (old(Value()) - 1) % Modulus(pn.Length)
    {
      ghost var v: int := Value();
      var i := 0;
      while i < pn.Length
        invariant i <= pn.Length && v == Value() - Modulus(i) + 1
      {
        ghost var s := pn[..];
        DecrementStep(s, i);
        pn[i] := Wrap(pn[i] as int - 1);
        assert pn[..] == s[i := Wrap(s[i] as int - 1)];
        if pn[i] != 0xFFFF_FFFF {
          Reduced(pn[..], v - 1, 0);
          return;
        }
        i := i + 1;
      }
      Reduced(pn[..], v - 1, -1);
    }

    /** Unary - */
    method Negate() returns (ret: BaseUint)
      ensures fresh(ret) && fresh(ret.pn) && ret.pn.Length == pn.Length
      ensures ret.Value() == (Modulus(pn.Length) - Value()) % Modulus(pn.Length)
    {
      ret := Complement();
      ret.Increment();
    }

    /** -= */
    method Subtract(b: seq<Limb>)
      requires |b| == pn.Length
      modifies pn
      ensures Value() == (old(Value()) - Val(b)) % Modulus(pn.Length)
    {
      var copy := new BaseUint.Copy(b);
      var minus := copy.Negate();
      SubtractIsAdd(Value(), Val(b), Modulus(pn.Length));
      Add(minus.pn[..]);
    }

    /** *= by a word */
    method MultiplyWord(b32: Limb)
      modifies pn
      ensures Value() == (b32 * old(Value())) % Modulus(pn.Length)
    {
      ghost var a := pn[..];
      var carry := 0;
      for i := 0 to pn.Length
        invariant carry <= 0xFFFF_FFFF && pn[i..] == a[i..]
        invariant Carrying(pn[..], carry, i, b32 * Val(a[..i]))
      {
        ghost var s := pn[..];
        assert pn[i] == pn[i..][0] == a[i];
        MultiplyStep(a, b32, s, carry, i, b32 as int * pn[i] as int);
        ProductFits(b32, pn[i], carry, 0);
        var n := carry + b32 as int * pn[i] as int;
        pn[i] := Wrap(n);
        carry := n / 0x1_0000_0000;
        assert pn[..] == s[i := Wrap(n)];
      }
      assert a[..pn.Length] == a;
      CarryOut(pn[..], carry, b32 * Val(a));
    }

    /** The inner loop: add x times b, j places up, to the product so far. */
    method AddRow(x: Limb, b: seq<Limb>, j: nat) returns (ghost carryOut: int)
      requires j < pn.Length == |b|
      modifies pn
      ensures Carrying(pn[..], carryOut, pn.Length, Partial(old(pn[..]), x, b, pn.Length - j, j))
    {
      ghost var s0 := pn[..];
      var carry := 0;
      var i := 0;
      while i + j < pn.Length
        invariant i + j <= pn.Length && 0 <= carry <= 0xFFFF_FFFF && pn[i + j..] == s0[i + j..]
        invariant Carrying(pn[..], carry, i + j, Partial(s0, x, b, i, j))
      {
        ghost var s := pn[..];
        assert pn[i + j] == pn[i + j..][0] == s0[i + j];
        ProductFits(x, b[i], carry, pn[i + j]);
        var d: nat := pn[i + j] as int + x as int * b[i] as int;
        RowStep(s0, x, b, i, j, s, carry, d);
        var n := carry + d;
        pn[i + j] := Wrap(n);
        carry := n / 0x1_0000_0000;
        assert pn[..] == s[i + j := Wrap(n)];
        i := i + 1;
      }
      carryOut := carry;
    }

    /** *= */
    method Multiply(b: seq<Limb>)
      requires |b| == pn.Length
      modifies pn
      ensures Value() == (old(Value()) * Val(b)) % Modulus(pn.Length)
    {
      ghost var v := pn[..];
      var a := new BaseUint(pn.Length);
      ghost var q := 0;
      for j := 0 to pn.Length
        invariant pn[..] == v && a.pn.Length == pn.Length
        invariant a.Value() + q * Modulus(pn.Length) == Val(v[..j]) * Val(b)
      {
        ghost var s0 := a.pn[..];
        ghost var carry := a.AddRow(pn[j], b, j);
        q := RowDone(v, j, b, s0, a.pn[..], carry, q);
      }
      assert v[..pn.Length] == v;
      Reduced(a.pn[..], Val(v) * Val(b), q);
      Set(a.pn[..]);
    }

    method Set(b: seq<Limb>)
      requires |b| == pn.Length
      modifies pn
      ensures pn[..] == b
    {
      for i := 0 to pn.Length
        invariant forall k :: 0 <= k < i ==> pn[k] == b[k]
      {
        pn[i] := b[i];
      }
    }

    method Clear()
      modifies pn
      ensures forall k :: 0 <= k < pn.Length ==> pn[k] == 0
      ensures Value() == 0
    {
      for i := 0 to pn.Length
        invariant forall k :: 0 <= k < i ==> pn[k] == 0
      {
        pn[i] := 0;
      }
      ValZero(pn[..]);
    }

    /** One round of the left shift: limb x = a[i] is spread over two limbs. */
    method SpreadLeft(a: seq<Limb>, i: nat, k: nat, s: nat)
      requires |a| == pn.Length && i < |a| && s < 32 && LeftSoFar(a, k, s, i, pn[..])
      modifies pn
      ensures LeftSoFar(a, k, s, i + 1, pn[..])
    {
      ghost var r := pn[..];
      assert LeftAt(a, k, s, i, r, i + k + 1) && LeftAt(a, k, s, i, r, i + k);
      if i + k + 1 < pn.Length && s != 0 {
        OrIntoZero(Shr(a[i], 32 - s));
        pn[i + k + 1] := Or(pn[i + k + 1], Shr(a[i], 32 - s));
      }
      if i + k < pn.Length {
        LeftMeets(a, s, i, pn[i + k]);
        pn[i + k] := Or(pn[i + k], Shl(a[i], s));
      }
      ghost var i', r' := i + 1, pn[..];
      forall j: int ensures LeftAt(a, k, s, i', r', j) {
        assert LeftAt(a, k, s, i, r, j);
      }
    }

    /** <<= */
    method ShiftLeft(shift: nat)
      modifies pn
      ensures Value() == (old(Value()) * Pow2(shift)) % Modulus(pn.Length)
    {
      var a := pn[..];
      Clear();
      var k, s := shift / 32, shift % 32;
      assert LeftSoFar(a, k, s, 0, pn[..]);
      for i := 0 to pn.Length
        invariant LeftSoFar(a, k, s, i, pn[..])
      {
        SpreadLeft(a, i, k, s);
      }
      LeftValue(a, k, s, pn[..]);
    }

    method SpreadRight(a: seq<Limb>, i: nat, k: nat, s: nat)
      requires |a| == pn.Length && i < |a| && s < 32 && RightSoFar(a, k, s, i, pn[..])
      modifies pn
      ensures RightSoFar(a, k, s, i + 1, pn[..])
    {
      ghost var r := pn[..];
      assert RightAt(a, k, s, i, r, i - k - 1) && RightAt(a, k, s, i, r, i - k);
      if i - k - 1 >= 0 && s != 0 {
        RightMeets(a[i - 1], a[i], s);
        pn[i - k - 1] := Or(pn[i - k - 1], Shl(a[i], 32 - s));
      }
      if i - k >= 0 {
        OrIntoZero(Shr(a[i], s));
        pn[i - k] := Or(pn[i - k], Shr(a[i], s));
      }
      ghost var i', r' := i + 1, pn[..];
      forall j: int ensures RightAt(a, k, s, i', r', j) {
        assert RightAt(a, k, s, i, r, j);
      }
    }

    /** >>= */
    method ShiftRight(shift: nat)
      modifies pn
      ensures Value() == old(Value()) / Pow2(shift)
    {
      var a := pn[..];
      Clear();
      var k, s := shift / 32, shift % 32;
      assert RightSoFar(a, k, s, 0, pn[..]);
      for i := 0 to pn.Length
        invariant RightSoFar(a, k, s, i, pn[..])
      {
        SpreadRight(a, i, k, s);
      }
      RightValue(a, k, s, pn[..]);
    }

    method SetBit(n: nat, ghost t: nat)
      requires n < 32 * pn.Length && Value() == t * Pow2(n + 1)
      modifies pn
      ensures Value() == old(Value()) + Pow2(n)
    {
      ghost var s := pn[..];
      SetBitValue(s, n, t);
      pn[n / 32] := Or(pn[n / 32], Bit(n % 32));
      assert pn[..] == s[n / 32 := Or(s[n / 32], Bit(n % 32))];
    }

    /** /=; refuses to divide by zero, which leaves 0. */
    method Divide(b: seq<Limb>) returns (ok: bool)
      requires |b| == pn.Length >= 2
      modifies pn
      ensures ok <==> Val(b) != 0
      ensures ok ==> Value() == old(Value()) / Val(b)
      ensures !ok ==> Value() == 0
    {
      var div := new BaseUint.Copy(b);
      var num := new BaseUint.Copy(pn[..]);
      ghost var n, d: nat := Value(), Val(b);
      Assign(0);
      var numBits := num.Bits();
      var divBits := div.Bits();
      if divBits == 0 { return false; }
      ok := true;
      if divBits > numBits {
        SmallQuotient(n, d, numBits, divBits);
        return;
      }
      var shift := numBits - divBits;
      AlignedFits(d, shift, divBits, pn.Length);
      AlignedCovers(n, d, shift, divBits);
      div.ShiftLeft(shift);
      ghost var t: nat := 0;
      while shift >= 0
        invariant -1 <= shift < 32 * pn.Length && num.pn.Length == div.pn.Length == pn.Length
        invariant pn != num.pn && pn != div.pn && num.pn != div.pn && fresh(num.pn) && fresh(div.pn)
        invariant shift >= 0 ==> div.Value() == d * Pow2(shift)
        invariant Dividing(n, d, num.Value(), Value(), t, shift + 1)
      {
        t := DivideBit(num, div, shift, n, d, t);
        shift := shift - 1;
      }
      DividingDone(n, d, num.Value(), Value(), t);
    }

    /** One round of long division: decide one bit of the quotient. */
    method DivideBit(num: BaseUint, div: BaseUint, shift: nat, ghost n: nat, ghost d: nat, ghost t: nat) returns (ghost t': nat)
      requires shift < 32 * pn.Length && num.pn.Length == div.pn.Length == pn.Length
      requires pn != num.pn && pn != div.pn && num.pn != div.pn
      requires div.Value() == d * Pow2(shift) && Dividing(n, d, num.Value(), Value(), t, shift + 1)
      modifies pn, num.pn, div.pn
      ensures Dividing(n, d, num.Value(), Value(), t', shift)
      ensures shift > 0 ==> div.Value() == d * Pow2(shift - 1)
    {
      DividingNext(n, d, num.Value(), Value(), t, shift);
      var c := num.CompareTo(div.pn[..]);
      if c >= 0 {
        ReducedAlready(num.pn[..], div.pn[..]);
        num.Subtract(div.pn[..]);
        SetBit(shift, t);
        t' := 2 * t + 1;
      } else {
        t' := 2 * t;
      }
      ShiftBackOne(d, shift);
      div.ShiftRight(1);
    }

    method CompareTo(b: seq<Limb>) returns (c: int)
      requires |b| == pn.Length
      ensures c == if Value() < Val(b) then -1 else if Value() > Val(b) then 1 else 0
    {
      ghost var a := pn[..];
      var i := pn.Length - 1;
      while i >= 0
        invariant -1 <= i < pn.Length && forall k :: i < k < pn.Length ==> a[k] == b[k]
      {
        if pn[i] < b[i] {
          SuffixDecides(a, b, i);
          return -1;
        }
        if pn[i] > b[i] {
          SuffixDecides(b, a, i);
          return 1;
        }
        i := i - 1;
      }
      assert a == b;
      return 0;
    }

    /** == with a 64-bit number. */
    method EqualTo(b: nat) returns (equal: bool)
      requires pn.Length >= 2 && b <= 0xFFFF_FFFF_FFFF_FFFF
      ensures equal <==> Value() == b
    {
      ghost var a, word := pn[..], WordLimbs(pn.Length, b);
      var i := pn.Length - 1;
      while i >= 2
        invariant 1 <= i < pn.Length && forall k :: i < k < pn.Length ==> pn[k] == 0
      {
        if pn[i] != 0 {
          DifferentValues(a, word, i);
          return false;
        }
        i := i - 1;
      }
      if pn[1] != b / 0x1_0000_0000 {
        DifferentValues(a, word, 1);
        return false;
      }
      if pn[0] != b % 0x1_0000_0000 {
        DifferentValues(a, word, 0);
        return false;
      }
      assert a == word;
      return true;
    }

    method Low64() returns (r: nat)
      requires pn.Length >= 2
      ensures r == Value() % 0x1_0000_0000_0000_0000
    {
      LowWords(pn[..]);
      r := BitOr(pn[0], pn[1] as int * 0x1_0000_0000);
    }

    /** The position of the highest bit set plus one, or 0. */
    method Bits() returns (n: nat)
      ensures n <= 32 * pn.Length
      ensures if n == 0 then Value() == 0 else Pow2(n - 1) <= Value() < Pow2(n)
    {
      Pow2Values();
      var pos := pn.Length - 1;
      while pos >= 0
        invariant -1 <= pos < pn.Length && forall k :: pos < k < pn.Length ==> pn[k] == 0
      {
        if pn[pos] != 0 {
          var nbits := 31;
          while nbits > 0
            invariant 0 <= nbits <= 31 && pn[pos] < Pow2(nbits + 1)
          {
            if Shr(pn[pos], nbits) % 2 != 0 {
              BitIsTop(pn[pos], nbits);
              TopLimb(pn[..], pos, nbits);
              return 32 * pos + nbits + 1;
            }
            BitIsTop(pn[pos], nbits);
            nbits := nbits - 1;
          }
          TopLimb(pn[..], pos, 0);
          return 32 * pos + 1;
        }
        pos := pos - 1;
      }
      ValZero(pn[..]);
      return 0;
    }
  }

  lemma BitIsTop(x: Limb, n: nat)
    requires x < Pow2(n + 1)
    ensures Shr(x, n) % 2 != 0 <==> x >= Pow2(n)
  {
    if x < Pow2(n) { DivUnique(x, Pow2(n), 0, x); } else { DivUnique(x, Pow2(n), 1, x - Pow2(n)); }
  }
}
