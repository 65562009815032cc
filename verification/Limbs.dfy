/** Little-endian 32-bit limbs and the numbers they stand for. */
module Limbs {
  import opened Powers

  type Limb = x: nat | x < 0x1_0000_0000

  ghost function Val(s: seq<Limb>): nat {
    if s == [] then 0 else s[0] + 0x1_0000_0000 * Val(s[1..])
  }

  /** The modulus of a number of n limbs. */
  ghost function Modulus(n: nat): (r: nat)
    ensures r > 0
  {
    if n == 0 then 1 else 0x1_0000_0000 * Modulus(n - 1)
  }

  lemma {:induction false} ModulusIsPower(n: nat)
    ensures Modulus(n) == Pow2(32 * n)
  {
    if n > 0 {
      ModulusIsPower(n - 1);
      Pow2Values();
      PowAdd(2, 32, 32 * (n - 1));
      assert 32 + 32 * (n - 1) == 32 * n;
    }
  }

  lemma ModulusAdd(m: nat, n: nat)
    ensures Modulus(m + n) == Modulus(m) * Modulus(n)
  {
    ModulusIsPower(m);
    ModulusIsPower(n);
    ModulusIsPower(m + n);
    PowAdd(2, 32 * m, 32 * n);
  }

  lemma {:induction false} ValBound(s: seq<Limb>)
    ensures Val(s) < Modulus(|s|)
  {
    if s != [] { ValBound(s[1..]); }
  }

  lemma {:induction false} ValSplit(s: seq<Limb>, i: nat)
    requires i <= |s|
    ensures Val(s) == Val(s[..i]) + Modulus(i) * Val(s[i..])
  {
    if i == 0 {
      assert s[..0] == [] && s[0..] == s;
    } else {
      ValSplit(s[1..], i - 1);
      assert s[..i][1..] == s[1..][..i - 1] && s[1..][i - 1..] == s[i..];
      MulAssoc(0x1_0000_0000, Modulus(i - 1), Val(s[i..]));
    }
  }

  lemma ValOne(x: Limb)
    ensures Val([x]) == x
  {
    assert Val([x][1..]) == 0;
  }

  lemma ValAppend(s: seq<Limb>, i: nat)
    requires i < |s|
    ensures Val(s[..i + 1]) == Val(s[..i]) + s[i] * Modulus(i)
  {
    var t := s[..i + 1];
    ValSplit(t, i);
    assert t[..i] == s[..i] && t[i..] == [s[i]];
    ValOne(s[i]);
  }

  lemma ValUpdate(s: seq<Limb>, i: nat, v: Limb)
    requires i < |s|
    ensures Val(s[i := v]) == Val(s) + (v - s[i]) * Modulus(i)
  {
    var t := s[i := v];
    ValSplit(s, i + 1);
    ValSplit(t, i + 1);
    assert t[i + 1..] == s[i + 1..] && t[..i] == s[..i];
    ValAppend(s, i);
    ValAppend(t, i);
    assert (v - s[i]) * Modulus(i) == v * Modulus(i) - s[i] * Modulus(i);
  }

  lemma ValAdd(s: seq<Limb>, i: nat, v: Limb, d: int)
    requires i < |s| && v == s[i] as int + d
    ensures Val(s[i := v]) == Val(s) + Modulus(i) * d
  {
    ValUpdate(s, i, v);
  }

  lemma {:induction false} ValZero(s: seq<Limb>)
    requires forall i :: 0 <= i < |s| ==> s[i] == 0
    ensures Val(s) == 0
  {
    if s != [] { ValZero(s[1..]); }
  }

  // ---------------------------------------------------------------- carries

  /** One round of a carry loop: n is what is to be stored at a place of weight p. */
  lemma CarryStep(v: int, carry: int, p: int, n: nat, old_: int)
    requires v + carry * p == old_
    ensures v + (n % 0x1_0000_0000) * p + (n / 0x1_0000_0000) * (0x1_0000_0000 * p) == old_ + (n - carry) * p
  {
  }

  lemma ProductFits(a: Limb, b: Limb, c: Limb, d: Limb)
    ensures a * b + c + d <= 0xFFFF_FFFF_FFFF_FFFF
  {
    MulMono(a, 0xFFFF_FFFF, b);
  }

  // ---------------------------------------------------------------- disjoint or

  /** Bitwise or. */
  function BitOr(x: nat, y: nat): nat {
    if x == 0 && y == 0 then 0
    else (if x % 2 == 1 || y % 2 == 1 then 1 else 0) + 2 * BitOr(x / 2, y / 2)
  }

  lemma {:induction false} OrZero(x: nat)
    ensures BitOr(0, x) == x && BitOr(x, 0) == x
  {
    if x > 0 { OrZero(x / 2); }
  }

  lemma {:induction false} OrCommutes(x: nat, y: nat)
    ensures BitOr(x, y) == BitOr(y, x)
    decreases x + y
  {
    if x != 0 || y != 0 { OrCommutes(x / 2, y / 2); }
  }

  lemma OrEven(x: nat, y: nat, z: nat)
    requires y == 2 * z
    ensures BitOr(x, y) == x % 2 + 2 * BitOr(x / 2, z)
  {
    assert y / 2 == z && y % 2 == 0;
    if x == 0 && y == 0 { OrZero(0); }
  }

  /** Numbers without a common bit are added. */
  lemma {:induction false} OrDisjoint(x: nat, y: nat, p: nat, z: nat)
    requires x < Pow2(p) && z == y * Pow2(p)
    ensures BitOr(x, z) == x + z
    decreases p
  {
    if p == 0 {
      OrZero(z);
    } else {
      var z' := y * Pow2(p - 1);
      assert z == 2 * z' by { MulAssoc(y, 2, Pow2(p - 1)); }
      OrDisjoint(x / 2, y, p - 1, z');
      OrEven(x, z, z');
    }
  }

  /** Or works on the low p bits and on the rest separately. */
  lemma {:induction false} OrSplit(x: nat, c: nat, p: nat, y: nat, b: nat)
    requires x < Pow2(p) && c < Pow2(p) && y == b * Pow2(p)
    ensures BitOr(x + y, c) == BitOr(x, c) + y
    decreases p
  {
    if p == 0 {
      OrZero(y);
      OrZero(0);
    } else {
      var y' := b * Pow2(p - 1);
      assert y == 2 * y' by { MulAssoc(b, 2, Pow2(p - 1)); }
      OrSplit(x / 2, c / 2, p - 1, y', b);
      OrHalves(x, c, y, y');
    }
  }

  lemma OrHalves(x: nat, c: nat, y: nat, y': nat)
    requires y == 2 * y' && BitOr(x / 2 + y', c / 2) == BitOr(x / 2, c / 2) + y'
    ensures BitOr(x + y, c) == BitOr(x, c) + y
  {
    assert (x + y) / 2 == x / 2 + y' && (x + y) % 2 == x % 2;
    if x + y == 0 && c == 0 { OrZero(0); }
    if x == 0 && c == 0 { OrZero(0); }
  }

  // ---------------------------------------------------------------- order

  lemma SuffixDecides(a: seq<Limb>, b: seq<Limb>, i: nat)
    requires |a| == |b| && i < |a| && a[i] < b[i] && forall k :: i < k < |a| ==> a[k] == b[k]
    ensures Val(a) < Val(b)
  {
    assert a[i + 1..] == b[i + 1..];
    var la, lb, ra := Val(a[..i]), Val(b[..i]), Modulus(i + 1) * Val(a[i + 1..]);
    assert Val(a) == la + a[i] * Modulus(i) + ra by {
      ValSplit(a, i + 1);
      ValAppend(a, i);
    }
    assert Val(b) == lb + b[i] * Modulus(i) + ra by {
      ValSplit(b, i + 1);
      ValAppend(b, i);
    }
    ValBound(a[..i]);
    LowerPart(la, a[i], b[i], Modulus(i));
  }

  lemma LowerPart(x: int, a: int, b: int, m: int)
    requires x < m && a < b && m > 0
    ensures x + a * m < b * m
  {
    MulMono(1, b - a, m);
    assert (b - a) * m == b * m - a * m;
  }

  lemma {:induction false} ValInjective(a: seq<Limb>, b: seq<Limb>)
    requires |a| == |b| && Val(a) == Val(b)
    ensures a == b
  {
    if a != [] {
      assert a[0] == b[0];
      ValInjective(a[1..], b[1..]);
      assert a == [a[0]] + a[1..] && b == [b[0]] + b[1..];
    }
  }

  // ---------------------------------------------------------------- shifts

  /** x << s and x >> s on 32-bit words. */
  function Shl(x: Limb, s: nat): Limb { (x * Pow2(s)) % 0x1_0000_0000 }

  function Shr(x: Limb, s: nat): (r: Limb) {
    ShrFits(x, s);
    x / Pow2(s)
  }

  lemma ShrFits(x: nat, s: nat)
    ensures 0 <= x / Pow2(s) <= x
  {
    var q, p := x / Pow2(s), Pow2(s);
    assert x == q * p + x % p;
    if q < 0 { MulMono(q, -1, p); }
    MulMono(1, p, if q < 0 then 0 else q);
  }

  lemma WordSplit(s: nat)
    requires s <= 32
    ensures Pow2(32 - s) * Pow2(s) == 0x1_0000_0000
  {
    Pow2Values();
    PowAdd(2, 32 - s, s);
  }

  /** The part of a word that a left shift moves out. */
  ghost function Out(x: Limb, s: nat): nat
    requires s < 32
  {
    if s == 0 then 0 else Shr(x, 32 - s)
  }

  lemma ShiftParts(x: Limb, s: nat)
    requires s < 32
    ensures Shl(x, s) + Out(x, s) * 0x1_0000_0000 == x * Pow2(s)
    ensures Shl(x, s) == (x % Pow2(32 - s)) * Pow2(s) && Out(x, s) < Pow2(s)
  {
    WordSplit(s);
    var p, t := Pow2(s), Pow2(32 - s);
    var q, r := x / t, x % t;
    assert x == q * t + r;
    assert q < p by {
      if q >= p { MulMono(p, q, t); }
    }
    assert x * p == q * (t * p) + r * p by { MulAssoc(q, t, p); }
    assert r * p < t * p by { MulMono(r + 1, t, p); }
    DivUnique(x * p, 0x1_0000_0000, q, r * p);
    if s == 0 {
      assert t == 0x1_0000_0000;
      DivUnique(x, t, 0, x);
    }
  }

  ghost predicate ShiftedLeftAt(a: seq<Limb>, s: nat, r: seq<Limb>, j: int)
    requires s < 32
  {
    0 <= j < |r| <= |a| ==> r[j] == Shl(a[j], s) + if j == 0 then 0 else Out(a[j - 1], s)
  }

  lemma {:induction false} ShiftLeftValue(a: seq<Limb>, s: nat, r: seq<Limb>, n: nat)
    requires s < 32 && n <= |r| <= |a| && forall j: int :: ShiftedLeftAt(a, s, r, j)
    ensures Val(r[..n]) + (if n == 0 then 0 else Out(a[n - 1], s)) * Modulus(n) == Val(a[..n]) * Pow2(s)
  {
    if n > 0 {
      ShiftLeftValue(a, s, r, n - 1);
      assert ShiftedLeftAt(a, s, r, n - 1);
      ValAppend(r, n - 1);
      ValAppend(a, n - 1);
      ShiftParts(a[n - 1], s);
      var c := if n == 1 then 0 else Out(a[n - 2], s);
      ShiftStep(Val(r[..n - 1]), c, Shl(a[n - 1], s), Out(a[n - 1], s), a[n - 1], Modulus(n - 1), Pow2(s), Val(a[..n - 1]));
    }
  }

  lemma ShiftStep(v: int, c: int, lo: int, hi: int, x: int, m: int, p: int, u: int)
    requires v + c * m == u * p && lo + hi * 0x1_0000_0000 == x * p
    ensures v + (lo + c) * m + hi * (0x1_0000_0000 * m) == (u + x * m) * p
  {
  }

  ghost predicate ShiftedRightAt(a: seq<Limb>, s: nat, r: seq<Limb>, j: int)
    requires s < 32
  {
    0 <= j < |r| <= |a| ==>
      r[j] == Shr(a[j], s) + if s == 0 || j + 1 == |a| then 0 else Shl(a[j + 1], 32 - s)
  }

  lemma ShiftBack(x: Limb, s: nat)
    requires s < 32
    ensures s > 0 ==> Shl(x, 32 - s) == (x % Pow2(s)) * Pow2(32 - s)
    ensures Shr(x, s) * Pow2(s) + x % Pow2(s) == x && Shr(x, s) < Pow2(32 - s)
  {
    WordSplit(s);
    if s > 0 { ShiftParts(x, 32 - s); }
    var q := Shr(x, s);
    if q >= Pow2(32 - s) { MulMono(Pow2(32 - s), q, Pow2(s)); }
  }

  lemma {:induction false} ShiftRightValue(a: seq<Limb>, s: nat, r: seq<Limb>)
    requires s < 32 && |r| == |a| > 0 && forall j: int :: ShiftedRightAt(a, s, r, j)
    ensures Val(r) * Pow2(s) + a[0] % Pow2(s) == Val(a)
  {
    assert ShiftedRightAt(a, s, r, 0);
    ShiftBack(a[0], s);
    if |a| == 1 {
      assert a == [a[0]] && r == [r[0]];
      ValOne(a[0]);
      ValOne(r[0]);
    } else {
      var a', r' := a[1..], r[1..];
      forall j: int ensures ShiftedRightAt(a', s, r', j) { assert ShiftedRightAt(a, s, r, j + 1); }
      ShiftRightValue(a', s, r');
      ShiftBack(a[1], s);
      WordSplit(s);
      var lent := if s == 0 then 0 else Shl(a[1], 32 - s);
      ShiftBackStep(Shr(a[0], s), a[0] % Pow2(s), a[1] % Pow2(s), lent, Val(r'), Pow2(s), s);
    }
  }

  /** What the next word lends comes back as its remainder. */
  lemma ShiftBackStep(q: int, rem: int, next: int, lent: int, v: int, p: int, s: nat)
    requires s < 32 && p == Pow2(s) && (s == 0 ==> lent == 0 && next == 0) && (s > 0 ==> lent == next * Pow2(32 - s))
    ensures (q + lent + 0x1_0000_0000 * v) * p + rem == (q * p + rem) + 0x1_0000_0000 * (v * p + next)
  {
    WordSplit(s);
    if s > 0 { MulAssoc(next, Pow2(32 - s), p); }
    assert (q + lent + 0x1_0000_0000 * v) * p == q * p + lent * p + 0x1_0000_0000 * v * p;
    MulAssoc(0x1_0000_0000, v, p);
  }

  // ---------------------------------------------------------------- shifts by any amount

  lemma {:induction false} OrBound(x: nat, y: nat, p: nat)
    requires x < Pow2(p) && y < Pow2(p)
    ensures BitOr(x, y) < Pow2(p)
    decreases p
  {
    if p > 0 { OrBound(x / 2, y / 2, p - 1); }
  }

  /** | on 32-bit words. */
  function Or(x: Limb, y: Limb): (r: Limb) {
    Pow2Values();
    OrBound(x, y, 32);
    BitOr(x, y)
  }

  /** The j-th limb of a << (32 k + s) after the first i limbs of a were moved. */
  ghost function LeftLimb(a: seq<Limb>, k: nat, s: nat, i: nat, j: int): int
    requires s < 32 && i <= |a|
  {
    (if 0 <= j - k < i then Shl(a[j - k], s) as int else 0) + (if 0 < j - k <= i then Out(a[j - k - 1], s) else 0)
  }

  ghost predicate LeftAt(a: seq<Limb>, k: nat, s: nat, i: nat, r: seq<Limb>, j: int)
    requires s < 32 && i <= |a|
  {
    0 <= j < |r| ==> r[j] == LeftLimb(a, k, s, i, j)
  }

  ghost predicate LeftSoFar(a: seq<Limb>, k: nat, s: nat, i: nat, r: seq<Limb>)
    requires s < 32 && i <= |a|
  {
    forall j: int :: LeftAt(a, k, s, i, r, j)
  }

  /** The two words that meet in a limb have no common bit. */
  lemma LeftMeets(a: seq<Limb>, s: nat, i: nat, r: Limb)
    requires s < 32 && i < |a| && r == if i == 0 then 0 else Out(a[i - 1], s)
    ensures Or(r, Shl(a[i], s)) == Shl(a[i], s) as int + r as int
  {
    ShiftParts(a[i], s);
    if i > 0 { ShiftParts(a[i - 1], s); }
    OrDisjoint(r, a[i] % Pow2(32 - s), s, Shl(a[i], s));
  }

  lemma OrIntoZero(x: Limb)
    ensures Or(0, x) == x
  {
    OrZero(x);
  }

  lemma ShiftAmount(k: nat, s: nat)
    ensures Pow2(32 * k + s) == Modulus(k) * Pow2(s)
  {
    ModulusIsPower(k);
    PowAdd(2, 32 * k, s);
  }

  lemma LeftArith(v: int, c: int, m: int, lo: int, hi: int, p: int, mk: int) returns (q: int)
    requires v + c * m == lo * p
    ensures mk * v + q * (mk * m) == (lo + m * hi) * (mk * p)
  {
    q := c + hi * p;
    assert (lo + m * hi) * p == v + c * m + m * hi * p by { Distribute(lo, m * hi, p); }
    assert c * m + m * hi * p == q * m by { Distribute(c, hi * p, m); }
    assert (lo + m * hi) * p == v + q * m;
    MulAssoc(lo + m * hi, mk, p);
    assert (lo + m * hi) * (mk * p) == mk * ((lo + m * hi) * p);
    Distribute(v, q * m, mk);
    assert mk * (q * m) == q * (mk * m);
  }

  lemma MultipleOf(v: int, m: int, x: int, p: int)
    requires m > 0
    ensures (v * (m * x * p)) % m == 0
  {
    var c := v * (x * p);
    assert m * x * p == x * p * m by { MulAssoc(m, x, p); }
    MulAssoc(v, x * p, m);
    DivUnique(c * m, m, c, 0);
  }

  /** Shifted out completely. */
  lemma LeftGone(v: nat, k: nat, s: nat, w: nat)
    requires w <= k
    ensures (v * Pow2(32 * k + s)) % Modulus(w) == 0
  {
    ShiftAmount(k, s);
    ModulusAdd(w, k - w);
    MultipleOf(v, Modulus(w), Modulus(k - w), Pow2(s));
  }

  lemma LeftKept(a: seq<Limb>, k: nat, s: nat, r: seq<Limb>) returns (q: int)
    requires s < 32 && |r| == |a| && k < |a| && LeftSoFar(a, k, s, |a|, r)
    ensures Val(r) + q * Modulus(|a|) == Val(a) * Pow2(32 * k + s)
  {
    var w := |a|;
    var n, r' := w - k, r[k..];
    forall j: int ensures ShiftedLeftAt(a, s, r', j) { assert LeftAt(a, k, s, w, r, j + k); }
    ShiftLeftValue(a, s, r', n);
    assert r'[..n] == r';
    forall j | 0 <= j < k ensures r[..k][j] == 0 { assert LeftAt(a, k, s, w, r, j); }
    ValZero(r[..k]);
    ValSplit(r, k);
    ValSplit(a, n);
    ModulusAdd(k, n);
    ShiftAmount(k, s);
    q := LeftArith(Val(r'), Out(a[n - 1], s), Modulus(n), Val(a[..n]), Val(a[n..]), Pow2(s), Modulus(k));
  }

  /** A left shift multiplies and drops what does not fit. */
  lemma LeftValue(a: seq<Limb>, k: nat, s: nat, r: seq<Limb>)
    requires s < 32 && |r| == |a| && LeftSoFar(a, k, s, |a|, r)
    ensures Val(r) == (Val(a) * Pow2(32 * k + s)) % Modulus(|a|)
  {
    var w := |a|;
    if w <= k {
      forall j | 0 <= j < w ensures r[j] == 0 { assert LeftAt(a, k, s, w, r, j); }
      ValZero(r);
      LeftGone(Val(a), k, s, w);
    } else {
      var q := LeftKept(a, k, s, r);
      ValBound(r);
      ModUnique(Val(r), Modulus(w), Val(a) * Pow2(32 * k + s), q);
    }
  }

  /** The j-th limb of a >> (32 k + s) after the first i limbs of a were moved. */
  ghost function RightLimb(a: seq<Limb>, k: nat, s: nat, i: nat, j: int): int
    requires s < 32 && i <= |a| && 0 <= j
  {
    (if j + k < i then Shr(a[j + k], s) as int else 0) + (if s != 0 && j + k + 1 < i then Shl(a[j + k + 1], 32 - s) else 0)
  }

  ghost predicate RightAt(a: seq<Limb>, k: nat, s: nat, i: nat, r: seq<Limb>, j: int)
    requires s < 32 && i <= |a|
  {
    0 <= j < |r| ==> r[j] == RightLimb(a, k, s, i, j)
  }

  ghost predicate RightSoFar(a: seq<Limb>, k: nat, s: nat, i: nat, r: seq<Limb>)
    requires s < 32 && i <= |a|
  {
    forall j: int :: RightAt(a, k, s, i, r, j)
  }

  lemma RightMeets(x: Limb, y: Limb, s: nat)
    requires 0 < s < 32
    ensures Or(Shr(x, s), Shl(y, 32 - s)) == Shr(x, s) as int + Shl(y, 32 - s) as int
  {
    ShiftBack(x, s);
    ShiftBack(y, s);
    OrDisjoint(Shr(x, s), y % Pow2(s), 32 - s, Shl(y, 32 - s));
  }

  lemma RightArith(v: int, low: int, mk: int, va: int, vr: int, rem: int, p: int)
    requires v == low + mk * va && vr * p + rem == va && 0 <= low < mk && 0 <= rem < p
    ensures mk * p > 0 && v / (mk * p) == vr
  {
    assert mk * va == vr * (mk * p) + mk * rem by {
      Distribute(vr * p, rem, mk);
      assert vr * p * mk == vr * (mk * p);
    }
    MulMono(rem + 1, p, mk);
    Distribute(rem, 1, mk);
    MulMono(1, p, mk);
    MulMono(0, rem, mk);
    DivUnique(v, mk * p, vr, mk * rem + low);
  }

  lemma RightAll(a: seq<Limb>, k: nat, s: nat, r: seq<Limb>)
    requires s < 32 && |r| == |a| <= k && RightSoFar(a, k, s, |a|, r)
    ensures Val(r) == 0 == Val(a) / Pow2(32 * k + s)
  {
    var w := |a|;
    forall j | 0 <= j < w ensures r[j] == 0 { assert RightAt(a, k, s, w, r, j); }
    ValZero(r);
    assert Val(a) < Pow2(32 * k + s) by {
      ValBound(a);
      ModulusIsPower(w);
      PowMono(2, 32 * w, 32 * k + s);
    }
    DivUnique(Val(a), Pow2(32 * k + s), 0, Val(a));
  }

  lemma RightSome(a: seq<Limb>, k: nat, s: nat, r: seq<Limb>)
    requires s < 32 && |r| == |a| > k && RightSoFar(a, k, s, |a|, r)
    ensures Val(r) == Val(a) / Pow2(32 * k + s)
  {
    var w, n := |a|, |a| - k;
    var a', r' := a[k..], r[..n];
    assert Val(r') * Pow2(s) + a'[0] % Pow2(s) == Val(a') by {
      forall j: int ensures ShiftedRightAt(a', s, r', j) { assert RightAt(a, k, s, w, r, j); }
      ShiftRightValue(a', s, r');
    }
    assert Val(r) == Val(r') by {
      forall j | 0 <= j < k ensures r[n..][j] == 0 { assert RightAt(a, k, s, w, r, j + n); }
      ValZero(r[n..]);
      ValSplit(r, n);
    }
    ValSplit(a, k);
    ValBound(a[..k]);
    RightArith(Val(a), Val(a[..k]), Modulus(k), Val(a'), Val(r), a'[0] % Pow2(s), Pow2(s));
    ShiftAmount(k, s);
  }

  /** A right shift divides. */
  lemma RightValue(a: seq<Limb>, k: nat, s: nat, r: seq<Limb>)
    requires s < 32 && |r| == |a| && RightSoFar(a, k, s, |a|, r)
    ensures Val(r) == Val(a) / Pow2(32 * k + s)
  {
    if |a| <= k { RightAll(a, k, s, r); } else { RightSome(a, k, s, r); }
  }

  // ---------------------------------------------------------------- single bits

  lemma TopLimb(s: seq<Limb>, pos: nat, nb: nat)
    requires pos < |s| && (forall k :: pos < k < |s| ==> s[k] == 0) && Pow2(nb) <= s[pos] < Pow2(nb + 1)
    ensures Pow2(32 * pos + nb) <= Val(s) < Pow2(32 * pos + nb + 1)
  {
    TopOnly(s, pos);
    ValBound(s[..pos]);
    ShiftAmount(pos, nb);
    ShiftAmount(pos, nb + 1);
    TopArith(Val(s[..pos]), s[pos], Modulus(pos), Pow2(nb), Pow2(nb + 1));
  }

  lemma TopOnly(s: seq<Limb>, pos: nat)
    requires pos < |s| && forall k :: pos < k < |s| ==> s[k] == 0
    ensures Val(s) == Val(s[..pos]) + s[pos] * Modulus(pos)
  {
    ValAppend(s, pos);
    ValZero(s[pos + 1..]);
    assert Modulus(pos + 1) * Val(s[pos + 1..]) == 0;
    ValSplit(s, pos + 1);
  }

  lemma TopArith(low: int, x: int, m: int, p: int, q: int)
    requires 0 <= low < m && p <= x < q
    ensures m * p <= low + x * m < m * q
  {
    MulMono(p, x, m);
    MulMono(x + 1, q, m);
    Distribute(x, 1, m);
  }

  lemma LowFactor(x: int, p: int, t: int, c: int, r: int) returns (y: nat)
    requires p > 0 && x >= 0 && x + c * p * r == t * p
    ensures x == y * p
  {
    var z := t - c * r;
    assert c * p * r == c * r * p;
    Distribute(t, c * r, p);
    if z < 0 {
      MulMono(z, -1, p);
      assert false;
    }
    y := z;
  }

  /** If the bits up to a place are zero in the number, they are zero in the limb. */
  lemma LimbLow(s: seq<Limb>, i: nat, p: nat, t: nat) returns (y: nat)
    requires i < |s| && p < 32 && Val(s) == t * Pow2(32 * i + p + 1)
    ensures s[i] == y * Pow2(p + 1)
  {
    ValSplit(s, i);
    ValBound(s[..i]);
    ShiftAmount(i, p + 1);
    SameQuotient(Val(s[..i]), Modulus(i), Val(s[i..]), t, Pow2(p + 1));
    WordSplit(p + 1);
    assert s[i..][0] == s[i];
    y := LowFactor(s[i], Pow2(p + 1), t, Pow2(32 - (p + 1)), Val(s[i..][1..]));
  }

  lemma SameQuotient(low: int, m: int, r: int, t: int, p: int)
    requires 0 <= low < m && low + m * r == t * (m * p)
    ensures r == t * p
  {
    assert t * (m * p) == t * p * m;
    DivUnique(low + m * r, m, r, low);
    DivUnique(low + m * r, m, t * p, 0);
  }

  function Bit(p: nat): Limb
    requires p < 32
  {
    Pow2Values();
    PowMono(2, p + 1, 32);
    Pow2(p)
  }

  /** Setting the next lower bit adds its weight. */
  lemma SetBitValue(s: seq<Limb>, n: nat, t: nat)
    requires n < 32 * |s| && Val(s) == t * Pow2(n + 1)
    ensures Val(s[n / 32 := Or(s[n / 32], Bit(n % 32))]) == Val(s) + Pow2(n)
  {
    var i, p := n / 32, n % 32;
    assert Or(s[i], Bit(p)) == s[i] as int + Pow2(p) by {
      var y := LimbLow(s, i, p, t);
      OrCommutes(s[i], Pow2(p));
      OrDisjoint(Pow2(p), y, p + 1, s[i]);
    }
    ValAdd(s, i, Or(s[i], Bit(p)), Pow2(p));
    ShiftAmount(i, p);
  }
}
