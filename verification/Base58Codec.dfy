/** The two conversions of src/base58.cpp, which work in place on a digit buffer. */
module Base58Codec {
  import opened Common
  import opened Powers
  import opened Base58

  /** The value of the last n places of a buffer, most significant digit first. */
  ghost function Tail(base: nat, buf: seq<nat>, n: nat): nat
    requires n <= |buf|
  {
    if n == 0 then 0 else Times(buf[|buf| - n], Pow(base, n - 1)) + Tail(base, buf, n - 1)
  }

  lemma TailNext(base: nat, buf: seq<nat>, n: nat)
    requires n < |buf|
    ensures Tail(base, buf, n + 1) == buf[|buf| - 1 - n] * Pow(base, n) + Tail(base, buf, n)
  {
    TimesIs(buf[|buf| - 1 - n], Pow(base, n));
  }

  lemma {:induction false} TailSame(base: nat, a: seq<nat>, b: seq<nat>, n: nat)
    requires n <= |a| == |b| && forall k :: |a| - n <= k < |a| ==> a[k] == b[k]
    ensures Tail(base, a, n) == Tail(base, b, n)
    decreases n
  {
    if n > 0 { TailSame(base, a, b, n - 1); }
  }

  /** Zeros in front change nothing. */
  lemma {:induction false} TailZeros(base: nat, buf: seq<nat>, length: nat, n: nat)
    requires length <= n <= |buf| && forall k :: |buf| - n <= k < |buf| - length ==> buf[k] == 0
    ensures Tail(base, buf, n) == Tail(base, buf, length)
    decreases n
  {
    if length < n { TailZeros(base, buf, length, n - 1); }
  }

  lemma {:induction false} TailIs(base: nat, buf: seq<nat>, n: nat)
    requires n <= |buf|
    ensures Tail(base, buf, n) == Value(base, buf[|buf| - n..])
    decreases n
  {
    if n > 0 {
      var k := |buf| - n;
      TailIs(base, buf, n - 1);
      TailNext(base, buf, n - 1);
      ValuePrepend(base, buf[k], buf[k + 1..]);
      assert buf[k..] == [buf[k]] + buf[k + 1..];
    }
  }

  /** The buffer holds v in its last `length` places. */
  ghost predicate Holds(buf: seq<nat>, base: nat, length: nat, v: nat) {
    && length <= |buf| && Digits(base, buf)
    && (forall i :: 0 <= i < |buf| - length ==> buf[i] == 0)
    && (length > 0 ==> buf[|buf| - length] != 0) && Tail(base, buf, length) == v
  }

  /** The last i digits are converted; the rest of the product is in the carry. */
  ghost predicate Converting(old_: seq<nat>, buf: seq<nat>, base: nat, factor: nat, ch: nat, length: nat, i: nat, carry: nat) {
    && i <= |buf| == |old_| && Digits(base, buf)
    && (forall k :: 0 <= k < |buf| - i ==> buf[k] == old_[k])
    && Tail(base, buf, i) + carry * Pow(base, i) == factor * Tail(base, old_, i) + ch
    && (i >= length && i > 0 && carry == 0 ==> buf[|buf| - i] != 0)
  }

  lemma CarryOne(v: int, c: int, p: int, u: int, ch: int, f: int, x: int, base: int, lo: int, hi: int)
    requires v + c * p == f * u + ch && c + f * x == hi * base + lo
    ensures lo * p + v + hi * (base * p) == f * (x * p + u) + ch
  {
    MulAssoc(hi, base, p);
    Distribute(hi * base, lo, p);
    Distribute(c, f * x, p);
    FactorOut(f, u, x, p);
  }

  /** The new digit and the new carry. */
  ghost predicate IsDigit(base: nat, factor: nat, carry: nat, x: nat, lo: nat, hi: nat) {
    carry + factor * x == hi * base + lo && lo < base && (hi == 0 && (carry != 0 || x != 0) ==> lo != 0)
  }

  method OneDigit(base: nat, factor: nat, carry: nat, x: nat) returns (lo: nat, hi: nat)
    requires base >= 2 && factor >= 1
    ensures IsDigit(base, factor, carry, x, lo, hi)
  {
    LastDigit(carry + factor * x, base, factor, x, carry);
    return (carry + factor * x) % base, (carry + factor * x) / base;
  }

  lemma ConvertNext(old_: seq<nat>, buf: seq<nat>, base: nat, factor: nat, ch: nat, length: nat, i: nat, carry: nat, v: nat, lo: nat, hi: nat)
    requires Holds(old_, base, length, v) && i < |buf| && (carry != 0 || i < length)
    requires Converting(old_, buf, base, factor, ch, length, i, carry)
    requires IsDigit(base, factor, carry, buf[|buf| - 1 - i], lo, hi)
    ensures Converting(old_, buf[|buf| - 1 - i := lo], base, factor, ch, length, i + 1, hi)
  {
    ConvertValue(old_, buf, base, factor, ch, i, carry, lo, hi);
  }

  lemma ConvertValue(old_: seq<nat>, buf: seq<nat>, base: nat, factor: nat, ch: nat, i: nat, carry: nat, lo: nat, hi: nat)
    requires i < |buf| == |old_| && buf[|buf| - 1 - i] == old_[|buf| - 1 - i]
    requires Tail(base, buf, i) + carry * Pow(base, i) == factor * Tail(base, old_, i) + ch
    requires carry + factor * buf[|buf| - 1 - i] == hi * base + lo
    ensures Tail(base, buf[|buf| - 1 - i := lo], i + 1) + hi * Pow(base, i + 1) == factor * Tail(base, old_, i + 1) + ch
  {
    var k := |buf| - 1 - i;
    var r := buf[k := lo];
    TailSame(base, r, buf, i);
    TailNext(base, r, i);
    TailNext(base, old_, i);
    CarryOne(Tail(base, buf, i), carry, Pow(base, i), Tail(base, old_, i), ch, factor, buf[k], base, lo, hi);
  }

  lemma FactorOut(f: int, u: int, x: int, p: int)
    ensures f * (x * p + u) == f * u + f * x * p
  {
  }

  lemma LastDigit(n: int, base: int, factor: int, x: int, carry: int)
    requires base >= 2 && factor >= 1 && x >= 0 && carry >= 0 && n == carry + factor * x
    ensures 0 <= n % base < base && n / base >= 0 && n == n / base * base + n % base
    ensures n / base == 0 && (carry != 0 || x != 0) ==> n % base != 0
  {
    MulMono(1, factor, x);
    var q := n / base;
    assert n == q * base + n % base;
    if q < 0 { MulMono(q, -1, base); }
  }

  lemma Converted(old_: seq<nat>, buf: seq<nat>, base: nat, factor: nat, ch: nat, length: nat, i: nat, carry: nat, v: nat)
    requires base >= 2 && Holds(old_, base, length, v) && Converting(old_, buf, base, factor, ch, length, i, carry)
    requires i >= length && (carry == 0 || i == |buf|) && factor * v + ch < Pow(base, |buf|)
    ensures carry == 0 && Holds(buf, base, i, factor * v + ch)
  {
    TailZeros(base, old_, length, i);
    NoCarry(Tail(base, buf, i), carry, Pow(base, i), factor * v + ch, i == |buf|);
    forall k | 0 <= k < |buf| - i ensures buf[k] == 0 { assert buf[k] == old_[k]; }
  }

  lemma NoCarry(low: nat, carry: nat, p: nat, total: nat, whole: bool)
    requires low + carry * p == total && (carry == 0 || whole) && (whole ==> total < p)
    ensures carry == 0 && low == total
  {
    if carry != 0 { MulMono(1, carry, p); }
  }

  /** One round of the inner loop. */
  method ConvertOne(buf: array<nat>, base: nat, factor: nat, ghost ch: nat, ghost length: nat, i: nat, carry: nat, ghost v: nat, ghost old_: seq<nat>)
    returns (hi: nat)
    requires base >= 2 && factor >= 1 && Holds(old_, base, length, v) && i < buf.Length && (carry != 0 || i < length)
    requires Converting(old_, buf[..], base, factor, ch, length, i, carry)
    modifies buf
    ensures Converting(old_, buf[..], base, factor, ch, length, i + 1, hi)
  {
    ghost var s := buf[..];
    var k := buf.Length - 1 - i;
    var lo;
    lo, hi := OneDigit(base, factor, carry, buf[k]);
    ConvertNext(old_, s, base, factor, ch, length, i, carry, v, lo, hi);
    buf[k] := lo;
    assert buf[..] == s[k := lo];
  }

  /** The inner loop of both directions: buf := buf * factor + ch.  The carry is used up
      before the buffer is, so the assertion behind the loop cannot fail. */
  method MultiplyAdd(buf: array<nat>, base: nat, factor: nat, ch: nat, length: nat, ghost v: nat) returns (i: nat)
    requires base >= 2 && factor >= 1 && Holds(buf[..], base, length, v) && factor * v + ch < Pow(base, buf.Length)
    modifies buf
    ensures Holds(buf[..], base, i, factor * v + ch) && i >= length
  {
    ghost var old_ := buf[..];
    var carry: nat := ch;
    i := 0;
    while (carry != 0 || i < length) && i < buf.Length
      invariant Converting(old_, buf[..], base, factor, ch, length, i, carry)
      decreases buf.Length - i
    {
      carry := ConvertOne(buf, base, factor, ch, length, i, carry, v, old_);
      i := i + 1;
    }
    Converted(old_, buf[..], base, factor, ch, length, i, carry, v);
    assert carry == 0;
  }

  lemma FreshBuffer(buf: seq<nat>, base: nat)
    requires base > 0 && forall i :: 0 <= i < |buf| ==> buf[i] == 0
    ensures Holds(buf, base, 0, 0)
  {
  }

  /** What is held is the numeral of its value. */
  lemma HeldNumeral(buf: seq<nat>, base: nat, length: nat, v: nat)
    requires base >= 2 && Holds(buf, base, length, v)
    ensures buf[|buf| - length..] == Numeral(base, v)
  {
    TailIs(base, buf, length);
    NumeralUnique(base, buf[|buf| - length..]);
  }

  /** The value of the next prefix. */
  lemma PrefixNext(base: nat, x: seq<nat>, k: nat)
    requires k < |x|
    ensures Value(base, x[..k + 1]) == base * Value(base, x[..k]) + x[k]
  {
    assert x[..k + 1][..k] == x[..k];
    ValueLast(base, x[..k + 1]);
  }

  /** A prefix of digits fits a buffer sized for all of them. */
  lemma PrefixFits(from: nat, to: nat, x: seq<nat>, k: nat, n: nat, size: nat)
    requires from > 0 && Digits(from, x) && k <= |x| <= n && Pow(from, n) <= Pow(to, size)
    ensures Value(from, x[..k]) < Pow(to, size)
  {
    ValueBound(from, x[..k]);
    PowMono(from, k, n);
  }

  /** The digits of a number given by its bytes. */
  method ToBase58(rest: seq<nat>) returns (digits: seq<nat>)
    requires Digits(256, rest)
    ensures digits == Numeral(58, Value(256, rest))
  {
    var size := |rest| * 138 / 100 + 1;
    EncodeRoom(|rest|);
    var b58 := new nat[size](i => 0);
    FreshBuffer(b58[..], 58);
    var length: nat := 0;
    for k := 0 to |rest|
      invariant Holds(b58[..], 58, length, Value(256, rest[..k]))
    {
      PrefixNext(256, rest, k);
      PrefixFits(256, 58, rest, k + 1, |rest|, size);
      length := MultiplyAdd(b58, 58, 256, rest[k], length, Value(256, rest[..k]));
    }
    assert rest[..|rest|] == rest;
    HeldNumeral(b58[..], 58, length, Value(256, rest));
    digits := SkipZeros(b58[..][size - length..]);
  }

  /** Skip leading zeros in the result. */
  method SkipZeros(b58: seq<nat>) returns (digits: seq<nat>)
    ensures digits == b58[LeadingZeros(b58)..]
  {
    var it := 0;
    while it < |b58| && b58[it] == 0
      invariant it <= LeadingZeros(b58)
    {
      it := it + 1;
    }
    digits := b58[it..];
  }

  method EncodeBase58(x: seq<nat>) returns (str: string)
    requires Digits(256, x)
    ensures str == Encoded(x)
  {
    var zeroes := 0;
    while zeroes < |x| && x[zeroes] == 0
      invariant zeroes <= LeadingZeros(x)
    {
      zeroes := zeroes + 1;
    }
    var rest := x[zeroes..];
    assert x == Zeros(zeroes) + rest;
    ValueZeros(256, zeroes, rest);
    var digits := ToBase58(rest);
    NumeralExact(58, Value(256, rest));
    str := Translate(Zeros(zeroes) + digits);
  }

  method Translate(ds: seq<nat>) returns (str: string)
    requires Digits(58, ds)
    ensures str == Chars(ds)
  {
    str := "";
    for i := 0 to |ds|
      invariant |str| == i && forall j :: 0 <= j < i ==> str[j] == CharOf(ds[j])
    {
      str := str + [CharOf(ds[i])];
    }
  }

  // ---------------------------------------------------------------- decoding

  lemma {:induction false} SkipBodyFrom(s: string, a: nat, i: nat)
    requires a <= i <= |s| && forall k :: a <= k < i ==> !IsSpace(s[k])
    ensures SkipBody(s, a) == SkipBody(s, i)
    decreases i - a
  {
    if a < i { SkipBodyFrom(s, a + 1, i); }
  }

  lemma {:induction false} ValueGrows(base: nat, x: seq<nat>, k: nat)
    requires base >= 1 && k <= |x|
    ensures Value(base, x[..k]) <= Value(base, x)
    decreases |x|
  {
    if k == |x| {
      assert x[..k] == x;
    } else {
      ValueGrows(base, x[..|x| - 1], k);
      assert x[..|x| - 1][..k] == x[..k];
      ValueLast(base, x);
      MulMono(1, base, Value(base, x[..|x| - 1]));
    }
  }

  lemma {:induction false} DigitsOfPart(s: string, a: nat, i: nat, e: nat)
    requires a <= i <= e <= |s| && AllDigits(s, a, e)
    ensures DigitsOf(s, a, e) == DigitsOf(s, a, i) + DigitsOf(s, i, e)
    decreases e
  {
    if i < e { DigitsOfPart(s, a, i, e - 1); }
  }

  /** The string after its leading spaces and ones. */
  ghost predicate AfterOnes(s: string, i: nat, zeroes: nat) {
    && i <= |s| && zeroes <= i && SkipSpaces(s, 0) == i - zeroes
    && (forall k :: i - zeroes <= k < i ==> s[k] == '1') && (i < |s| ==> s[i] != '1')
  }

  /** What the bytes are, from the ones and the digits after them. */
  lemma BytesAfterOnes(s: string, i: nat, zeroes: nat, e: nat)
    requires AfterOnes(s, i, zeroes) && i <= e <= |s| && AllDigits(s, i - zeroes, e)
    ensures BytesOf(DigitsOf(s, i - zeroes, e)) == Zeros(zeroes) + Numeral(256, Value(58, DigitsOf(s, i, e)))
  {
    var ds := DigitsOf(s, i, e);
    assert DigitsOf(s, i - zeroes, e) == Zeros(zeroes) + ds by {
      DigitsOfPart(s, i - zeroes, i, e);
      OnesAreZeros(s, i - zeroes, i);
    }
    assert NoLead(ds) by {
      if i < e {
        DigitAt(s, i, e, 0);
        OnlyOneIsZero(s[i]);
      }
    }
    BytesOfZeros(zeroes, ds);
  }

  lemma BytesOfZeros(z: nat, ds: seq<nat>)
    requires NoLead(ds)
    ensures BytesOf(Zeros(z) + ds) == Zeros(z) + Numeral(256, Value(58, ds))
  {
    LeadingZerosOf(z, ds);
    ValueZeros(58, z, ds);
  }

  lemma {:induction false} OnesAreZeros(s: string, a: nat, i: nat)
    requires a <= i <= |s| && forall k :: a <= k < i ==> s[k] == '1'
    ensures AllDigits(s, a, i) && DigitsOf(s, a, i) == Zeros(i - a)
    decreases i
  {
    if a < i { OnesAreZeros(s, a, i - 1); }
  }

  lemma OnlyOneIsZero(c: char)
    ensures DigitOf(c) == 0 <==> c == '1'
  {
  }

  lemma OnesAreBody(s: string, a: nat, i: nat)
    requires a <= i <= |s| && forall k :: a <= k < i ==> s[k] == '1'
    ensures SkipBody(s, a) == SkipBody(s, i)
  {
    SkipBodyFrom(s, a, i);
  }

  /** Too many ones alone make the result too long. */
  lemma TooManyOnes(s: string, a: nat, i: nat, max: int)
    requires a == SkipSpaces(s, 0) && a < i <= |s| && i - a > max && forall k :: a <= k < i ==> s[k] == '1'
    ensures Decoded(s, max) == None
  {
    var e := SkipBody(s, a);
    OnesAreBody(s, a, i);
    if AllDigits(s, a, e) { OnesLead(s, a, i, e); }
  }

  lemma OnesLead(s: string, a: nat, i: nat, e: nat)
    requires a <= i <= e <= |s| && AllDigits(s, a, e) && forall k :: a <= k < i ==> s[k] == '1'
    ensures LeadingZeros(DigitsOf(s, a, e)) >= i - a
  {
    var ds := DigitsOf(s, a, e);
    forall k | 0 <= k < i - a ensures ds[k] == 0 { DigitAt(s, a, e, k); }
  }

  // The digits as they are read, one at a time.

  ghost predicate ReadSoFar(buffer: seq<nat>, s: string, i0: nat, i: nat, length: nat) {
    i0 <= i <= |s| && AllDigits(s, i0, i) && Holds(buffer, 256, length, Value(58, DigitsOf(s, i0, i)))
  }

  lemma ReadNone(buffer: seq<nat>, s: string, i0: nat)
    requires i0 <= |s| && Holds(buffer, 256, 0, 0)
    ensures ReadSoFar(buffer, s, i0, i0, 0)
  {
  }

  /** What is held is what the digits read so far mean. */
  lemma HeldBytes(buffer: seq<nat>, s: string, i0: nat, i: nat, length: nat)
    requires ReadSoFar(buffer, s, i0, i, length)
    ensures buffer[|buffer| - length..] == Numeral(256, Value(58, DigitsOf(s, i0, i)))
    ensures length == |Numeral(256, Value(58, DigitsOf(s, i0, i)))|
  {
    HeldNumeral(buffer, 256, length, Value(58, DigitsOf(s, i0, i)));
  }

  lemma ReadNext(s: string, i0: nat, i: nat, v: nat)
    requires i0 <= i < |s| && DigitOf(s[i]) != -1 && AllDigits(s, i0, i) && v == Value(58, DigitsOf(s, i0, i))
    ensures AllDigits(s, i0, i + 1) && Value(58, DigitsOf(s, i0, i + 1)) == 58 * v + DigitOf(s[i])
  {
    var ds := DigitsOf(s, i0, i);
    ValueAppend(58, ds, DigitOf(s[i]));
    assert DigitsOf(s, i0, i + 1) == ds + [DigitOf(s[i])];
  }

  /** So does a prefix of the digits whose numeral is too long. */
  lemma TooManyDigits(buffer: seq<nat>, s: string, i0: nat, zeroes: nat, i: nat, length: nat, max: int)
    requires AfterOnes(s, i0, zeroes) && i0 < i <= SkipBody(s, i0 - zeroes)
    requires ReadSoFar(buffer, s, i0, i, length) && length + zeroes > max
    ensures Decoded(s, max) == None
  {
    HeldBytes(buffer, s, i0, i, length);
    PrefixTooLong(s, i0, zeroes, i, max);
  }

  lemma PrefixTooLong(s: string, i0: nat, zeroes: nat, i: nat, max: int)
    requires AfterOnes(s, i0, zeroes) && i0 < i <= SkipBody(s, i0 - zeroes) && AllDigits(s, i0, i)
    requires |Numeral(256, Value(58, DigitsOf(s, i0, i)))| + zeroes > max
    ensures Decoded(s, max) == None
  {
    var e := SkipBody(s, i0 - zeroes);
    if AllDigits(s, i0 - zeroes, e) {
      BytesAfterOnes(s, i0, zeroes, e);
      LongerPrefix(s, i0, i, e);
    }
  }

  lemma LongerPrefix(s: string, i0: nat, i: nat, e: nat)
    requires i0 <= i <= e <= |s| && AllDigits(s, i0, e)
    ensures |Numeral(256, Value(58, DigitsOf(s, i0, i)))| <= |Numeral(256, Value(58, DigitsOf(s, i0, e)))|
  {
    var ds, n := DigitsOf(s, i0, e), i - i0;
    assert DigitsOf(s, i0, i) == ds[..n] by { DigitsOfPart(s, i0, i, e); }
    ValueGrows(58, ds, n);
    NumeralLonger(256, Value(58, ds[..n]), Value(58, ds));
  }

  lemma BadDigit(s: string, i: nat, max: int)
    requires SkipSpaces(s, 0) <= i < SkipBody(s, SkipSpaces(s, 0)) && DigitOf(s[i]) == -1
    ensures Decoded(s, max) == None
  {
    var a := SkipSpaces(s, 0);
    assert !AllDigits(s, a, SkipBody(s, a));
  }

  /** Why the digits are refused. */
  ghost predicate Refused(s: string, i0: nat, zeroes: nat, max: int, i: nat, length: nat)
    requires i0 <= |s|
  {
    (i < SkipBody(s, i0) && DigitOf(s[i]) == -1) || (i0 < i && length + zeroes > max)
  }

  lemma RefusedAll(buffer: seq<nat>, s: string, i0: nat, zeroes: nat, i: nat, length: nat, max: int)
    requires AfterOnes(s, i0, zeroes) && i <= SkipBody(s, i0) == SkipBody(s, i0 - zeroes)
    requires ReadSoFar(buffer, s, i0, i, length) && Refused(s, i0, zeroes, max, i, length)
    ensures Decoded(s, max) == None
  {
    if i < SkipBody(s, i0) && DigitOf(s[i]) == -1 {
      BadDigit(s, i, max);
    } else {
      TooManyDigits(buffer, s, i0, zeroes, i, length, max);
    }
  }

  method DecodeBase58(s: string, max: int) returns (r: Option<seq<nat>>)
    ensures r == Decoded(s, max)
  {
    var i := SkipWhite(s, 0);
    ghost var a := i;
    var zeroes := 0;
    while i < |s| && s[i] == '1'
      invariant a <= i <= |s| && zeroes == i - a && (zeroes > 0 ==> zeroes <= max)
      invariant forall k :: a <= k < i ==> s[k] == '1'
    {
      zeroes := zeroes + 1;
      if zeroes > max {
        TooManyOnes(s, a, i + 1, max);
        return None;
      }
      i := i + 1;
    }
    r := DecodeDigits(s, i, zeroes, max);
  }

  method SkipWhite(s: string, from: nat) returns (i: nat)
    requires from <= |s|
    ensures i == SkipSpaces(s, from)
  {
    i := from;
    while i < |s| && IsSpace(s[i])
      invariant from <= i <= |s| && SkipSpaces(s, i) == SkipSpaces(s, from)
    {
      i := i + 1;
    }
  }

  /** The rest of the decoder, once the leading ones are counted. */
  method DecodeDigits(s: string, i0: nat, zeroes: nat, max: int) returns (r: Option<seq<nat>>)
    requires AfterOnes(s, i0, zeroes) && (zeroes > 0 ==> zeroes <= max)
    ensures r == Decoded(s, max)
  {
    var i, bytes := ConvertBody(s, i0, zeroes, max);
    if bytes == None { return None; }
    var end := SkipWhite(s, i);
    if end < |s| { return None; }
    assert AllDigits(s, i0 - zeroes, i) by { OnesAreZeros(s, i0 - zeroes, i0); }
    BytesAfterOnes(s, i0, zeroes, i);
    r := Some(Zeros(zeroes) + bytes.value);
  }

  /** Convert the digits up to the first space; `None` is a failure of the whole decoding. */
  method ConvertBody(s: string, i0: nat, zeroes: nat, max: int) returns (i: nat, bytes: Option<seq<nat>>)
    requires AfterOnes(s, i0, zeroes)
    ensures bytes == None ==> Decoded(s, max) == None
    ensures bytes.Some? ==> i0 <= i == SkipBody(s, i0 - zeroes) && AllDigits(s, i0, i)
    ensures bytes.Some? ==> bytes.value == Numeral(256, Value(58, DigitsOf(s, i0, i)))
    ensures bytes.Some? && i0 < i ==> |bytes.value| + zeroes <= max
  {
    assert SkipBody(s, i0 - zeroes) == SkipBody(s, i0) by { OnesAreBody(s, i0 - zeroes, i0); }
    var b256 := NewBuffer(|s| - i0);
    var length, ok;
    i, length, ok := ReadDigits(b256, s, i0, zeroes, max);
    if !ok {
      RefusedAll(b256[..], s, i0, zeroes, i, length, max);
      return i, None;
    }
    HeldBytes(b256[..], s, i0, i, length);
    bytes := Some(b256[..][b256.Length - length..]);
  }

  /** Room for the bytes of n digits. */
  method NewBuffer(n: nat) returns (b256: array<nat>)
    ensures fresh(b256) && Holds(b256[..], 256, 0, 0) && Pow(58, n) <= Pow(256, b256.Length)
  {
    var size := n * 733 / 1000 + 1;
    DecodeRoom(n);
    b256 := new nat[size](i => 0);
    FreshBuffer(b256[..], 256);
  }

  method ReadDigits(b256: array<nat>, s: string, i0: nat, zeroes: nat, max: int) returns (i: nat, length: nat, ok: bool)
    requires i0 <= |s| && Holds(b256[..], 256, 0, 0) && Pow(58, |s| - i0) <= Pow(256, b256.Length)
    modifies b256
    ensures i <= SkipBody(s, i0) && ReadSoFar(b256[..], s, i0, i, length)
    ensures ok ==> i == SkipBody(s, i0) && (i0 < i ==> length + zeroes <= max)
    ensures !ok ==> Refused(s, i0, zeroes, max, i, length)
  {
    i, length, ok := i0, 0, true;
    ReadNone(b256[..], s, i0);
    while i < |s| && !IsSpace(s[i])
      invariant ReadSoFar(b256[..], s, i0, i, length) && SkipBody(s, i) == SkipBody(s, i0)
      invariant i > i0 ==> length + zeroes <= max
    {
      if DigitOf(s[i]) == -1 {
        return i, length, false;
      }
      length := NextDigit(b256, length, s, i0, i);
      i := i + 1;
      if length + zeroes > max {
        return i, length, false;
      }
    }
  }

  lemma ReadFits(s: string, i0: nat, i: nat, size: nat)
    requires i0 <= i <= |s| && AllDigits(s, i0, i) && Pow(58, |s| - i0) <= Pow(256, size)
    ensures Value(58, DigitsOf(s, i0, i)) < Pow(256, size)
  {
    DigitsBelow(s, i0, i);
    ValueBound(58, DigitsOf(s, i0, i));
    PowMono(58, i - i0, |s| - i0);
  }

  /** Take in one more digit. */
  method NextDigit(b256: array<nat>, length0: nat, s: string, ghost i0: nat, i: nat) returns (length: nat)
    requires ReadSoFar(b256[..], s, i0, i, length0) && i < |s| && DigitOf(s[i]) != -1
    requires Pow(58, |s| - i0) <= Pow(256, b256.Length)
    modifies b256
    ensures ReadSoFar(b256[..], s, i0, i + 1, length)
  {
    ghost var v := Value(58, DigitsOf(s, i0, i));
    ReadNext(s, i0, i, v);
    ReadFits(s, i0, i + 1, b256.Length);
    length := MultiplyAdd(b256, 256, 58, DigitOf(s[i]), length0, v);
  }
}
