/** Base58 (src/base58.cpp): numbers in base 256 and base 58, and strings of digits. */
module Base58 {
  import opened Common
  import opened Powers

  // ---------------------------------------------------------------- digits, most significant first

  // Products and quotients by repeated addition and subtraction; TimesIs and DivideIs
  // open them where their arithmetic matters.

  function Times(a: nat, b: nat): nat { if a == 0 then 0 else Times(a - 1, b) + b }

  lemma {:induction false} TimesIs(a: nat, b: nat)
    ensures Times(a, b) == a * b
  {
    if a > 0 {
      TimesIs(a - 1, b);
      Distribute(a - 1, 1, b);
    }
  }

  function Quotient(v: nat, b: nat): (q: nat)
    requires b > 0
    ensures q <= v
    decreases v
  {
    if v < b then 0 else 1 + Quotient(v - b, b)
  }

  function Remainder(v: nat, b: nat): (r: nat)
    requires b > 0
    ensures r < b
    decreases v
  {
    if v < b then v else Remainder(v - b, b)
  }

  lemma {:induction false} DivideIs(v: nat, b: nat)
    requires b > 0
    ensures v == Quotient(v, b) * b + Remainder(v, b)
    decreases v
  {
    if v >= b {
      DivideIs(v - b, b);
      Distribute(Quotient(v - b, b), 1, b);
    }
  }

  ghost function Value(base: nat, s: seq<nat>): nat {
    if s == [] then 0 else Times(Value(base, s[..|s| - 1]), base) + s[|s| - 1]
  }

  lemma ValueLast(base: nat, s: seq<nat>)
    requires s != []
    ensures Value(base, s) == Value(base, s[..|s| - 1]) * base + s[|s| - 1]
  {
    TimesIs(Value(base, s[..|s| - 1]), base);
  }

  ghost predicate Digits(base: nat, s: seq<nat>) { forall i :: 0 <= i < |s| ==> s[i] < base }

  ghost predicate NoLead(s: seq<nat>) { |s| > 0 ==> s[0] != 0 }

  /** The digits of a number, without leading zeros. */
  ghost function Numeral(base: nat, v: nat): (s: seq<nat>)
    requires base >= 2
    decreases v
  {
    if v == 0 then []
    else
      Shrinks(base, v);
      Numeral(base, Quotient(v, base)) + [Remainder(v, base)]
  }

  lemma Shrinks(base: nat, v: nat)
    requires base >= 2 && v > 0
    ensures Quotient(v, base) < v
  {
  }

  lemma {:induction false} NumeralExact(base: nat, v: nat)
    requires base >= 2
    ensures IsNumeral(base, v, Numeral(base, v))
    decreases v
  {
    if v > 0 {
      Shrinks(base, v);
      var q, d := Quotient(v, base), Remainder(v, base);
      DivideIs(v, base);
      NumeralExact(base, q);
      NumeralStep(base, v, q, d, Numeral(base, q));
    }
  }

  ghost predicate IsNumeral(base: nat, v: nat, s: seq<nat>) {
    Value(base, s) == v && Digits(base, s) && NoLead(s)
  }

  lemma NumeralStep(base: nat, v: nat, q: nat, d: nat, s: seq<nat>)
    requires v > 0 && v == q * base + d && d < base && IsNumeral(base, q, s)
    ensures IsNumeral(base, v, s + [d])
  {
    ValueAppend(base, s, d);
    if s == [] { assert q == 0 && (s + [d])[0] == d; } else { assert (s + [d])[0] == s[0]; }
  }

  /** Larger numbers have no shorter numerals. */
  lemma {:induction false} NumeralLonger(base: nat, u: nat, v: nat)
    requires base >= 2 && u <= v
    ensures |Numeral(base, u)| <= |Numeral(base, v)|
    decreases v
  {
    if u > 0 {
      Shrinks(base, u);
      Shrinks(base, v);
      QuotientMonotone(base, u, v);
      NumeralLonger(base, Quotient(u, base), Quotient(v, base));
    }
  }

  lemma QuotientMonotone(base: nat, u: nat, v: nat)
    requires base >= 2 && u <= v
    ensures Quotient(u, base) <= Quotient(v, base)
  {
    var p, q := Quotient(u, base), Quotient(v, base);
    DivideIs(u, base);
    DivideIs(v, base);
    if p > q {
      MulMono(q + 1, p, base);
      Distribute(q, 1, base);
    }
  }

  lemma ValueAppend(base: nat, s: seq<nat>, d: nat)
    ensures Value(base, s + [d]) == Value(base, s) * base + d
  {
    assert (s + [d])[..|s|] == s;
    ValueLast(base, s + [d]);
  }

  lemma {:induction false} ValuePositive(base: nat, s: seq<nat>)
    requires base >= 2 && s != [] && NoLead(s)
    ensures Value(base, s) > 0
  {
    if |s| > 1 {
      ValuePositive(base, s[..|s| - 1]);
      ValueLast(base, s);
      MulMono(1, Value(base, s[..|s| - 1]), base);
    }
  }

  /** A number has only one numeral. */
  lemma {:induction false} NumeralUnique(base: nat, s: seq<nat>)
    requires base >= 2 && Digits(base, s) && NoLead(s)
    ensures Numeral(base, Value(base, s)) == s
  {
    if s != [] {
      var t, d := s[..|s| - 1], s[|s| - 1];
      var u, v := Value(base, t), Value(base, s);
      NumeralUnique(base, t);
      assert v > 0 by { ValuePositive(base, s); }
      assert Quotient(v, base) == u && Remainder(v, base) == d by {
        ValueLast(base, s);
        QuotientUnique(v, base, u, d);
      }
      assert s == t + [d];
    }
  }

  lemma QuotientUnique(v: nat, b: nat, q: nat, r: nat)
    requires b > 0 && v == q * b + r && r < b
    ensures Quotient(v, b) == q && Remainder(v, b) == r
  {
    DivideIs(v, b);
    DivUnique(v, b, q, r);
    DivUnique(v, b, Quotient(v, b), Remainder(v, b));
  }

  lemma {:induction false} ValuePrepend(base: nat, d: nat, s: seq<nat>)
    ensures Value(base, [d] + s) == d * Pow(base, |s|) + Value(base, s)
  {
    var t := [d] + s;
    if s == [] {
      assert t[..0] == [];
      ValueLast(base, t);
    } else {
      var s', x := s[..|s| - 1], s[|s| - 1];
      ValuePrepend(base, d, s');
      assert t[..|t| - 1] == [d] + s';
      ValueLast(base, t);
      ValueLast(base, s);
      PrependArith(base, d, Pow(base, |s'|), Value(base, s'));
    }
  }

  lemma PrependArith(base: int, d: int, p: int, v: int)
    ensures (d * p + v) * base == d * (base * p) + v * base
  {
  }

  lemma {:induction false} ValueBound(base: nat, s: seq<nat>)
    requires base > 0 && Digits(base, s)
    ensures Value(base, s) < Pow(base, |s|)
  {
    if s != [] {
      var t := s[..|s| - 1];
      ValueBound(base, t);
      ValueLast(base, s);
      MulMono(Value(base, t) + 1, Pow(base, |t|), base);
      Distribute(Value(base, t), 1, base);
    }
  }

  function Zeros(z: nat): (s: seq<nat>)
    ensures |s| == z && forall i :: 0 <= i < z ==> s[i] == 0
  {
    seq(z, i => 0)
  }

  lemma {:induction false} ValueZeros(base: nat, z: nat, s: seq<nat>)
    ensures Value(base, Zeros(z) + s) == Value(base, s)
    decreases z
  {
    if z == 0 {
      assert Zeros(0) + s == s;
    } else {
      var rest := Zeros(z - 1) + s;
      ValueZeros(base, z - 1, s);
      ValuePrepend(base, 0, rest);
      assert Zeros(z) + s == [0] + rest;
    }
  }

  // ---------------------------------------------------------------- buffer sizes

  lemma Powers58()
    ensures Pow(58, 1) == 58 && Pow(58, 2) == 3364 && Pow(58, 3) == 195112 && Pow(58, 4) == 11316496 && Pow(58, 5) == 656356768
    ensures Pow(58, 6) == 38068692544 && Pow(58, 7) == 2207984167552 && Pow(58, 8) == 128063081718016
    ensures Pow(58, 9) == 7427658739644928 && Pow(58, 10) == 430804206899405824 && Pow(58, 11) == 24986644000165537792
    ensures Pow(58, 12) == 1449225352009601191936 && Pow(58, 13) == 84055070416556869132288
    ensures Pow(58, 14) == 4875194084160298409672704 && Pow(58, 15) == 282761256881297307761016832
  {
  }

  lemma Powers256()
    ensures Pow(256, 0) == 1 && Pow(256, 1) == 256 && Pow(256, 2) == 65536 && Pow(256, 3) == 16777216 && Pow(256, 4) == 4294967296
    ensures Pow(256, 5) == 1099511627776 && Pow(256, 6) == 281474976710656 && Pow(256, 7) == 72057594037927936 && Pow(256, 8) == 18446744073709551616
    ensures Pow(256, 9) == 4722366482869645213696 && Pow(256, 10) == 1208925819614629174706176 && Pow(256, 11) == 309485009821345068724781056
  {
  }

  /** One step of a product estimate. */
  lemma Estimate(a: nat, b: nat, x: nat, y: nat, q: nat, c: nat, d: nat)
    requires Pow(a, x) <= Pow(b, y) && Pow(a, c) <= Pow(b, d)
    ensures Pow(a, x * q + c) <= Pow(b, y * q + d)
  {
    EstimatePower(a, b, x, y, q);
    PowAdd(a, x * q, c);
    PowAdd(b, y * q, d);
    MulBoth(Pow(a, x * q), Pow(b, y * q), Pow(a, c), Pow(b, d));
  }

  lemma EstimatePower(a: nat, b: nat, x: nat, y: nat, q: nat)
    requires Pow(a, x) <= Pow(b, y)
    ensures Pow(a, x * q) <= Pow(b, y * q)
  {
    PowMul(a, x, q);
    PowMul(b, y, q);
    PowBaseMono(Pow(a, x), Pow(b, y), q);
  }

  lemma MulBoth(a: nat, b: nat, c: nat, d: nat)
    requires a <= b && c <= d
    ensures a * c <= b * d
  {
  }

  lemma PowProduct(b: nat, m: nat, n: nat, u: nat, v: nat)
    requires Pow(b, m) == u && Pow(b, n) == v
    ensures Pow(b, m + n) == u * v
  {
    PowAdd(b, m, n);
  }

  lemma FewEncoded(r: nat)
    requires r < 8
    ensures Pow(256, r) <= Pow(58, r * 138 / 100 + 1)
  {
    Powers58();
    Powers256();
  }

  lemma EncodeExponent(q: nat, r: nat)
    ensures 11 * q + (r * 138 / 100 + 1) <= (8 * q + r) * 138 / 100 + 1
  {
  }

  /** 256^8 < 58^11. */
  lemma LongEncoded(q: nat)
    ensures Pow(256, 8 * q) <= Pow(58, 11 * q)
  {
    Powers58();
    Powers256();
    EstimatePower(256, 58, 8, 11, q);
  }

  /** 138/100 is enough. */
  lemma EncodeRoom(n: nat)
    ensures Pow(256, n) <= Pow(58, n * 138 / 100 + 1)
  {
    var q, r := n / 8, n % 8;
    var d := r * 138 / 100 + 1;
    LongEncoded(q);
    FewEncoded(r);
    PowAdd(256, 8 * q, r);
    PowAdd(58, 11 * q, d);
    MulBoth(Pow(256, 8 * q), Pow(58, 11 * q), Pow(256, r), Pow(58, d));
    EncodeExponent(q, r);
    PowMono(58, 11 * q + d, n * 138 / 100 + 1);
  }

  /** 58^71 < 256^52. */
  lemma LongEstimate()
    ensures Pow(58, 71) <= Pow(256, 52)
  {
    Powers58();
    Powers256();
    PowProduct(58, 15, 15, 282761256881297307761016832, 282761256881297307761016832);
    PowProduct(58, 5, 30, 656356768, 79953928393091004080532279173738402825689466587316224);
    PowProduct(58, 35, 35, 52478302028992644968172978478148648556151605660894866578604032, 52478302028992644968172978478148648556151605660894866578604032);
    PowProduct(58, 1, 70, 58, 2753972183846173557677697367882096287875343187903622050228328096163920642997351817085906260982478782493544726182049846657024);
    PowProduct(256, 8, 8, 18446744073709551616, 18446744073709551616);
    PowProduct(256, 10, 16, 1208925819614629174706176, 340282366920938463463374607431768211456);
    PowProduct(256, 26, 26, 411376139330301510538742295639337626245683966408394965837152256, 411376139330301510538742295639337626245683966408394965837152256);
  }

  /** How many bytes hold so many base-58 digits, for few digits. */
  function FewBytes(s: nat): nat {
    if s <= 3 then s else if s <= 7 then s - 1 else if s <= 11 then s - 2 else s - 3
  }

  lemma FewDigits(s: nat)
    requires s < 15
    ensures Pow(58, s) <= Pow(256, FewBytes(s))
  {
    Powers58();
    Powers256();
    assert Pow(58, 0) == 1;
  }

  lemma ShortEstimate(r: nat)
    requires r < 71
    ensures Pow(58, r) <= Pow(256, r * 733 / 1000 + 1)
  {
    var p, s := r / 15, r % 15;
    Powers58();
    Powers256();
    FewDigits(s);
    Estimate(58, 256, 15, 11, p, s, FewBytes(s));
    PowMono(256, 11 * p + FewBytes(s), r * 733 / 1000 + 1);
  }

  /** 733/1000 is enough. */
  lemma DecodeRoom(n: nat)
    ensures Pow(58, n) <= Pow(256, n * 733 / 1000 + 1)
  {
    var q, r := n / 71, n % 71;
    LongPart(q);
    ShortEstimate(r);
    PowAdd(58, 71 * q, r);
    PowAdd(256, 52 * q, r * 733 / 1000 + 1);
    MulBoth(Pow(58, 71 * q), Pow(256, 52 * q), Pow(58, r), Pow(256, r * 733 / 1000 + 1));
    DecodeExponent(q, r);
    PowMono(256, 52 * q + (r * 733 / 1000 + 1), n * 733 / 1000 + 1);
  }

  lemma LongPart(q: nat)
    ensures Pow(58, 71 * q) <= Pow(256, 52 * q)
  {
    LongEstimate();
    EstimatePower(58, 256, 71, 52, q);
  }

  lemma DecodeExponent(q: nat, r: nat)
    ensures 52 * q + (r * 733 / 1000 + 1) <= (71 * q + r) * 733 / 1000 + 1
  {
  }

  // ---------------------------------------------------------------- characters

  /** The alphabet: all alphanumeric characters but 0, I, O and l. */
  function CharOf(d: nat): char
    requires d < 58
  {
    if d < 9 then ('1' as int + d) as char
    else if d < 17 then ('A' as int + d - 9) as char
    else if d < 22 then ('J' as int + d - 17) as char
    else if d < 33 then ('P' as int + d - 22) as char
    else if d < 44 then ('a' as int + d - 33) as char
    else ('m' as int + d - 44) as char
  }

  /** The decoding table; -1 for characters outside the alphabet. */
  function DigitOf(c: char): (d: int)
    ensures -1 <= d < 58
  {
    if '1' <= c <= '9' then c as int - '1' as int
    else if 'A' <= c <= 'H' then c as int - 'A' as int + 9
    else if 'J' <= c <= 'N' then c as int - 'J' as int + 17
    else if 'P' <= c <= 'Z' then c as int - 'P' as int + 22
    else if 'a' <= c <= 'k' then c as int - 'a' as int + 33
    else if 'm' <= c <= 'z' then c as int - 'm' as int + 44
    else -1
  }

  predicate IsSpace(c: char) {
    c == ' ' || c == '\U{0C}' || c == '\n' || c == '\r' || c == '\t' || c == '\U{0B}'
  }

  /** The alphabet and the table are inverse to each other. */
  lemma AlphabetInverse(d: nat, c: char)
    ensures d < 58 ==> DigitOf(CharOf(d)) == d && !IsSpace(CharOf(d))
    ensures DigitOf(c) != -1 ==> CharOf(DigitOf(c)) == c && !IsSpace(c)
  {
  }

  ghost function Chars(ds: seq<nat>): (s: string)
    requires Digits(58, ds)
    ensures |s| == |ds| && forall i :: 0 <= i < |ds| ==> s[i] == CharOf(ds[i])
  {
    seq(|ds|, i requires 0 <= i < |ds| => CharOf(ds[i]))
  }

  predicate AllDigits(s: string, a: nat, e: nat)
    requires a <= e <= |s|
  {
    forall k :: a <= k < e ==> DigitOf(s[k]) != -1
  }

  /** The digits from place a to before place e. */
  ghost function DigitsOf(s: string, a: nat, e: nat): (ds: seq<nat>)
    requires a <= e <= |s| && AllDigits(s, a, e)
    ensures |ds| == e - a
    decreases e
  {
    if a == e then [] else DigitsOf(s, a, e - 1) + [DigitOf(s[e - 1])]
  }

  lemma {:induction false} DigitAt(s: string, a: nat, e: nat, k: nat)
    requires a <= a + k < e <= |s| && AllDigits(s, a, e)
    ensures DigitsOf(s, a, e)[k] == DigitOf(s[a + k])
    decreases e
  {
    if a + k < e - 1 { DigitAt(s, a, e - 1, k); }
  }

  lemma DigitsBelow(s: string, a: nat, e: nat)
    requires a <= e <= |s| && AllDigits(s, a, e)
    ensures Digits(58, DigitsOf(s, a, e))
  {
    var ds := DigitsOf(s, a, e);
    forall k | 0 <= k < |ds| ensures ds[k] < 58 { DigitAt(s, a, e, k); }
  }

  function LeadingZeros(x: seq<nat>): (z: nat)
    ensures z <= |x| && (forall i :: 0 <= i < z ==> x[i] == 0) && (z < |x| ==> x[z] != 0)
  {
    if x == [] || x[0] != 0 then 0 else 1 + LeadingZeros(x[1..])
  }

  // ---------------------------------------------------------------- what the two directions mean

  ghost function Encoded(x: seq<nat>): string
    requires Digits(256, x)
  {
    NumeralExact(58, Value(256, x));
    Chars(Zeros(LeadingZeros(x)) + Numeral(58, Value(256, x)))
  }

  /** The first place from i on that is not a space, and the first that is one. */
  function SkipSpaces(s: string, i: nat): (j: nat)
    requires i <= |s|
    ensures i <= j <= |s| && (j < |s| ==> !IsSpace(s[j]))
    decreases |s| - i
  {
    if i < |s| && IsSpace(s[i]) then SkipSpaces(s, i + 1) else i
  }

  function SkipBody(s: string, i: nat): (j: nat)
    requires i <= |s|
    ensures i <= j <= |s| && (j < |s| ==> IsSpace(s[j]))
    decreases |s| - i
  {
    if i < |s| && !IsSpace(s[i]) then SkipBody(s, i + 1) else i
  }

  ghost function BytesOf(ds: seq<nat>): seq<nat> {
    Zeros(LeadingZeros(ds)) + Numeral(256, Value(58, ds))
  }

  /** Spaces around the digits are allowed; a result longer than `max` is refused. */
  ghost function Decoded(s: string, max: int): Option<seq<nat>> {
    var a := SkipSpaces(s, 0);
    var e := SkipBody(s, a);
    if SkipSpaces(s, e) < |s| || !AllDigits(s, a, e) then None
    else
      var bytes := BytesOf(DigitsOf(s, a, e));
      if a < e && |bytes| > max then None else Some(bytes)
  }

  // ---------------------------------------------------------------- round trips

  lemma LeadingZerosOf(z: nat, s: seq<nat>)
    requires NoLead(s)
    ensures LeadingZeros(Zeros(z) + s) == z
  {
    var x := Zeros(z) + s;
    assert forall i :: 0 <= i < z ==> x[i] == 0;
    assert s != [] ==> x[z] == s[0];
  }

  /** A digit string is its leading zeros and the numeral of its value. */
  lemma Canonical(base: nat, x: seq<nat>)
    requires base >= 2 && Digits(base, x)
    ensures x == Zeros(LeadingZeros(x)) + Numeral(base, Value(base, x))
  {
    var z := LeadingZeros(x);
    assert x == Zeros(z) + x[z..];
    ValueZeros(base, z, x[z..]);
    NumeralUnique(base, x[z..]);
  }

  /** The value and the leading zeros survive a change of base. */
  lemma ChangeBase(from: nat, to: nat, x: seq<nat>)
    requires from >= 2 && to >= 2 && Digits(from, x)
    ensures var y := Zeros(LeadingZeros(x)) + Numeral(to, Value(from, x));
            Digits(to, y) && Value(to, y) == Value(from, x) && LeadingZeros(y) == LeadingZeros(x)
  {
    var v := Value(from, x);
    NumeralExact(to, v);
    ValueZeros(to, LeadingZeros(x), Numeral(to, v));
    LeadingZerosOf(LeadingZeros(x), Numeral(to, v));
  }

  lemma CharsBack(ds: seq<nat>)
    requires Digits(58, ds)
    ensures AllDigits(Chars(ds), 0, |ds|) && DigitsOf(Chars(ds), 0, |ds|) == ds && forall i :: 0 <= i < |ds| ==> !IsSpace(Chars(ds)[i])
  {
    forall i | 0 <= i < |ds| ensures DigitOf(Chars(ds)[i]) == ds[i] && !IsSpace(Chars(ds)[i]) {
      AlphabetInverse(ds[i], ' ');
    }
    SameDigits(Chars(ds), ds);
  }

  lemma SameDigits(s: string, ds: seq<nat>)
    requires |s| == |ds| && AllDigits(s, 0, |s|) && forall k :: 0 <= k < |ds| ==> DigitOf(s[k]) == ds[k]
    ensures DigitsOf(s, 0, |s|) == ds
  {
    var r := DigitsOf(s, 0, |s|);
    forall k | 0 <= k < |r| ensures r[k] == ds[k] { DigitAt(s, 0, |s|, k); }
  }

  lemma DigitsBack(s: string, a: nat, e: nat)
    requires a <= e <= |s| && AllDigits(s, a, e)
    ensures Digits(58, DigitsOf(s, a, e)) && Chars(DigitsOf(s, a, e)) == s[a..e]
  {
    var ds := DigitsOf(s, a, e);
    DigitsBelow(s, a, e);
    forall k | 0 <= k < e - a ensures CharOf(ds[k]) == s[a..e][k] {
      DigitAt(s, a, e, k);
      AlphabetInverse(0, s[a + k]);
    }
  }

  /** Without spaces the whole string is the body. */
  lemma NoSpaces(s: string)
    requires forall i :: 0 <= i < |s| ==> !IsSpace(s[i])
    ensures SkipSpaces(s, 0) == 0 && SkipBody(s, 0) == |s| && SkipSpaces(s, |s|) == |s|
  {
  }

  /** Decoding an encoding gives the bytes back if and only if they are not too many. */
  lemma DecodeEncode(x: seq<nat>, max: int)
    requires Digits(256, x)
    ensures Decoded(Encoded(x), max) == if x == [] || |x| <= max then Some(x) else None
  {
    var ds := Zeros(LeadingZeros(x)) + Numeral(58, Value(256, x));
    ChangeBase(256, 58, x);
    CharsBack(ds);
    NoSpaces(Chars(ds));
    Canonical(256, x);
  }

  /** Encoding what was decoded gives the digits back, without the spaces. */
  lemma EncodeDecode(s: string, max: int)
    requires Decoded(s, max).Some?
    ensures var a := SkipSpaces(s, 0);
            Digits(256, Decoded(s, max).value) && Encoded(Decoded(s, max).value) == s[a..SkipBody(s, a)]
  {
    var a := SkipSpaces(s, 0);
    var e := SkipBody(s, a);
    var ds := DigitsOf(s, a, e);
    DigitsBack(s, a, e);
    ChangeBase(58, 256, ds);
    Canonical(58, ds);
  }
}
