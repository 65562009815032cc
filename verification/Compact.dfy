/** The compact encoding of 256-bit targets (src/arith_uint256.cpp:203-247) and the
    work a block proves (src/chain.cpp:122-135). */
module Compact {
  import opened Powers
  import opened Limbs
  import opened ArithUint

  const WIDTH: nat := 8

  /** The three parts of a compact number. */
  function Size(c: Limb): nat { c / 0x100_0000 }

  function Word(c: Limb): nat { c % 0x80_0000 }

  predicate Sign(c: Limb) { (c / 0x80_0000) % 2 == 1 }

  /** The number a mantissa and an exponent stand for: mantissa * 256^(size - 3),
      with the fraction dropped. */
  ghost function Denoted(word: nat, size: nat): nat {
    if size <= 3 then word / Pow2(8 * (3 - size)) else word * Pow2(8 * (size - 3))
  }

  ghost function Number(c: Limb): nat { Denoted(Word(c), Size(c)) }

  /** 2^256 */
  ghost function Limit(): nat { Modulus(WIDTH) }

  lemma LimitIs2To256(n: nat)
    requires n == 256
    ensures Limit() == Pow2(n)
  {
    var w := n / 32;
    ModulusIsPower(w);
    assert 32 * w == n;
  }

  lemma LimitIsLarge()
    ensures Limit() > 0x1_0000_0000_0000_0000
  {
    assert Modulus(2) == 0x1_0000_0000_0000_0000;
  }

  lemma Pow2_23()
    ensures Pow2(23) == 0x80_0000
  {
    Pow2Values();
  }

  // ---------------------------------------------------------------- decoding

  predicate OverflowTest(word: nat, size: nat) {
    word != 0 && (size > 34 || (word > 0xff && size > 33) || (word > 0xffff && size > 32))
  }

  /** A product with a power reaches a higher power exactly if the factor reaches
      the quotient of the two. */
  lemma Reaches(word: nat, e: nat, f: nat)
    ensures word * Pow2(e) >= Pow2(e + f) <==> word >= Pow2(f)
  {
    PowAdd(2, f, e);
    if word >= Pow2(f) { MulMono(Pow2(f), word, Pow2(e)); } else { MulStrict(word, Pow2(f), Pow2(e)); }
  }

  /** The overflow test is exact. */
  lemma OverflowExact(word: nat, size: nat)
    requires word < 0x80_0000 && size > 3
    ensures OverflowTest(word, size) <==> word * Pow2(8 * (size - 3)) >= Limit()
  {
    Pow2Values();
    var n := 256;
    LimitIs2To256(n);
    var e := 8 * (size - 3);
    if size <= 34 {
      var f := n - e;
      Reaches(word, e, f);
      if size == 33 {
        assert f == 16;
      } else if size <= 32 {
        PowMono(2, 24, f);
      }
    } else if word > 0 {
      PowMono(2, n, e);
      MulMono(1, word, Pow2(e));
    }
  }

  method SetCompact(x: BaseUint, nCompact: Limb) returns (fNegative: bool, fOverflow: bool)
    requires x.pn.Length == WIDTH
    modifies x.pn
    ensures x.Value() == Number(nCompact) % Limit()
    ensures fNegative <==> Sign(nCompact) && Number(nCompact) != 0
    ensures fOverflow <==> Number(nCompact) >= Limit()
  {
    var nSize := Size(nCompact);
    var nWord := Word(nCompact);
    if nSize <= 3 {
      SmallNumber(nWord, nSize);
      nWord := nWord / Pow2(8 * (3 - nSize));
      x.Assign(nWord);
    } else {
      x.Assign(nWord);
      x.ShiftLeft(8 * (nSize - 3));
      OverflowExact(nWord, nSize);
      NonZero(nWord, 8 * (nSize - 3));
    }
    fNegative := nWord != 0 && Sign(nCompact);
    fOverflow := OverflowTest(nWord, nSize);
  }

  lemma SmallNumber(word: nat, size: nat)
    requires word < 0x80_0000 && size <= 3
    ensures Denoted(word, size) <= word && Denoted(word, size) % Limit() == Denoted(word, size) < Limit()
  {
    ShrFits(word, 8 * (3 - size));
    LimitIsLarge();
    SmallMod(Denoted(word, size), Limit());
  }

  lemma NonZero(word: nat, e: nat)
    ensures word * Pow2(e) != 0 <==> word != 0
  {
    if word > 0 { MulMono(1, word, Pow2(e)); }
  }

  // ---------------------------------------------------------------- encoding

  /** A mantissa and exponent that encode v by dropping low bytes only. */
  ghost predicate Encodes(v: nat, word: nat, size: nat) {
    if size <= 3 then word == v * Pow2(8 * (3 - size)) else word == v / Pow2(8 * (size - 3))
  }

  lemma DivDiv(x: nat, a: nat, b: nat)
    requires a > 0 && b > 0
    ensures a * b > 0 && x / a / b == x / (a * b)
  {
    var q, r := x / a, x % a;
    var q', r' := q / b, q % b;
    MulMono(1, b, a);
    assert x == q * a + r && q == q' * b + r';
    assert q * a == q' * (a * b) + r' * a by {
      Distribute(q' * b, r', a);
      MulAssoc(q', b, a);
    }
    MulMono(r' + 1, b, a);
    Distribute(r', 1, a);
    MulMono(0, r', a);
    DivUnique(x, a * b, q', r' * a + r);
  }

  /** Moving one byte from the mantissa to the exponent. */
  lemma DropByte(v: nat, word: nat, size: nat)
    requires Encodes(v, word, size)
    ensures Encodes(v, word / 0x100, size + 1)
  {
    Pow2Values();
    if size <= 2 {
      PowAdd(2, 8, 8 * (2 - size));
      assert v * (0x100 * Pow2(8 * (2 - size))) == v * Pow2(8 * (2 - size)) * 0x100;
    } else if size == 3 {
      assert v * Pow2(0) == v;
    } else {
      PowAdd(2, 8 * (size - 3), 8);
      DivDiv(v, Pow2(8 * (size - 3)), 0x100);
    }
  }

  /** Decoding an encoding gives the number with its low bytes dropped. */
  lemma DecodeEncoded(v: nat, word: nat, size: nat)
    requires Encodes(v, word, size)
    ensures size <= 3 ==> Denoted(word, size) == v
    ensures size > 3 ==> Denoted(word, size) <= v < Denoted(word, size) + Pow2(8 * (size - 3))
  {
    if size <= 3 {
      DivUnique(v * Pow2(8 * (3 - size)), Pow2(8 * (3 - size)), v, 0);
    } else {
      var p := Pow2(8 * (size - 3));
      assert v == v / p * p + v % p;
    }
  }

  lemma FewerBytes(v: nat, bits: nat, size: nat)
    requires size == (bits + 7) / 8 && bits > 0 && Pow2(bits - 1) <= v < Pow2(bits)
    ensures size > 0 && Pow2(8 * (size - 1)) <= v < Pow2(8 * size)
  {
    PowMono(2, bits, 8 * size);
    PowMono(2, 8 * (size - 1), bits - 1);
  }

  /** The top three bytes fill the mantissa. */
  lemma MantissaFits(v: nat, size: nat, word: nat)
    requires Encodes(v, word, size) && size > 0 && Pow2(8 * (size - 1)) <= v < Pow2(8 * size)
    ensures 0x1_0000 <= word < 0x100_0000
  {
    Pow2Values();
    if size <= 3 {
      var p := Pow2(8 * (3 - size));
      PowAdd(2, 8 * size, 8 * (3 - size));
      PowAdd(2, 8 * (size - 1), 8 * (3 - size));
      MulStrict(v, Pow2(8 * size), p);
      MulMono(Pow2(8 * (size - 1)), v, p);
    } else {
      var p := Pow2(8 * (size - 3));
      PowAdd(2, 24, 8 * (size - 3));
      PowAdd(2, 16, 8 * (size - 3));
      QuotientBounds(v, p, Pow2(16), Pow2(24));
    }
  }

  lemma QuotientBounds(v: nat, p: nat, lo: nat, hi: nat)
    requires p > 0 && lo * p <= v < hi * p
    ensures lo <= v / p < hi
  {
    var q := v / p;
    assert v == q * p + v % p;
    if q < lo {
      MulMono(q + 1, lo, p);
      Distribute(q, 1, p);
    }
    if q >= hi { MulMono(hi, q, p); }
  }

  /** Word, sign and size side by side. */
  lemma Assembled(word: nat, size: nat, c: nat, d: nat)
    requires word < 0x80_0000 && size < 256
    requires c == BitOr(word, size * 0x100_0000) && d == BitOr(c, 0x80_0000)
    ensures c == word + size * 0x100_0000 && d == c + 0x80_0000
  {
    Pow2Values();
    Pow2_23();
    OrDisjoint(word, size, 24, size * 0x100_0000);
    OrSplit(word, 0x80_0000, 24, size * 0x100_0000, size);
    OrDisjoint(word, 1, 23, 0x80_0000);
  }

  /** GetCompact encodes by dropping low bytes only and fills the mantissa. */
  method GetCompact(x: BaseUint, fNegative: bool) returns (nCompact: Limb)
    requires x.pn.Length == WIDTH
    ensures Encodes(x.Value(), Word(nCompact), Size(nCompact))
    ensures Sign(nCompact) <==> fNegative && Word(nCompact) != 0
    ensures if x.Value() == 0 then nCompact == 0 else Word(nCompact) >= 0x8000
  {
    var word, nSize := Mantissa(x);
    nCompact := Assemble(word, nSize, fNegative);
  }

  /** The last lines of GetCompact. */
  method Assemble(word: nat, nSize: nat, fNegative: bool) returns (nCompact: Limb)
    requires word < 0x80_0000 && nSize < 256
    ensures Word(nCompact) == word && Size(nCompact) == nSize && (Sign(nCompact) <==> fNegative && word != 0)
    ensures word == nSize == 0 ==> nCompact == 0
  {
    var c := BitOr(word, nSize * 0x100_0000);
    var d := BitOr(c, 0x80_0000);
    Assembled(word, nSize, c, d);
    Parts(word, nSize, false, c);
    Parts(word, nSize, true, d);
    nCompact := if fNegative && Word(c) != 0 then d else c;
  }

  lemma Parts(word: nat, size: nat, negative: bool, c: nat)
    requires word < 0x80_0000 && size < 256 && c == word + (if negative then 0x80_0000 else 0) + size * 0x100_0000
    ensures c < 0x1_0000_0000 && Word(c) == word && Size(c) == size && (Sign(c) <==> negative)
  {
  }

  /** The top three bytes of a number, without the bit that would be the sign. */
  method Mantissa(x: BaseUint) returns (word: nat, nSize: nat)
    requires x.pn.Length == WIDTH
    ensures Encodes(x.Value(), word, nSize) && word < 0x80_0000 && nSize < 256
    ensures if x.Value() == 0 then word == nSize == 0 else word >= 0x8000
  {
    ghost var v := x.Value();
    var bits := x.Bits();
    nSize := (bits + 7) / 8;
    if bits > 0 { FewerBytes(v, bits, nSize); }
    word := TopBytes(x, nSize);
    if bits > 0 { MantissaFits(v, nSize, word); }
    if word >= 0x80_0000 {
      DropByte(v, word, nSize);
      word := word / 0x100;
      nSize := nSize + 1;
    }
  }

  /** The top three of nSize bytes. */
  method TopBytes(x: BaseUint, nSize: nat) returns (word: nat)
    requires x.pn.Length == WIDTH && if nSize == 0 then x.Value() == 0 else Pow2(8 * (nSize - 1)) <= x.Value() < Pow2(8 * nSize)
    ensures Encodes(x.Value(), word, nSize)
  {
    ghost var v := x.Value();
    if nSize <= 3 {
      var low := x.Low64();
      Pow2Values();
      if nSize > 0 { PowMono(2, 8 * nSize, 24); }
      SmallMod(v, 0x1_0000_0000_0000_0000);
      word := low * Pow2(8 * (3 - nSize));
    } else {
      var bn := new BaseUint.Copy(x.pn[..]);
      bn.ShiftRight(8 * (nSize - 3));
      MantissaFits(v, nSize, bn.Value());
      SmallMod(bn.Value(), 0x1_0000_0000_0000_0000);
      word := bn.Low64();
    }
  }

  /** Encoding and decoding again never exceeds the number, keeps its sign and its
      leading bits, and is exact for numbers below 2^23. */
  lemma CompactRoundTrip(v: nat, c: Limb)
    requires v < Limit() && Encodes(v, Word(c), Size(c)) && (v != 0 ==> Word(c) >= 0x8000)
    ensures Number(c) <= v && Number(c) < Limit()
    ensures v - Number(c) <= v / 0x8000
    ensures Size(c) <= 3 ==> Number(c) == v
    ensures Encodes(Number(c), Word(c), Size(c))
  {
    DecodeEncoded(v, Word(c), Size(c));
    if Size(c) > 3 {
      var p := Pow2(8 * (Size(c) - 3));
      LeadingBits(v, Word(c), p);
      DivUnique(Word(c) * p, p, Word(c), 0);
    }
  }

  lemma LeadingBits(v: nat, word: nat, p: nat)
    requires p > 0 && word == v / p && (v != 0 ==> word >= 0x8000)
    ensures v - word * p <= v / 0x8000
  {
    assert v == word * p + v % p;
    if v != 0 { MulMono(0x8000, word, p); }
  }

  lemma {:induction false} DropBytes(v: nat, word: nat, size: nat, k: nat) returns (w: nat)
    requires Encodes(v, word, size)
    ensures Encodes(v, w, size + k) && w <= word && (k > 0 ==> w <= word / 0x100)
    decreases k
  {
    w := word;
    if k > 0 {
      DropByte(v, word, size);
      w := DropBytes(v, word / 0x100, size + 1, k - 1);
    }
  }

  /** A number has one encoding with a full mantissa. */
  lemma EncodingUnique(v: nat, word: nat, size: nat, word': nat, size': nat)
    requires Encodes(v, word, size) && 0x8000 <= word < 0x80_0000
    requires Encodes(v, word', size') && 0x8000 <= word' < 0x80_0000
    ensures word == word' && size == size'
  {
    if size < size' {
      var w := DropBytes(v, word, size, size' - size);
    } else if size' < size {
      var w := DropBytes(v, word', size', size - size');
    }
  }

  /** The compact forms that GetCompact gives: zero, or a full mantissa without bits that
      a small size drops. */
  predicate Normalised(c: Limb) {
    c == 0 || (Word(c) >= 0x8000 && (Size(c) <= 3 ==> Word(c) % Pow2(8 * (3 - Size(c))) == 0))
  }

  lemma NormalisedEncodes(c: Limb)
    ensures c != 0 && Normalised(c) ==> Encodes(Number(c), Word(c), Size(c)) && Number(c) != 0
    ensures Word(c) >= 0x8000 && Encodes(Number(c), Word(c), Size(c)) ==> Normalised(c)
  {
    if Size(c) <= 3 {
      var p := Pow2(8 * (3 - Size(c)));
      var w, q := Word(c), Word(c) / p;
      assert w == q * p + w % p;
      if w == q * p { DivUnique(w, p, q, 0); }
      if q == 0 { assert q * p == 0; }
    } else {
      var p := Pow2(8 * (Size(c) - 3));
      DivUnique(Word(c) * p, p, Word(c), 0);
      NonZero(Word(c), 8 * (Size(c) - 3));
    }
  }

  lemma SameParts(c: Limb, d: Limb)
    requires Word(c) == Word(d) && Size(c) == Size(d) && (Sign(c) <==> Sign(d))
    ensures c == d
  {
    assert c == Size(c) * 0x100_0000 + (c / 0x80_0000) % 2 * 0x80_0000 + Word(c);
    assert d == Size(d) * 0x100_0000 + (d / 0x80_0000) % 2 * 0x80_0000 + Word(d);
  }

  /** An encoding of the number of c is c itself if and only if c is normalised. */
  lemma ReEncoded(c: Limb, d: Limb)
    requires Encodes(Number(c), Word(d), Size(d)) && (if Number(c) == 0 then d == 0 else Word(d) >= 0x8000)
    requires Sign(d) <==> Sign(c) && Number(c) != 0 && Word(d) != 0
    ensures d == c <==> Normalised(c)
  {
    if c == 0 {
      NumberZero(c);
    } else if Normalised(c) {
      NormalisedBack(c, d);
    } else if d == c {
      OnlyNormalised(c);
    }
  }

  lemma NumberZero(c: Limb)
    requires c == 0
    ensures Number(c) == 0
  {
    assert 0 / Pow2(24) == 0;
  }

  lemma OnlyNormalised(c: Limb)
    requires Encodes(Number(c), Word(c), Size(c)) && (if Number(c) == 0 then c == 0 else Word(c) >= 0x8000)
    ensures Normalised(c)
  {
    if c != 0 { NormalisedEncodes(c); }
  }

  lemma NormalisedBack(c: Limb, d: Limb)
    requires c != 0 && Normalised(c) && Encodes(Number(c), Word(d), Size(d)) && (Number(c) != 0 ==> Word(d) >= 0x8000)
    requires Sign(d) <==> Sign(c) && Number(c) != 0 && Word(d) != 0
    ensures d == c
  {
    var v := Number(c);
    assert v != 0 && Encodes(v, Word(c), Size(c)) by { NormalisedEncodes(c); }
    assert Word(c) == Word(d) && Size(c) == Size(d) by { EncodingUnique(v, Word(c), Size(c), Word(d), Size(d)); }
    SameParts(c, d);
  }

  /** Decoding and encoding again gives the compact form back if and only if it is
      normalised, sign included. */
  method ReEncode(c: Limb) returns (d: Limb)
    requires Number(c) < Limit()
    ensures d == c <==> Normalised(c)
  {
    var x := new BaseUint(WIDTH);
    var fNegative, fOverflow := SetCompact(x, c);
    SmallMod(Number(c), Limit());
    d := GetCompact(x, fNegative);
    ReEncoded(c, d);
  }

  // ---------------------------------------------------------------- work

  ghost function BlockProof(nBits: Limb): nat {
    var t := Number(nBits);
    if (Sign(nBits) && t != 0) || t >= Limit() || t == 0 then 0 else Limit() / (t + 1)
  }

  /** 2^256 / (t + 1) without writing down 2^256. */
  lemma ProofIdentity(m: nat, t: nat)
    requires 0 < t < m
    ensures m / (t + 1) == (m - 1 - t) / (t + 1) + 1 < m
  {
    var d := t + 1;
    var q, r := (m - 1 - t) / d, (m - 1 - t) % d;
    assert m - 1 - t == q * d + r;
    Distribute(q, 1, d);
    DivUnique(m, d, q + 1, r);
    MulMono(2, d, q + 1);
  }

  /** p is how often d goes into m. */
  predicate GoesInto(d: nat, m: nat, p: nat) { p * d <= m < (p + 1) * d }

  lemma QuotientGoes(d: nat, m: nat)
    requires 0 < d <= m
    ensures m / d > 0 && GoesInto(d, m, m / d)
  {
    Distribute(m / d, 1, d);
  }

  lemma SmallerGoesMore(d: nat, e: nat, m: nat, p: nat, q: nat)
    requires d <= e && GoesInto(d, m, p) && GoesInto(e, m, q)
    ensures p >= q
  {
    if p < q {
      MulMono(p + 1, q, d);
      MulMono(d, e, q);
    }
  }

  /** A block proves nothing if and only if its target is zero, negative or too large;
      otherwise the work is the number of times the target plus one goes into 2^256. */
  lemma ProofExact(nBits: Limb)
    ensures var t, p := Number(nBits), BlockProof(nBits);
            && (p == 0 <==> t == 0 || (nBits / 0x80_0000) % 2 == 1 || t >= Limit())
            && (p > 0 ==> GoesInto(t + 1, Limit(), p))
  {
    var t, m := Number(nBits), Limit();
    if 0 < t < m { QuotientGoes(t + 1, m); }
  }

  /** A smaller target never proves less. */
  lemma HarderProvesMore(a: Limb, b: Limb)
    requires BlockProof(a) > 0 && BlockProof(b) > 0 && Number(a) <= Number(b)
    ensures BlockProof(a) >= BlockProof(b)
  {
    ProofExact(a);
    ProofExact(b);
    SmallerGoesMore(Number(a) + 1, Number(b) + 1, Limit(), BlockProof(a), BlockProof(b));
  }

  lemma EvenProduct(w: nat, e: nat)
    requires e > 0
    ensures (w * Pow2(e)) % 2 == 0
  {
    assert w * Pow2(e) == 2 * (w * Pow2(e - 1)) by { MulAssoc(w, 2, Pow2(e - 1)); }
  }

  /** No accepted target is 2^256 - 1, so adding one does not wrap around. */
  lemma TargetNotMax(c: Limb)
    requires Number(c) < Limit()
    ensures Number(c) + 1 < Limit()
  {
    LimitIsLarge();
    if Size(c) <= 3 {
      ShrFits(Word(c), 8 * (3 - Size(c)));
    } else {
      EvenProduct(Word(c), 8 * (Size(c) - 3));
    }
  }

  /** + 1 */
  method AddOne(x: BaseUint)
    requires x.pn.Length == WIDTH && x.Value() + 1 < Limit()
    modifies x.pn
    ensures x.Value() == old(x.Value()) + 1
  {
    SmallMod(x.Value() + 1, Limit());
    var one := new BaseUint(WIDTH);
    one.Assign(1);
    x.Add(one.pn[..]);
  }

  /** ~t / (t + 1) + 1 */
  method Work(t: BaseUint) returns (r: BaseUint)
    requires t.pn.Length == WIDTH && 0 < t.Value() && t.Value() + 1 < Limit()
    modifies t.pn
    ensures fresh(r) && fresh(r.pn) && r.pn.Length == WIDTH && r.Value() == Limit() / (old(t.Value()) + 1)
  {
    ghost var v := t.Value();
    ProofIdentity(Limit(), v);
    r := t.Complement();
    AddOne(t);
    var ok := r.Divide(t.pn[..]);
    assert ok;
    AddOne(r);
  }

  method GetBlockProof(nBits: Limb) returns (r: BaseUint)
    ensures fresh(r) && fresh(r.pn) && r.pn.Length == WIDTH && r.Value() == BlockProof(nBits)
  {
    var bnTarget := new BaseUint(WIDTH);
    var fNegative, fOverflow := SetCompact(bnTarget, nBits);
    var zero := false;
    if !fOverflow {
      SmallMod(Number(nBits), Limit());
      zero := bnTarget.EqualTo(0);
    }
    if fNegative || fOverflow || zero {
      r := new BaseUint(WIDTH);
      return;
    }
    TargetNotMax(nBits);
    r := Work(bnTarget);
  }
}
