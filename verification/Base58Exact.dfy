/**
 What the Base58 decoders accept, and nothing else: an encoding with white space around it.
 */
module Base58Exact {
  import opened Common
  import opened Base58
  import opened Base58Check

  const ALPHABET := "123456789" + "ABCDEFGH" + "JKLMN" + "PQRSTUVWXYZ" + "abcdefghijk" + "mnopqrstuvwxyz"

  lemma AlphabetIs(d: nat)
    requires d < 58
    ensures |ALPHABET| == 58 && CharOf(d) == ALPHABET[d]
  {
  }

  /** Space, tab, newline, vertical tab, form feed, carriage return. */
  predicate White(c: char) { c as int == 32 || 9 <= c as int <= 13 }

  predicate AllWhite(s: string, from: nat, to: nat)
    requires from <= to <= |s|
  {
    forall i :: from <= i < to ==> White(s[i])
  }

  /** Some text at the places from a to before e, and white space around it. */
  predicate Surrounded(s: string, a: nat, e: nat, text: string) {
    a <= e <= |s| && AllWhite(s, 0, a) && s[a..e] == text && AllWhite(s, e, |s|)
  }

  lemma WhiteIsSpace(c: char)
    ensures White(c) <==> IsSpace(c)
  {
  }

  lemma {:induction false} SkipsTo(s: string, i: nat, a: nat)
    requires i <= a <= |s| && AllWhite(s, i, a) && (a < |s| ==> !White(s[a]))
    ensures SkipSpaces(s, i) == a
    decreases a - i
  {
    if i < a {
      WhiteIsSpace(s[i]);
      SkipsTo(s, i + 1, a);
    } else if a < |s| {
      WhiteIsSpace(s[a]);
    }
  }

  lemma {:induction false} SkipsOver(s: string, i: nat, e: nat)
    requires i <= e <= |s| && (forall k :: i <= k < e ==> !IsSpace(s[k])) && (e < |s| ==> White(s[e]))
    ensures SkipBody(s, i) == e
    decreases e - i
  {
    if i < e { SkipsOver(s, i + 1, e); } else if e < |s| { WhiteIsSpace(s[e]); }
  }

  lemma {:induction false} SkippedIsWhite(s: string, i: nat)
    requires i <= |s|
    ensures AllWhite(s, i, SkipSpaces(s, i))
    decreases |s| - i
  {
    if i < |s| && IsSpace(s[i]) {
      WhiteIsSpace(s[i]);
      SkippedIsWhite(s, i + 1);
    }
  }

  /** The digits of an encoding. */
  lemma EncodedDigits(x: seq<nat>) returns (ds: seq<nat>)
    requires Digits(256, x)
    ensures Digits(58, ds) && Encoded(x) == Chars(ds) && BytesOf(ds) == x && (ds == [] <==> x == [])
  {
    ds := Zeros(LeadingZeros(x)) + Numeral(58, Value(256, x));
    ChangeBase(256, 58, x);
    Canonical(256, x);
    Canonical(58, ds);
    if ds == [] { assert BytesOf(ds) == []; }
  }

  /** The digits of a text wherever it stands. */
  lemma DigitsThere(s: string, a: nat, e: nat, ds: seq<nat>)
    requires a <= e <= |s| && Digits(58, ds) && s[a..e] == Chars(ds)
    ensures AllDigits(s, a, e) && DigitsOf(s, a, e) == ds && forall k :: a <= k < e ==> !IsSpace(s[k])
  {
    forall k | a <= k < e ensures DigitOf(s[k]) == ds[k - a] && !IsSpace(s[k]) {
      assert s[k] == s[a..e][k - a];
      AlphabetInverse(ds[k - a], ' ');
    }
    var r := DigitsOf(s, a, e);
    forall k | 0 <= k < |r| ensures r[k] == ds[k] { DigitAt(s, a, e, k); }
  }

  /** Whatever the white space around it, an encoding is decoded if it is not too long. */
  lemma DecodeSurrounded(s: string, a: nat, e: nat, x: seq<nat>, max: int)
    requires Digits(256, x) && Surrounded(s, a, e, Encoded(x))
    ensures Decoded(s, max) == if x == [] || |x| <= max then Some(x) else None
  {
    var ds := EncodedDigits(x);
    DigitsThere(s, a, e, ds);
    if x == [] {
      SkipsTo(s, 0, |s|);
      assert DigitsOf(s, |s|, |s|) == [] && SkipBody(s, |s|) == |s|;
    } else {
      WhiteIsSpace(s[a]);
      SkipsTo(s, 0, a);
      SkipsOver(s, a, e);
      SkipsTo(s, e, |s|);
    }
  }

  /** Bytes are decoded if and only if the string is their encoding with white space around
      it, and they are not too many. */
  lemma DecodeExact(s: string, max: int, x: seq<nat>)
    ensures Decoded(s, max) == Some(x) <==>
            && Digits(256, x) && (x == [] || |x| <= max)
            && exists a: nat, e: nat :: Surrounded(s, a, e, Encoded(x))
  {
    if Decoded(s, max) == Some(x) {
      var a := SkipSpaces(s, 0);
      var e := SkipBody(s, a);
      EncodeDecode(s, max);
      SkippedIsWhite(s, 0);
      SkippedIsWhite(s, e);
      assert Surrounded(s, a, e, Encoded(x));
      if a == e { assert DigitsOf(s, a, e) == [] && BytesOf([]) == []; }
    }
    forall a: nat, e: nat | Digits(256, x) && Surrounded(s, a, e, Encoded(x))
      ensures Decoded(s, max) == if x == [] || |x| <= max then Some(x) else None
    {
      DecodeSurrounded(s, a, e, x, max);
    }
  }

  /** With a checksum: if and only if the string is the encoding of the bytes followed by
      their checksum, and they are not too many. */
  lemma CheckExact(s: string, max: int, sum: Checksum, x: seq<nat>)
    requires FourBytes(sum)
    ensures CheckDecoded(s, max, sum) == Some(x) <==>
            && Digits(256, x + sum(x)) && |x| <= max && |x| + 4 <= 0x7fff_ffff
            && exists a: nat, e: nat :: Surrounded(s, a, e, Encoded(x + sum(x)))
  {
    var y := x + sum(x);
    assert y[..|y| - 4] == x && y[|y| - 4..] == sum(x);
    DecodeExact(s, Limit(max), y);
    if CheckDecoded(s, max, sum) == Some(x) {
      var bytes := Decoded(s, Limit(max)).value;
      assert bytes == y;
    }
  }
}
