/**
 * Base58Check of src/base58.cpp: base 58 with the first four bytes of a hash at the end.
 * The hash is a parameter; only the length of the checksum taken from it matters.
 */
module Base58Check {
  import opened Common
  import opened Base58
  import Base58Codec

  const INT_MAX := 0x7fff_ffff

  type Checksum = seq<nat> -> seq<nat>

  ghost predicate FourBytes(sum: Checksum) {
    forall x: seq<nat> :: |sum(x)| == 4 && Digits(256, sum(x))
  }

  /** The length limit handed to the plain decoder: four more bytes, without passing the largest int. */
  function Limit(max: int): int {
    if max > INT_MAX - 4 then INT_MAX else max + 4
  }

  /** Payload and checksum taken apart. */
  function Checked(bytes: seq<nat>, sum: Checksum): Option<seq<nat>> {
    if |bytes| < 4 || bytes[|bytes| - 4..] != sum(bytes[..|bytes| - 4]) then None
    else Some(bytes[..|bytes| - 4])
  }

  ghost function CheckDecoded(s: string, max: int, sum: Checksum): Option<seq<nat>> {
    match Decoded(s, Limit(max))
    case None => None
    case Some(bytes) => Checked(bytes, sum)
  }

  /** A sealed payload comes back, if and only if it is within the limit. */
  lemma CheckRoundTrip(x: seq<nat>, max: int, sum: Checksum)
    requires FourBytes(sum) && Digits(256, x)
    ensures Digits(256, x + sum(x))
    ensures CheckDecoded(Encoded(x + sum(x)), max, sum) == if |x| + 4 <= Limit(max) then Some(x) else None
  {
    var y := x + sum(x);
    assert Digits(256, y);
    DecodeEncode(y, Limit(max));
    assert y[..|y| - 4] == x && y[|y| - 4..] == sum(x);
  }

  /** Nothing but a sealed payload is accepted. */
  lemma CheckSound(s: string, max: int, sum: Checksum)
    requires FourBytes(sum) && CheckDecoded(s, max, sum).Some?
    ensures var x := CheckDecoded(s, max, sum).value; var a := SkipSpaces(s, 0);
            Digits(256, x + sum(x)) && Encoded(x + sum(x)) == s[a..SkipBody(s, a)]
  {
    var bytes := Decoded(s, Limit(max)).value;
    var x := CheckDecoded(s, max, sum).value;
    assert bytes == x + sum(x);
    EncodeDecode(s, Limit(max));
  }

  /** Two payloads never share an encoding. */
  lemma CheckInjective(x: seq<nat>, y: seq<nat>, sum: Checksum)
    requires FourBytes(sum) && Digits(256, x) && Digits(256, y) && Digits(256, x + sum(x)) && Digits(256, y + sum(y))
    requires Encoded(x + sum(x)) == Encoded(y + sum(y))
    ensures x == y
  {
    var u, v := x + sum(x), y + sum(y);
    DecodeEncode(u, |u| + |v|);
    DecodeEncode(v, |u| + |v|);
    assert u == v;
    assert x == u[..|u| - 4] && y == v[..|v| - 4];
  }

  method EncodeBase58Check(x: seq<nat>, sum: Checksum) returns (s: string)
    requires FourBytes(sum) && Digits(256, x)
    ensures Digits(256, x + sum(x)) && s == Encoded(x + sum(x))
  {
    assert Digits(256, x + sum(x));
    s := Base58Codec.EncodeBase58(x + sum(x));
  }

  method DecodeBase58Check(s: string, max: int, sum: Checksum) returns (r: Option<seq<nat>>)
    ensures r == CheckDecoded(s, max, sum)
  {
    var bytes := Base58Codec.DecodeBase58(s, Limit(max));
    if bytes == None || |bytes.value| < 4 { return None; }
    var n := |bytes.value| - 4;
    if sum(bytes.value[..n]) != bytes.value[n..] { return None; }
    r := Some(bytes.value[..n]);
  }

  /** A string with an embedded NUL is refused, with or without a test of its own. */
  lemma EmbeddedNul(s: string, i: nat, max: int)
    requires i < |s| && s[i] == '\0'
    ensures Decoded(s, max) == None
  {
    var a := SkipSpaces(s, 0);
    var e := SkipBody(s, a);
    NoneSkipped(s, 0, i);
    if i < e {
      assert s[a..e][i - a] == s[i];
    } else {
      NoneSkipped(s, e, i);
    }
  }

  lemma {:induction false} NoneSkipped(s: string, from: nat, i: nat)
    requires from <= i < |s| && !IsSpace(s[i])
    ensures SkipSpaces(s, from) <= i
    decreases |s| - from
  {
    if from < i { NoneSkipped(s, from + 1, i); }
  }
}
