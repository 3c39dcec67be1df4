/** The fixed-length generators `GetRandHex` and `GetRandBytes`.

    Position `i` of the output is made from draw number `i` of the stream. */
module Generators {
  import opened Random
  import Hex
  import opened Bytes

  /** `GetRandHex` (utils.go:61-74): `length` lower-case hex digits, or nothing
      for a non-positive length. */
  function GetRandHex(length: int, rng: Stream): (s: string)
    ensures |s| == if length <= 0 then 0 else length
    ensures forall i :: 0 <= i < |s| ==> Hex.IsLowerHexDigit(s[i])
  {
    if length <= 0 then []
    else
      var s := seq(length, i requires 0 <= i < length => Hex.Digit(Intn(|Hex.Table|, rng(i))));
      assert forall i :: 0 <= i < |s| ==> s[i] == Hex.Digit(Intn(|Hex.Table|, rng(i)));
      s
  }

  /** Every lower-case hex string is a possible output: the stream that draws
      the digits' values produces it. */
  lemma GetRandHexReaches(s: string)
    requires forall i :: 0 <= i < |s| ==> Hex.IsLowerHexDigit(s[i])
    ensures exists rng: Stream :: GetRandHex(|s|, rng) == s
  {
    var rng: Stream := (n: nat) => if n < |s| && Hex.Value(s[n]).Some? then Hex.Value(s[n]).value else 0;
    if s == [] {
      assert GetRandHex(0, rng) == s;
    } else {
      var g := GetRandHex(|s|, rng);
      assert g == seq(|s|, i requires 0 <= i < |s| => Hex.Digit(Intn(|Hex.Table|, rng(i))));
      forall i | 0 <= i < |s|
        ensures g[i] == s[i]
      {
        DrawDigit(s[i], rng(i));
      }
      assert g == s;
    }
  }

  /** The draw of a digit's own value picks that digit. */
  lemma DrawDigit(c: char, draw: nat)
    requires Hex.IsLowerHexDigit(c)
    requires Hex.Value(c).Some? && draw == Hex.Value(c).value
    ensures Hex.Digit(Intn(|Hex.Table|, draw)) == c
  {
    Hex.DigitOfValue(c);
    assert |Hex.Table| == 16;
  }

  /** `GetRandBytes` (utils.go:76-87): `length` bytes, or none for a
      non-positive length; byte `i` is draw `i` reduced to a byte. */
  function GetRandBytes(length: int, rng: Stream): (b: seq<Byte>)
    ensures |b| == if length <= 0 then 0 else length
    ensures forall i :: 0 <= i < |b| ==> b[i] == rng(i) % 256
  {
    if length <= 0 then []
    else seq<Byte>(length, i requires 0 <= i < length => DrawByte(rng(i)))
  }

  /** `byte(rand.Intn(256))`: the draw is already below 256, so the conversion
      to a byte keeps it whole, and every byte is the draw of itself. */
  function DrawByte(draw: nat): (r: Byte)
    ensures r == draw % 256
    ensures draw < 256 ==> r == draw
  {
    Intn(256, draw)
  }

  /** Every byte sequence is a possible output: the stream that draws the
      bytes themselves produces them. */
  lemma GetRandBytesReaches(b: seq<Byte>)
    ensures GetRandBytes(|b|, (n: nat) => if n < |b| then b[n] else 0) == b
  {
    var rng: Stream := (n: nat) => if n < |b| then b[n] else 0;
    var g := GetRandBytes(|b|, rng);
    forall i | 0 <= i < |b|
      ensures g[i] == b[i]
    {
      assert g[i] == DrawByte(rng(i));
      IntnReaches(256, b[i]);
    }
  }
}
