/** Hexadecimal text as `encoding/hex` produces and reads it.

    `EncodeToString` writes two lower-case digits per byte, high nibble first.
    `DecodeString` reads pairs of digits in either case and stops at the first
    byte that is not a hex digit; an odd count of digits is an error of its own. */
module Hex {
  import opened Errors
  import opened Bytes

  /** The digit table of `encoding/hex`, also the `hexDigits` constant of `GetRandHex`. */
  const Table: string := "0123456789abcdef"

  predicate IsLowerHexDigit(c: char) {
    '0' <= c <= '9' || 'a' <= c <= 'f'
  }

  /** The value of a hex digit of either case; `None` for any other byte. */
  function Value(c: char): (v: Option<nat>)
    ensures v.Some? ==> v.value < 16
  {
    if '0' <= c <= '9' then Some(c as int - '0' as int)
    else if 'a' <= c <= 'f' then Some(c as int - 'a' as int + 10)
    else if 'A' <= c <= 'F' then Some(c as int - 'A' as int + 10)
    else None
  }

  /** The lower-case digit for a nibble. */
  function Digit(n: nat): (c: char)
    requires n < 16
    ensures IsLowerHexDigit(c)
    ensures Value(c) == Some(n)
  {
    TableIsRun();
    Table[n]
  }

  lemma TableIsRun()
    ensures forall i :: 0 <= i < 10 ==> Table[i] == ('0' as int + i) as char
    ensures forall i :: 10 <= i < 16 ==> Table[i] == ('a' as int + i - 10) as char
  {
  }

  /** A lower-case digit is the digit of its own value. */
  lemma DigitOfValue(c: char)
    requires IsLowerHexDigit(c)
    ensures Value(c).Some? && Digit(Value(c).value) == c
  {
    TableIsRun();
  }

  /** `hex.EncodeToString`: byte `i` becomes characters `2i` (high nibble,
      `b >> 4`) and `2i+1` (low nibble, `b & 0x0f`). */
  function Encode(b: seq<Byte>): (s: string)
    ensures |s| == 2 * |b|
    ensures forall i :: 0 <= i < |b| ==> s[2 * i] == Digit(b[i] / 16) && s[2 * i + 1] == Digit(b[i] % 16)
  {
    if b == [] then []
    else
      var s := [Digit(b[0] / 16), Digit(b[0] % 16)] + Encode(b[1..]);
      EncodeCons(b, Encode(b[1..]), s);
      s
  }

  /** Two digits in front of the encoding of the tail spell the whole sequence. */
  lemma EncodeCons(b: seq<Byte>, rest: string, s: string)
    requires b != [] && |rest| == 2 * (|b| - 1)
    requires forall i :: 0 <= i < |b| - 1 ==>
      rest[2 * i] == Digit(b[1..][i] / 16) && rest[2 * i + 1] == Digit(b[1..][i] % 16)
    requires s == [Digit(b[0] / 16), Digit(b[0] % 16)] + rest
    ensures forall i :: 0 <= i < |b| ==> s[2 * i] == Digit(b[i] / 16) && s[2 * i + 1] == Digit(b[i] % 16)
  {
    forall i | 1 <= i < |b|
      ensures s[2 * i] == Digit(b[i] / 16) && s[2 * i + 1] == Digit(b[i] % 16)
    {
      assert b[i] == b[1..][i - 1];
      assert s[2 * i] == rest[2 * (i - 1)] && s[2 * i + 1] == rest[2 * (i - 1) + 1];
    }
  }

  /** The encoding is lower-case hex throughout. */
  lemma EncodeIsLowerHex(b: seq<Byte>)
    ensures forall j :: 0 <= j < |Encode(b)| ==> IsLowerHexDigit(Encode(b)[j])
  {
    forall j | 0 <= j < |Encode(b)|
      ensures IsLowerHexDigit(Encode(b)[j])
    {
      var i := j / 2;
      assert Encode(b)[2 * i] == Digit(b[i] / 16) && Encode(b)[2 * i + 1] == Digit(b[i] % 16);
      assert j == 2 * i || j == 2 * i + 1;
    }
  }

  /** The byte whose high and low nibbles are `hi` and `lo`: `(a << 4) | b` in
      `encoding/hex`, which for nibbles is `16 * a + b`. */
  function Join(hi: nat, lo: nat): (v: Byte)
    requires hi < 16 && lo < 16
  {
    hi * 16 + lo
  }

  /** The byte that characters `2i` and `2i+1` of `s` stand for, when both are hex digits. */
  function PairValue(s: string, i: nat): Option<Byte>
    requires 2 * i + 1 < |s|
  {
    if Value(s[2 * i]).Some? && Value(s[2 * i + 1]).Some?
    then Some(Join(Value(s[2 * i]).value, Value(s[2 * i + 1]).value))
    else None
  }

  /** `hex.DecodeString`, pair by pair: on success byte `i` is the value of the
      digit pair `2i`, `2i+1`; a failure names a non-digit or the odd length. */
  function Decode(s: string): (r: Result<seq<Byte>>)
    ensures r.Ok? ==> 2 * |r.value| == |s|
    ensures r.Ok? ==> forall i :: 0 <= i < |r.value| ==> PairValue(s, i) == Some(r.value[i])
    ensures r.Err? ==> r.error.InvalidHexByte? || r.error == OddHexLength
    decreases |s|
  {
    if |s| == 0 then Ok([])
    else if Value(s[0]).None? then Err(InvalidHexByte(s[0]))
    else if |s| == 1 then Err(OddHexLength)
    else if Value(s[1]).None? then Err(InvalidHexByte(s[1]))
    else match Decode(s[2..])
      case Err(e) => Err(e)
      case Ok(rest) =>
        var v := [Join(Value(s[0]).value, Value(s[1]).value)] + rest;
        DecodeCons(s, rest, v);
        Ok(v)
  }

  /** The first pair's byte in front of the decoding of the rest decodes the whole text. */
  lemma DecodeCons(s: string, rest: seq<Byte>, v: seq<Byte>)
    requires |s| >= 2 && Value(s[0]).Some? && Value(s[1]).Some?
    requires 2 * |rest| == |s| - 2
    requires forall i :: 0 <= i < |rest| ==> PairValue(s[2..], i) == Some(rest[i])
    requires v == [Join(Value(s[0]).value, Value(s[1]).value)] + rest
    ensures forall i :: 0 <= i < |v| ==> PairValue(s, i) == Some(v[i])
  {
    forall i | 0 <= i < |v|
      ensures PairValue(s, i) == Some(v[i])
    {
      if i > 0 {
        assert v[i] == rest[i - 1];
        PairShift(s, i);
      }
    }
  }

  lemma PairShift(s: string, i: nat)
    requires 1 <= i && 2 * i + 1 < |s|
    ensures PairValue(s, i) == PairValue(s[2..], i - 1)
  {
    var t := s[2..];
    assert s[2 * i] == t[2 * (i - 1)];
    assert s[2 * i + 1] == t[2 * (i - 1) + 1];
  }

  /** Every character is a hex digit of either case. */
  ghost predicate AllHex(s: string) {
    forall j :: 0 <= j < |s| ==> Value(s[j]).Some?
  }

  /** Decoding succeeds exactly on an even number of hex digits; otherwise it
      reports the first non-digit, or the odd length when every byte is a digit. */
  lemma {:induction false} DecodeOkIff(s: string)
    ensures Decode(s).Ok? <==> AllHex(s) && |s| % 2 == 0
    ensures !AllHex(s) ==>
      (exists j :: 0 <= j < |s| && Value(s[j]).None? &&
         Decode(s) == Err(InvalidHexByte(s[j])) && forall i :: 0 <= i < j ==> Value(s[i]).Some?)
    ensures AllHex(s) && |s| % 2 == 1 ==> Decode(s) == Err(OddHexLength)
    decreases |s|
  {
    if |s| >= 2 && Value(s[0]).Some? && Value(s[1]).Some? {
      var t := s[2..];
      DecodeOkIff(t);
      assert AllHex(s) <==> AllHex(t) by {
        if AllHex(t) {
          forall j | 0 <= j < |s| ensures Value(s[j]).Some? {
            if j >= 2 { assert s[j] == t[j - 2]; }
          }
        }
        if AllHex(s) {
          forall j | 0 <= j < |t| ensures Value(t[j]).Some? {
            assert t[j] == s[j + 2];
          }
        }
      }
      if !AllHex(t) {
        var j :| 0 <= j < |t| && Value(t[j]).None? && Decode(t) == Err(InvalidHexByte(t[j]))
          && forall i :: 0 <= i < j ==> Value(t[i]).Some?;
        assert s[j + 2] == t[j];
        forall i | 0 <= i < j + 2 ensures Value(s[i]).Some? {
          if i >= 2 { assert s[i] == t[i - 2]; }
        }
      }
    } else if |s| >= 1 && Value(s[0]).None? {
      assert !AllHex(s);
    } else if |s| == 1 {
    } else if |s| >= 2 {
      assert Value(s[1]).None? && Value(s[0]).Some?;
    }
  }

  /** Decoding undoes encoding. */
  lemma {:induction false} DecodeEncode(b: seq<Byte>)
    ensures Decode(Encode(b)) == Ok(b)
  {
    if b != [] {
      var s := Encode(b);
      assert s[2..] == Encode(b[1..]);
      DecodeEncode(b[1..]);
      assert [b[0]] + b[1..] == b;
    }
  }

  /** Encoding undoes decoding when the text was lower-case to begin with. */
  lemma {:induction false} EncodeDecode(s: string)
    requires Decode(s).Ok?
    requires forall j :: 0 <= j < |s| ==> IsLowerHexDigit(s[j])
    ensures Encode(Decode(s).value) == s
    decreases |s|
  {
    if |s| > 0 {
      var t := s[2..];
      EncodeDecode(t);
      var b := Decode(s).value;
      assert b[1..] == Decode(t).value;
      var hi := Value(s[0]).value;
      var lo := Value(s[1]).value;
      NibblesOfJoin(hi, lo);
      DigitOfValue(s[0]);
      DigitOfValue(s[1]);
      assert s == [s[0], s[1]] + t;
    }
  }

  lemma NibblesOfJoin(hi: nat, lo: nat)
    requires hi < 16 && lo < 16
    ensures Join(hi, lo) / 16 == hi && Join(hi, lo) % 16 == lo
  {
  }
}
