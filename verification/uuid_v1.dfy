/** `GetUUIDv1`: the time-based UUID of utils.go:99-119.

    The clock reading and the two random reads are parameters. The node comes
    from `math/rand.Read`, which never fails; the clock sequence comes from
    `crypto/rand`, whose read may fail (`None`). The timestamp
    counts 100-nanosecond intervals since the Unix epoch, not since the
    Gregorian epoch of section 4.1.4 of RFC 4122. */
module UuidV1 {
  import opened Errors
  import opened Bytes
  import Hex
  import UuidText
  import opened Numbers

  const Two32: nat := 0x1_0000_0000
  const Two48: nat := 0x1_0000_0000_0000
  const Two56: nat := 0x100_0000_0000_0000
  const Two60: nat := 0x1000_0000_0000_0000
  const Two64: nat := 0x1_0000_0000_0000_0000

  /** `uint64(time.Now().UnixNano() / 100)`: Go's `/` truncates toward zero,
      and the conversion to `uint64` wraps a negative quotient. */
  function Timestamp(unixNano: int): (ts: nat)
    requires MinInt64 <= unixNano <= MaxInt64
    ensures ts < Two64
    ensures unixNano >= 0 ==> ts == unixNano / 100
    ensures unixNano < 0 ==> ts == (Two64 - (-unixNano) / 100) % Two64
  {
    var q := if unixNano >= 0 then unixNano / 100 else -((-unixNano) / 100);
    q % Two64
  }

  /** `uint16(timestamp>>48 | 0x1000)`: the top 16 timestamp bits with bit 12
      set. The top four bits, the version nibble, are those of the timestamp
      with the lowest forced on; the other twelve are timestamp bits 48 to 59. */
  function TimeHigh(ts: nat): (w: nat)
    requires ts < Two64
    ensures w < 0x1_0000
    ensures w / 0x1000 == Or(ts / Two60, 1)
    ensures w % 0x1000 == (ts / Two48) % 0x1000
  {
    var top := ts / Two48;
    Pow2Values();
    OrBound(top, 0x1000, 16);
    OrDiv(top, 0x1000, 12);
    OrMod(top, 0x1000, 12);
    OrZero(top % 0x1000);
    assert top / 0x1000 == ts / Two60;
    Or(top, 0x1000)
  }

  /** `sequence | 0x8000` on the 16-bit clock sequence: the top bit is set and
      the other fifteen are the clock sequence's. */
  function ClockField(sequence: nat): (w: nat)
    requires sequence < 0x1_0000
    ensures w < 0x1_0000
    ensures w / 0x8000 == 1
    ensures w % 0x8000 == sequence % 0x8000
  {
    Pow2Values();
    OrBound(sequence, 0x8000, 16);
    OrDiv(sequence, 0x8000, 15);
    OrMod(sequence, 0x8000, 15);
    OrZero(sequence % 0x8000);
    OrOne(sequence / 0x8000);
    Or(sequence, 0x8000)
  }

  /** `node[0] |= 0x01`: the lowest bit is set, the seven above it are kept. */
  function NodeFirst(b: Byte): (r: Byte)
    ensures r % 2 == 1 && r / 2 == b / 2
  {
    Pow2Values();
    OrBound(b, 1, 8);
    OrOne(b);
    Or(b, 1)
  }

  /** The byte layout of utils.go:110-115: time_low, time_mid, the top 16
      timestamp bits with 0x1000 or-ed in, the clock sequence with 0x8000
      or-ed in, each written big-endian, and the node with the multicast bit
      of its first byte set (utils.go:105, section 4.5 of RFC 4122). Each
      field reads back as the number written into it. */
  function V1Bytes(ts: nat, sequence: nat, node: seq<Byte>): (u: seq<Byte>)
    requires ts < Two64 && sequence < 0x1_0000 && |node| == 6
    ensures |u| == 16
    ensures FromBigEndian(u[0..4]) == ts % Two32
    ensures FromBigEndian(u[4..6]) == (ts / Two32) % 0x1_0000
    ensures FromBigEndian(u[6..8]) == TimeHigh(ts)
    ensures FromBigEndian(u[8..10]) == ClockField(sequence)
    ensures u[10] % 2 == 1 && u[10] / 2 == node[0] / 2 && u[11..] == node[1..]
  {
    var f0 := ToBigEndian(ts % Two32, 4);
    var f1 := ToBigEndian((ts / Two32) % 0x1_0000, 2);
    var f2 := ToBigEndian(TimeHigh(ts), 2);
    var f3 := ToBigEndian(ClockField(sequence), 2);
    var f4 := node[0 := NodeFirst(node[0])];
    var u := f0 + f1 + f2 + f3 + f4;
    Layout(f0, f1, f2, f3, f4, u);
    FromToBigEndian(ts % Two32, 4);
    FromToBigEndian((ts / Two32) % 0x1_0000, 2);
    FromToBigEndian(TimeHigh(ts), 2);
    FromToBigEndian(ClockField(sequence), 2);
    u
  }

  /** Cutting the concatenation of the five fields back into them. */
  lemma Layout(f0: seq<Byte>, f1: seq<Byte>, f2: seq<Byte>, f3: seq<Byte>, f4: seq<Byte>, u: seq<Byte>)
    requires |f0| == 4 && |f1| == 2 && |f2| == 2 && |f3| == 2 && |f4| == 6
    requires u == f0 + f1 + f2 + f3 + f4
    ensures u[0..4] == f0 && u[4..6] == f1 && u[6..8] == f2 && u[8..10] == f3
    ensures u[10] == f4[0] && u[11..] == f4[1..]
  {
    assert u[10..] == f4;
  }

  /** The single bytes 6 to 9: the high and low bytes of the two 16-bit fields. */
  lemma V1MiddleBytes(ts: nat, sequence: nat, node: seq<Byte>)
    requires ts < Two64 && sequence < 0x1_0000 && |node| == 6
    ensures var u := V1Bytes(ts, sequence, node);
      && u[6] == TimeHigh(ts) / 256 && u[7] == TimeHigh(ts) % 256
      && u[8] == ClockField(sequence) / 256 && u[9] == ClockField(sequence) % 256
  {
    var u := V1Bytes(ts, sequence, node);
    ToFromBigEndian(u[6..8]);
    ToFromBigEndian(u[8..10]);
    TwoBytes(TimeHigh(ts));
    TwoBytes(ClockField(sequence));
    assert u[6] == u[6..8][0] && u[7] == u[6..8][1];
    assert u[8] == u[8..10][0] && u[9] == u[8..10][1];
  }

  /** Byte 6: its high nibble, the version, is the top four timestamp bits
      with the lowest forced on, so it reads 1 exactly when the timestamp is
      below 2^61; the low nibble and byte 7 carry timestamp bits 48 to 59. */
  lemma V1Version(ts: nat, sequence: nat, node: seq<Byte>)
    requires ts < Two64 && sequence < 0x1_0000 && |node| == 6
    ensures var u := V1Bytes(ts, sequence, node);
      && u[6] / 16 == Or(ts / Two60, 1)
      && (u[6] / 16 == 1 <==> ts < 2 * Two60)
      && u[6] % 16 == (ts / Two56) % 16
      && u[7] == (ts / Two48) % 256
  {
    V1MiddleBytes(ts, sequence, node);
    OrOne(ts / Two60);
    Word12(TimeHigh(ts));
    Word12(ts / Two48);
    Shift56(ts);
  }

  /** A 16-bit word cut after its top four bits, and cut into bytes. */
  lemma Word12(w: nat)
    ensures w / 256 / 16 == w / 0x1000
    ensures (w / 256) % 16 == (w % 0x1000) / 256
    ensures w % 256 == (w % 0x1000) % 256
  {
  }

  lemma Shift56(ts: nat)
    ensures ts / Two48 / 256 == ts / Two56
  {
  }

  /** Below 2^60 the time_hi_and_version field is the top 12 timestamp bits plus 0x1000. */
  lemma V1VersionField(ts: nat, sequence: nat, node: seq<Byte>)
    requires ts < Two60 && sequence < 0x1_0000 && |node| == 6
    ensures FromBigEndian(V1Bytes(ts, sequence, node)[6..8]) == 0x1000 + ts / Two48
  {
    Pow2Values();
    OrAbove(ts / Two48, 1, 12);
  }

  /** Byte 8: the top bit is set and the other seven bits, the second-highest
      included, are those of the clock sequence; byte 9 is its low byte. */
  lemma V1Variant(ts: nat, sequence: nat, node: seq<Byte>)
    requires ts < Two64 && sequence < 0x1_0000 && |node| == 6
    ensures var u := V1Bytes(ts, sequence, node);
      && u[8] / 128 == 1
      && u[8] % 128 == (sequence / 256) % 128
      && u[9] == sequence % 256
  {
    V1MiddleBytes(ts, sequence, node);
    Word15(ClockField(sequence));
    Word15(sequence);
  }

  /** A 16-bit word cut after its top bit, and cut into bytes. */
  lemma Word15(w: nat)
    ensures w / 256 / 128 == w / 0x8000
    ensures (w / 256) % 128 == (w % 0x8000) / 256
    ensures w % 256 == (w % 0x8000) % 256
  {
  }

  /** Below 2^60 the timestamp can be read back from the three time fields. */
  lemma V1TimestampRecoverable(ts: nat, sequence: nat, node: seq<Byte>)
    requires ts < Two60 && sequence < 0x1_0000 && |node| == 6
    ensures var u := V1Bytes(ts, sequence, node);
      ts == (FromBigEndian(u[6..8]) - 0x1000) * Two48
            + FromBigEndian(u[4..6]) * Two32 + FromBigEndian(u[0..4])
  {
    V1VersionField(ts, sequence, node);
    SplitTimestamp(ts);
  }

  lemma SplitTimestamp(ts: nat)
    ensures ts == (ts / Two48) * Two48 + ((ts / Two32) % 0x1_0000) * Two32 + ts % Two32
  {
    var q := ts / Two32;
    assert q / 0x1_0000 == ts / Two48;
    assert q == (q / 0x1_0000) * 0x1_0000 + q % 0x1_0000;
    assert ts == q * Two32 + ts % Two32;
  }

  /** `GetUUIDv1` (utils.go:99-119): fails exactly when the `crypto/rand` read
      of the clock sequence fails (utils.go:107-109), otherwise the canonical
      text of the version-1 layout. The node read at utils.go:102 is
      `math/rand.Read`, which never fails, so its error branch is never taken. */
  function GetUUIDv1(unixNano: int, node: seq<Byte>, sequence: Option<nat>): (r: Result<string>)
    requires MinInt64 <= unixNano <= MaxInt64
    requires |node| == 6
    requires sequence.Some? ==> sequence.value < 0x1_0000
    ensures r.Ok? <==> sequence.Some?
    ensures r.Err? ==> r.error == RandomSourceFailure
    ensures r.Ok? ==> UuidText.IsCanonical(r.value)
    ensures r.Ok? ==> UuidText.ParseUuid(r.value)
                      == Ok(V1Bytes(Timestamp(unixNano), sequence.value, node))
  {
    if sequence.None? then Err(RandomSourceFailure)
    else
      var u := V1Bytes(Timestamp(unixNano), sequence.value, node);
      UuidText.FormatSpells(u, 0);
      UuidText.ParseFormat(u);
      Ok(UuidText.Format(u))
  }

  /** The text holds the version digit of byte 6 at index 14 and the variant
      digit of byte 8 at index 19. */
  lemma V1Digits(ts: nat, sequence: nat, node: seq<Byte>)
    requires ts < Two64 && sequence < 0x1_0000 && |node| == 6
    ensures var u := V1Bytes(ts, sequence, node);
      && UuidText.Format(u)[14] == Hex.Digit(u[6] / 16)
      && UuidText.Format(u)[19] == Hex.Digit(u[8] / 16)
  {
    var u := V1Bytes(ts, sequence, node);
    UuidText.FormatSpells(u, 6);
    UuidText.FormatSpells(u, 8);
  }

  /** For every clock reading at or after the Unix epoch the version digit is `1`. */
  lemma GetUUIDv1Version(unixNano: int, node: seq<Byte>, sequence: nat)
    requires 0 <= unixNano <= MaxInt64 && |node| == 6 && sequence < 0x1_0000
    ensures GetUUIDv1(unixNano, node, Some(sequence)).value[14] == '1'
  {
    var ts := Timestamp(unixNano);
    assert ts < 2 * Two60;
    V1Version(ts, sequence, node);
    V1Digits(ts, sequence, node);
    Hex.TableIsRun();
  }

  /** The variant digit is one of `8` to `f`: only the top variant bit is
      forced, so a clock sequence with bit 14 set gives `c` to `f`, which
      section 4.1.1 of RFC 4122 reserves for other variants. */
  lemma GetUUIDv1VariantDigit(unixNano: int, node: seq<Byte>, sequence: nat)
    requires MinInt64 <= unixNano <= MaxInt64 && |node| == 6 && sequence < 0x1_0000
    ensures var d := GetUUIDv1(unixNano, node, Some(sequence)).value[19];
      && ('8' <= d <= '9' || 'a' <= d <= 'f')
      && (d == '8' || d == '9' || d == 'a' || d == 'b' <==> sequence % 0x8000 < 0x4000)
  {
    var ts := Timestamp(unixNano);
    var u := V1Bytes(ts, sequence, node);
    V1Variant(ts, sequence, node);
    V1Digits(ts, sequence, node);
    VariantNibble(u[8], sequence);
    VariantDigits(u[8] / 16);
  }

  /** Byte 8's high nibble, given its top bit and the clock sequence's bits. */
  lemma VariantNibble(x: Byte, sequence: nat)
    requires x / 128 == 1 && x % 128 == (sequence / 256) % 128
    ensures 8 <= x / 16 < 16
    ensures x / 16 < 12 <==> sequence % 0x8000 < 0x4000
  {
  }

  /** The digits of the nibbles 8 to 15; the first four are the RFC 4122 variant digits. */
  lemma VariantDigits(n: nat)
    requires 8 <= n < 16
    ensures '8' <= Hex.Digit(n) <= '9' || 'a' <= Hex.Digit(n) <= 'f'
    ensures Hex.Digit(n) == '8' || Hex.Digit(n) == '9' || Hex.Digit(n) == 'a' || Hex.Digit(n) == 'b' <==> n < 12
  {
    Hex.TableIsRun();
  }

  /** A concrete instance: clock sequence 0x4000 yields the variant digit `c`. */
  lemma GetUUIDv1VariantC(unixNano: int, node: seq<Byte>)
    requires MinInt64 <= unixNano <= MaxInt64 && |node| == 6
    ensures GetUUIDv1(unixNano, node, Some(0x4000)).value[19] == 'c'
  {
    var ts := Timestamp(unixNano);
    var u := V1Bytes(ts, 0x4000, node);
    V1Variant(ts, 0x4000, node);
    V1Digits(ts, 0x4000, node);
    NibbleC(u[8]);
  }

  lemma NibbleC(x: Byte)
    requires x / 128 == 1 && x % 128 == (0x4000 / 256) % 128
    ensures Hex.Digit(x / 16) == 'c'
  {
    assert x / 16 == 12;
    Hex.TableIsRun();
  }

  /** The clock sequence with its top two bits cleared, `sequence & 0x3FFF`,
      as section 4.2.2 of RFC 4122 expects before the variant is or-ed in. */
  function MaskedSequence(sequence: nat): (s: nat)
    requires sequence < 0x1_0000
    ensures s < 0x4000 && s == sequence % 0x4000
  {
    Pow2Values();
    AndLow(sequence, 14);
    And(sequence, 0x3FFF)
  }

  /** `GetUUIDv1` with the clock sequence masked before 0x8000 is or-ed in:
      the variant digit is always one of `8`, `9`, `a`, `b`. */
  function GetUUIDv1Masked(unixNano: int, node: seq<Byte>, sequence: Option<nat>): (r: Result<string>)
    requires MinInt64 <= unixNano <= MaxInt64
    requires |node| == 6
    requires sequence.Some? ==> sequence.value < 0x1_0000
    ensures r.Ok? <==> sequence.Some?
    ensures r.Err? ==> r.error == RandomSourceFailure
    ensures r.Ok? ==> UuidText.IsCanonical(r.value)
    ensures r.Ok? ==> r.value[19] == '8' || r.value[19] == '9' || r.value[19] == 'a' || r.value[19] == 'b'
  {
    if sequence.None? then Err(RandomSourceFailure)
    else
      var m := MaskedSequence(sequence.value);
      assert m % 0x8000 < 0x4000;
      GetUUIDv1VariantDigit(unixNano, node, m);
      GetUUIDv1(unixNano, node, Some(m))
  }
}
