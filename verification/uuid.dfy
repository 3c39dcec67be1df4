/** `GetUUIDv4` and `GetUUIDv5` (utils.go:121-155): sixteen bytes, from the
    random source or from a SHA-1 digest, stamped with a version and a
    variant, then written in the shared text layout.

    The sixteen bytes `math/rand.Read` fills are a parameter; that read never
    fails, so `GetUUIDv4` always succeeds. SHA-1 is an arbitrary function from
    bytes to a 20-byte digest. */
module Uuid {
  import opened Errors
  import Hex
  import UuidText
  import opened Bytes

  type Digest = d: seq<Byte> | |d| == 20 witness seq(20, i => 0)

  /** `(x & 0x0F) | (version << 4)`: the high nibble becomes the version. */
  function SetVersion(x: Byte, version: nat): (r: Byte)
    requires version < 16
    ensures r / 16 == version && r % 16 == x % 16
  {
    Pow2Values();
    AndLow(x, 4);
    OrAbove(x % 16, version, 4);
    Or(And(x, 0x0F), version * 16)
  }

  /** `(x & 0x3F) | 0x80`: the top two bits become `10`, the variant of
      section 4.1.1 of RFC 4122. */
  function SetVariant(x: Byte): (r: Byte)
    ensures r / 64 == 2 && r % 64 == x % 64
  {
    Pow2Values();
    AndLow(x, 6);
    OrAbove(x % 64, 2, 6);
    Or(And(x, 0x3F), 0x80)
  }

  /** utils.go:127-128 and 149-150: the high nibble of byte 6 becomes the
      version, the top two bits of byte 8 become `10`; nothing else changes. */
  function Stamp(b: seq<Byte>, version: nat): (u: seq<Byte>)
    requires |b| == 16 && version < 16
    ensures |u| == 16
    ensures u[6] / 16 == version && u[6] % 16 == b[6] % 16
    ensures u[8] / 64 == 2 && u[8] % 64 == b[8] % 64
    ensures forall i :: 0 <= i < 16 && i != 6 && i != 8 ==> u[i] == b[i]
  {
    b[6 := SetVersion(b[6], version)][8 := SetVariant(b[8])]
  }

  /** `GetUUIDv4` (utils.go:121-133): 16 random bytes stamped with version 4.
      `math/rand.Read` always fills its buffer and returns a nil error, so the
      error branch at utils.go:123-125 is never taken. */
  function GetUUIDv4(random: seq<Byte>): (r: Result<string>)
    requires |random| == 16
    ensures r.Ok?
    ensures UuidText.IsCanonical(r.value) && r.value[14] == '4'
    ensures r.value[19] == '8' || r.value[19] == '9' || r.value[19] == 'a' || r.value[19] == 'b'
    ensures UuidText.ParseUuid(r.value) == Ok(Stamp(random, 4))
  {
    var u := Stamp(random, 4);
    StampedText(u, 4);
    UuidText.ParseFormat(u);
    Ok(UuidText.Format(u))
  }

  /** The version digit stands at index 14 and the variant digit at index 19. */
  lemma StampedText(u: seq<Byte>, version: nat)
    requires |u| == 16 && version < 16
    requires u[6] / 16 == version && u[8] / 64 == 2
    ensures UuidText.IsCanonical(UuidText.Format(u))
    ensures UuidText.Format(u)[14] == Hex.Digit(version)
    ensures var d := UuidText.Format(u)[19]; d == '8' || d == '9' || d == 'a' || d == 'b'
  {
    UuidText.FormatSpells(u, 6);
    UuidText.FormatSpells(u, 8);
    VariantDigit(u[8]);
  }

  lemma VariantDigit(x: Byte)
    requires x / 64 == 2
    ensures var d := Hex.Digit(x / 16); d == '8' || d == '9' || d == 'a' || d == 'b'
  {
    assert 8 <= x / 16 < 12;
    Hex.TableIsRun();
  }

  /** A Go string is a sequence of bytes: every character of the model's
      strings that stands for one is below 256. */
  predicate IsByteString(s: string) {
    forall i :: 0 <= i < |s| ==> s[i] as int < 256
  }

  /** `[]byte(name)`: the bytes of the string, one per character, in order. */
  function NameBytes(name: string): (b: seq<Byte>)
    requires IsByteString(name)
    ensures |b| == |name|
    ensures forall i :: 0 <= i < |name| ==> b[i] == name[i] as int
  {
    seq<Byte>(|name|, i requires 0 <= i < |name| => name[i] as int)
  }

  /** Different names give different hash inputs. */
  lemma NameBytesInjective(a: string, b: string)
    requires IsByteString(a) && IsByteString(b)
    ensures NameBytes(a) == NameBytes(b) <==> a == b
  {
    if NameBytes(a) == NameBytes(b) {
      assert |a| == |b|;
      forall i | 0 <= i < |a|
        ensures a[i] == b[i]
      {
        assert NameBytes(a)[i] == NameBytes(b)[i];
      }
    }
  }

  /** `GetUUIDv5` (utils.go:135-155): the parsed namespace bytes followed by
      the name bytes are hashed; the first 16 digest bytes are stamped with
      version 5. */
  function GetUUIDv5(namespace: string, name: string, sha1: seq<Byte> -> Digest): (r: Result<string>)
    requires IsByteString(name)
    ensures r.Err? <==> UuidText.ParseUuid(namespace).Err?
    ensures r.Err? ==> r.error == UuidText.ParseUuid(namespace).error
    ensures r.Ok? ==> UuidText.IsCanonical(r.value) && r.value[14] == '5'
    ensures r.Ok? ==> r.value[19] == '8' || r.value[19] == '9' || r.value[19] == 'a' || r.value[19] == 'b'
    ensures r.Ok? ==> UuidText.ParseUuid(r.value)
                      == Ok(Stamp(sha1(UuidText.ParseUuid(namespace).value + NameBytes(name))[..16], 5))
  {
    match UuidText.ParseUuid(namespace)
    case Err(e) => Err(e)
    case Ok(ns) =>
      var input := ns + NameBytes(name);
      var u := Stamp(sha1(input)[..16], 5);
      StampedText(u, 5);
      UuidText.ParseFormat(u);
      Ok(UuidText.Format(u))
  }

  /** Stamping twice changes nothing more than stamping once. */
  lemma StampIdempotent(b: seq<Byte>, version: nat)
    requires |b| == 16 && version < 16
    ensures Stamp(Stamp(b, version), version) == Stamp(b, version)
  {
    var u := Stamp(b, version);
    StampFixes(u, version);
  }

  /** A byte already carrying the version nibble, or the variant bits, is left as it is. */
  lemma SetFixes(x: Byte, version: nat)
    requires version < 16
    ensures x / 16 == version ==> SetVersion(x, version) == x
    ensures x / 64 == 2 ==> SetVariant(x) == x
  {
    var v := SetVersion(x, version);
    var w := SetVariant(x);
    assert v == 16 * (v / 16) + v % 16 && x == 16 * (x / 16) + x % 16;
    assert w == 64 * (w / 64) + w % 64 && x == 64 * (x / 64) + x % 64;
  }

  /** Every 16 bytes with the version nibble and the variant bits `10` are the
      stamp of something (of themselves), so stamping fixes those six bits and
      leaves the other 122 free. */
  lemma StampFixes(u: seq<Byte>, version: nat)
    requires |u| == 16 && version < 16
    requires u[6] / 16 == version && u[8] / 64 == 2
    ensures Stamp(u, version) == u
  {
    var v := Stamp(u, version);
    SetFixes(u[6], version);
    SetFixes(u[8], version);
    assert forall i | 0 <= i < 16 :: v[i] == u[i];
  }

  /** Any namespace spelling that parses to the same bytes, upper-case hex or
      other separators included, names the same version-5 UUID as the
      canonical text of those bytes. */
  lemma GetUUIDv5Spellings(namespace: string, name: string, sha1: seq<Byte> -> Digest)
    requires IsByteString(name)
    requires UuidText.ParseUuid(namespace).Ok?
    ensures GetUUIDv5(namespace, name, sha1)
            == GetUUIDv5(UuidText.Format(UuidText.ParseUuid(namespace).value), name, sha1)
  {
    UuidText.ParseFormat(UuidText.ParseUuid(namespace).value);
  }

  /** A namespace that is not 36 characters long is refused before any hashing. */
  lemma GetUUIDv5ShortNamespace(name: string, sha1: seq<Byte> -> Digest)
    requires IsByteString(name)
    ensures GetUUIDv5("not-a-uuid", name, sha1) == Err(InvalidUuidLength)
  {
  }
}
