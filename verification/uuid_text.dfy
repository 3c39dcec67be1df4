/** The text form of a UUID: 32 lower-case hex digits grouped 8-4-4-4-12 by
    hyphens (section 3 of RFC 4122), and `parseUUID`, which reads it back. */
module UuidText {
  import opened Errors
  import Hex
  import opened Bytes

  /** Indices 8, 13, 18 and 23 hold the hyphens of the 36-character form. */
  predicate IsSeparator(j: int) {
    j == 8 || j == 13 || j == 18 || j == 23
  }

  /** Index in the 36-character text of hex digit `k` of the 32-digit encoding. */
  function TextIndex(k: nat): nat {
    k + (if k >= 8 then 1 else 0) + (if k >= 12 then 1 else 0)
      + (if k >= 16 then 1 else 0) + (if k >= 20 then 1 else 0)
  }

  /** Index in the 32-digit encoding of the character at non-separator index `j`. */
  function DigitIndex(j: nat): nat {
    j - (if j > 8 then 1 else 0) - (if j > 13 then 1 else 0)
      - (if j > 18 then 1 else 0) - (if j > 23 then 1 else 0)
  }

  lemma IndexBijection(j: nat, k: nat)
    ensures k < 32 ==> TextIndex(k) < 36 && !IsSeparator(TextIndex(k)) && DigitIndex(TextIndex(k)) == k
    ensures j < 36 && !IsSeparator(j) ==> DigitIndex(j) < 32 && TextIndex(DigitIndex(j)) == j
  {
  }

  /** The shared formatting of utils.go:116-117, 130-131 and 152-153: hex-encode
      the 16 bytes and cut the digits into groups of 8, 4, 4, 4 and 12. Character
      `j` of the text is a hyphen at the separator indices and otherwise the
      encoding's digit number `DigitIndex(j)`. */
  function Format(b: seq<Byte>): (s: string)
    requires |b| == 16
    ensures |s| == 36
    ensures forall j :: 0 <= j < 36 ==> s[j] == if IsSeparator(j) then '-' else Hex.Encode(b)[DigitIndex(j)]
  {
    var h := Hex.Encode(b);
    var s := h[..8] + "-" + h[8..12] + "-" + h[12..16] + "-" + h[16..20] + "-" + h[20..];
    GroupAt(h, s);
    s
  }

  lemma GroupAt(h: string, s: string)
    requires |h| == 32
    requires s == h[..8] + "-" + h[8..12] + "-" + h[12..16] + "-" + h[16..20] + "-" + h[20..]
    ensures |s| == 36
    ensures forall j :: 0 <= j < 36 ==> s[j] == if IsSeparator(j) then '-' else h[DigitIndex(j)]
  {
    var a1 := h[..8] + "-" + h[8..12];
    var a2 := a1 + "-" + h[12..16];
    var a3 := a2 + "-" + h[16..20];
    var a4 := a3 + "-";
    assert s == a4 + h[20..];
    forall j | 0 <= j < 36
      ensures s[j] == if IsSeparator(j) then '-' else h[DigitIndex(j)]
    {
      if j >= 24 {
        assert s[j] == h[20..][j - 24];
      } else if j == 23 {
        assert s[j] == a4[j];
      } else if j >= 19 {
        assert s[j] == a4[j] == a3[j] == h[16..20][j - 19];
      } else if j == 18 {
        assert s[j] == a4[j] == a3[j] == (a2 + "-")[j];
      } else if j >= 14 {
        assert s[j] == a4[j] == a3[j] == a2[j] == h[12..16][j - 14];
      } else if j == 13 {
        assert s[j] == a4[j] == a3[j] == a2[j] == (a1 + "-")[j];
      } else if j >= 9 {
        assert s[j] == a4[j] == a3[j] == a2[j] == a1[j] == h[8..12][j - 9];
      } else if j == 8 {
        assert s[j] == a4[j] == a3[j] == a2[j] == a1[j] == (h[..8] + "-")[j];
      } else {
        assert s[j] == a4[j] == a3[j] == a2[j] == a1[j] == h[..8][j];
      }
    }
  }

  /** The canonical form: hyphens at the separator indices, lower-case hex elsewhere. */
  ghost predicate IsCanonical(s: string) {
    && |s| == 36
    && forall j :: 0 <= j < 36 ==>
         if IsSeparator(j) then s[j] == '-' else Hex.IsLowerHexDigit(s[j])
  }

  /** The text is canonical, and it spells byte `i` at the text positions of
      digits `2i` and `2i+1`, high nibble first. */
  lemma FormatSpells(b: seq<Byte>, i: nat)
    requires |b| == 16 && i < 16
    ensures IsCanonical(Format(b))
    ensures Format(b)[TextIndex(2 * i)] == Hex.Digit(b[i] / 16)
    ensures Format(b)[TextIndex(2 * i + 1)] == Hex.Digit(b[i] % 16)
  {
    Hex.EncodeIsLowerHex(b);
    forall j | 0 <= j < 36
      ensures if IsSeparator(j) then Format(b)[j] == '-' else Hex.IsLowerHexDigit(Format(b)[j])
    {
      IndexBijection(j, 0);
    }
    IndexBijection(0, 2 * i);
    IndexBijection(0, 2 * i + 1);
  }

  /** The 32 characters left once the separator indices are dropped (utils.go:162):
      digit `k` of the result is the character at text index `TextIndex(k)`. */
  function Strip(s: string): (t: string)
    requires |s| == 36
    ensures |t| == 32
    ensures forall k :: 0 <= k < 32 ==> t[k] == s[TextIndex(k)]
  {
    var t := s[0..8] + s[9..13] + s[14..18] + s[19..23] + s[24..];
    StripAt(s, t);
    t
  }

  lemma StripAt(s: string, t: string)
    requires |s| == 36
    requires t == s[0..8] + s[9..13] + s[14..18] + s[19..23] + s[24..]
    ensures |t| == 32
    ensures forall k :: 0 <= k < 32 ==> t[k] == s[TextIndex(k)]
  {
    var t1 := s[0..8] + s[9..13];
    var t2 := t1 + s[14..18];
    var t3 := t2 + s[19..23];
    assert t == t3 + s[24..];
    forall k | 0 <= k < 32
      ensures t[k] == s[TextIndex(k)]
    {
      if k < 12 {
        assert t[k] == t1[k];
      } else if k < 16 {
        assert t[k] == t2[k];
      } else if k < 20 {
        assert t[k] == t3[k];
      } else {
        assert t[k] == s[24..][k - 20];
      }
    }
  }

  /** `parseUUID` (utils.go:157-169): wrong length, or the hex decoding of the stripped text. */
  function ParseUuid(s: string): (r: Result<seq<Byte>>)
    ensures |s| != 36 <==> r == Err(InvalidUuidLength)
    ensures r.Ok? ==> |r.value| == 16
  {
    if |s| != 36 then Err(InvalidUuidLength)
    else Hex.Decode(Strip(s))
  }

  lemma StripFormat(b: seq<Byte>)
    requires |b| == 16
    ensures Strip(Format(b)) == Hex.Encode(b)
  {
    var s := Format(b);
    var h := Hex.Encode(b);
    var t := Strip(s);
    forall k | 0 <= k < 32
      ensures t[k] == h[k]
    {
      StripDigit(b, k);
    }
    assert |t| == |h|;
  }

  lemma StripDigit(b: seq<Byte>, k: nat)
    requires |b| == 16 && k < 32
    ensures Strip(Format(b))[k] == Hex.Encode(b)[k]
  {
    assert Strip(Format(b))[k] == Format(b)[TextIndex(k)];
    IndexBijection(0, k);
  }

  /** Reading back a formatted UUID gives its 16 bytes. */
  lemma ParseFormat(b: seq<Byte>)
    requires |b| == 16
    ensures ParseUuid(Format(b)) == Ok(b)
  {
    StripFormat(b);
    Hex.DecodeEncode(b);
  }

  /** Formatting what a canonical text parses to gives that text back. */
  lemma FormatParse(s: string)
    requires IsCanonical(s)
    ensures ParseUuid(s).Ok? && Format(ParseUuid(s).value) == s
  {
    var t := Strip(s);
    assert forall k :: 0 <= k < 32 ==> Hex.IsLowerHexDigit(t[k]) by {
      forall k | 0 <= k < 32 ensures Hex.IsLowerHexDigit(t[k]) {
        assert t[k] == s[TextIndex(k)];
        IndexBijection(0, k);
      }
    }
    Hex.DecodeOkIff(t);
    Hex.EncodeDecode(t);
    var b := ParseUuid(s).value;
    forall j | 0 <= j < 36
      ensures Format(b)[j] == s[j]
    {
      if !IsSeparator(j) {
        IndexBijection(j, 0);
        assert t[DigitIndex(j)] == s[j];
      }
    }
  }

  /** `parseUUID` succeeds exactly on 36 characters whose non-separator
      characters are hex digits of either case; what stands at the separator
      indices is never looked at. */
  lemma ParseOkIff(s: string)
    ensures ParseUuid(s).Ok? <==>
      |s| == 36 && forall j :: 0 <= j < 36 && !IsSeparator(j) ==> Hex.Value(s[j]).Some?
  {
    if |s| == 36 {
      var t := Strip(s);
      Hex.DecodeOkIff(t);
      if Hex.AllHex(t) {
        forall j | 0 <= j < 36 && !IsSeparator(j)
          ensures Hex.Value(s[j]).Some?
        {
          IndexBijection(j, 0);
          assert t[DigitIndex(j)] == s[j];
        }
      }
      if forall j :: 0 <= j < 36 && !IsSeparator(j) ==> Hex.Value(s[j]).Some? {
        forall k | 0 <= k < 32
          ensures Hex.Value(t[k]).Some?
        {
          assert t[k] == s[TextIndex(k)];
          IndexBijection(0, k);
        }
      }
    }
  }

  /** Two texts that differ only at separator indices parse alike. */
  lemma ParseIgnoresSeparators(s: string, s': string)
    requires |s| == 36 && |s'| == 36
    requires forall j :: 0 <= j < 36 && !IsSeparator(j) ==> s[j] == s'[j]
    ensures ParseUuid(s) == ParseUuid(s')
  {
    forall k | 0 <= k < 32
      ensures Strip(s)[k] == Strip(s')[k]
    {
      IndexBijection(0, k);
    }
    assert Strip(s) == Strip(s');
  }
}
