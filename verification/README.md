# randomutils in Dafny

A model of `utils.go`, the single source file of the Go package
`randomutils`. The package holds a few value generators:

- `GetRandomStr`: expands a pattern such as `"id-?d?d?u"`.
- `RandNumInRange`, `GetRandInt`, `GetRandHex` and `GetRandBytes`: bounded numbers and fixed-length strings.
- `GetUUIDv1`, `GetUUIDv4` and `GetUUIDv5`: UUIDs in their 36-character text form.
- `parseUUID`: reads that text form back.

Randomness, the clock and SHA-1 are inputs to the model, so every generator
becomes a pure function or method:

- **`math/rand` draws.** These are a `Random.Stream`, where draw number `k` is `rng(k)`. `rand.Intn(n)` is that draw reduced modulo `n`.
- **Random reads.** `rand` in this file is `math/rand` (utils.go:11); `crypto/rand` is imported as `crand` (utils.go:4). `math/rand.Read` always fills its buffer and returns a nil error, so the bytes it fills (the v1 node, the v4 bytes) are plain inputs, and its error branches at utils.go:102-104 and 123-125 never run. The one read that can fail is `binary.Read` on `crand.Reader` (utils.go:107); its result is an `Option` input, and `None` means it failed.
- **Strings.** A Go string is a sequence of bytes, and `len`, indexing and slicing count bytes. A model `string` holds one `char` per Go byte, so every string input stands for a byte string only when all its characters are below 256. On characters of 256 or more the model does not follow Go, which would see their UTF-8 bytes.
- **The clock.** The current time is the `unixNano` argument.
- **SHA-1.** It is a function argument from bytes to a 20-byte digest.

Modules follow the parts of the file:

| file | module | what it holds |
|---|---|---|
| `errors.dfy` | `Errors` | the error values and `Result`/`Option` |
| `random.dfy` | `Random` | draws and `rand.Intn` |
| `pattern.dfy` | `Pattern` | `GetRandomStr`: a byte-by-byte scanner, proved equal to a reference that first splits the pattern into pieces, then fills each piece |
| `numbers.dfy` | `Numbers` | `RandNumInRange`, `GetRandInt`, and the 64-bit arithmetic of the former |
| `generators.dfy` | `Generators` | `GetRandHex`, `GetRandBytes` |
| `bytes.dfy` | `Bytes` | bytes as numbers below 256; Go's `\|` and `&` defined bit by bit; big-endian integers (`binary.BigEndian`) |
| `hex.dfy` | `Hex` | `hex.EncodeToString` and `hex.DecodeString` |
| `uuid_text.dfy` | `UuidText` | the shared `8-4-4-4-12` formatting and `parseUUID` |
| `uuid_v1.dfy` | `UuidV1` | the v1 timestamp, clock-sequence and node layout |
| `uuid.dfy` | `Uuid` | the version and variant stamping of v4 and v5 |

Where the code departs from RFC 4122, the model follows the code:

- **v1 variant.** The v1 clock sequence only has `0x8000` or-ed in. The variant bits are therefore `1x`, not `10` (see Findings).
- **v1 version nibble.** It is the top four timestamp bits or-ed with 1, so it is `1` only while the timestamp is below `2^61`.
- **v1 epoch.** The v1 timestamp counts from the Unix epoch, not from the Gregorian epoch of section 4.1.4 of RFC 4122.

`GetUUIDv4` reads its 16 bytes from `math/rand` (utils.go:123); the model takes them as an input.

## Model

| member | source | states |
|---|---|---|
| Pattern.GetRandomStr | utils.go:26-51 | the scanner returns exactly the reference expansion; it succeeds if and only if every `?` that has a following byte is followed by `d`, `l` or `u`; otherwise the error is `InvalidPatternIdentifier` and no partial output is returned |
| Pattern.ScanStep | utils.go:29-48 | one turn of the loop consumes one byte or an escape pair and leaves the call's eventual outcome unchanged; it stops only when the rest of the pattern contains an unknown escape letter |
| Pattern.TokenizeWellFormed | utils.go:30-42 | a pattern splits into pieces if and only if no `?` is followed by a byte other than `d`, `l`, `u` |
| Pattern.TokenizeSpell | utils.go:28-49 | the pieces read from a pattern spell it back in order; a literal `?` can only be the last piece; pieces plus escapes count the pattern's bytes |
| Pattern.SpellTokenize | utils.go:28-49 | conversely, every piece sequence with a literal `?` only at the end is what its own spelling splits into |
| Pattern.AlphabetIsRun | utils.go:17-19 | the three alphabets are the ASCII runs `0-9`, `a-z`, `A-Z` of lengths 10, 26 and 26 |
| Pattern.PickInClass | utils.go:34-39 | every character an escape produces belongs to its class |
| Pattern.PickReaches | utils.go:34-39 | every character of the class is produced by some draw |
| Pattern.FillConforms | utils.go:33-47 | an expansion has one character per piece: literals copied, escapes drawn from their class |
| Pattern.FillReaches | utils.go:33-47 | every string with one conforming character per piece is the expansion of some draws |
| Pattern.ExpandSound | utils.go:28-50 | on success the output conforms to the pieces of the pattern, and its length is the pattern's length minus one per escape (a trailing `?` counts as one character) |
| Pattern.ExpandComplete | utils.go:28-50 | every conforming string is a possible output for some draws |
| Pattern.ThreeDigits | utils.go:33-35 | `?d?d?d` always yields three digits |
| Pattern.BadEscapeAndTrailingMark | utils.go:40-45 | `?z` fails with `InvalidPatternIdentifier`; `ab?` yields `ab?` |
| Numbers.RandNumInRange | utils.go:53-59 | fails with `InvalidRange` if and only if `min > max`; otherwise the value lies in `[min, max]` |
| Numbers.RandNumInRangeReaches | utils.go:58 | every value of the range is returned for some draw |
| Numbers.RandNumInRangeSingleton | utils.go:53-59 | `min == max` returns `min` |
| Numbers.GetRandInt | utils.go:89-97 | fails with `NonPositiveLength` if and only if `length <= 0`; otherwise the value lies in `[10^(length-1), 10^length - 1]`, has exactly `length` decimal digits and fits in `int` |
| Numbers.GetRandIntIsRange | utils.go:94-96 | `GetRandInt` is `RandNumInRange` over the `length`-digit numbers |
| Numbers.DigitsBounds | utils.go:94-95 | a positive number has `n` decimal digits if and only if it lies in `[10^(n-1), 10^n)` |
| Numbers.RandNumInRangeInt64 | utils.go:53-59 | with 64-bit wrap-around: an empty range fails; a range whose size fits in `int` gives a value or an error, never a panic; any value returned lies in the range |
| Numbers.RangeOverflowPanics | utils.go:58 | the range `[0, MaxInt64]` wraps `max-min+1` to a negative bound, and `rand.Intn` panics |
| Numbers.RandNumInRangeInt64Agrees | utils.go:58 | whenever the range size fits in `int`, the 64-bit computation returns the same value as the mathematical one |
| Generators.GetRandHex | utils.go:61-74 | empty for a non-positive length; otherwise exactly `length` characters, each in `0123456789abcdef` |
| Generators.GetRandHexReaches | utils.go:69-71 | every lower-case hex string is a possible output |
| Generators.GetRandBytes | utils.go:76-87 | empty for a non-positive length; otherwise exactly `length` bytes, byte `i` being draw `i` modulo 256 |
| Generators.DrawByte | utils.go:83 | the byte is the draw modulo 256, and a draw below 256 is kept whole |
| Generators.GetRandBytesReaches | utils.go:81-84 | every byte sequence is a possible output |
| Bytes.FromToBigEndian | utils.go:111-114 | reading back the big-endian bytes of a number gives the number |
| Bytes.ToFromBigEndian | utils.go:111-114 | writing back the number that big-endian bytes stand for gives the bytes |
| Hex.Digit | utils.go:66 | the digit for a nibble is a lower-case hex digit whose value is that nibble |
| Hex.Encode | utils.go:116 | two characters per byte: character `2i` is the digit of byte `i`'s high nibble and `2i+1` that of its low nibble |
| Hex.EncodeIsLowerHex | utils.go:116 | the encoding contains only lower-case hex digits |
| Hex.Decode | utils.go:163 | on success half as many bytes as characters, byte `i` being the value of the digit pair at `2i`, `2i+1`; a failure is a non-digit or the odd length |
| Hex.DecodeOkIff | utils.go:163-166 | decoding succeeds if and only if the text has an even number of characters, all hex digits of either case; otherwise it reports the first non-digit, or the odd length |
| Hex.DecodeEncode | utils.go:163 | decoding the encoding of any bytes gives the bytes back |
| Hex.EncodeDecode | utils.go:116 | encoding what a lower-case hex text decodes to gives the text back |
| UuidText.IndexBijection | utils.go:117 | the 32 digit positions and the 32 non-hyphen positions of the 36-character text correspond one to one |
| UuidText.Format | utils.go:116-117 | 36 characters: `-` at 8, 13, 18, 23 and the hex encoding's digits everywhere else, in order |
| UuidText.FormatSpells | utils.go:116-117 | the text is canonical (36 characters, hyphens at 8, 13, 18, 23, lower-case hex elsewhere) and spells byte `i` high nibble first |
| UuidText.Strip | utils.go:162 | 32 characters: digit `k` is the text's character at the `k`-th non-separator index |
| UuidText.StripFormat | utils.go:162 | stripping a formatted UUID gives its hex encoding |
| UuidText.ParseUuid | utils.go:157-169 | fails with `InvalidUuidLength` if and only if the text is not 36 characters long; a success is 16 bytes |
| UuidText.ParseFormat | utils.go:157-169 | parsing the text of any 16 bytes gives the bytes back |
| UuidText.FormatParse | utils.go:157-169 | a canonical text parses, and formatting the result gives the text back |
| UuidText.ParseOkIff | utils.go:157-166 | parsing succeeds if and only if the text has 36 characters and every non-separator character is a hex digit of either case |
| UuidText.ParseIgnoresSeparators | utils.go:162 | the characters at 8, 13, 18, 23 are dropped unchecked: texts that differ only there parse alike |
| UuidV1.Timestamp | utils.go:100 | the 100-nanosecond count is below 2^64; from 1970 on it is the quotient by 100, and before 1970 it is `2^64` minus the quotient truncated toward zero, taken modulo `2^64` |
| UuidV1.TimeHigh | utils.go:113 | a 16-bit field whose top four bits are the timestamp's top four or-ed with 1 and whose low twelve bits are timestamp bits 48-59 |
| UuidV1.ClockField | utils.go:114 | a 16-bit field whose top bit is set and whose other fifteen bits are the clock sequence's |
| UuidV1.NodeFirst | utils.go:105 | the lowest bit of the byte is set and the seven above it are kept |
| UuidV1.V1Bytes | utils.go:110-115 | 16 bytes: bytes 0-3, 4-5, 6-7 and 8-9 read back big-endian as `ts mod 2^32`, bits 32-47 of `ts`, the version field and the clock field; byte 10 is the node's first byte with its lowest bit set and its other bits kept; bytes 11-15 are the rest of the node |
| UuidV1.V1MiddleBytes | utils.go:113-114 | bytes 6 to 9 are the high and low bytes of the version and clock fields |
| UuidV1.V1Version | utils.go:113 | byte 6's high nibble is the top timestamp nibble or-ed with 1, which is 1 if and only if the timestamp is below 2^61; the low nibble and byte 7 carry timestamp bits 48-59 |
| UuidV1.V1VersionField | utils.go:113 | below 2^60 the version field is `0x1000` plus the top timestamp bits |
| UuidV1.V1Variant | utils.go:114 | byte 8's top bit is set and its other seven bits are bits 8-14 of the clock sequence, so bit 6 is not cleared; byte 9 is the sequence's low byte |
| UuidV1.V1TimestampRecoverable | utils.go:111-113 | below 2^60 the timestamp can be read back from the three time fields |
| UuidV1.GetUUIDv1 | utils.go:99-119 | fails with `RandomSourceFailure` if and only if the `crypto/rand` read of the clock sequence fails; otherwise the text is canonical and parses back to the v1 layout of the timestamp, sequence and node |
| UuidV1.V1Digits | utils.go:113-117 | the text's index 14 holds byte 6's high nibble and index 19 holds byte 8's |
| UuidV1.GetUUIDv1Version | utils.go:100-117 | for any clock reading at or after 1970 the version digit is `1` |
| UuidV1.GetUUIDv1VariantDigit | utils.go:114-117 | the variant digit is one of `8`-`9` or `a`-`f`; it is `8`, `9`, `a` or `b` if and only if bit 14 of the clock sequence is clear |
| UuidV1.GetUUIDv1VariantC | utils.go:114 | clock sequence `0x4000` yields the variant digit `c` |
| UuidV1.MaskedSequence | utils.go:114 | `sequence & 0x3FFF` is the sequence's low fourteen bits |
| UuidV1.GetUUIDv1Masked | utils.go:99-119 | with the clock sequence masked first: the same failures and canonical text, and the variant digit is always `8`, `9`, `a` or `b` |
| Uuid.SetVersion | utils.go:127 | the high nibble becomes the version and the low nibble is kept |
| Uuid.SetVariant | utils.go:128 | the top two bits become `10` and the low six bits are kept |
| Uuid.NameBytes | utils.go:143 | one byte per character of the name, equal to its code, in order |
| Uuid.NameBytesInjective | utils.go:143 | two names give the same bytes if and only if they are equal |
| Uuid.Stamp | utils.go:127-128 | byte 6's high nibble becomes the version with its low nibble kept; byte 8's top bits become `10` with its low six bits kept; the other 14 bytes are unchanged |
| Uuid.StampedText | utils.go:127-131 | a stamped layout formats to a canonical text with the version digit at index 14 and `8`, `9`, `a` or `b` at index 19 |
| Uuid.StampFixes | utils.go:127-128 | bytes that already carry the version and variant are left unchanged by stamping |
| Uuid.SetFixes | utils.go:127-128 | a byte already carrying the version nibble, or the variant bits, is left unchanged |
| Uuid.StampIdempotent | utils.go:127-128 | stamping twice is stamping once |
| Uuid.GetUUIDv4 | utils.go:121-133 | always succeeds, since `math/rand.Read` cannot fail; the text is canonical with version digit `4`, a variant digit in `8`, `9`, `a`, `b`, and parses back to the stamped random bytes |
| Uuid.GetUUIDv5 | utils.go:135-155 | fails if and only if the namespace does not parse, with the parser's error; otherwise the text is canonical with version digit `5`, a variant digit in `8`, `9`, `a`, `b`, and parses back to the stamped first 16 bytes of SHA-1 over the namespace bytes followed by the name bytes |
| Uuid.GetUUIDv5Spellings | utils.go:136-144 | the result depends on the namespace only through its bytes: any spelling that parses alike, such as upper-case hex, gives the same UUID |
| Uuid.GetUUIDv5ShortNamespace | utils.go:158-160 | a namespace that is not 36 characters long is refused with `InvalidUuidLength` |

## Left out

- Randomness: the model says which values can come out, not how likely they are. Seeding (`init`, utils.go:22-24) and uniformity are left out because probability is not expressible here.
- `time.Now()` is the `unixNano` argument of `UuidV1.GetUUIDv1`, because the clock is outside the program.
- SHA-1 is the `sha1` argument of `Uuid.GetUUIDv5`, because its internals are a separate algorithm. Its result is only required to be 20 bytes.
- The `crypto/rand` read of the v1 clock sequence is an `Option` input, because it is I/O; why it fails is not modelled. The bytes `math/rand.Read` fills are plain inputs, because that read never fails.
- Numbers.GetRandInt: requires `length <= 18`, because from 19 on `math.Pow10` exceeds the 64-bit `int` range. Go's out-of-range float-to-int conversion does not fail; it yields an implementation-dependent value. On amd64 that value is `-2^63`, so `GetRandInt(19)` still returns a 19-digit number, while every length of 20 or more wraps the range size to 0 and panics in `rand.Intn(0)`. These platform-dependent cases are not modelled. The float computation itself is modelled as exact integer powers.
- Numbers.RandNumInRange: uses mathematical integers. Go's 64-bit wrap-around of `max-min+1` is modelled separately by `Numbers.RandNumInRangeInt64`.
- Strings with characters of 256 or more: `Pattern.GetRandomStr`, `UuidText.ParseUuid` and the namespace of `Uuid.GetUUIDv5` accept them but treat each as one byte, where Go would count and read its UTF-8 bytes. For example, 36 characters with U+0101 at index 8 parse in the model, while Go sees 37 bytes and reports the length error. UTF-8 encoding is not modelled.
- Uuid.NameBytes: requires every character of the name to be below 256 (`Uuid.IsByteString`), because `[]byte(name)` copies the string's bytes unchanged and the model's characters stand for those bytes. `Uuid.GetUUIDv5` and its lemmas carry the same requirement on the name.
- The error values are constructors. Go's message texts are left out because callers only test against `nil`.
- Concurrency is left out, because the code coordinates nothing; each call is modelled on its own.
- The inner workings of `strings.Builder`, `fmt.Sprintf`, `hex.EncodeToString`, `hex.DecodeString` and `binary.BigEndian` are replaced by their results. The Go standard library is not part of this model.

## Findings

| source | as written | input that shows it | evidently intended | confidence | as-written member | corrected member |
|---|---|---|---|---|---|---|
| utils.go:58 | `rand.Intn(max-min+1)` is computed in 64-bit `int` | `min = 0`, `max = 9223372036854775807`: `max-min+1` wraps to `-2^63` and `rand.Intn` panics | every `min <= max` yields a value of `[min, max]` | not executed | Numbers.RangeOverflowPanics | Numbers.RandNumInRange |
| utils.go:114 | `sequence\|0x8000` keeps bit 14 of the random clock sequence | clock sequence `0x4000`: the variant digit is `c`, the reserved Microsoft variant of RFC 4122 | variant bits `10`, as v4 and v5 set them at utils.go:128 and 150, i.e. `(sequence & 0x3FFF) \| 0x8000` | not executed | UuidV1.GetUUIDv1VariantC | UuidV1.GetUUIDv1Masked |
