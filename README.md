# Bases: a verified model of the codec core

This project models the codec engine of the Swift library Bases. The engine has four
binary-to-text codecs:

- **Base-16:** hex, per section 8 of RFC 4648.
- **Base-32:** per sections 6 and 7 of RFC 4648, plus the z-base-32, Crockford, geohash and
  word-safe tables.
- **Base-64:** per sections 4 and 5 of RFC 4648, plus the UTF-7, IMAP mailbox-name and MIME
  tables.
- **Base-85:** Ascii85, btoa-like and Adobe, an RFC 1924 character set and Z85.

Each codec has three parts:

- an **alphabet**: its characters, a 128-entry table that maps an ASCII code back to a value,
  and the codec's extras (padding, line separator, shortcuts, delimiters);
- an **encoder**;
- a **decoder**.

The model also covers what the codecs share:

- the `chunks(ofCount:)` and `trimmingSuffix(while:)` collection helpers;
- the validated `LineSeparator` value;
- every built-in constant alphabet.

Text is a sequence of characters, and "ASCII" means a code below 128. Bytes are integers from
0 to 255. Swift's `<<` on `UInt8` is written out as `(x * 2^k) % 256`, `>>` as division, `&` with
a low-bit mask as a remainder, and `|` as a bitwise-or function. The model proves that `|` is
addition when the bits are disjoint (`Bits.OrDisjoint`).

## How the model is organised

There is one Dafny module per Swift file, plus a few shared modules.

| Dafny module | Swift source |
|---|---|
| `Base16`, `Base32`, `Base64`, `Base85` | `Sources/Bases/BaseNN.swift` |
| `Base16Alphabets` … `Base85Alphabets` | `Sources/Bases/BaseNN+Alphabet.swift` |
| `CollectionExtensions` | `Collection+Extensions.swift` |
| `LineSeparators` | `LineSeparator.swift` |
| `Errors` | `Error.swift` |

The shared modules are:

- `AlphabetTables`: the table-filling loop and the character lookup that every decoder starts with;
- `Bits`: byte arithmetic;
- `Text`: `filter`, `joined(separator:)` and Foundation's `replacingOccurrences`, each written
  out as a small recursive function with its own lemmas;
- `Wrappers`: `Option` and `Result`.

Where the Swift code changes state step by step, the model does too. Examples are the
`for` loop that fills an alphabet's `values`, the encoders' output loops, the decoders'
byte loops in Base-16, Base-32 and Base-64, `chunks` and `trimmingSuffix`. Each such operation is a `method` with a loop, and the method is
proved equal to a recursive specification function (`ensures output == Encoded(a, data)`).
The Base-85 decoder's last step is a `map`/`chunks(ofCount:)`/`flatMap` pipeline rather than a
loop; `Base85.DecodeCharacters` is straight-line code whose iteration lives in the recursive
functions `Lookup` and `GroupsBytes`.
The codec properties (round trips, error outcomes, lengths, the test vectors) are lemmas
about those functions. A thrown error is a `Failure` of a `Result`, and the
initialisers return `Result<Alphabet, AlphabetError>`.

A built-in alphabet constant is the Swift table written out entry for entry. For every
constant, the model proves two things. It equals what the checking initialiser builds from
the same characters. Its table inverts its characters, so that decoding undoes encoding.
The examples from the repository's test suite are proved as lemmas about the
specification functions, except the two long Base-85 strings and the particular MIME string
named under "## Left out". The shared example data lives in `TestVectors`.

## Model

One row per function, method or lemma whose own contract states something about the Swift code.
The specification functions that the methods are proved equal to carry no contract of their own
(each codec's `Encoded` and `Decoded`, and helpers such as `Base32.Unpadded`, `Base64.WithoutSeparators`,
`Base85.Expanded` or `CollectionExtensions.Chunked`); they have no row, and what they
compute is stated by the rows of the methods and lemmas about them. Small helpers whose only
`ensures` is a length, a bound or a base case their callers need (`Bits.Shr`,
`AlphabetTables.ValueTable`, `AlphabetTables.Spell`, `Text.Joined`) have no row either. The source column gives the Swift lines the member models, as a path from the repository root; the last column says what the member's contract states.

| member | source | states |
|---|---|---|
| CollectionExtensions.Chunks | Sources/Bases/Collection+Extensions.swift:12-24 | the while loop that advances the start index returns exactly `Chunked(s, count)` (count > 0) |
| CollectionExtensions.FlattenChunked | Sources/Bases/Collection+Extensions.swift:12-24 | concatenating the chunks gives back the input |
| CollectionExtensions.ChunkedCount | Sources/Bases/Collection+Extensions.swift:17-21 | there are ⌈n / count⌉ chunks; empty input gives none |
| CollectionExtensions.ChunkedLengths | Sources/Bases/Collection+Extensions.swift:18-20 | every chunk but the last has exactly `count` elements; the last has 1 to `count` |
| CollectionExtensions.ChunkAt | Sources/Bases/Collection+Extensions.swift:18-19 | chunk i is the window of the input starting at i · count, cut at the end |
| CollectionExtensions.ChunkedExactly | Sources/Bases/Collection+Extensions.swift:18-19 | when n = m · count there are m chunks, each exactly `count` long |
| CollectionExtensions.ChunkedElements | Sources/Bases/Collection+Extensions.swift:19 | every element of a chunk is an element of the input |
| CollectionExtensions.TrimmingSuffix | Sources/Bases/Collection+Extensions.swift:28-40 | the backwards while loop returns exactly `TrimmedSuffix(s, p)` |
| CollectionExtensions.TrimmedSuffixSpec | Sources/Bases/Collection+Extensions.swift:31-39 | the result is a prefix of the input, every dropped element satisfies the predicate, and the last kept element does not |
| CollectionExtensions.TrimmedSuffixAppend | Sources/Bases/Collection+Extensions.swift:31-39 | appending elements that satisfy the predicate does not change the result |
| CollectionExtensions.Examples | Tests/BasesTests/CollectionExtensionsTests.swift:14-34 | [1,2,3,4] in chunks of 3 is [[1,2,3],[4]]; trimming 2s from [1,2,2,2] gives [1]; trimming everything gives [] |
| LineSeparators.NewLineSeparator | Sources/Bases/LineSeparator.swift:20-26 | succeeds exactly when length > 0, keeps both fields unchanged, and otherwise fails with `nonPositiveLength` |
| LineSeparators.CheckedIsUnchecked | Sources/Bases/LineSeparator.swift:14-26 | the checked initialiser gives the value the unchecked one builds, or `nonPositiveLength` |
| LineSeparators.NewLineSeparatorInjective | Sources/Bases/LineSeparator.swift:10-12 | two checked separators are equal exactly when separator and length are (structural equality) |
| LineSeparators.Examples | Tests/BasesTests/LineSeparatorTests.swift:15-33 | ("a", 0) is refused with `nonPositiveLength`; ("a", 3) is stored as given |
| Bits.FillCount | Sources/Bases/Base64.swift:99 | the filler count is below the group size, makes the length a multiple of it, and is zero exactly for a multiple |
| Bits.OrDisjoint | Sources/Bases/Base64.swift:115 | the bitwise or of a multiple of 2^k and a number below 2^k is their sum |
| Bits.SideBySide | Sources/Bases/Base64.swift:196-200 | a field shifted left past a smaller one fits a byte, and the bitwise or places them side by side |
| Text.Filter | Sources/Bases/Base16.swift:107 | `filter` keeps only characters that satisfy the predicate and occur in the input, and never lengthens it |
| Text.FilterAppend | Sources/Bases/Base16.swift:107 | filtering distributes over concatenation |
| Text.FilterKeepsAll | Sources/Bases/Base16.swift:107 | text whose characters all satisfy the predicate is kept whole |
| Text.FilterDropsAll | Sources/Bases/Base16.swift:107 | text none of whose characters satisfies the predicate is removed |
| Text.ReplacingSkipsUnmatched | Sources/Bases/Base64.swift:166-173 | text that cannot start an occurrence passes through `replacingOccurrences` unchanged |
| Text.ReplacingLeading | Sources/Bases/Base64.swift:166-173 | a leading occurrence is replaced and the scan continues after it |
| Text.ReplacingCharAppend | Sources/Bases/Base85.swift:199-215 | replacing one character commutes with concatenation |
| Text.ReplacingAbsentChar | Sources/Bases/Base85.swift:199-215 | replacing a character that does not occur changes nothing |
| AlphabetTables.BuildValueTable | Sources/Bases/Base16.swift:43-46 | the fill loop over 128 `nil` entries returns `ValueTable(codes)`: entry c holds the last index whose code is c (a later duplicate overwrites) |
| AlphabetTables.LastIndex | Sources/Bases/Base16.swift:44-45 | the entry is an index holding c with no later index holding c, or no index holds c |
| AlphabetTables.AsciiValues | Sources/Bases/Base16.swift:36-41 | the `asciiValue` map gives the codes of an all-ASCII text and gives up otherwise |
| AlphabetTables.ValueTableInverts | Sources/Bases/Base16.swift:43-46 | for distinct ASCII characters the built table sends each character back to its index and has no other entries |
| AlphabetTables.ValueTableIs | Sources/Bases/Base16.swift:43-46 | a table that inverts the characters and has no other entries is the one the loop builds |
| AlphabetTables.NotInverted | Sources/Bases/Base32.swift:195-204 | a character without a table entry is not an alphabet character |
| AlphabetTables.LookupIff | Sources/Bases/Base32.swift:195-204 | looking up succeeds exactly when every character is ASCII and has an entry, and then yields the entries in order; on failure the first character that is not looked up decides the error: `nonAsciiCharacters` exactly when it is not ASCII, otherwise `valuesNotInAlphabet` |
| AlphabetTables.LookupAppend | Sources/Bases/Base32.swift:195-204 | looking up a concatenation: the first part's error wins, then the second's, else the values join |
| AlphabetTables.LookupSpell | Sources/Bases/Base32.swift:195-204 | looking up the characters of valid indices gives the indices back |
| AlphabetTables.LookupRepeated | Sources/Bases/Base32.swift:195-204 | n copies of a character with an entry look up as n copies of its value |
| AlphabetTables.Lookup | Sources/Bases/Base64.swift:183-192 | looking characters up gives one value per character, and fails only with `nonAsciiCharacters` or `valuesNotInAlphabet` |
| AlphabetTables.LookupStep | Sources/Bases/Base64.swift:182-192 | a text that looks up chunk by chunk looks up as the concatenation, and the first failing chunk decides the error |
| AlphabetTables.SpellAppend | Sources/Bases/Base64.swift:107-126 | spelling values out character by character distributes over concatenation |
| Base16.Checked | Sources/Bases/Base16.swift:31-50 | on success the alphabet keeps the characters and has a 128-entry table |
| Base16.NewAlphabet | Sources/Bases/Base16.swift:31-50 | the initialiser (count guard, `asciiValue` map, fill loop) returns `Checked(characters)` |
| Base16.CheckedErrors | Sources/Bases/Base16.swift:32-41 | fails with `wrongNumberOfCharacters` exactly when the count is not 16, and with `noAsciiValue` exactly when the count is 16 and some character is not ASCII |
| Base16.CheckedInverts | Sources/Bases/Base16.swift:43-46 | a checked alphabet of distinct characters inverts them and has no other entries |
| Base16.Encoded | Sources/Bases/Base16.swift:69-79 | the encoding has two characters per byte |
| Base16.Encode | Sources/Bases/Base16.swift:69-79 | the loop appending two characters per byte returns `Encoded(a, data)` |
| Base16.EncodedDigits | Sources/Bases/Base16.swift:73-76 | character 2i is the digit of byte i's high half and character 2i+1 that of its low half |
| Base16.EncodedIs | Sources/Bases/Base16.swift:73-76 | a text with those digits pair by pair is the encoding, so the encoding is determined by them |
| Base16.EncodedInAlphabet | Sources/Bases/Base16.swift:73-76 | every character of an encoding is an alphabet character |
| Base16.DecodedPairs | Sources/Bases/Base16.swift:116-128 | a successful decoding has one byte per pair |
| Base16.DecodedPairsFailureStays | Sources/Bases/Base16.swift:116-128 | once a prefix of pairs fails, the whole text fails with that error (the map stops at the first throw) |
| Base16.ContainsUnknownIff | Sources/Bases/Base16.swift:108 | `contains(where:)` holds exactly when some character is not an alphabet character |
| Base16.Decode | Sources/Bases/Base16.swift:104-131 | filter or reject, check the length, then decode pairs: returns `Decoded(a, ignore, text)` |
| Base16.DecodePairs | Sources/Bases/Base16.swift:116-128 | the chunk-and-map loop returns `DecodedPairs(a, t)` |
| Base16.DecodedEncodedByte | Sources/Bases/Base16.swift:123-127 | shifting the high digit of a byte left by four and or-ing in the low digit gives the byte back |
| Base16.DecodedPairsEncoded | Sources/Bases/Base16.swift:116-128 | decoding the pairs of an encoding gives the data back |
| Base16.RoundTrip | Sources/Bases/Base16.swift:69-131 | with a table that inverts the characters, decoding an encoding gives the data back in both modes |
| Base16.EncodedDecodedPairs | Sources/Bases/Base16.swift:116-128 | the other direction: with exactly 16 mapped characters, a text whose pairs decode is the encoding of what it decodes to |
| Base16.DecodeEncode | Sources/Bases/Base16.swift:104-131 | a text a strict decoder accepts is the encoding of its decoding |
| Base16.DecodedPairsSucceed | Sources/Bases/Base16.swift:119-126 | pairs of alphabet characters always decode |
| Base16.DecodedKnownText | Sources/Bases/Base16.swift:105-114 | text made of alphabet characters is decoded pair by pair in both modes, and odd length gives `wrongNumberOfBytes` |
| Base16.DecodedOutcome | Sources/Bases/Base16.swift:105-114 | a strict decoder succeeds exactly on even-length text of alphabet characters; an ignoring decoder exactly when the filtered text has even length |
| Base16.DecodedStrictErrors | Sources/Bases/Base16.swift:105-114 | a strict decoder reports a character outside the alphabet anywhere in the text as `valuesNotInAlphabet`, before and regardless of the length check; text of alphabet characters with odd length gives `wrongNumberOfBytes` |
| Base16.IgnoringIsFiltering | Sources/Bases/Base16.swift:106-107 | ignoring unknown characters is strict decoding of the filtered text |
| Base16.IgnoringSurroundingNoise | Sources/Bases/Base16.swift:106-107 | non-alphabet characters on either side do not change what an ignoring decoder returns |
| Base16Alphabets.UppercaseInverts | Sources/Bases/Base16+Alphabet.swift:13-35 | the `uppercase` table sends each of "0123456789ABCDEF" back to its index |
| Base16Alphabets.UppercaseOnlyCharacters | Sources/Bases/Base16+Alphabet.swift:17-34 | every entry of the `uppercase` table names the character with that code |
| Base16Alphabets.UppercaseChecked | Tests/BasesTests/Base16Tests.swift:78-82 | the checked initialiser rebuilds `uppercase` from its characters |
| Base16Alphabets.UppercaseFits | Sources/Bases/Base16+Alphabet.swift:13-35 | `uppercase` has 16 characters, inverts them and has no other entries |
| Base16Alphabets.LowercaseInverts | Sources/Bases/Base16+Alphabet.swift:38-60 | the `lowercase` table sends each of "0123456789abcdef" back to its index |
| Base16Alphabets.LowercaseOnlyCharacters | Sources/Bases/Base16+Alphabet.swift:42-59 | every entry of the `lowercase` table names the character with that code |
| Base16Alphabets.LowercaseChecked | Tests/BasesTests/Base16Tests.swift:84-86 | the checked initialiser rebuilds `lowercase` from its characters |
| Base16Alphabets.LowercaseFits | Sources/Bases/Base16+Alphabet.swift:38-60 | `lowercase` has 16 characters, inverts them and has no other entries |
| Base16Alphabets.OneCaseOnly | Sources/Bases/Base16+Alphabet.swift:26-55 | `uppercase` leaves a–f unmapped and `lowercase` leaves A–F unmapped |
| Base16Alphabets.BuiltInRoundTrips | Tests/BasesTests/Base16Tests.swift:14-52 | both built-in alphabets decode what they encode, in both modes |
| Base16Alphabets.UppercaseFoobar | Tests/BasesTests/Base16Tests.swift:21-29 | "foobar" encodes as "666F6F626172" |
| Base16Alphabets.LowercaseFoobar | Tests/BasesTests/Base16Tests.swift:41-49 | "foobar" encodes as "666f6f626172" |
| Base16Alphabets.UppercaseFoobarDecoded | Tests/BasesTests/Base16Tests.swift:21-30 | "666F6F626172" decodes to "foobar" in both modes |
| Base16Alphabets.LowercaseFoobarDecoded | Tests/BasesTests/Base16Tests.swift:41-50 | "666f6f626172" decodes to "foobar" in both modes |
| Base16Alphabets.UppercaseFoobarAmidNoise | Tests/BasesTests/Base16Tests.swift:31 | an ignoring decoder reads "_666F6F626172_" as "foobar" |
| Base16Alphabets.UppercaseF | Tests/BasesTests/Base16Tests.swift:14-29 | "f" encodes as "66" |
| Base16Alphabets.UppercaseFo | Tests/BasesTests/Base16Tests.swift:14-29 | "fo" encodes as "666F" |
| Base16Alphabets.UppercaseFoo | Tests/BasesTests/Base16Tests.swift:14-29 | "foo" encodes as "666F6F" |
| Base16Alphabets.UppercaseFoob | Tests/BasesTests/Base16Tests.swift:14-29 | "foob" encodes as "666F6F62" |
| Base16Alphabets.UppercaseFooba | Tests/BasesTests/Base16Tests.swift:14-29 | "fooba" encodes as "666F6F6261" |
| Base16Alphabets.UppercaseDecodesVector | Tests/BasesTests/Base16Tests.swift:23-32 | whatever data encodes to in `uppercase` decodes back strictly, and from the text between two "_" when ignoring |
| Base16Alphabets.UppercaseVectorsDecoded | Tests/BasesTests/Base16Tests.swift:14-32 | each of the seven vectors, "" included, decodes strictly and from "_" + text + "_" when ignoring |
| Base16Alphabets.LowercaseF | Tests/BasesTests/Base16Tests.swift:34-49 | "f" encodes as "66" |
| Base16Alphabets.LowercaseFo | Tests/BasesTests/Base16Tests.swift:34-49 | "fo" encodes as "666f" |
| Base16Alphabets.LowercaseFoo | Tests/BasesTests/Base16Tests.swift:34-49 | "foo" encodes as "666f6f" |
| Base16Alphabets.LowercaseFoob | Tests/BasesTests/Base16Tests.swift:34-49 | "foob" encodes as "666f6f62" |
| Base16Alphabets.LowercaseFooba | Tests/BasesTests/Base16Tests.swift:34-49 | "fooba" encodes as "666f6f6261" |
| Base16Alphabets.LowercaseDecodesVector | Tests/BasesTests/Base16Tests.swift:43-52 | whatever data encodes to in `lowercase` decodes back strictly, and from the text between two "_" when ignoring |
| Base16Alphabets.LowercaseVectorsDecoded | Tests/BasesTests/Base16Tests.swift:34-52 | each of the seven vectors, "" included, decodes strictly and from "_" + text + "_" when ignoring |
| Base16Alphabets.LowercaseDecodingErrors | Tests/BasesTests/Base16Tests.swift:54-62 | "000z" fails with `valuesNotInAlphabet` and "000" with `wrongNumberOfBytes` |
| Base16Alphabets.UncheckedAlphabetErrors | Tests/BasesTests/Base16Tests.swift:64-75 | with the unchecked alphabet "01¡" and an empty table, "0¡" fails with `nonAsciiCharacters` and "00" with `valuesNotInAlphabet` |
| Base16Alphabets.AlphabetErrors | Tests/BasesTests/Base16Tests.swift:89-99 | no characters gives `wrongNumberOfCharacters`; a non-ASCII first character gives `noAsciiValue` |
| Base32.LastGroup | Sources/Bases/Base32.swift:64-69 | the entry for code c is the last group containing c, or no group contains c (later groups win) |
| Base32.BuildGroupTable | Sources/Bases/Base32.swift:64-69 | the nested fill loop returns `GroupTable(codes)` |
| Base32.Checked | Sources/Bases/Base32.swift:39-74 | on success: 32 canonical characters, a 128-entry table and the given padding |
| Base32.NewAlphabet | Sources/Bases/Base32.swift:39-74 | the initialiser (count guard, first characters, padding check, `asciiValue` maps, fill loop) returns `Checked(groups, padding)` |
| Base32.CheckedErrors | Sources/Bases/Base32.swift:40-62 | fails with `wrongNumberOfCharacters` exactly when there are not 32 groups or one is empty; with `noAsciiValue` exactly when, past that, the padding or a member is not ASCII |
| Base32.Firsts | Sources/Bases/Base32.swift:44-49 | the canonical character of each group is its first member |
| Base32.CheckedSynonyms | Sources/Bases/Base32.swift:64-73 | with disjoint groups every member of group g maps to g, only members have entries, and the table inverts the canonical characters |
| Base32.GroupTableIs | Sources/Bases/Base32.swift:64-69 | a table that gives every member its group and nothing else an entry is the one the loop builds |
| Base32.CheckedIs | Sources/Bases/Base32.swift:39-74 | an alphabet made of the groups' first members and such a table is exactly what the initialiser returns |
| Base32.FirstsInvert | Sources/Bases/Base32.swift:64-73 | a table that gives every member its group inverts the first members |
| Base32.GroupSymbols | Sources/Bases/Base32.swift:107-148 | one group of five bytes gives eight values, each below 32 |
| Base32.Symbols | Sources/Bases/Base32.swift:106-149 | whole groups give 8 values per 5 bytes, each below 32 |
| Base32.SymbolsClosed | Sources/Bases/Base32.swift:107-148 | the eight fields of a group are, most significant first, b0/8, b0%8·4+b1/64, b1/2%32, b1%2·16+b2/16, b2%16·2+b3/128, b3/4%32, b3%4·8+b4/32, b4%32 |
| Base32.Padded | Sources/Bases/Base32.swift:98-101 | the data followed by (5 − n mod 5) mod 5 zero bytes: a multiple of 5 that starts with the data |
| Base32.Encode | Sources/Bases/Base32.swift:93-157 | empty data gives ""; otherwise zero-fill, encode the groups, drop p·8/5 characters and append as many padding characters when the alphabet has one: returns `Encoded(a, data)` |
| Base32.EncodeGroups | Sources/Bases/Base32.swift:106-149 | the loop over chunks of five returns the spelled-out `Symbols(padded)` |
| Base32.EncodedLength | Sources/Bases/Base32.swift:98-154 | with padding the encoding is 8·⌈n/5⌉ characters; without it ⌈8n/5⌉ |
| Base32.GroupBytes | Sources/Bases/Base32.swift:206-217 | eight values give five bytes |
| Base32.BytesFields | Sources/Bases/Base32.swift:206-217 | for values below 32 the five bytes are c0·8+c1/4, c1%4·64+c2·2+c3/16, c3%16·16+c4/2, c4%2·128+c5·4+c6/8, c6%8·32+c7 |
| Base32.GroupRoundTrip | Sources/Bases/Base32.swift:106-217 | splitting five bytes into eight fields and joining them again gives the five bytes |
| Base32.BytesSymbols | Sources/Bases/Base32.swift:106-218 | decoding the values of whole groups gives the groups back |
| Base32.Bytes | Sources/Bases/Base32.swift:194-218 | five bytes per whole chunk of eight values |
| Base32.DecodedGroups | Sources/Bases/Base32.swift:194-218 | a successful decoding has five bytes per eight characters |
| Base32.Filled | Sources/Bases/Base32.swift:188-190 | the text filled with `characters[0]` up to a multiple of 8 |
| Base32.Decode | Sources/Bases/Base32.swift:176-225 | empty text gives no bytes; otherwise trim trailing padding, fill to a multiple of 8, decode the chunks and drop (c+1)·5/8 bytes: returns `Decoded(a, text)` |
| Base32.DecodeGroups | Sources/Bases/Base32.swift:194-218 | the loop over chunks of eight returns `DecodedGroups(a, text)`, stopping at the first chunk that fails |
| Base32.DecodedGroupsStep | Sources/Bases/Base32.swift:194-218 | one chunk either adds its five bytes or makes the whole text fail with its own error |
| Base32.FillerCounts | Sources/Bases/Base32.swift:98-222 | for p filler bytes the p·8/5 filler characters are fewer than 8, zero only for p = 0, and (p·8/5 + 1)·5/8 = p, so the decoder drops exactly the filler bytes |
| Base32.FillAfterTrim | Sources/Bases/Base32.swift:188 | a text of 8m characters less its last c is filled back by exactly c |
| Base32.SymbolsZeros | Sources/Bases/Base32.swift:98-151 | the last p·8/5 values of a text whose last p bytes are zero are zero |
| Base32.UnpaddedEncoded | Sources/Bases/Base32.swift:151-185 | trimming the padding of an encoding leaves the kept characters |
| Base32.FilledKept | Sources/Bases/Base32.swift:151-190 | filling the kept characters with `characters[0]` restores the full spelled-out text |
| Base32.WithoutFillerPadded | Sources/Bases/Base32.swift:220-222 | dropping the bytes decoded from filler leaves the data |
| Base32.WholeGroups | Sources/Bases/Base32.swift:106-218 | decoding the spelled-out values of whole groups gives the groups back |
| Base32.RoundTrip | Sources/Bases/Base32.swift:93-225 | for every byte sequence, decoding its encoding gives it back, for any alphabet of 32 characters whose table inverts them and whose padding is not one of them |
| Base32.DecodedOutcome | Sources/Bases/Base32.swift:183-204 | with an inverting table, decoding succeeds exactly when every character left after trimming the padding is ASCII and has an entry; it never fails with `wrongNumberOfBytes` |
| Base32.DecodedFirstError | Sources/Bases/Base32.swift:183-202 | once trailing padding is trimmed, the first character that is not ASCII fails the decoding with `nonAsciiCharacters`, and the first one without an entry with `valuesNotInAlphabet`, whatever follows |
| Base32.GroupCodes | Sources/Bases/Base32.swift:55-62 | every group becomes the list of its members' ASCII codes |
| Base32.GroupTableSynonyms | Sources/Bases/Base32.swift:64-69 | with disjoint groups, every member's code maps to its group and every entry names a group containing that code |
| Base32.EncodedLengths | Sources/Bases/Base32.swift:98-154 | the characters kept after dropping the filler are positive in number and need exactly p·8/5 to fill up again |
| Base32.EncodedCounts | Sources/Bases/Base32.swift:98-154 | the groups are ⌈n/5⌉ and the kept characters ⌈8n/5⌉ |
| Base32Alphabets.Rfc4648Checked | Tests/BasesTests/Base32Tests.swift:61-73 | `rfc4648` is what the initialiser builds from its synonym groups with padding "=" |
| Base32Alphabets.Rfc4648Inverts | Sources/Bases/Base32+Alphabet.swift:11-35 | the `rfc4648` table inverts its characters |
| Base32Alphabets.Rfc4648PaddingUnmapped | Sources/Bases/Base32+Alphabet.swift:16-34 | "=" has no entry in `rfc4648` |
| Base32Alphabets.Rfc4648Fits | Sources/Bases/Base32+Alphabet.swift:11-35 | `rfc4648` meets the round-trip conditions |
| Base32Alphabets.ZBase32Checked | Tests/BasesTests/Base32Tests.swift:75-87 | `zBase32` is what the initialiser builds from its groups without padding |
| Base32Alphabets.ZBase32Inverts | Sources/Bases/Base32+Alphabet.swift:37-61 | the `zBase32` table inverts its characters |
| Base32Alphabets.ZBase32Fits | Sources/Bases/Base32+Alphabet.swift:37-61 | `zBase32` meets the round-trip conditions |
| Base32Alphabets.CrockfordChecked | Tests/BasesTests/Base32Tests.swift:89-108 | `crockford` is what the initialiser builds from its synonym groups without padding |
| Base32Alphabets.CrockfordInverts | Sources/Bases/Base32+Alphabet.swift:63-87 | the `crockford` table inverts its characters |
| Base32Alphabets.CrockfordFits | Sources/Bases/Base32+Alphabet.swift:63-87 | `crockford` meets the round-trip conditions |
| Base32Alphabets.Base32hexChecked | Tests/BasesTests/Base32Tests.swift:110-122 | `base32hex` is what the initialiser builds from its synonym groups with padding "=" |
| Base32Alphabets.Base32hexInverts | Sources/Bases/Base32+Alphabet.swift:89-113 | the `base32hex` table inverts its characters |
| Base32Alphabets.Base32hexPaddingUnmapped | Sources/Bases/Base32+Alphabet.swift:94-112 | "=" has no entry in `base32hex` |
| Base32Alphabets.Base32hexFits | Sources/Bases/Base32+Alphabet.swift:89-113 | `base32hex` meets the round-trip conditions |
| Base32Alphabets.GeohashChecked | Tests/BasesTests/Base32Tests.swift:124-136 | `geohash` is what the initialiser builds from its synonym groups without padding |
| Base32Alphabets.GeohashInverts | Sources/Bases/Base32+Alphabet.swift:115-139 | the `geohash` table inverts its characters |
| Base32Alphabets.GeohashFits | Sources/Bases/Base32+Alphabet.swift:115-139 | `geohash` meets the round-trip conditions |
| Base32Alphabets.WordSafeChecked | Tests/BasesTests/Base32Tests.swift:138-150 | `wordSafe` is what the initialiser builds from its single-member groups without padding |
| Base32Alphabets.WordSafeInverts | Sources/Bases/Base32+Alphabet.swift:141-165 | the `wordSafe` table inverts its characters |
| Base32Alphabets.WordSafeFits | Sources/Bases/Base32+Alphabet.swift:141-165 | `wordSafe` meets the round-trip conditions |
| Base32Alphabets.Paddings | Sources/Bases/Base32+Alphabet.swift:11-165 | only `rfc4648` and `base32hex` pad, both with "=" |
| Base32Alphabets.BuiltInRoundTrips | Sources/Bases/Base32+Alphabet.swift:11-165 | each of the six built-in alphabets decodes what it encodes |
| Base32Alphabets.Rfc4648IgnoresCase | Sources/Bases/Base32+Alphabet.swift:16-33 | `rfc4648` maps every lower-case letter to the value of its upper-case form |
| Base32Alphabets.CrockfordLookAlikes | Sources/Bases/Base32+Alphabet.swift:68-85 | I, i, L and l read as 1, O and o as 0, and U and u are unmapped |
| Base32Alphabets.GeohashGaps | Sources/Bases/Base32+Alphabet.swift:120-137 | a, i, l and o are unmapped in both cases |
| Base32Alphabets.Rfc4648F | Tests/BasesTests/Base32Tests.swift:14-29 | "f" encodes as "MY======" |
| Base32Alphabets.Rfc4648FDecoded | Tests/BasesTests/Base32Tests.swift:14-29 | "MY======" decodes to "f" |
| Base32Alphabets.Rfc4648Foobar | Tests/BasesTests/Base32Tests.swift:14-29 | "foobar" encodes as "MZXW6YTBOI======" |
| Base32Alphabets.Rfc4648FoobarDecoded | Tests/BasesTests/Base32Tests.swift:14-29 | "MZXW6YTBOI======" decodes to "foobar" |
| Base32Alphabets.Base32hexF | Tests/BasesTests/Base32Tests.swift:32-47 | "f" encodes as "CO======" in `base32hex` |
| Base32Alphabets.Base32hexFDecoded | Tests/BasesTests/Base32Tests.swift:32-47 | "CO======" decodes to "f" |
| Base32Alphabets.Base32hexFoobar | Tests/BasesTests/Base32Tests.swift:32-47 | "foobar" encodes as "CPNMUOJ1E8======" in `base32hex` |
| Base32Alphabets.Base32hexFoobarDecoded | Tests/BasesTests/Base32Tests.swift:32-47 | "CPNMUOJ1E8======" decodes to "foobar" |
| Base32Alphabets.Rfc4648Fo | Tests/BasesTests/Base32Tests.swift:14-29 | "fo" encodes as "MZXQ====" |
| Base32Alphabets.Rfc4648Foo | Tests/BasesTests/Base32Tests.swift:14-29 | "foo" encodes as "MZXW6===" |
| Base32Alphabets.Rfc4648Foob | Tests/BasesTests/Base32Tests.swift:14-29 | "foob" encodes as "MZXW6YQ=" |
| Base32Alphabets.Rfc4648Fooba | Tests/BasesTests/Base32Tests.swift:14-29 | "fooba" encodes as "MZXW6YTB" |
| Base32Alphabets.Base32hexFo | Tests/BasesTests/Base32Tests.swift:32-47 | "fo" encodes as "CPNG====" in `base32hex` |
| Base32Alphabets.Base32hexFoo | Tests/BasesTests/Base32Tests.swift:32-47 | "foo" encodes as "CPNMU===" in `base32hex` |
| Base32Alphabets.Base32hexFoob | Tests/BasesTests/Base32Tests.swift:32-47 | "foob" encodes as "CPNMUOG=" in `base32hex` |
| Base32Alphabets.Base32hexFooba | Tests/BasesTests/Base32Tests.swift:32-47 | "fooba" encodes as "CPNMUOJ1" in `base32hex` |
| Base32Alphabets.Rfc4648VectorsDecoded | Tests/BasesTests/Base32Tests.swift:14-30 | each of the seven vectors, "" included, decodes back in `rfc4648` |
| Base32Alphabets.Base32hexVectorsDecoded | Tests/BasesTests/Base32Tests.swift:32-48 | each of the seven vectors, "" included, decodes back in `base32hex` |
| Base32Alphabets.Rfc4648DecodingErrors | Tests/BasesTests/Base32Tests.swift:50-59 | "¡" fails with `nonAsciiCharacters` and "_" with `valuesNotInAlphabet` |
| Base32Alphabets.AlphabetErrors | Tests/BasesTests/Base32Tests.swift:152-170 | no groups and 32 empty groups give `wrongNumberOfCharacters`; 32 groups of "¡", with or without "¡" padding, give `noAsciiValue` |
| Base64.Checked | Sources/Bases/Base64.swift:48-69 | on success: the characters as given, a 128-entry table, the padding and line separator as given |
| Base64.NewAlphabet | Sources/Bases/Base64.swift:48-69 | the initialiser (count guard, `asciiValue` map, fill loop) returns `Checked(characters, padding, lineSeparator)` |
| Base64.CheckedInverts | Sources/Bases/Base64.swift:60-63 | for distinct characters the table sends each character back to its index and gives nothing else an entry |
| Base64.CheckedErrors | Sources/Bases/Base64.swift:49-58 | fails with `wrongNumberOfCharacters` exactly when there are not 64 characters, with `noAsciiValue` exactly when there are 64 and one is not ASCII; padding and separator never make it fail |
| Base64.Fields | Sources/Bases/Base64.swift:108-125 | the shifts and masks of one group compute b0/4, b0%4·16+b1/16, b1%16·4+b2/64 and b2%64, each below 64 |
| Base64.GroupSymbols | Sources/Bases/Base64.swift:108-125 | three bytes give four values, each below 64 |
| Base64.Symbols | Sources/Bases/Base64.swift:107-126 | whole groups give 4 values per 3 bytes, each below 64 |
| Base64.SymbolsStep | Sources/Bases/Base64.swift:107-126 | one more group of three bytes appends its four values |
| Base64.Padded | Sources/Bases/Base64.swift:99-102 | the data followed by zero bytes up to a multiple of 3 |
| Base64.Encode | Sources/Bases/Base64.swift:94-140 | empty data gives ""; otherwise zero-fill, encode the groups, drop p·4/3 characters, pad when asked and the alphabet has padding, and wrap into lines: returns `Encoded(a, pad, data)` |
| Base64.EncodeGroups | Sources/Bases/Base64.swift:107-126 | the loop over chunks of three returns the spelled-out `Symbols(padded)` |
| Base64.GroupBytes | Sources/Bases/Base64.swift:194-201 | four values give three bytes |
| Base64.BytesFields | Sources/Bases/Base64.swift:194-201 | for values below 64 the three bytes are c0·4+c1/16, c1%16·16+c2/4, c2%4·64+c3 |
| Base64.Bytes | Sources/Bases/Base64.swift:182-202 | three bytes per whole chunk of four values |
| Base64.DecodedGroups | Sources/Bases/Base64.swift:182-202 | a successful decoding has three bytes per four characters |
| Base64.Filled | Sources/Bases/Base64.swift:175-178 | the text filled with `characters[0]` up to a multiple of 4 |
| Base64.Decode | Sources/Bases/Base64.swift:159-209 | empty text gives no bytes; otherwise remove separators, trim trailing padding, fill to a multiple of 4, decode the chunks and drop (c+1)·3/4 bytes: returns `Decoded(a, text)` |
| Base64.DecodedGroupsStep | Sources/Bases/Base64.swift:182-202 | one chunk either adds its three bytes or makes the whole text fail with its own error |
| Base64.DecodeGroups | Sources/Bases/Base64.swift:182-202 | the loop over chunks of four returns `DecodedGroups(a, text)` |
| Base64.SymbolsClosed | Sources/Bases/Base64.swift:108-125 | the four fields of a group, most significant first, are b0/4, b0%4·16+b1/16, b1%16·4+b2/64, b2%64 |
| Base64.GroupRoundTrip | Sources/Bases/Base64.swift:108-201 | splitting three bytes into four fields and joining them again gives the three bytes |
| Base64.BytesSymbols | Sources/Bases/Base64.swift:107-202 | decoding the values of whole groups gives the groups back |
| Base64.FillerCounts | Sources/Bases/Base64.swift:99-205 | for p filler bytes the p·4/3 filler characters are fewer than 4, zero only for p = 0, and (p·4/3 + 1)·3/4 = p |
| Base64.FillAfterTrim | Sources/Bases/Base64.swift:176 | a text of 4m characters less its last c is filled back by exactly c |
| Base64.GroupZeros | Sources/Bases/Base64.swift:108-125 | the last p·4/3 fields of a group whose last p bytes are zero are zero |
| Base64.SymbolsZeros | Sources/Bases/Base64.swift:99-128 | the last p·4/3 values of a text whose last p bytes are zero are zero |
| Base64.EncodedLengths | Sources/Bases/Base64.swift:99-128 | the characters kept after dropping the filler are positive in number and need exactly p·4/3 to fill up again |
| Base64.BodyCharacters | Sources/Bases/Base64.swift:107-131 | before wrapping, every character of the encoding is an alphabet character or the padding |
| Base64.UnpaddedBody | Sources/Bases/Base64.swift:128-173 | trimming the padding of an encoding leaves the kept characters |
| Base64.FilledKept | Sources/Bases/Base64.swift:128-178 | filling the kept characters with `characters[0]` restores the full spelled-out text |
| Base64.WithoutFillerPadded | Sources/Bases/Base64.swift:204-206 | dropping the bytes decoded from filler leaves the data |
| Base64.WholeGroups | Sources/Bases/Base64.swift:107-202 | decoding the spelled-out values of whole groups gives the groups back |
| Base64.SeparatorsRemoved | Sources/Bases/Base64.swift:133-168 | removing the separator from lines joined by it gives the lines back, when no line contains the separator's first character |
| Base64.SeparatorRemoved | Sources/Bases/Base64.swift:166-168 | a line free of the separator's first character survives the replacement, and the separator after it goes |
| Base64.JoinedEmpty | Sources/Bases/Base64.swift:133-137 | joining with an empty separator concatenates |
| Base64.LinesAvoidSeparator | Sources/Bases/Base64.swift:133-137 | no line of the encoding contains the separator's first character, when that is neither an alphabet character nor the padding |
| Base64.SeparatorsRemovedFromBody | Sources/Bases/Base64.swift:133-168 | removing the separator from a wrapped encoding gives the unwrapped one |
| Base64.EncodedLines | Sources/Bases/Base64.swift:133-137 | a wrapped encoding is its lines joined by the separator, every line but the last exactly `length` long and the last non-empty and no longer |
| Base64.EncodedUnwrapped | Sources/Bases/Base64.swift:133-137 | without a line separator nothing is wrapped |
| Base64.RoundTrip | Sources/Bases/Base64.swift:94-209 | for every byte sequence and either choice of padding, decoding its encoding gives it back, for any alphabet of 64 characters whose table inverts them, whose padding is not one of them and whose separator starts with neither |
| Base64.JoinedLength | Sources/Bases/Base64.swift:133-137 | lines joined by a separator are as long as the lines plus one separator between each two |
| Base64.EncodedCounts | Sources/Bases/Base64.swift:99-128 | the groups are ⌈n/3⌉ and the kept characters ⌈4n/3⌉ |
| Base64.BodyLength | Sources/Bases/Base64.swift:99-131 | before wrapping, a padded encoding is 4·⌈n/3⌉ characters and an unpadded one ⌈4n/3⌉ |
| Base64.EncodedLength | Sources/Bases/Base64.swift:94-140 | the encoding is the body's length plus one separator per line break, ⌈body/length⌉ − 1 of them |
| Base64.WrappedLength | Sources/Bases/Base64.swift:133-137 | chunking a non-empty text into lines and joining them adds ⌈n/length⌉ − 1 separators |
| Base64.DecodedOutcome | Sources/Bases/Base64.swift:166-192 | with an inverting table, decoding succeeds exactly when every character left after removing separators and trailing padding is ASCII and has an entry; it never fails with `wrongNumberOfBytes` |
| Base64.GroupSymbolsAre | Sources/Bases/Base64.swift:108-125 | four values with the field formulas are the group's values |
| Base64.SymbolsAre | Sources/Bases/Base64.swift:107-126 | values that meet the field formulas group by group are `Symbols` of the data |
| Base64.SymbolsAppend | Sources/Bases/Base64.swift:107-126 | the values of two runs of whole groups are the values of each, concatenated |
| Base64.BodyFrom | Sources/Bases/Base64.swift:128-131 | the unwrapped encoding is the spelled-out text less the filler characters, followed by that many padding characters when padding |
| Base64.DecodedFirstError | Sources/Bases/Base64.swift:166-192 | once separators are removed and trailing padding trimmed, the first character that is not ASCII fails the decoding with `nonAsciiCharacters`, and the first one without an entry with `valuesNotInAlphabet`, whatever follows |
| Base64Alphabets.StandardInverts | Sources/Bases/Base64+Alphabet.swift:13-40 | the `standard` table sends every character back to its index |
| Base64Alphabets.StandardOnlyCharacters | Sources/Bases/Base64+Alphabet.swift:13-40 | only the 64 characters have entries in the `standard` table |
| Base64Alphabets.StandardChecked | Sources/Bases/Base64+Alphabet.swift:13-40 | the initialiser builds the `standard` table from its characters, with any padding and separator |
| Base64Alphabets.StandardExcludes | Sources/Bases/Base64+Alphabet.swift:13-40 | "=" and "\r" are not `standard` characters |
| Base64Alphabets.Base64urlInverts | Sources/Bases/Base64+Alphabet.swift:43-70 | the `base64url` table sends every character back to its index |
| Base64Alphabets.Base64urlOnlyCharacters | Sources/Bases/Base64+Alphabet.swift:43-70 | only the 64 characters have entries in the `base64url` table |
| Base64Alphabets.Base64urlChecked | Sources/Bases/Base64+Alphabet.swift:43-70 | the initialiser builds the `base64url` table from its characters |
| Base64Alphabets.Base64urlExcludes | Sources/Bases/Base64+Alphabet.swift:43-70 | "=" and "\r" are not `base64url` characters |
| Base64Alphabets.ImapMailboxNamesInverts | Sources/Bases/Base64+Alphabet.swift:104-131 | the `imapMailboxNames` table sends every character back to its index |
| Base64Alphabets.ImapMailboxNamesOnlyCharacters | Sources/Bases/Base64+Alphabet.swift:104-131 | only the 64 characters have entries in the `imapMailboxNames` table |
| Base64Alphabets.ImapMailboxNamesChecked | Sources/Bases/Base64+Alphabet.swift:104-131 | the initialiser builds the `imapMailboxNames` table from its characters |
| Base64Alphabets.ImapMailboxNamesExcludes | Sources/Bases/Base64+Alphabet.swift:104-131 | "=" and "\r" are not `imapMailboxNames` characters |
| Base64Alphabets.MimeWithLineLength | Sources/Bases/Base64+Alphabet.swift:171-200 | succeeds exactly for a positive length, else fails with `nonPositiveLength`; the result is `mime` with a "\r\n" separator of that length |
| Base64Alphabets.MimeWithLineLengthExamples | Sources/Bases/Base64+Alphabet.swift:137-200 | a line length of 76 gives `mime` itself; no length below 1 is accepted |
| Base64Alphabets.BuiltInsChecked | Tests/BasesTests/Base64Tests.swift:60-136 | each of the five built-in alphabets is what the initialiser builds from its characters, padding and separator |
| Base64Alphabets.Base64urlVariant | Sources/Bases/Base64+Alphabet.swift:13-70 | `base64url` differs from `standard` only in "-" and "_" for 62 and 63 |
| Base64Alphabets.ImapMailboxNamesVariant | Sources/Bases/Base64+Alphabet.swift:104-131 | `imapMailboxNames` differs from `standard` only in "," for 63 |
| Base64Alphabets.StandardFits | Sources/Bases/Base64+Alphabet.swift:13-40 | `standard` has 64 characters, an inverting table, and neither "=" nor "\r" among them |
| Base64Alphabets.BuiltInRoundTrips | Sources/Bases/Base64+Alphabet.swift:13-164 | each of the five built-in alphabets decodes what it encodes, padded or not |
| Base64Alphabets.MimeWithLineLengthRoundTrip | Sources/Bases/Base64+Alphabet.swift:171-200 | MIME with any positive line length decodes what it encodes |
| Base64Alphabets.FEncoded | Tests/BasesTests/Base64Tests.swift:15-31 | "f" encodes as "Zg==" padded and "Zg" unpadded |
| Base64Alphabets.FoobarEncoded | Tests/BasesTests/Base64Tests.swift:15-31 | "foobar" encodes as "Zm9vYmFy" |
| Base64Alphabets.FoEncoded | Tests/BasesTests/Base64Tests.swift:15-31 | "fo" encodes as "Zm8=" with padding |
| Base64Alphabets.FooEncoded | Tests/BasesTests/Base64Tests.swift:15-31 | "foo" encodes as "Zm9v" with padding |
| Base64Alphabets.FoobEncoded | Tests/BasesTests/Base64Tests.swift:15-31 | "foob" encodes as "Zm9vYg==" with padding |
| Base64Alphabets.FoobaEncoded | Tests/BasesTests/Base64Tests.swift:15-31 | "fooba" encodes as "Zm9vYmE=" with padding |
| Base64Alphabets.VectorsDecoded | Tests/BasesTests/Base64Tests.swift:15-31 | each of the seven vectors, "" included, decodes back in `standard` |
| Base64Alphabets.TenAEncoded | Tests/BasesTests/LineSeparatorTests.swift:35-49 | ten bytes 0x41 encode as "QUF_BQU_FBQ_UFB_QQ=_=" with a "_" separator every 3 characters |
| Base64Alphabets.TenADecoded | Tests/BasesTests/LineSeparatorTests.swift:35-49 | "QUF_BQU_FBQ_UFB_QQ=_=" decodes back to the ten bytes |
| Base64Alphabets.MimeEightyBytes | Tests/BasesTests/Base64Tests.swift:33-47 | 80 bytes encode in MIME as 110 characters, with "\r\n" after the first 76 and nowhere else |
| Base64Alphabets.DecodingErrors | Tests/BasesTests/Base64Tests.swift:49-58 | "¡" fails with `nonAsciiCharacters` and "_" with `valuesNotInAlphabet` |
| Base64Alphabets.AlphabetErrors | Tests/BasesTests/Base64Tests.swift:138-151 | no characters give `wrongNumberOfCharacters`; 64 "¡", with or without "¡" padding, give `noAsciiValue` |
| Base64Alphabets.UnderscoredFits | Tests/BasesTests/LineSeparatorTests.swift:35-49 | the `standard` characters with a "_" separator every 3 characters meet the round-trip conditions |
| Base85.Checked | Sources/Bases/Base85.swift:59-88 | on success: the characters as given, a 128-entry table, the delimiters and shortcut characters as given |
| Base85.NewAlphabet | Sources/Bases/Base85.swift:59-88 | the initialiser (count guard, `asciiValue` map, fill loop) returns `Checked(...)` |
| Base85.CheckedInverts | Sources/Bases/Base85.swift:77-80 | for distinct characters the table sends each character back to its index and gives nothing else an entry |
| Base85.CheckedErrors | Sources/Bases/Base85.swift:66-75 | fails with `wrongNumberOfCharacters` exactly when there are not 85 characters, with `noAsciiValue` exactly when there are 85 and one is not ASCII; delimiters and shortcuts never make it fail |
| Base85.Word | Sources/Bases/Base85.swift:119-121 | four bytes read big-endian give a number below 2^32 |
| Base85.WordDigits | Sources/Bases/Base85.swift:123-129 | a 32-bit number gives five digits, each below 85 |
| Base85.WordDigitsValue | Sources/Bases/Base85.swift:123-234 | the five digits, weighted 85^4 … 1, add up to the number again |
| Base85.GroupNumber | Sources/Bases/Base85.swift:229-234 | the checked 32-bit sum of a group is present exactly when the weighted sum is below 2^32, and is then that sum |
| Base85.WordBytes | Sources/Bases/Base85.swift:236-241 | a 32-bit number gives four bytes |
| Base85.WordBytesAbove | Sources/Bases/Base85.swift:236-241 | adding less than 256^k to a word leaves its leading 4 − k bytes unchanged |
| Base85.GroupRoundTrip | Sources/Bases/Base85.swift:119-241 | four bytes turned into five digits and back give the four bytes, and the digits never overflow |
| Base85.FilledNumber | Sources/Bases/Base85.swift:213-215 | replacing the last p digits of a group by 84 raises its value by less than 85^p |
| Base85.LastGroup | Sources/Bases/Base85.swift:111-245 | the last group, cut to 5 − p digits and filled with 84, still fits 32 bits and gives back its 4 − p data bytes |
| Base85.Digits | Sources/Bases/Base85.swift:116-130 | whole groups give 5 digits per 4 bytes, each below 85 |
| Base85.Padded | Sources/Bases/Base85.swift:111-114 | the data followed by zero bytes up to a multiple of 4 |
| Base85.FillerCounts | Sources/Bases/Base85.swift:112-245 | p filler bytes drop p characters when p < 4, and a decoder filling c characters drops c bytes for 0 < c < 4 but 3 for c = 4 |
| Base85.ShortcutWords | Sources/Bases/Base85.swift:153-170 | four zeros are the word 0 and four spaces the word 538976288 |
| Base85.ShortcutDigits | Sources/Bases/Base85.swift:153-170 | those words have the digits 0 0 0 0 0 and 10 27 53 67 43, the ones the shortcut test compares |
| Base85.Encode | Sources/Bases/Base85.swift:106-173 | empty data gives ""; otherwise zero-fill, five digits per group, drop the filler, shorten whole groups of zeros and spaces, undo a trailing zero shortcut and add the delimiters: returns `Encoded(a, data)` |
| Base85.Decode | Sources/Bases/Base85.swift:192-285 | empty text gives no bytes; otherwise strip delimiters, expand shortcuts, fill with `characters[84]`, look up and convert the groups and drop (c+1)·3/4 bytes: returns `Decoded(a, text)` |
| Base85.DecodeCharacters | Sources/Bases/Base85.swift:213-246 | the fill, the lookup (`Lookup`) and the per-group conversion (`GroupsBytes`) of the map/flatMap pipeline, then the `removeLast` slice, return `DecodedCharacters(a, t)` |
| Base85.GroupsBytes | Sources/Bases/Base85.swift:228-242 | a successful conversion has four bytes per five digits; the only way it fails is overflow |
| Base85.ExpandedAppend | Sources/Bases/Base85.swift:251-285 | expanding shortcuts works character by character, so it distributes over concatenation |
| Base85.ExpandedPlain | Sources/Bases/Base85.swift:251-285 | a text of alphabet characters is left alone when the shortcut characters are not in the alphabet |
| Base85.ExpandedShortcut | Sources/Bases/Base85.swift:152-285 | expanding what `addZerosSpacesCharacters` made of a chunk gives the chunk back |
| Base85.ExpandedShortened | Sources/Bases/Base85.swift:131-285 | expanding the shortened chunks gives the unshortened text |
| Base85.ExpandedTrailing | Sources/Bases/Base85.swift:136-267 | replacing a trailing zero shortcut by five `characters[0]` does not change the expansion |
| Base85.DelimitedLength | Sources/Bases/Base85.swift:142-147 | adding delimiters never shortens the text |
| Base85.UndelimitedDelimited | Sources/Bases/Base85.swift:142-204 | stripping the delimiters the encoder added gives the body back |
| Base85.KeptLength | Sources/Bases/Base85.swift:111-131 | the characters kept are ⌈5n/4⌉, and filling them up again needs as many characters as there were filler bytes |
| Base85.KeptInAlphabet | Sources/Bases/Base85.swift:123-131 | every kept character is an alphabet character |
| Base85.BodyExpands | Sources/Bases/Base85.swift:131-285 | expanding the shortened body gives the kept characters |
| Base85.GroupsBytesLast | Sources/Bases/Base85.swift:228-242 | one more group either overflows or appends its four bytes |
| Base85.GroupsBytesDigits | Sources/Bases/Base85.swift:116-242 | converting the digits of whole groups back gives the groups |
| Base85.FilledSpelling | Sources/Bases/Base85.swift:123-215 | filling the kept characters with `characters[84]` spells the digits whose last group is filled with 84 |
| Base85.WithoutFillerLast | Sources/Bases/Base85.swift:244-246 | dropping the filler bytes of the last group leaves the data |
| Base85.DecodedKept | Sources/Bases/Base85.swift:111-246 | decoding the kept characters gives the data back |
| Base85.RoundTrip | Sources/Bases/Base85.swift:106-285 | for every byte sequence, decoding its encoding gives it back, for any alphabet of 85 characters whose table inverts them and whose shortcut characters are distinct and outside it |
| Base85.BodyEnd | Sources/Bases/Base85.swift:136-139 | the shortened body is not empty and never ends with the zero shortcut |
| Base85.GroupsBytesOverflow | Sources/Bases/Base85.swift:229-234 | the conversion fails exactly when some group's weighted sum reaches 2^32 |
| Base85.GroupsBytesValues | Sources/Bases/Base85.swift:228-242 | a successful conversion puts the four bytes of group g at 4g |
| Base85.DecodedOutcome | Sources/Bases/Base85.swift:192-226 | with an inverting table, decoding throws exactly when the text is not empty and some character left after stripping delimiters and expanding shortcuts is not ASCII or has no entry; it never throws `wrongNumberOfBytes` |
| Base85.DecodedOverflow | Sources/Bases/Base85.swift:213-242 | the conversion overflows exactly when every character has a value and some filled group's weighted sum reaches 2^32 |
| Base85.ShortenedPlain | Sources/Bases/Base85.swift:152-173 | without shortcut characters nothing is shortened |
| Base85.BodyPlain | Sources/Bases/Base85.swift:131-139 | without shortcut characters the body is the kept characters |
| Base85.EncodedLength | Sources/Bases/Base85.swift:106-150 | without shortcuts the encoding is ⌈5n/4⌉ characters plus the delimiters |
| Base85.DigitsAppend | Sources/Bases/Base85.swift:116-130 | one more group of four bytes appends its five digits |
| Base85.DecodedFirstError | Sources/Bases/Base85.swift:192-226 | once delimiters are stripped and shortcuts expanded, the first character that is not ASCII throws `nonAsciiCharacters`, and the first one without an entry `valuesNotInAlphabet`, whatever follows |
| Base85.EncodedDelimiters | Sources/Bases/Base85.swift:106-147 | the encoding is empty exactly for empty data, even with delimiters; otherwise it starts and ends with the delimiters the alphabet has |
| Base85Alphabets.AsciiInverts | Sources/Bases/Base85+Alphabet.swift:12-43 | the `ascii` table sends every character back to its index |
| Base85Alphabets.AsciiOnlyCharacters | Sources/Bases/Base85+Alphabet.swift:12-43 | only the 85 characters have entries in the `ascii` table |
| Base85Alphabets.AsciiChecked | Sources/Bases/Base85+Alphabet.swift:12-110 | the initialiser builds the `ascii` table from its characters, whatever the delimiters and shortcuts |
| Base85Alphabets.Rfc1924Inverts | Sources/Bases/Base85+Alphabet.swift:114-145 | the `rfc1924Like` table sends every character back to its index |
| Base85Alphabets.Rfc1924OnlyCharacters | Sources/Bases/Base85+Alphabet.swift:114-145 | only the 85 characters have entries in the `rfc1924Like` table |
| Base85Alphabets.Rfc1924Checked | Sources/Bases/Base85+Alphabet.swift:114-145 | the initialiser builds the `rfc1924Like` table from its characters |
| Base85Alphabets.Z85Inverts | Sources/Bases/Base85+Alphabet.swift:152-183 | the `z85` table sends every character back to its index |
| Base85Alphabets.Z85OnlyCharacters | Sources/Bases/Base85+Alphabet.swift:152-183 | only the 85 characters have entries in the `z85` table |
| Base85Alphabets.Z85Checked | Sources/Bases/Base85+Alphabet.swift:152-183 | the initialiser builds the `z85` table from its characters |
| Base85Alphabets.BuiltInsChecked | Tests/BasesTests/Base85Tests.swift:19-110 | each of the five built-in alphabets is what the initialiser builds from its characters, delimiters and shortcuts |
| Base85Alphabets.AsciiExcludes | Sources/Bases/Base85+Alphabet.swift:12-77 | the shortcut characters "z" and "y" are not `ascii` characters |
| Base85Alphabets.BuiltInRoundTrips | Sources/Bases/Base85+Alphabet.swift:12-183 | each of the five built-in alphabets decodes what it encodes |
| Base85Alphabets.BuiltInLengths | Sources/Bases/Base85+Alphabet.swift:12-183 | `ascii`, `rfc1924Like` and `z85` encode n bytes as ⌈5n/4⌉ characters |
| Base85Alphabets.BtoaLikeGroups | Sources/Bases/Base85.swift:152-173 | in `btoaLike` the zero group is "!!!!!" and the spaces group "+<VdL" |
| Base85Alphabets.AbcdEncoded | Tests/BasesTests/Base85Tests.swift:150-159 | 41 42 43 44 encodes as "5sdq," in `ascii` |
| Base85Alphabets.AbcdDecoded | Tests/BasesTests/Base85Tests.swift:150-159 | "5sdq," decodes to 41 42 43 44 |
| Base85Alphabets.AbcdSpacesEfghijEncoded | Tests/BasesTests/Base85Tests.swift:163-173 | "ABCD    EFGHIJ" encodes as "5sdq,y77Kd<8P/" in `btoaLike`, with the spaces shortcut |
| Base85Alphabets.AbcdSpacesEfghijDecoded | Tests/BasesTests/Base85Tests.swift:163-173 | "5sdq,y77Kd<8P/" decodes back |
| Base85Alphabets.ZerosThenOneEncoded | Tests/BasesTests/Base85Tests.swift:175-177 | 0 0 0 0 1 encodes as "z!<" |
| Base85Alphabets.ZerosThenOneDecoded | Tests/BasesTests/Base85Tests.swift:175-177 | "z!<" decodes to 0 0 0 0 1 |
| Base85Alphabets.EightZerosEncoded | Tests/BasesTests/Base85Tests.swift:179-181 | eight zero bytes encode as "z!!!!!": the trailing shortcut is written out |
| Base85Alphabets.EightZerosDecoded | Tests/BasesTests/Base85Tests.swift:179-181 | "z!!!!!" decodes to eight zero bytes |
| Base85Alphabets.BtoaLikeEmpty | Tests/BasesTests/Base85Tests.swift:183-184 | no bytes encode as "" and "" decodes to no bytes |
| Base85Alphabets.Rfc1924SampleEncoded | Tests/BasesTests/Base85Tests.swift:225-239 | the 16-byte sample encodes as "5P$#x0000000;;GAPhlz" |
| Base85Alphabets.Rfc1924SampleDecoded | Tests/BasesTests/Base85Tests.swift:225-239 | "5P$#x0000000;;GAPhlz" decodes to the sample |
| Base85Alphabets.HelloWorldEncoded | Tests/BasesTests/Base85Tests.swift:246-248 | 86 4F D2 6F B5 59 F7 5B encodes as "HelloWorld" in `z85` |
| Base85Alphabets.HelloWorldDecoded | Tests/BasesTests/Base85Tests.swift:246-248 | "HelloWorld" decodes to those bytes |
| Base85Alphabets.DecodingErrors | Tests/BasesTests/Base85Tests.swift:137-146 | "¡" throws `nonAsciiCharacters` and "w" `valuesNotInAlphabet` |
| Base85Alphabets.AlphabetErrors | Tests/BasesTests/Base85Tests.swift:113-135 | no characters give `wrongNumberOfCharacters`, 85 "¡" give `noAsciiValue` |
| Base85Alphabets.AsciiOverflow | Sources/Bases/Base85.swift:229-234 | "uuuuu" (five digits 84) overflows 32 bits |
| Base85Alphabets.AsciiLookupU | Sources/Bases/Base85.swift:217-226 | "uuuuu" looks up as five 84s |
| Base85Alphabets.AsciiLargestGroup | Sources/Bases/Base85.swift:229-234 | the group 84 84 84 84 84 overflows |
| Base85Alphabets.AsciiFits | Sources/Bases/Base85+Alphabet.swift:12-77 | `ascii` has 85 characters, an inverting table, and neither shortcut character among them |
| Base85Alphabets.AsciiConsecutive | Sources/Bases/Base85+Alphabet.swift:12-43 | `ascii` is the 85 consecutive codes 33 to 117, each mapped to its code less 33, and every other code is unmapped |

## Left out

- `Sources/Bases/Data+Extensions.swift` and `Sources/Bases/JSON+Extensions.swift` are not part of this model. They are thin adapters that go through Foundation's UTF-8 strings and `JSONEncoder`/`JSONDecoder` and turn thrown errors into `nil` or a generic decoding error.
- `Sources/BasesCLI/main.swift` (a console demo) and `Package.swift` (build configuration) are not part of this model.
- Swift `Character` and `String` are grapheme clusters; here text is a sequence of code points. A cluster such as "\r\n" is two characters in the model, and `asciiValue` is "code below 128". Every built-in alphabet's characters are single code points, where the two readings agree. The one multi-code-point cluster, `mime`'s "\r\n" separator, is only inserted between lines and removed again as a whole by `replacingOccurrences`; no line of an encoded body contains "\r" (`Base64Alphabets.StandardExcludes`), so reading it as two characters changes no result.
- Foundation's `replacingOccurrences(of:with:)` is modelled by `Text.ReplacingOccurrences`, a left-to-right replacement of non-overlapping occurrences; Foundation's own implementation is not part of this model.
- `UInt32(bigEndian:)` over `withUnsafeBytes` is modelled as the big-endian sum `Base85.Word`, which is what it computes on every platform.
- `reserveCapacity`, `Equatable` conformances and `Data` versus `[UInt8]` are left out: they change no result. Equality of alphabets and line separators is Dafny's structural equality of datatypes.
- Base-85 decoding accumulates in checked `UInt32` arithmetic, which traps on overflow (for instance on "uuuuu"). A trap is not an error the caller can catch, so the model returns the separate failure `Overflow` instead of a thrown `BaseDecodingError`; `Base85.DecodedOverflow` says exactly when it happens.
- CollectionExtensions.Chunks: requires a positive count. With a count of 0 the Swift code traps on the integer division `self.count / count` of its `reserveCapacity` call (Sources/Bases/Collection+Extensions.swift:15) before the loop starts, even for an empty collection, so no result exists to model.
- Base16.Encode, Base32.Encode, Base64.Encode and Base85.Encode: require an alphabet with at least 16, 32, 64 or 85 characters, and the decoders a table of 128 entries. Every alphabet built by a public initialiser or taken from the built-in constants has exactly that many; only the internal unchecked initialiser could build a shorter one, and the Swift code would then trap on an index out of range.
- Base32.RoundTrip, Base64.RoundTrip, Base85.RoundTrip: hold for alphabets whose table inverts their characters and whose padding, line separator or shortcut characters do not collide with them. The initialisers do not check those conditions, so the Swift code promises nothing beyond them either; all built-in alphabets meet them.
- The 269-byte Adobe Ascii85 example (Tests/BasesTests/Base85Tests.swift:187-223) and the 32-byte Z85 example (Tests/BasesTests/Base85Tests.swift:250-257) are not written out as example lemmas. Both alphabets are covered by `Base85Alphabets.BuiltInRoundTrips`, but the particular strings are not computed.
- Base64Alphabets.MimeEightyBytes: states the shape of the 80-byte MIME example (110 characters, "\r\n" after the first 76 and nowhere else) for every 80-byte input, not the particular encoded string of the test.
- The Base-85 trailing-byte formula `(c + 1) * 3 / 4` looks as if it were copied from the Base-64 decoder. The code is followed as written. `Base85.FillerCounts` shows that it equals c for the only fill counts an encoding can need (1 to 3), so the round trip holds, and `Base85.RoundTrip` proves it. A text of 5m + 1 characters, which no encoding has, is decoded with 3 bytes dropped, as the code does.
