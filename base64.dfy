/**
 * The Base-64 codec (Sources/Bases/Base64.swift): every 3 bytes become 4
 * characters, each carrying 6 bits; a short last group is filled with zero
 * bytes, the characters that carry only filler are dropped and, when asked
 * to and the alphabet has one, replaced by the padding character. An
 * alphabet with a line separator cuts the text into lines of a fixed length.
 */
module Base64 {

  import opened Wrappers
  import opened Bits
  import opened Text
  import opened Errors
  import opened AlphabetTables
  import opened CollectionExtensions
  import opened LineSeparators

  /**
   * `characters` maps the 64 values to characters, `values` maps each of the
   * 128 ASCII codes to a value or to nothing; `padding` is the optional
   * padding character, `lineSeparator` the optional line separator.
   */
  datatype Alphabet = Alphabet(
    characters: seq<char>,
    values: seq<Option<byte>>,
    padding: Option<char>,
    lineSeparator: Option<LineSeparator>)

  // ----- Alphabet -----

  /**
   * The outcome of `init(characters:padding:lineSeparator:)`: 64 ASCII
   * characters; neither the padding character nor the separator is checked.
   */
  function Checked(characters: seq<char>, padding: Option<char>, lineSeparator: Option<LineSeparator>): (r: Result<Alphabet, AlphabetError>)
    ensures r.Success? ==> r.value.characters == characters && |r.value.values| == 128
    ensures r.Success? ==> r.value.padding == padding && r.value.lineSeparator == lineSeparator
  {
    if |characters| != 64 then Failure(WrongNumberOfCharacters)
    else if !AllAscii(characters) then Failure(NoAsciiValue)
    else Success(Alphabet(characters, ValueTable(AsciiCodes(characters)), padding, lineSeparator))
  }

  /** `init(characters:padding:lineSeparator:)`: count check, ASCII values, then the 128-entry table. */
  method NewAlphabet(characters: seq<char>, padding: Option<char>, lineSeparator: Option<LineSeparator>)
    returns (r: Result<Alphabet, AlphabetError>)
    ensures r == Checked(characters, padding, lineSeparator)
  {
    if |characters| != 64 {
      return Failure(WrongNumberOfCharacters);
    }
    var asciiValues := AsciiValues(characters);
    if asciiValues.None? {
      return Failure(NoAsciiValue);
    }
    var values := BuildValueTable(asciiValues.value);
    return Success(Alphabet(characters, values, padding, lineSeparator));
  }

  /** A checked alphabet whose characters are distinct decodes exactly its own characters. */
  lemma CheckedInverts(characters: seq<char>, padding: Option<char>, lineSeparator: Option<LineSeparator>)
    requires Checked(characters, padding, lineSeparator).Success? && Distinct(characters)
    ensures Inverts(characters, Checked(characters, padding, lineSeparator).value.values)
    ensures OnlyCharacters(characters, Checked(characters, padding, lineSeparator).value.values)
  {
    ValueTableInverts(characters);
  }

  /**
   * The checked initialiser fails exactly on a wrong count or on a non-ASCII
   * character, in that order, whatever the padding character and separator.
   */
  lemma CheckedErrors(characters: seq<char>, padding: Option<char>, lineSeparator: Option<LineSeparator>)
    ensures Checked(characters, padding, lineSeparator) == Failure(WrongNumberOfCharacters) <==> |characters| != 64
    ensures Checked(characters, padding, lineSeparator) == Failure(NoAsciiValue) <==>
      |characters| == 64 && exists i :: 0 <= i < 64 && !IsAscii(characters[i])
    ensures Checked(characters, padding, lineSeparator).Success? <==> Checked(characters, None, None).Success?
  {
  }

  // ----- Encoder -----

  /** The four 6-bit fields of a group of three bytes, as the bit operations compute them, in arithmetic terms. */
  lemma Fields(b0: byte, b1: byte, b2: byte)
    ensures Shr(b0, 2) == b0 / 4
    ensures Or(Shl(Low(b0, 2), 4), Shr(b1, 4)) == b0 % 4 * 16 + b1 / 16
    ensures Or(Shl(Low(b1, 4), 2), Shr(b2, 6)) == b1 % 16 * 4 + b2 / 64
    ensures Low(b2, 6) == b2 % 64
    ensures b0 / 4 < 64 && b0 % 4 * 16 + b1 / 16 < 64 && b1 % 16 * 4 + b2 / 64 < 64
  {
    Pow2Values();
    DivBelow(b1, 16, 16);
    DivBelow(b2, 64, 4);
    SideBySide(b0 % 4, 4, b1 / 16);
    SideBySide(b1 % 16, 2, b2 / 64);
  }

  /** The 6-bit values of one group of three bytes. */
  function GroupSymbols(b0: byte, b1: byte, b2: byte): (r: seq<byte>)
    ensures |r| == 4 && forall i :: 0 <= i < 4 ==> r[i] < 64
  {
    Fields(b0, b1, b2);
    var s0: byte := Shr(b0, 2);
    var s1: byte := OrByte(Shl(Low(b0, 2), 4), Shr(b1, 4));
    var s2: byte := OrByte(Shl(Low(b1, 4), 2), Shr(b2, 6));
    var s3: byte := Low(b2, 6);
    [s0, s1, s2, s3]
  }

  /** The 6-bit values of whole groups, group after group. */
  function Symbols(data: seq<byte>): (r: seq<byte>)
    requires |data| % 3 == 0
    ensures |r| == |data| / 3 * 4 && forall i :: 0 <= i < |r| ==> r[i] < 64
  {
    if |data| == 0 then []
    else
      var n := |data|;
      Symbols(data[..n - 3]) + GroupSymbols(data[n - 3], data[n - 2], data[n - 1])
  }

  lemma SymbolsStep(data: seq<byte>, i: nat)
    requires 3 * i + 3 <= |data|
    ensures Symbols(data[..3 * i + 3]) == Symbols(data[..3 * i]) + GroupSymbols(data[3 * i], data[3 * i + 1], data[3 * i + 2])
  {
    assert data[..3 * i + 3][..3 * i] == data[..3 * i];
  }

  /** The data followed by the zero bytes that make its length a multiple of 3. */
  function Padded(data: seq<byte>): (r: seq<byte>)
    ensures |r| % 3 == 0 && |r| == |data| + FillCount(|data|, 3)
    ensures r[..|data|] == data && forall j :: |data| <= j < |r| ==> r[j] == 0
  {
    data + Repeat(0, FillCount(|data|, 3))
  }

  /** The encoding of non-empty data before it is cut into lines. */
  function Body(a: Alphabet, pad: bool, data: seq<byte>): (r: seq<char>)
    requires |a.characters| >= 64 && |data| > 0
  {
    var padCharacterCount := FillCount(|data|, 3) * 4 / 3;
    var output := Spell(a.characters, Symbols(Padded(data)));
    output[..|output| - padCharacterCount]
      + (if pad && a.padding.Some? then Repeat(a.padding.value, padCharacterCount) else [])
  }

  /** A line length the line re-chunking can work with; the encoder never reaches it for empty data. */
  predicate Wraps(a: Alphabet, data: seq<byte>) {
    |data| > 0 && a.lineSeparator.Some? ==> a.lineSeparator.value.length > 0
  }

  /** The outcome of `Encoder.encode`. */
  function Encoded(a: Alphabet, pad: bool, data: seq<byte>): (r: seq<char>)
    requires |a.characters| >= 64 && Wraps(a, data)
  {
    if |data| == 0 then []
    else if a.lineSeparator.Some? then
      Joined(Chunked(Body(a, pad, data), a.lineSeparator.value.length), a.lineSeparator.value.separator)
    else Body(a, pad, data)
  }

  /**
   * `Encoder.encode`: zero-fill, four characters per chunk of three, swap the
   * filler characters for padding (when asked to and the alphabet has it),
   * then cut into lines joined by the separator.
   */
  method Encode(a: Alphabet, pad: bool, data: seq<byte>) returns (output: seq<char>)
    requires |a.characters| >= 64 && Wraps(a, data)
    ensures output == Encoded(a, pad, data)
  {
    if |data| == 0 {
      return [];
    }
    var padding := FillCount(|data|, 3);
    var padCharacterCount := padding * 4 / 3;
    output := EncodeGroups(a, data + Repeat(0, padding));
    assert data + Repeat(0, padding) == Padded(data);
    output := output[..|output| - padCharacterCount];
    if pad && a.padding.Some? {
      output := output + Repeat(a.padding.value, padCharacterCount);
    }
    assert output == Body(a, pad, data);
    if a.lineSeparator.Some? {
      var lines := Chunks(output, a.lineSeparator.value.length);
      output := Joined(lines, a.lineSeparator.value.separator);
    }
  }

  /** The loop of `Encoder.encode`: four characters for every chunk of three bytes. */
  method EncodeGroups(a: Alphabet, padded: seq<byte>) returns (output: seq<char>)
    requires |a.characters| >= 64 && |padded| % 3 == 0
    ensures output == Spell(a.characters, Symbols(padded))
  {
    var chunks := Chunks(padded, 3);
    var n := |padded| / 3;
    assert |padded| == n * 3;
    ChunkedCount(padded, 3);
    DivModUnique(|padded| + 2, 3, n, 2);
    output := [];
    for i := 0 to |chunks|
      invariant i <= n
      invariant output == Spell(a.characters, Symbols(padded[..3 * i]))
    {
      var chunk := chunks[i];
      ChunkAt(padded, 3, i);
      DivModUnique(3 * i, 3, i, 0);
      SymbolsStep(padded, i);
      var symbols := GroupSymbols(chunk[0], chunk[1], chunk[2]);
      SpellAppend(a.characters, Symbols(padded[..3 * i]), symbols);
      output := output + Spell(a.characters, symbols);
    }
    assert padded[..3 * |chunks|] == padded;
  }

  // ----- Decoder -----

  /** The three bytes of one chunk of four 6-bit values, as the decoder's bit operations compute them. */
  function GroupBytes(characters: seq<byte>): (r: seq<byte>)
    requires |characters| == 4
    ensures |r| == 3
  {
    var c := characters;
    var d0: byte := OrByte(Shl(c[0], 2), Shr(c[1], 4));
    var d1: byte := OrByte(Shl(Low(c[1], 4), 4), Shr(c[2], 2));
    var d2: byte := OrByte(Shl(Low(c[2], 2), 6), c[3]);
    [d0, d1, d2]
  }

  /** The bytes of the whole chunks of four values, chunk after chunk (a shorter tail contributes nothing). */
  function Bytes(values: seq<byte>): (r: seq<byte>)
    ensures |r| == |values| / 4 * 3
  {
    if |values| < 4 then []
    else
      var n := |values|;
      DivModUnique(n, 4, (n - 4) / 4 + 1, (n - 4) % 4);
      Bytes(values[..n - 4]) + GroupBytes(values[n - 4..])
  }

  /** Looking a text up, then decoding it chunk by chunk. */
  function DecodedGroups(a: Alphabet, text: seq<char>): (r: Result<seq<byte>, DecodingError>)
    requires |a.values| == 128
    ensures r.Success? ==> |r.value| == |text| / 4 * 3
  {
    var values :- Lookup(a.values, text);
    Success(Bytes(values))
  }

  /** The text with every occurrence of the separator removed, when the alphabet has one. */
  function WithoutSeparators(a: Alphabet, text: seq<char>): seq<char> {
    if a.lineSeparator.Some? then ReplacingOccurrences(text, a.lineSeparator.value.separator, []) else text
  }

  /** The text without its trailing padding characters, when the alphabet has one. */
  function Unpadded(a: Alphabet, text: seq<char>): seq<char> {
    if a.padding.Some? then TrimmedSuffix(text, EqualTo(a.padding.value)) else text
  }

  /** The text filled up to a multiple of 4 with the character of value 0. */
  function Filled(a: Alphabet, text: seq<char>): (r: seq<char>)
    requires |a.characters| > 0
    ensures |r| % 4 == 0 && |r| == |text| + FillCount(|text|, 4)
  {
    text + Repeat(a.characters[0], FillCount(|text|, 4))
  }

  /** The decoded bytes without those that came only from filler characters. */
  function WithoutFiller(data: seq<byte>, padCharacterCount: nat): (r: seq<byte>)
    requires padCharacterCount > 0 ==> |data| >= 3
    requires padCharacterCount < 4
  {
    if padCharacterCount > 0 then data[..|data| - (padCharacterCount + 1) * 3 / 4] else data
  }

  /** The outcome of `Decoder.decode`. */
  function Decoded(a: Alphabet, text: seq<char>): (r: Result<seq<byte>, DecodingError>)
    requires |a.characters| > 0 && |a.values| == 128
  {
    if |text| == 0 then Success([])
    else
      var trimmed := Unpadded(a, WithoutSeparators(a, text));
      var data :- DecodedGroups(a, Filled(a, trimmed));
      Success(WithoutFiller(data, FillCount(|trimmed|, 4)))
  }

  /**
   * `Decoder.decode`: remove the separators, drop trailing padding, fill up to
   * a multiple of 4 with the character of value 0, decode, then drop the
   * bytes made of filler.
   */
  method Decode(a: Alphabet, text: seq<char>) returns (r: Result<seq<byte>, DecodingError>)
    requires |a.characters| > 0 && |a.values| == 128
    ensures r == Decoded(a, text)
  {
    if |text| == 0 {
      return Success([]);
    }
    var t := text;
    if a.lineSeparator.Some? {
      t := ReplacingOccurrences(t, a.lineSeparator.value.separator, []);
    }
    if a.padding.Some? {
      t := TrimmingSuffix(t, EqualTo(a.padding.value));
    }
    var padCharacterCount := FillCount(|t|, 4);
    var filled := t + Repeat(a.characters[0], padCharacterCount);
    assert filled == Filled(a, Unpadded(a, WithoutSeparators(a, text)));
    var data :- DecodeGroups(a, filled);
    assert padCharacterCount > 0 ==> |data| >= 3;
    return Success(WithoutFiller(data, padCharacterCount));
  }

  /**
   * One pass of the decoding loop: after a prefix of length `k` decoded
   * fine, the next four characters either make the whole text fail with
   * their own error or add their three bytes.
   */
  lemma DecodedGroupsStep(a: Alphabet, text: seq<char>, k: nat)
    requires |a.values| == 128 && k + 4 <= |text|
    requires DecodedGroups(a, text[..k]).Success?
    ensures Lookup(a.values, text[k..k + 4]).Failure? ==>
      DecodedGroups(a, text) == Failure(Lookup(a.values, text[k..k + 4]).error)
    ensures Lookup(a.values, text[k..k + 4]).Success? ==>
      DecodedGroups(a, text[..k + 4])
        == Success(DecodedGroups(a, text[..k]).value + GroupBytes(Lookup(a.values, text[k..k + 4]).value))
  {
    var prefix := Lookup(a.values, text[..k]).value;
    LookupStep(a.values, text, k, k + 4, prefix);
    var chunk := Lookup(a.values, text[k..k + 4]);
    if chunk.Success? {
      var values := prefix + chunk.value;
      assert values[..|values| - 4] == prefix;
      assert values[|values| - 4..] == chunk.value;
    }
  }

  /** The loop of `Decoder.decode`: look up each chunk of four characters and append its three bytes. */
  method DecodeGroups(a: Alphabet, text: seq<char>) returns (r: Result<seq<byte>, DecodingError>)
    requires |a.values| == 128 && |text| % 4 == 0
    ensures r == DecodedGroups(a, text)
  {
    var chunks := Chunks(text, 4);
    var n := |text| / 4;
    assert |text| == n * 4;
    ChunkedExactly(text, 4, n);
    var data: seq<byte> := [];
    for i := 0 to |chunks|
      invariant i <= n
      invariant DecodedGroups(a, text[..4 * i]) == Success(data)
    {
      var chunk := chunks[i];
      assert chunk == text[4 * i .. 4 * i + 4];
      DecodedGroupsStep(a, text, 4 * i);
      var characters := Lookup(a.values, chunk);
      if characters.Failure? {
        return Failure(characters.error);
      }
      data := data + GroupBytes(characters.value);
    }
    assert text[..4 * n] == text;
    return Success(data);
  }

  // ----- Round trip -----

  lemma Byte0(c0: nat, c1: nat)
    requires c0 < 64 && c1 < 64
    ensures Or(Shl(c0, 2), Shr(c1, 4)) == c0 * 4 + c1 / 16
  {
    Pow2Values();
    SideBySide(c0, 2, c1 / 16);
  }

  lemma Byte1(c1: nat, c2: nat)
    requires c1 < 64 && c2 < 64
    ensures Or(Shl(Low(c1, 4), 4), Shr(c2, 2)) == c1 % 16 * 16 + c2 / 4
  {
    Pow2Values();
    SideBySide(c1 % 16, 4, c2 / 4);
  }

  lemma Byte2(c2: nat, c3: nat)
    requires c2 < 64 && c3 < 64
    ensures Or(Shl(Low(c2, 2), 6), c3) == c2 % 4 * 64 + c3
  {
    Pow2Values();
    SideBySide(c2 % 4, 6, c3);
  }

  /** The decoder's bit operations in arithmetic form, for values below 64. */
  lemma BytesFields(c: seq<byte>)
    requires |c| == 4 && forall i :: 0 <= i < 4 ==> c[i] < 64
    ensures GroupBytes(c) == [c[0] * 4 + c[1] / 16, c[1] % 16 * 16 + c[2] / 4, c[2] % 4 * 64 + c[3]]
  {
    Byte0(c[0], c[1]);
    Byte1(c[1], c[2]);
    Byte2(c[2], c[3]);
  }

  /** The four 6-bit values of a group in arithmetic form. */
  lemma SymbolsClosed(b0: byte, b1: byte, b2: byte)
    ensures var v := GroupSymbols(b0, b1, b2);
      v[0] == b0 / 4 && v[1] == b0 % 4 * 16 + b1 / 16 && v[2] == b1 % 16 * 4 + b2 / 64 && v[3] == b2 % 64
  {
    Fields(b0, b1, b2);
  }

  lemma JoinByte0(b0: int, b1: int, v0: int, v1: int)
    requires 0 <= b0 < 256 && 0 <= b1 < 256
    requires v0 == b0 / 4 && v1 == b0 % 4 * 16 + b1 / 16
    ensures v0 * 4 + v1 / 16 == b0
  {
    DivModUnique(v1, 16, b0 % 4, b1 / 16);
  }

  lemma JoinByte1(b0: int, b1: int, b2: int, v1: int, v2: int)
    requires 0 <= b0 < 256 && 0 <= b1 < 256 && 0 <= b2 < 256
    requires v1 == b0 % 4 * 16 + b1 / 16 && v2 == b1 % 16 * 4 + b2 / 64
    ensures v1 % 16 * 16 + v2 / 4 == b1
  {
    DivModUnique(v1, 16, b0 % 4, b1 / 16);
    DivModUnique(v2, 4, b1 % 16, b2 / 64);
  }

  lemma JoinByte2(b1: int, b2: int, v2: int, v3: int)
    requires 0 <= b1 < 256 && 0 <= b2 < 256
    requires v2 == b1 % 16 * 4 + b2 / 64 && v3 == b2 % 64
    ensures v2 % 4 * 64 + v3 == b2
  {
    DivModUnique(v2, 4, b1 % 16, b2 / 64);
  }

  /** Three bytes survive being split into four 6-bit values and joined again. */
  lemma GroupRoundTrip(b0: byte, b1: byte, b2: byte)
    ensures GroupBytes(GroupSymbols(b0, b1, b2)) == [b0, b1, b2]
  {
    var v := GroupSymbols(b0, b1, b2);
    SymbolsClosed(b0, b1, b2);
    var r := GroupBytes(v);
    assert r[0] == b0 by {
      Byte0(v[0], v[1]);
      JoinByte0(b0, b1, v[0], v[1]);
    }
    assert r[1] == b1 by {
      Byte1(v[1], v[2]);
      JoinByte1(b0, b1, b2, v[1], v[2]);
    }
    assert r[2] == b2 by {
      Byte2(v[2], v[3]);
      JoinByte2(b1, b2, v[2], v[3]);
    }
  }

  /** Decoding the 6-bit values of whole groups gives the groups back. */
  lemma {:induction false} BytesSymbols(data: seq<byte>)
    requires |data| % 3 == 0
    ensures Bytes(Symbols(data)) == data
    decreases |data|
  {
    if |data| > 0 {
      var n := |data|;
      var init := data[..n - 3];
      assert data == init + [data[n - 3], data[n - 2], data[n - 1]];
      var s := Symbols(init);
      var g := GroupSymbols(data[n - 3], data[n - 2], data[n - 1]);
      var sg := s + g;
      assert sg[..|sg| - 4] == s && sg[|sg| - 4..] == g;
      assert Bytes(sg) == Bytes(s) + GroupBytes(g);
      BytesSymbols(init);
      GroupRoundTrip(data[n - 3], data[n - 2], data[n - 1]);
    }
  }

  /**
   * How many characters carry only filler for p zero bytes, and how many
   * bytes the decoder drops for that many missing characters: exactly p.
   */
  lemma FillerCounts(p: nat)
    requires p < 3
    ensures p * 4 / 3 < 4
    ensures p * 4 / 3 == 0 <==> p == 0
    ensures p > 0 ==> (p * 4 / 3 + 1) * 3 / 4 == p
  {
    if p == 1 { assert p * 4 / 3 == 1; }
    else if p == 2 { assert p * 4 / 3 == 2; }
  }

  /** A text of 4m characters with its last c removed is filled back by exactly c characters. */
  lemma FillAfterTrim(m: nat, c: nat)
    requires m >= 1 && c < 4
    ensures FillCount(4 * m - c, 4) == c
  {
    if c == 0 {
      DivModUnique(4 * m, 4, m, 0);
    } else {
      DivModUnique(4 * m - c, 4, m - 1, 4 - c);
    }
  }

  /** The 6-bit values that come only from the p zero bytes at the end of a group are zero. */
  lemma GroupZeros(b0: byte, b1: byte, b2: byte, p: nat)
    requires 1 <= p <= 2
    requires b2 == 0 && (p >= 2 ==> b1 == 0)
    ensures forall j :: 4 - p * 4 / 3 <= j < 4 ==> GroupSymbols(b0, b1, b2)[j] == 0
  {
    SymbolsClosed(b0, b1, b2);
    FillerCounts(p);
  }

  lemma SymbolsLast(data: seq<byte>)
    requires |data| % 3 == 0 && |data| >= 3
    ensures var n := |data|;
      Symbols(data) == Symbols(data[..n - 3]) + GroupSymbols(data[n - 3], data[n - 2], data[n - 1])
  {
  }

  /** The last p * 4 / 3 values of a text whose last p bytes are zero are zero. */
  lemma SymbolsZeros(padded: seq<byte>, p: nat)
    requires |padded| % 3 == 0 && |padded| >= 3 && 1 <= p <= 2
    requires forall j :: |padded| - p <= j < |padded| ==> padded[j] == 0
    ensures forall j :: |Symbols(padded)| - p * 4 / 3 <= j < |Symbols(padded)| ==> Symbols(padded)[j] == 0
  {
    var n := |padded|;
    var b0, b1, b2 := padded[n - 3], padded[n - 2], padded[n - 1];
    assert b2 == 0 && (p >= 2 ==> b1 == 0);
    GroupZeros(b0, b1, b2, p);
    SymbolsLast(padded);
    SuffixOf(Symbols(padded[..n - 3]), GroupSymbols(b0, b1, b2), p * 4 / 3, 0);
  }

  /** The encoding of non-empty data, before its padding characters. */
  function Kept(a: Alphabet, data: seq<byte>): (r: seq<char>)
    requires |a.characters| >= 64 && |data| > 0
  {
    var output := Spell(a.characters, Symbols(Padded(data)));
    output[..|output| - FillCount(|data|, 3) * 4 / 3]
  }

  /** The lengths involved in encoding non-empty data. */
  lemma EncodedLengths(a: Alphabet, data: seq<byte>)
    requires |a.characters| >= 64 && |data| > 0
    ensures |Padded(data)| >= 3
    ensures |Symbols(Padded(data))| == 4 * (|Padded(data)| / 3)
    ensures |Kept(a, data)| == |Symbols(Padded(data))| - FillCount(|data|, 3) * 4 / 3 > 0
    ensures FillCount(|Kept(a, data)|, 4) == FillCount(|data|, 3) * 4 / 3
  {
    var p := FillCount(|data|, 3);
    FillerCounts(p);
    var m := |Padded(data)| / 3;
    DivModUnique(|Padded(data)|, 3, m, 0);
    FillAfterTrim(m, p * 4 / 3);
  }

  /** Every character of the body is an alphabet character or the padding character. */
  lemma BodyCharacters(a: Alphabet, pad: bool, data: seq<byte>)
    requires |a.characters| >= 64 && |data| > 0
    ensures forall k :: 0 <= k < |Body(a, pad, data)| ==>
      Body(a, pad, data)[k] in a.characters || (a.padding.Some? && Body(a, pad, data)[k] == a.padding.value)
  {
    EncodedLengths(a, data);
    var kept := Kept(a, data);
    var c := FillCount(|data|, 3) * 4 / 3;
    forall k | 0 <= k < |Body(a, pad, data)|
      ensures Body(a, pad, data)[k] in a.characters || (a.padding.Some? && Body(a, pad, data)[k] == a.padding.value)
    {
      if k < |kept| {
        assert Body(a, pad, data)[k] == kept[k];
      }
    }
  }

  /** Dropping the trailing padding characters of a body leaves `Kept`. */
  lemma UnpaddedBody(a: Alphabet, pad: bool, data: seq<byte>)
    requires |a.characters| == 64 && |data| > 0
    requires a.padding.Some? ==> a.padding.value !in a.characters
    ensures Unpadded(a, Body(a, pad, data)) == Kept(a, data)
  {
    EncodedLengths(a, data);
    var kept := Kept(a, data);
    var c := FillCount(|data|, 3) * 4 / 3;
    if a.padding.Some? {
      var p := a.padding.value;
      assert kept[|kept| - 1] in a.characters;
      assert !EqualTo(p)(kept[|kept| - 1]);
      if pad {
        assert Body(a, pad, data) == kept + Repeat(p, c);
        TrimmedSuffixAppend(kept, Repeat(p, c), EqualTo(p));
      } else {
        assert Body(a, pad, data) == kept + [];
        assert kept == kept[..|kept| - 1] + [kept[|kept| - 1]];
      }
    }
  }

  /** Filling `Kept` with the character of value 0 restores the full spelled-out text. */
  lemma FilledKept(a: Alphabet, data: seq<byte>)
    requires |a.characters| >= 64 && |data| > 0
    ensures Filled(a, Kept(a, data)) == Spell(a.characters, Symbols(Padded(data)))
  {
    EncodedLengths(a, data);
    var p := FillCount(|data|, 3);
    if p > 0 {
      SymbolsZeros(Padded(data), p);
    }
  }

  /** Dropping the bytes decoded from filler leaves the data. */
  lemma WithoutFillerPadded(data: seq<byte>)
    requires |data| > 0
    ensures FillCount(|data|, 3) * 4 / 3 < 4
    ensures FillCount(|data|, 3) > 0 ==> |Padded(data)| >= 3
    ensures WithoutFiller(Padded(data), FillCount(|data|, 3) * 4 / 3) == data
  {
    FillerCounts(FillCount(|data|, 3));
  }

  /** Decoding whole groups undoes encoding them. */
  lemma WholeGroups(a: Alphabet, data: seq<byte>)
    requires |a.characters| == 64 && Inverts(a.characters, a.values)
    requires |data| % 3 == 0
    ensures DecodedGroups(a, Spell(a.characters, Symbols(data))) == Success(data)
  {
    LookupSpell(a.characters, a.values, Symbols(data));
    BytesSymbols(data);
  }

  // ----- Lines -----

  /** Removing the separators from lines that cannot start one gives the lines back, put together. */
  lemma {:induction false} SeparatorsRemoved(lines: seq<seq<char>>, separator: seq<char>)
    requires |separator| > 0
    requires forall i, j :: 0 <= i < |lines| && 0 <= j < |lines[i]| ==> lines[i][j] != separator[0]
    ensures ReplacingOccurrences(Joined(lines, separator), separator, []) == Flatten(lines)
    decreases |lines|
  {
    if |lines| == 1 {
      ReplacingSkipsUnmatched(lines[0], [], separator, []);
      assert lines[0] + [] == lines[0];
      assert Flatten(lines) == lines[0] + Flatten([]);
    } else if |lines| > 1 {
      SeparatorRemoved(lines[0], Joined(lines[1..], separator), separator);
      SeparatorsRemoved(lines[1..], separator);
    }
  }

  /** Removing the separators from a line that cannot start one, a separator and the rest. */
  lemma SeparatorRemoved(line: seq<char>, rest: seq<char>, separator: seq<char>)
    requires |separator| > 0 && forall j :: 0 <= j < |line| ==> line[j] != separator[0]
    ensures ReplacingOccurrences(line + separator + rest, separator, [])
      == line + ReplacingOccurrences(rest, separator, [])
  {
    assert line + separator + rest == line + (separator + rest);
    ReplacingSkipsUnmatched(line, separator + rest, separator, []);
    ReplacingLeading(rest, separator, []);
  }

  /** With an empty separator, joining is putting together. */
  lemma {:induction false} JoinedEmpty(lines: seq<seq<char>>)
    ensures Joined(lines, []) == Flatten(lines)
    decreases |lines|
  {
    if |lines| == 1 {
      assert Flatten(lines) == lines[0] + Flatten([]);
    } else if |lines| > 1 {
      JoinedEmpty(lines[1..]);
    }
  }

  /**
   * A separator the decoder can remove without touching the encoded text:
   * empty, or starting with a character that is neither an alphabet
   * character nor the padding character.
   */
  predicate SeparatorFits(a: Alphabet) {
    a.lineSeparator.Some? ==>
      a.lineSeparator.value.length > 0 &&
      var s := a.lineSeparator.value.separator;
      |s| == 0 || (s[0] !in a.characters && (a.padding.Some? ==> s[0] != a.padding.value))
  }

  /** No character of any line of the body can start the separator. */
  lemma LinesAvoidSeparator(a: Alphabet, pad: bool, data: seq<byte>, length: nat, separator: seq<char>)
    requires |a.characters| >= 64 && |data| > 0 && length > 0 && |separator| > 0
    requires separator[0] !in a.characters && (a.padding.Some? ==> separator[0] != a.padding.value)
    ensures forall i, j :: 0 <= i < |Chunked(Body(a, pad, data), length)| && 0 <= j < |Chunked(Body(a, pad, data), length)[i]| ==>
      Chunked(Body(a, pad, data), length)[i][j] != separator[0]
  {
    var body := Body(a, pad, data);
    BodyCharacters(a, pad, data);
    ChunkedElements(body, length);
  }

  /** Removing the separators from the encoding restores the body. */
  lemma SeparatorsRemovedFromBody(a: Alphabet, pad: bool, data: seq<byte>)
    requires |a.characters| >= 64 && |data| > 0 && a.lineSeparator.Some? && SeparatorFits(a)
    ensures WithoutSeparators(a, Encoded(a, pad, data)) == Body(a, pad, data)
  {
    var body := Body(a, pad, data);
    var length := a.lineSeparator.value.length;
    var separator := a.lineSeparator.value.separator;
    var lines := Chunked(body, length);
    FlattenChunked(body, length);
    if |separator| == 0 {
      JoinedEmpty(lines);
    } else {
      LinesAvoidSeparator(a, pad, data, length, separator);
      SeparatorsRemoved(lines, separator);
    }
  }

  /**
   * Cutting into lines: every line but the last has exactly the line length,
   * the last is not longer, and removing the separators restores the body.
   */
  lemma EncodedLines(a: Alphabet, pad: bool, data: seq<byte>)
    requires |a.characters| >= 64 && |data| > 0 && a.lineSeparator.Some? && SeparatorFits(a)
    ensures var lines := Chunked(Body(a, pad, data), a.lineSeparator.value.length);
      && Encoded(a, pad, data) == Joined(lines, a.lineSeparator.value.separator)
      && (forall i :: 0 <= i < |lines| - 1 ==> |lines[i]| == a.lineSeparator.value.length)
      && 0 < |lines[|lines| - 1]| <= a.lineSeparator.value.length
      && WithoutSeparators(a, Encoded(a, pad, data)) == Body(a, pad, data)
  {
    var body := Body(a, pad, data);
    EncodedLengths(a, data);
    assert |body| > 0;
    ChunkedCount(body, a.lineSeparator.value.length);
    ChunkedLengths(body, a.lineSeparator.value.length);
    SeparatorsRemovedFromBody(a, pad, data);
  }

  /** Without a separator the encoding is the body itself. */
  lemma EncodedUnwrapped(a: Alphabet, pad: bool, data: seq<byte>)
    requires |a.characters| >= 64 && |data| > 0 && a.lineSeparator.None?
    ensures WithoutSeparators(a, Encoded(a, pad, data)) == Body(a, pad, data)
  {
  }

  /**
   * Decoding undoes encoding, for every byte sequence and either setting of
   * the pad flag, with any alphabet of 64 characters whose table inverts
   * them, whose padding character (if any) is not one of them, and whose
   * separator (if any) has a positive length and cannot be mistaken for
   * encoded text.
   */
  lemma RoundTrip(a: Alphabet, pad: bool, data: seq<byte>)
    requires |a.characters| == 64 && Inverts(a.characters, a.values)
    requires a.padding.Some? ==> a.padding.value !in a.characters
    requires SeparatorFits(a)
    ensures Decoded(a, Encoded(a, pad, data)) == Success(data)
  {
    if |data| > 0 {
      if a.lineSeparator.Some? {
        SeparatorsRemovedFromBody(a, pad, data);
      }
      var body := Body(a, pad, data);
      assert WithoutSeparators(a, Encoded(a, pad, data)) == body;
      UnpaddedBody(a, pad, data);
      EncodedLengths(a, data);
      FilledKept(a, data);
      WholeGroups(a, Padded(data));
      WithoutFillerPadded(data);
      assert |Encoded(a, pad, data)| > 0 by {
        if a.lineSeparator.Some? {
          FlattenChunked(body, a.lineSeparator.value.length);
        }
      }
    }
  }

  /** Joining n lines adds n - 1 separators to their total length. */
  lemma {:induction false} JoinedLength(lines: seq<seq<char>>, separator: seq<char>)
    requires |lines| > 0
    ensures |Joined(lines, separator)| == |Flatten(lines)| + (|lines| - 1) * |separator|
    decreases |lines|
  {
    if |lines| == 1 {
      assert Flatten(lines) == lines[0] + Flatten([]);
    } else {
      JoinedLength(lines[1..], separator);
    }
  }

  lemma EncodedCounts(n: nat)
    ensures (n + FillCount(n, 3)) / 3 == (n + 2) / 3
    ensures 4 * ((n + FillCount(n, 3)) / 3) - FillCount(n, 3) * 4 / 3 == (4 * n + 2) / 3
  {
    var p := FillCount(n, 3);
    var c := p * 4 / 3;
    FillerCounts(p);
    var m := (n + p) / 3;
    DivModUnique(n + p, 3, m, 0);
    DivModUnique(n + 2, 3, m, 2 - p);
    var r := 2 as int - 4 * p + 3 * c;
    DivModUnique(4 * n + 2, 3, 4 * m - c, r);
  }

  /**
   * Before line cutting, the encoding has 4 characters per started group of 3
   * bytes when padded, and otherwise the characters that carry data: the
   * ceiling of 4n/3.
   */
  lemma BodyLength(a: Alphabet, pad: bool, data: seq<byte>)
    requires |a.characters| >= 64 && |data| > 0
    ensures |Body(a, pad, data)| == if pad && a.padding.Some? then (|data| + 2) / 3 * 4 else (4 * |data| + 2) / 3
  {
    EncodedLengths(a, data);
    EncodedCounts(|data|);
    var c := FillCount(|data|, 3) * 4 / 3;
    if pad && a.padding.Some? {
      assert |Body(a, pad, data)| == |Kept(a, data)| + c;
    } else {
      assert |Body(a, pad, data)| == |Kept(a, data)|;
    }
  }

  /**
   * Without a separator the encoding is as long as the body; cutting it into
   * lines of length L adds one separator between consecutive lines.
   */
  lemma EncodedLength(a: Alphabet, pad: bool, data: seq<byte>)
    requires |a.characters| >= 64 && Wraps(a, data)
    ensures var bodyLength := if pad && a.padding.Some? then (|data| + 2) / 3 * 4 else (4 * |data| + 2) / 3;
      && (a.lineSeparator.None? ==> |Encoded(a, pad, data)| == bodyLength)
      && (a.lineSeparator.Some? && |data| > 0 ==>
            |Encoded(a, pad, data)| == bodyLength
              + ((bodyLength + a.lineSeparator.value.length - 1) / a.lineSeparator.value.length - 1)
                * |a.lineSeparator.value.separator|)
  {
    if |data| > 0 {
      BodyLength(a, pad, data);
      if a.lineSeparator.Some? {
        WrappedLength(Body(a, pad, data), a.lineSeparator.value.length, a.lineSeparator.value.separator);
      }
    }
  }

  /** Cutting a non-empty text into lines of length L adds a separator between consecutive lines. */
  lemma WrappedLength(body: seq<char>, length: nat, separator: seq<char>)
    requires |body| > 0 && length > 0
    ensures |Joined(Chunked(body, length), separator)| == |body| + ((|body| + length - 1) / length - 1) * |separator|
  {
    var lines := Chunked(body, length);
    ChunkedCount(body, length);
    FlattenChunked(body, length);
    assert |lines| > 0;
    JoinedLength(lines, separator);
  }

  /**
   * Decoding accepts a text of any length: it fails exactly when a character
   * left after removing the separators and the trailing padding is not ASCII
   * or not in the alphabet, and never with `wrongNumberOfBytes`.
   */
  lemma DecodedOutcome(a: Alphabet, text: seq<char>)
    requires |a.characters| == 64 && Inverts(a.characters, a.values)
    ensures var t := Unpadded(a, WithoutSeparators(a, text));
      Decoded(a, text).Success? <==> forall i :: 0 <= i < |t| ==> IsAscii(t[i]) && a.values[t[i] as int].Some?
    ensures Decoded(a, text).Failure? ==> Decoded(a, text).error != WrongNumberOfBytes
  {
    var t := Unpadded(a, WithoutSeparators(a, text));
    if |text| == 0 {
      assert WithoutSeparators(a, text) == [] by {
        if a.lineSeparator.Some? {
          assert ReplacingOccurrences(text, a.lineSeparator.value.separator, []) == text;
        }
      }
      assert t == [];
    } else {
      var filled := Filled(a, t);
      LookupIff(a.values, filled);
      assert filled[..|t|] == t;
      forall i | |t| <= i < |filled|
        ensures IsAscii(filled[i]) && a.values[filled[i] as int].Some?
      {
        assert filled[i] == a.characters[0];
      }
    }
  }

  // ----- Worked examples -----

  /** The symbols of one group, given in their arithmetic form. */
  lemma GroupSymbolsAre(b0: byte, b1: byte, b2: byte, s: seq<byte>)
    requires |s| == 4
    requires s[0] == b0 / 4 && s[1] == b0 % 4 * 16 + b1 / 16 && s[2] == b1 % 16 * 4 + b2 / 64 && s[3] == b2 % 64
    ensures GroupSymbols(b0, b1, b2) == s
  {
    SymbolsClosed(b0, b1, b2);
  }

  /** Group g of `s` holds the symbols of group g of `p`, in their arithmetic form. */
  predicate SymbolsOfGroup(p: seq<byte>, s: seq<byte>, g: nat) {
    3 * g + 3 <= |p| && 4 * g + 4 <= |s| &&
    s[4 * g] == p[3 * g] / 4 &&
    s[4 * g + 1] == p[3 * g] % 4 * 16 + p[3 * g + 1] / 16 &&
    s[4 * g + 2] == p[3 * g + 1] % 16 * 4 + p[3 * g + 2] / 64 &&
    s[4 * g + 3] == p[3 * g + 2] % 64
  }

  /** The last group of `s` holds the symbols of the last group of `p`. */
  lemma LastGroupSymbolsAre(p: seq<byte>, s: seq<byte>, g: nat)
    requires |p| == 3 * g + 3 && |s| == 4 * g + 4 && SymbolsOfGroup(p, s, g)
    ensures GroupSymbols(p[|p| - 3], p[|p| - 2], p[|p| - 1]) == s[|s| - 4..]
  {
    var last := s[|s| - 4..];
    assert last[0] == s[4 * g] && last[1] == s[4 * g + 1] && last[2] == s[4 * g + 2] && last[3] == s[4 * g + 3];
    GroupSymbolsAre(p[3 * g], p[3 * g + 1], p[3 * g + 2], last);
  }

  /** Dropping the last group of both keeps the earlier groups in their arithmetic form. */
  lemma SymbolsOfGroupsPrefix(p: seq<byte>, s: seq<byte>, groups: nat, p': seq<byte>, s': seq<byte>)
    requires groups > 0 && |p| == 3 * groups && |s| == 4 * groups
    requires p' == p[..|p| - 3] && s' == s[..|s| - 4]
    requires forall g :: 0 <= g < groups ==> SymbolsOfGroup(p, s, g)
    ensures forall g :: 0 <= g < groups - 1 ==> SymbolsOfGroup(p', s', g)
  {
    forall g | 0 <= g < groups - 1
      ensures SymbolsOfGroup(p', s', g)
    {
      assert SymbolsOfGroup(p, s, g);
    }
  }

  /** The symbols of whole groups, given group by group in their arithmetic form. */
  lemma {:induction false} SymbolsAre(p: seq<byte>, s: seq<byte>, groups: nat)
    requires |p| == 3 * groups && |s| == 4 * groups
    requires forall g :: 0 <= g < groups ==> SymbolsOfGroup(p, s, g)
    ensures |p| % 3 == 0 && Symbols(p) == s
    decreases groups
  {
    DivModUnique(|p|, 3, groups, 0);
    if groups > 0 {
      var n := |p|;
      var m := |s|;
      var p' := p[..n - 3];
      var s' := s[..m - 4];
      SymbolsOfGroupsPrefix(p, s, groups, p', s');
      SymbolsAre(p', s', groups - 1);
      SymbolsLast(p);
      LastGroupSymbolsAre(p, s, groups - 1);
      assert s == s' + s[m - 4..];
    }
  }

  /** The symbols of whole groups, one part after the other. */
  lemma {:induction false} SymbolsAppend(x: seq<byte>, y: seq<byte>)
    requires |x| % 3 == 0 && |y| % 3 == 0
    ensures Symbols(x + y) == Symbols(x) + Symbols(y)
    decreases |y|
  {
    if |y| == 0 {
      assert x + y == x;
    } else {
      var n := |y|;
      var xy := x + y;
      MultipleDown(n, 3);
      MultipleSum(|x|, n, 3);
      SymbolsLast(y);
      SymbolsLast(xy);
      var init := y[..n - 3];
      var g := GroupSymbols(y[n - 3], y[n - 2], y[n - 1]);
      assert xy[..|xy| - 3] == x + init;
      assert xy[|xy| - 3] == y[n - 3] && xy[|xy| - 2] == y[n - 2] && xy[|xy| - 1] == y[n - 1];
      assert Symbols(xy) == Symbols(x + init) + g;
      SymbolsAppend(x, init);
      Associative(Symbols(x), Symbols(init), g);
    }
  }

  /** The body of non-empty data from its spelled-out symbols. */
  lemma BodyFrom(a: Alphabet, pad: bool, data: seq<byte>, spelled: seq<char>, kept: seq<char>)
    requires |a.characters| >= 64 && |data| > 0
    requires Spell(a.characters, Symbols(Padded(data))) == spelled
    requires kept == spelled[..|spelled| - FillCount(|data|, 3) * 4 / 3]
    ensures Body(a, pad, data) == kept + if pad && a.padding.Some? then Repeat(a.padding.value, FillCount(|data|, 3) * 4 / 3) else []
  {
  }

  /**
   * Once the separators are removed and the trailing padding is trimmed,
   * the first character that is not ASCII, or has no value, decides the
   * error, whatever follows it.
   */
  lemma DecodedFirstError(a: Alphabet, text: seq<char>, k: nat)
    requires |a.characters| > 0 && |a.values| == 128 && |text| > 0
    requires k < |Unpadded(a, WithoutSeparators(a, text))|
    requires forall i :: 0 <= i < k ==>
      IsAscii(Unpadded(a, WithoutSeparators(a, text))[i]) && a.values[Unpadded(a, WithoutSeparators(a, text))[i] as int].Some?
    ensures !IsAscii(Unpadded(a, WithoutSeparators(a, text))[k]) ==> Decoded(a, text) == Failure(NonAsciiCharacters)
    ensures IsAscii(Unpadded(a, WithoutSeparators(a, text))[k]) && a.values[Unpadded(a, WithoutSeparators(a, text))[k] as int].None? ==>
      Decoded(a, text) == Failure(ValuesNotInAlphabet)
  {
    var t := Unpadded(a, WithoutSeparators(a, text));
    var filled := Filled(a, t);
    assert filled[..|t|] == t;
    LookupFirstFailure(a.values, filled, k);
  }
}
