/**
 * The Base-32 codec (Sources/Bases/Base32.swift): every 5 bytes become 8
 * characters, each carrying 5 bits; a short last group is filled with zero
 * bytes, and the characters that carry only filler are dropped and, when
 * the alphabet has one, replaced by the padding character.
 */
module Base32 {

  import opened Wrappers
  import opened Bits
  import opened Text
  import opened Errors
  import opened AlphabetTables
  import opened CollectionExtensions

  /**
   * `characters` maps the 32 values to characters; `values` maps each of the
   * 128 ASCII codes to a value or to nothing, so several characters may share
   * a value; `padding` is the optional padding character.
   */
  datatype Alphabet = Alphabet(characters: seq<char>, values: seq<Option<byte>>, padding: Option<char>)

  // ----- Alphabet -----

  /** The last group below n whose codes include c: the value the fill loop leaves for c. */
  function LastGroup(codes: seq<seq<nat>>, c: int, n: nat): (r: Option<byte>)
    requires n <= |codes| <= 256
    ensures r.Some? ==> r.value < n && c in codes[r.value]
    ensures r.Some? ==> forall g :: r.value < g < n ==> c !in codes[g]
    ensures r.None? ==> forall g :: 0 <= g < n ==> c !in codes[g]
  {
    if n == 0 then None
    else if c in codes[n - 1] then Some(n - 1)
    else LastGroup(codes, c, n - 1)
  }

  /** The table the initialiser builds from the ASCII codes of each group. */
  function GroupTable(codes: seq<seq<nat>>): (t: seq<Option<byte>>)
    requires |codes| <= 256
    ensures |t| == 128
  {
    seq(128, c => LastGroup(codes, c, |codes|))
  }

  /** The nested fill loop: every code of group g is given the value g, later groups overwriting earlier ones. */
  method BuildGroupTable(codes: seq<seq<nat>>) returns (values: seq<Option<byte>>)
    requires |codes| <= 256
    requires forall g, k :: 0 <= g < |codes| && 0 <= k < |codes[g]| ==> codes[g][k] < 128
    ensures values == GroupTable(codes)
  {
    values := seq(128, _ => None);
    for g := 0 to |codes|
      invariant values == seq(128, c => LastGroup(codes, c, g))
    {
      var group := codes[g];
      for k := 0 to |group|
        invariant values == seq(128, c => if c in group[..k] then Some(g as byte) else LastGroup(codes, c, g))
      {
        assert group[..k + 1] == group[..k] + [group[k]];
        values := values[group[k] := Some(g)];
      }
      assert group[..|group|] == group;
    }
  }

  predicate AllNonEmpty(groups: seq<seq<char>>) {
    forall g :: 0 <= g < |groups| ==> |groups[g]| > 0
  }

  predicate AllGroupsAscii(groups: seq<seq<char>>) {
    forall g :: 0 <= g < |groups| ==> AllAscii(groups[g])
  }

  /** The first character of every group: the one the encoder writes. */
  function Firsts(groups: seq<seq<char>>): (r: seq<char>)
    requires AllNonEmpty(groups)
    ensures |r| == |groups| && forall g :: 0 <= g < |groups| ==> r[g] == groups[g][0]
  {
    seq(|groups|, g requires 0 <= g < |groups| => groups[g][0])
  }

  function GroupCodes(groups: seq<seq<char>>): (r: seq<seq<nat>>)
    requires AllGroupsAscii(groups)
    ensures |r| == |groups| && forall g :: 0 <= g < |groups| ==> r[g] == AsciiCodes(groups[g])
  {
    seq(|groups|, g requires 0 <= g < |groups| => AsciiCodes(groups[g]))
  }

  /**
   * The outcome of `init(characters:padding:)`: 32 groups, none empty, an
   * ASCII padding character and ASCII group members, checked in that order.
   */
  function Checked(groups: seq<seq<char>>, padding: Option<char>): (r: Result<Alphabet, AlphabetError>)
    ensures r.Success? ==> |r.value.characters| == 32 && |r.value.values| == 128 && r.value.padding == padding
  {
    if |groups| != 32 then Failure(WrongNumberOfCharacters)
    else if !AllNonEmpty(groups) then Failure(WrongNumberOfCharacters)
    else if padding.Some? && !IsAscii(padding.value) then Failure(NoAsciiValue)
    else if !AllGroupsAscii(groups) then Failure(NoAsciiValue)
    else Success(Alphabet(Firsts(groups), GroupTable(GroupCodes(groups)), padding))
  }

  /** `init(characters:padding:)`. */
  method NewAlphabet(groups: seq<seq<char>>, padding: Option<char>) returns (r: Result<Alphabet, AlphabetError>)
    ensures r == Checked(groups, padding)
  {
    if |groups| != 32 {
      return Failure(WrongNumberOfCharacters);
    }
    var firstCharacters: seq<char> := [];
    for g := 0 to 32
      invariant |firstCharacters| == g
      invariant forall h :: 0 <= h < g ==> |groups[h]| > 0 && firstCharacters[h] == groups[h][0]
    {
      if |groups[g]| == 0 {
        return Failure(WrongNumberOfCharacters);
      }
      firstCharacters := firstCharacters + [groups[g][0]];
    }
    if padding.Some? && !IsAscii(padding.value) {
      return Failure(NoAsciiValue);
    }
    var asciiValues: seq<seq<nat>> := [];
    for g := 0 to 32
      invariant |asciiValues| == g
      invariant forall h :: 0 <= h < g ==> AllAscii(groups[h]) && asciiValues[h] == AsciiCodes(groups[h])
    {
      var codes := AsciiValues(groups[g]);
      if codes.None? {
        return Failure(NoAsciiValue);
      }
      asciiValues := asciiValues + [codes.value];
    }
    assert asciiValues == GroupCodes(groups);
    assert firstCharacters == Firsts(groups);
    var values := BuildGroupTable(asciiValues);
    return Success(Alphabet(firstCharacters, values, padding));
  }

  /**
   * The checked initialiser fails with `wrongNumberOfCharacters` exactly when
   * there are not 32 groups or one is empty, and with `noAsciiValue` exactly
   * when, past that, the padding character or a group member is not ASCII.
   */
  lemma CheckedErrors(groups: seq<seq<char>>, padding: Option<char>)
    ensures Checked(groups, padding) == Failure(WrongNumberOfCharacters) <==>
      |groups| != 32 || exists g :: 0 <= g < |groups| && |groups[g]| == 0
    ensures Checked(groups, padding) == Failure(NoAsciiValue) <==>
      |groups| == 32 && AllNonEmpty(groups) &&
      ((padding.Some? && !IsAscii(padding.value)) ||
       exists g, k :: 0 <= g < 32 && 0 <= k < |groups[g]| && !IsAscii(groups[g][k]))
  {
  }

  /** No character belongs to two different groups. */
  predicate GroupsDisjoint(groups: seq<seq<char>>) {
    forall g, h, k, l :: 0 <= g < |groups| && 0 <= h < |groups| && g != h && 0 <= k < |groups[g]| && 0 <= l < |groups[h]|
      ==> groups[g][k] != groups[h][l]
  }

  /**
   * With disjoint groups, every member of group g decodes to g (the first one
   * included, so the table inverts the encoding characters), and nothing else
   * has a value.
   */
  lemma CheckedSynonyms(groups: seq<seq<char>>, padding: Option<char>)
    requires Checked(groups, padding).Success? && GroupsDisjoint(groups)
    ensures forall g, k :: 0 <= g < 32 && 0 <= k < |groups[g]| ==>
      Checked(groups, padding).value.values[groups[g][k] as int] == Some(g)
    ensures forall c :: 0 <= c < 128 && Checked(groups, padding).value.values[c].Some? ==>
      c as char in groups[Checked(groups, padding).value.values[c].value]
    ensures Inverts(Checked(groups, padding).value.characters, Checked(groups, padding).value.values)
  {
    GroupTableSynonyms(groups);
  }

  /** Every member of group g has the value g in the group table, and only members have a value. */
  lemma GroupTableSynonyms(groups: seq<seq<char>>)
    requires |groups| == 32 && AllGroupsAscii(groups) && GroupsDisjoint(groups)
    ensures forall g, k :: 0 <= g < 32 && 0 <= k < |groups[g]| ==>
      GroupTable(GroupCodes(groups))[groups[g][k] as int] == Some(g)
    ensures forall c :: 0 <= c < 128 && GroupTable(GroupCodes(groups))[c].Some? ==>
      c as char in groups[GroupTable(GroupCodes(groups))[c].value]
  {
    var codes := GroupCodes(groups);
    var t := GroupTable(codes);
    forall g, k | 0 <= g < 32 && 0 <= k < |groups[g]|
      ensures t[groups[g][k] as int] == Some(g)
    {
      var c := groups[g][k] as int;
      assert codes[g][k] == c;
      var r := LastGroup(codes, c, 32);
      assert r.Some?;
      var l :| 0 <= l < |codes[r.value]| && codes[r.value][l] == c;
      assert groups[r.value][l] == groups[g][k];
    }
    forall c | 0 <= c < 128 && t[c].Some?
      ensures c as char in groups[t[c].value]
    {
      var l :| 0 <= l < |codes[t[c].value]| && codes[t[c].value][l] == c;
      assert groups[t[c].value][l] as int == c;
    }
  }

  /** A table that gives every member its group's value and nothing else a value is the one the initialiser builds. */
  lemma GroupTableIs(groups: seq<seq<char>>, values: seq<Option<byte>>)
    requires |groups| <= 256 && AllGroupsAscii(groups) && |values| == 128
    requires forall g, k :: 0 <= g < |groups| && 0 <= k < |groups[g]| ==> values[groups[g][k] as int] == Some(g)
    requires forall c :: 0 <= c < 128 && values[c].Some? ==> values[c].value < |groups| && c as char in groups[values[c].value]
    ensures GroupTable(GroupCodes(groups)) == values
  {
    var codes := GroupCodes(groups);
    var t := GroupTable(codes);
    forall c | 0 <= c < 128
      ensures t[c] == values[c]
    {
      if values[c].Some? {
        var v := values[c].value;
        var k :| 0 <= k < |groups[v]| && groups[v][k] == c as char;
        assert codes[v][k] == c;
        var r := LastGroup(codes, c, |codes|);
        var l :| 0 <= l < |codes[r.value]| && codes[r.value][l] == c;
        assert values[groups[r.value][l] as int] == Some(r.value);
      }
    }
  }

  /**
   * An alphabet whose characters are the first members of 32 non-empty ASCII
   * groups, and whose table gives every member its group's value and nothing
   * else a value, is the one the initialiser builds from those groups.
   */
  lemma CheckedIs(groups: seq<seq<char>>, a: Alphabet)
    requires |groups| == 32 && AllNonEmpty(groups) && AllGroupsAscii(groups)
    requires a.padding.Some? ==> IsAscii(a.padding.value)
    requires a.characters == Firsts(groups) && |a.values| == 128
    requires forall g, k :: 0 <= g < 32 && 0 <= k < |groups[g]| ==> a.values[groups[g][k] as int] == Some(g)
    requires forall c :: 0 <= c < 128 && a.values[c].Some? ==> a.values[c].value < 32 && c as char in groups[a.values[c].value]
    ensures Checked(groups, a.padding) == Success(a)
  {
    GroupTableIs(groups, a.values);
  }

  /** A table that gives every group member its group's value inverts the first members. */
  lemma FirstsInvert(groups: seq<seq<char>>, characters: seq<char>, values: seq<Option<byte>>)
    requires AllNonEmpty(groups) && AllGroupsAscii(groups)
    requires characters == Firsts(groups) && |values| == 128
    requires forall g, k :: 0 <= g < |groups| && 0 <= k < |groups[g]| ==> values[groups[g][k] as int] == Some(g)
    ensures Inverts(characters, values)
  {
    forall v | 0 <= v < |characters|
      ensures IsAscii(characters[v]) && values[characters[v] as int] == Some(v)
    {
      assert characters[v] == groups[v][0];
    }
  }

  // ----- Encoder -----

  /**
   * The eight 5-bit fields of a group of five bytes, as the bit operations
   * compute them, in arithmetic terms.
   */
  lemma Fields(b0: byte, b1: byte, b2: byte, b3: byte, b4: byte)
    ensures Shr(b0, 3) == b0 / 8
    ensures Or(Shl(Low(b0, 3), 2), Shr(b1, 6)) == b0 % 8 * 4 + b1 / 64
    ensures Low(Shr(b1, 1), 5) == b1 / 2 % 32
    ensures Or(Shl(Low(b1, 1), 4), Shr(b2, 4)) == b1 % 2 * 16 + b2 / 16
    ensures Or(Shl(Low(b2, 4), 1), Shr(b3, 7)) == b2 % 16 * 2 + b3 / 128
    ensures Low(Shr(b3, 2), 5) == b3 / 4 % 32
    ensures Or(Shl(Low(b3, 2), 3), Shr(b4, 5)) == b3 % 4 * 8 + b4 / 32
    ensures Low(b4, 5) == b4 % 32
    ensures b0 / 8 < 32 && b0 % 8 * 4 + b1 / 64 < 32 && b1 % 2 * 16 + b2 / 16 < 32
    ensures b2 % 16 * 2 + b3 / 128 < 32 && b3 % 4 * 8 + b4 / 32 < 32
  {
    Pow2Values();
    SideBySide(b0 % 8, 2, b1 / 64);
    SideBySide(b1 % 2, 4, b2 / 16);
    SideBySide(b2 % 16, 1, b3 / 128);
    SideBySide(b3 % 4, 3, b4 / 32);
  }

  /** The 5-bit values of one group of five bytes. */
  function GroupSymbols(b0: byte, b1: byte, b2: byte, b3: byte, b4: byte): (r: seq<byte>)
    ensures |r| == 8 && forall i :: 0 <= i < 8 ==> r[i] < 32
  {
    var s0: byte := Shr(b0, 3);
    var s1: byte := OrByte(Shl(Low(b0, 3), 2), Shr(b1, 6));
    var s2: byte := Low(Shr(b1, 1), 5);
    var s3: byte := OrByte(Shl(Low(b1, 1), 4), Shr(b2, 4));
    var s4: byte := OrByte(Shl(Low(b2, 4), 1), Shr(b3, 7));
    var s5: byte := Low(Shr(b3, 2), 5);
    var s6: byte := OrByte(Shl(Low(b3, 2), 3), Shr(b4, 5));
    var s7: byte := Low(b4, 5);
    assert s0 < 32 && s1 < 32 && s2 < 32 && s3 < 32 && s4 < 32 && s5 < 32 && s6 < 32 && s7 < 32 by {
      Fields(b0, b1, b2, b3, b4);
    }
    [s0, s1, s2, s3, s4, s5, s6, s7]
  }

  /** The 5-bit values of whole groups, group after group. */
  function Symbols(data: seq<byte>): (r: seq<byte>)
    requires |data| % 5 == 0
    ensures |r| == |data| / 5 * 8 && forall i :: 0 <= i < |r| ==> r[i] < 32
  {
    if |data| == 0 then []
    else
      var n := |data|;
      Symbols(data[..n - 5]) + GroupSymbols(data[n - 5], data[n - 4], data[n - 3], data[n - 2], data[n - 1])
  }

  lemma SymbolsStep(data: seq<byte>, i: nat)
    requires 5 * i + 5 <= |data|
    ensures Symbols(data[..5 * i + 5]) == Symbols(data[..5 * i])
      + GroupSymbols(data[5 * i], data[5 * i + 1], data[5 * i + 2], data[5 * i + 3], data[5 * i + 4])
  {
    assert data[..5 * i + 5][..5 * i] == data[..5 * i];
  }

  /** The data followed by the zero bytes that make its length a multiple of 5. */
  function Padded(data: seq<byte>): (r: seq<byte>)
    ensures |r| % 5 == 0 && |r| == |data| + FillCount(|data|, 5)
    ensures r[..|data|] == data && forall j :: |data| <= j < |r| ==> r[j] == 0
  {
    data + Repeat(0, FillCount(|data|, 5))
  }

  /** The outcome of `Encoder.encode`. */
  function Encoded(a: Alphabet, data: seq<byte>): (r: seq<char>)
    requires |a.characters| >= 32
  {
    if |data| == 0 then []
    else
      var padCharacterCount := FillCount(|data|, 5) * 8 / 5;
      var output := Spell(a.characters, Symbols(Padded(data)));
      output[..|output| - padCharacterCount]
        + (if a.padding.Some? then Repeat(a.padding.value, padCharacterCount) else [])
  }

  /** `Encoder.encode`: zero-fill, eight characters per chunk of five, then swap the filler characters for padding. */
  method Encode(a: Alphabet, data: seq<byte>) returns (output: seq<char>)
    requires |a.characters| >= 32
    ensures output == Encoded(a, data)
  {
    if |data| == 0 {
      return [];
    }
    var padding := FillCount(|data|, 5);
    var padCharacterCount := padding * 8 / 5;
    output := EncodeGroups(a, data + Repeat(0, padding));
    assert data + Repeat(0, padding) == Padded(data);
    output := output[..|output| - padCharacterCount];
    if a.padding.Some? {
      output := output + Repeat(a.padding.value, padCharacterCount);
    }
  }

  /** The loop of `Encoder.encode`: eight characters for every chunk of five bytes. */
  method EncodeGroups(a: Alphabet, padded: seq<byte>) returns (output: seq<char>)
    requires |a.characters| >= 32 && |padded| % 5 == 0
    ensures output == Spell(a.characters, Symbols(padded))
  {
    var chunks := Chunks(padded, 5);
    var n := |padded| / 5;
    assert |padded| == n * 5;
    ChunkedCount(padded, 5);
    DivModUnique(|padded| + 4, 5, n, 4);
    output := [];
    for i := 0 to |chunks|
      invariant i <= n
      invariant output == Spell(a.characters, Symbols(padded[..5 * i]))
    {
      var chunk := chunks[i];
      ChunkAt(padded, 5, i);
      DivModUnique(5 * i, 5, i, 0);
      SymbolsStep(padded, i);
      var symbols := GroupSymbols(chunk[0], chunk[1], chunk[2], chunk[3], chunk[4]);
      SpellAppend(a.characters, Symbols(padded[..5 * i]), symbols);
      output := output + Spell(a.characters, symbols);
    }
    assert padded[..5 * |chunks|] == padded;
  }

  // ----- Decoder -----

  /** The five bytes of one chunk of eight 5-bit values, as the decoder's bit operations compute them. */
  function GroupBytes(characters: seq<byte>): (r: seq<byte>)
    requires |characters| == 8
    ensures |r| == 5
  {
    var c := characters;
    var d0: byte := OrByte(Shl(c[0], 3), Shr(c[1], 2));
    var d1: byte := OrByte(OrByte(Shl(Low(c[1], 2), 6), Shl(c[2], 1)), Shr(c[3], 4));
    var d2: byte := OrByte(Shl(Low(c[3], 4), 4), Shr(c[4], 1));
    var d3: byte := OrByte(OrByte(Shl(c[4], 7), Shl(c[5], 2)), Shr(c[6], 3));
    var d4: byte := OrByte(Shl(c[6], 5), c[7]);
    [d0, d1, d2, d3, d4]
  }

  /** The bytes of the whole chunks of eight values, chunk after chunk (a shorter tail contributes nothing). */
  function Bytes(values: seq<byte>): (r: seq<byte>)
    ensures |r| == |values| / 8 * 5
  {
    if |values| < 8 then []
    else
      var n := |values|;
      DivModUnique(n, 8, (n - 8) / 8 + 1, (n - 8) % 8);
      Bytes(values[..n - 8]) + GroupBytes(values[n - 8..])
  }

  /** Looking a text up, then decoding it chunk by chunk. */
  function DecodedGroups(a: Alphabet, text: seq<char>): (r: Result<seq<byte>, DecodingError>)
    requires |a.values| == 128
    ensures r.Success? ==> |r.value| == |text| / 8 * 5
  {
    var values :- Lookup(a.values, text);
    Success(Bytes(values))
  }

  /** The text without its trailing padding characters, when the alphabet has one. */
  function Unpadded(a: Alphabet, text: seq<char>): seq<char> {
    if a.padding.Some? then TrimmedSuffix(text, EqualTo(a.padding.value)) else text
  }

  /** The text filled up to a multiple of 8 with the character of value 0. */
  function Filled(a: Alphabet, text: seq<char>): (r: seq<char>)
    requires |a.characters| > 0
    ensures |r| % 8 == 0 && |r| == |text| + FillCount(|text|, 8)
  {
    text + Repeat(a.characters[0], FillCount(|text|, 8))
  }

  /** The decoded bytes without those that came only from filler characters. */
  function WithoutFiller(data: seq<byte>, padCharacterCount: nat): (r: seq<byte>)
    requires padCharacterCount > 0 ==> |data| >= 5
    requires padCharacterCount < 8
  {
    if padCharacterCount > 0 then data[..|data| - (padCharacterCount + 1) * 5 / 8] else data
  }

  /** The outcome of `Decoder.decode`. */
  function Decoded(a: Alphabet, text: seq<char>): (r: Result<seq<byte>, DecodingError>)
    requires |a.characters| > 0 && |a.values| == 128
  {
    if |text| == 0 then Success([])
    else
      var trimmed := Unpadded(a, text);
      var data :- DecodedGroups(a, Filled(a, trimmed));
      Success(WithoutFiller(data, FillCount(|trimmed|, 8)))
  }

  /**
   * `Decoder.decode`: drop trailing padding, fill up to a multiple of 8 with
   * the character of value 0, decode, then drop the bytes made of filler.
   */
  method Decode(a: Alphabet, text: seq<char>) returns (r: Result<seq<byte>, DecodingError>)
    requires |a.characters| > 0 && |a.values| == 128
    ensures r == Decoded(a, text)
  {
    if |text| == 0 {
      return Success([]);
    }
    var t := text;
    if a.padding.Some? {
      t := TrimmingSuffix(text, EqualTo(a.padding.value));
    }
    var padCharacterCount := FillCount(|t|, 8);
    var filled := t + Repeat(a.characters[0], padCharacterCount);
    assert filled == Filled(a, Unpadded(a, text));
    var data :- DecodeGroups(a, filled);
    assert padCharacterCount > 0 ==> |data| >= 5;
    return Success(WithoutFiller(data, padCharacterCount));
  }

  /**
   * One pass of the decoding loop: after a prefix of length `k` decoded
   * fine, the next eight characters either make the whole text fail with
   * their own error or add their five bytes.
   */
  lemma DecodedGroupsStep(a: Alphabet, text: seq<char>, k: nat)
    requires |a.values| == 128 && k + 8 <= |text|
    requires DecodedGroups(a, text[..k]).Success?
    ensures Lookup(a.values, text[k..k + 8]).Failure? ==>
      DecodedGroups(a, text) == Failure(Lookup(a.values, text[k..k + 8]).error)
    ensures Lookup(a.values, text[k..k + 8]).Success? ==>
      DecodedGroups(a, text[..k + 8])
        == Success(DecodedGroups(a, text[..k]).value + GroupBytes(Lookup(a.values, text[k..k + 8]).value))
  {
    var prefix := Lookup(a.values, text[..k]).value;
    LookupStep(a.values, text, k, k + 8, prefix);
    var chunk := Lookup(a.values, text[k..k + 8]);
    if chunk.Success? {
      var values := prefix + chunk.value;
      assert values[..|values| - 8] == prefix;
      assert values[|values| - 8..] == chunk.value;
    }
  }

  /** The loop of `Decoder.decode`: look up each chunk of eight characters and append its five bytes. */
  method DecodeGroups(a: Alphabet, text: seq<char>) returns (r: Result<seq<byte>, DecodingError>)
    requires |a.values| == 128 && |text| % 8 == 0
    ensures r == DecodedGroups(a, text)
  {
    var chunks := Chunks(text, 8);
    var n := |text| / 8;
    assert |text| == n * 8;
    ChunkedExactly(text, 8, n);
    var data: seq<byte> := [];
    for i := 0 to |chunks|
      invariant i <= n
      invariant DecodedGroups(a, text[..8 * i]) == Success(data)
    {
      var chunk := chunks[i];
      assert chunk == text[8 * i .. 8 * i + 8];
      DecodedGroupsStep(a, text, 8 * i);
      var characters := Lookup(a.values, chunk);
      if characters.Failure? {
        return Failure(characters.error);
      }
      data := data + GroupBytes(characters.value);
    }
    assert text[..8 * n] == text;
    return Success(data);
  }

  // ----- Round trip -----

  lemma Byte0(c0: nat, c1: nat)
    requires c0 < 32 && c1 < 32
    ensures Or(Shl(c0, 3), Shr(c1, 2)) == c0 * 8 + c1 / 4
  {
    Pow2Values();
    SideBySide(c0, 3, c1 / 4);
  }

  lemma Byte1(c1: nat, c2: nat, c3: nat)
    requires c1 < 32 && c2 < 32 && c3 < 32
    ensures Or(Or(Shl(Low(c1, 2), 6), Shl(c2, 1)), Shr(c3, 4)) == c1 % 4 * 64 + c2 * 2 + c3 / 16
  {
    Pow2Values();
    SideBySide(c2, 1, 0);
    SideBySide(c1 % 4, 6, c2 * 2);
    DivModUnique(c1 % 4 * 64 + c2 * 2, 2, c1 % 4 * 32 + c2, 0);
    OrDisjoint(c1 % 4 * 64 + c2 * 2, c3 / 16, 1);
  }

  lemma Byte2(c3: nat, c4: nat)
    requires c3 < 32 && c4 < 32
    ensures Or(Shl(Low(c3, 4), 4), Shr(c4, 1)) == c3 % 16 * 16 + c4 / 2
  {
    Pow2Values();
    SideBySide(c3 % 16, 4, c4 / 2);
  }

  lemma Byte3(c4: nat, c5: nat, c6: nat)
    requires c4 < 32 && c5 < 32 && c6 < 32
    ensures Or(Or(Shl(c4, 7), Shl(c5, 2)), Shr(c6, 3)) == c4 % 2 * 128 + c5 * 4 + c6 / 8
  {
    Pow2Values();
    DivModUnique(c4 * 128, 256, c4 / 2, c4 % 2 * 128);
    SideBySide(c5, 2, 0);
    DivModUnique(c4 % 2 * 128, 128, c4 % 2, 0);
    OrDisjoint(c4 % 2 * 128, c5 * 4, 7);
    DivModUnique(c4 % 2 * 128 + c5 * 4, 4, c4 % 2 * 32 + c5, 0);
    OrDisjoint(c4 % 2 * 128 + c5 * 4, c6 / 8, 2);
  }

  lemma Byte4(c6: nat, c7: nat)
    requires c6 < 32 && c7 < 32
    ensures Or(Shl(c6, 5), c7) == c6 % 8 * 32 + c7
  {
    Pow2Values();
    DivModUnique(c6 * 32, 256, c6 / 8, c6 % 8 * 32);
    DivModUnique(c6 % 8 * 32, 32, c6 % 8, 0);
    OrDisjoint(c6 % 8 * 32, c7, 5);
  }

  /** The decoder's bit operations in arithmetic form, for values below 32. */
  lemma BytesFields(c: seq<byte>)
    requires |c| == 8 && forall i :: 0 <= i < 8 ==> c[i] < 32
    ensures GroupBytes(c) == [ c[0] * 8 + c[1] / 4,
                               c[1] % 4 * 64 + c[2] * 2 + c[3] / 16,
                               c[3] % 16 * 16 + c[4] / 2,
                               c[4] % 2 * 128 + c[5] * 4 + c[6] / 8,
                               c[6] % 8 * 32 + c[7] ]
  {
    Byte0(c[0], c[1]);
    Byte1(c[1], c[2], c[3]);
    Byte2(c[3], c[4]);
    Byte3(c[4], c[5], c[6]);
    Byte4(c[6], c[7]);
  }

  /** Splitting a byte into a high part, a 5-bit middle and a low part, then joining them again. */
  lemma Rejoin(b: int, low: int)
    requires 0 <= b < 256 && (low == 2 || low == 4)
    ensures b / (32 * low) * (32 * low) + b / low % 32 * low + b % low == b
  {
    var h := b / low;
    DivModUnique(b, 32 * low, h / 32, h % 32 * low + b % low);
  }

  lemma JoinByte0(b0: int, b1: int, v0: int, v1: int)
    requires 0 <= b0 < 256 && 0 <= b1 < 256
    requires v0 == b0 / 8 && v1 == b0 % 8 * 4 + b1 / 64
    ensures v0 * 8 + v1 / 4 == b0
  {
    DivModUnique(v1, 4, b0 % 8, b1 / 64);
  }

  lemma JoinByte1(b0: int, b1: int, b2: int, v1: int, v2: int, v3: int)
    requires 0 <= b0 < 256 && 0 <= b1 < 256 && 0 <= b2 < 256
    requires v1 == b0 % 8 * 4 + b1 / 64 && v2 == b1 / 2 % 32 && v3 == b1 % 2 * 16 + b2 / 16
    ensures v1 % 4 * 64 + v2 * 2 + v3 / 16 == b1
  {
    DivModUnique(v1, 4, b0 % 8, b1 / 64);
    DivModUnique(v3, 16, b1 % 2, b2 / 16);
    Rejoin(b1, 2);
  }

  lemma JoinByte2(b1: int, b2: int, b3: int, v3: int, v4: int)
    requires 0 <= b1 < 256 && 0 <= b2 < 256 && 0 <= b3 < 256
    requires v3 == b1 % 2 * 16 + b2 / 16 && v4 == b2 % 16 * 2 + b3 / 128
    ensures v3 % 16 * 16 + v4 / 2 == b2
  {
    DivModUnique(v3, 16, b1 % 2, b2 / 16);
    DivModUnique(v4, 2, b2 % 16, b3 / 128);
  }

  lemma JoinByte3(b2: int, b3: int, b4: int, v4: int, v5: int, v6: int)
    requires 0 <= b2 < 256 && 0 <= b3 < 256 && 0 <= b4 < 256
    requires v4 == b2 % 16 * 2 + b3 / 128 && v5 == b3 / 4 % 32 && v6 == b3 % 4 * 8 + b4 / 32
    ensures v4 % 2 * 128 + v5 * 4 + v6 / 8 == b3
  {
    DivModUnique(v4, 2, b2 % 16, b3 / 128);
    DivModUnique(v6, 8, b3 % 4, b4 / 32);
    Rejoin(b3, 4);
  }

  lemma JoinByte4(b3: int, b4: int, v6: int, v7: int)
    requires 0 <= b3 < 256 && 0 <= b4 < 256
    requires v6 == b3 % 4 * 8 + b4 / 32 && v7 == b4 % 32
    ensures v6 % 8 * 32 + v7 == b4
  {
    DivModUnique(v6, 8, b3 % 4, b4 / 32);
  }

  /** The eight 5-bit values of a group in arithmetic form. */
  lemma SymbolsClosed(b0: byte, b1: byte, b2: byte, b3: byte, b4: byte)
    ensures var v := GroupSymbols(b0, b1, b2, b3, b4);
      v[0] == b0 / 8 && v[1] == b0 % 8 * 4 + b1 / 64 && v[2] == b1 / 2 % 32 &&
      v[3] == b1 % 2 * 16 + b2 / 16 && v[4] == b2 % 16 * 2 + b3 / 128 && v[5] == b3 / 4 % 32 &&
      v[6] == b3 % 4 * 8 + b4 / 32 && v[7] == b4 % 32
  {
    Fields(b0, b1, b2, b3, b4);
  }

  /** Five bytes survive being split into eight 5-bit values and joined again. */
  lemma GroupRoundTrip(b0: byte, b1: byte, b2: byte, b3: byte, b4: byte)
    ensures GroupBytes(GroupSymbols(b0, b1, b2, b3, b4)) == [b0, b1, b2, b3, b4]
  {
    var v := GroupSymbols(b0, b1, b2, b3, b4);
    SymbolsClosed(b0, b1, b2, b3, b4);
    var r := GroupBytes(v);
    assert r[0] == b0 by {
      Byte0(v[0], v[1]);
      JoinByte0(b0, b1, v[0], v[1]);
    }
    assert r[1] == b1 by {
      Byte1(v[1], v[2], v[3]);
      JoinByte1(b0, b1, b2, v[1], v[2], v[3]);
    }
    assert r[2] == b2 by {
      Byte2(v[3], v[4]);
      JoinByte2(b1, b2, b3, v[3], v[4]);
    }
    assert r[3] == b3 by {
      Byte3(v[4], v[5], v[6]);
      JoinByte3(b2, b3, b4, v[4], v[5], v[6]);
    }
    assert r[4] == b4 by {
      Byte4(v[6], v[7]);
      JoinByte4(b3, b4, v[6], v[7]);
    }
  }

  /** Decoding the 5-bit values of whole groups gives the groups back. */
  lemma {:induction false} BytesSymbols(data: seq<byte>)
    requires |data| % 5 == 0
    ensures Bytes(Symbols(data)) == data
    decreases |data|
  {
    if |data| > 0 {
      var n := |data|;
      var init := data[..n - 5];
      assert data == init + [data[n - 5], data[n - 4], data[n - 3], data[n - 2], data[n - 1]];
      var s := Symbols(init);
      var g := GroupSymbols(data[n - 5], data[n - 4], data[n - 3], data[n - 2], data[n - 1]);
      var sg := s + g;
      assert sg[..|sg| - 8] == s && sg[|sg| - 8..] == g;
      assert Bytes(sg) == Bytes(s) + GroupBytes(g);
      BytesSymbols(init);
      GroupRoundTrip(data[n - 5], data[n - 4], data[n - 3], data[n - 2], data[n - 1]);
    }
  }

  /**
   * How many characters carry only filler for p zero bytes, and how many
   * bytes the decoder drops for that many missing characters: exactly p.
   */
  lemma FillerCounts(p: nat)
    requires p < 5
    ensures p * 8 / 5 < 8
    ensures p * 8 / 5 == 0 <==> p == 0
    ensures p > 0 ==> (p * 8 / 5 + 1) * 5 / 8 == p
  {
    if p == 1 { assert p * 8 / 5 == 1; }
    else if p == 2 { assert p * 8 / 5 == 3; }
    else if p == 3 { assert p * 8 / 5 == 4; }
    else if p == 4 { assert p * 8 / 5 == 6; }
  }

  /** A text of 8m characters with its last c removed is filled back by exactly c characters. */
  lemma FillAfterTrim(m: nat, c: nat)
    requires m >= 1 && c < 8
    ensures FillCount(8 * m - c, 8) == c
  {
    if c == 0 {
      DivModUnique(8 * m, 8, m, 0);
    } else {
      DivModUnique(8 * m - c, 8, m - 1, 8 - c);
    }
  }

  /** The 5-bit values that come only from the p zero bytes at the end of a group are zero. */
  lemma GroupZeros(b0: byte, b1: byte, b2: byte, b3: byte, b4: byte, p: nat)
    requires 1 <= p <= 4
    requires b4 == 0 && (p >= 2 ==> b3 == 0) && (p >= 3 ==> b2 == 0) && (p >= 4 ==> b1 == 0)
    ensures forall j :: 8 - p * 8 / 5 <= j < 8 ==> GroupSymbols(b0, b1, b2, b3, b4)[j] == 0
  {
    SymbolsClosed(b0, b1, b2, b3, b4);
    FillerCounts(p);
  }

  /** The last p * 8 / 5 values of a text whose last p bytes are zero are zero. */
  lemma SymbolsZeros(padded: seq<byte>, p: nat)
    requires |padded| % 5 == 0 && |padded| >= 5 && 1 <= p <= 4
    requires forall j :: |padded| - p <= j < |padded| ==> padded[j] == 0
    ensures forall j :: |Symbols(padded)| - p * 8 / 5 <= j < |Symbols(padded)| ==> Symbols(padded)[j] == 0
  {
    var n := |padded|;
    var b0, b1, b2, b3, b4 := padded[n - 5], padded[n - 4], padded[n - 3], padded[n - 2], padded[n - 1];
    assert b4 == 0 && (p >= 2 ==> b3 == 0) && (p >= 3 ==> b2 == 0) && (p >= 4 ==> b1 == 0);
    var k := p * 8 / 5;
    FillerCounts(p);
    var g := GroupSymbols(b0, b1, b2, b3, b4);
    GroupZeros(b0, b1, b2, b3, b4, p);
    var prefix := padded[..n - 5];
    assert (n - 5) % 5 == 0;
    SymbolsLast(padded);
    SuffixOf(Symbols(prefix), g, k, 0);
  }

  lemma SymbolsLast(data: seq<byte>)
    requires |data| % 5 == 0 && |data| >= 5
    ensures var n := |data|;
      Symbols(data) == Symbols(data[..n - 5]) + GroupSymbols(data[n - 5], data[n - 4], data[n - 3], data[n - 2], data[n - 1])
  {
  }

  /** The encoding of non-empty data, before its padding characters. */
  function Kept(a: Alphabet, data: seq<byte>): (r: seq<char>)
    requires |a.characters| >= 32 && |data| > 0
  {
    var output := Spell(a.characters, Symbols(Padded(data)));
    output[..|output| - FillCount(|data|, 5) * 8 / 5]
  }

  /** The lengths involved in encoding non-empty data. */
  lemma EncodedLengths(a: Alphabet, data: seq<byte>)
    requires |a.characters| >= 32 && |data| > 0
    ensures |Padded(data)| >= 5
    ensures |Symbols(Padded(data))| == 8 * (|Padded(data)| / 5)
    ensures |Kept(a, data)| == |Symbols(Padded(data))| - FillCount(|data|, 5) * 8 / 5 > 0
    ensures FillCount(|Kept(a, data)|, 8) == FillCount(|data|, 5) * 8 / 5
  {
    var p := FillCount(|data|, 5);
    FillerCounts(p);
    var m := |Padded(data)| / 5;
    DivModUnique(|Padded(data)|, 5, m, 0);
    FillAfterTrim(m, p * 8 / 5);
  }

  /** Dropping the trailing padding characters of an encoding leaves `Kept`. */
  lemma UnpaddedEncoded(a: Alphabet, data: seq<byte>)
    requires |a.characters| == 32 && |data| > 0
    requires a.padding.Some? ==> a.padding.value !in a.characters
    ensures Unpadded(a, Encoded(a, data)) == Kept(a, data)
  {
    EncodedLengths(a, data);
    var kept := Kept(a, data);
    var c := FillCount(|data|, 5) * 8 / 5;
    if a.padding.Some? {
      var pad := a.padding.value;
      assert Encoded(a, data) == kept + Repeat(pad, c);
      TrimmedSuffixAppend(kept, Repeat(pad, c), EqualTo(pad));
      assert kept[|kept| - 1] in a.characters;
      assert !EqualTo(pad)(kept[|kept| - 1]);
    } else {
      assert Encoded(a, data) == kept + [];
    }
  }

  /** Filling `Kept` with the character of value 0 restores the full spelled-out text. */
  lemma FilledKept(a: Alphabet, data: seq<byte>)
    requires |a.characters| >= 32 && |data| > 0
    ensures Filled(a, Kept(a, data)) == Spell(a.characters, Symbols(Padded(data)))
  {
    EncodedLengths(a, data);
    var p := FillCount(|data|, 5);
    if p > 0 {
      SymbolsZeros(Padded(data), p);
    }
  }

  /** Dropping the bytes decoded from filler leaves the data. */
  lemma WithoutFillerPadded(data: seq<byte>)
    requires |data| > 0
    ensures FillCount(|data|, 5) * 8 / 5 < 8
    ensures FillCount(|data|, 5) > 0 ==> |Padded(data)| >= 5
    ensures WithoutFiller(Padded(data), FillCount(|data|, 5) * 8 / 5) == data
  {
    FillerCounts(FillCount(|data|, 5));
  }

  /**
   * Decoding undoes encoding, for every byte sequence, with any alphabet of
   * 32 distinct characters whose table inverts them and whose padding
   * character (if any) is not one of them.
   */
  lemma RoundTrip(a: Alphabet, data: seq<byte>)
    requires |a.characters| == 32 && Inverts(a.characters, a.values)
    requires a.padding.Some? ==> a.padding.value !in a.characters
    ensures Decoded(a, Encoded(a, data)) == Success(data)
  {
    if |data| > 0 {
      UnpaddedEncoded(a, data);
      EncodedLengths(a, data);
      FilledKept(a, data);
      WholeGroups(a, Padded(data));
      WithoutFillerPadded(data);
      assert |Encoded(a, data)| >= |Kept(a, data)| > 0;
    }
  }

  /** Decoding whole groups undoes encoding them. */
  lemma WholeGroups(a: Alphabet, data: seq<byte>)
    requires |a.characters| == 32 && Inverts(a.characters, a.values)
    requires |data| % 5 == 0
    ensures DecodedGroups(a, Spell(a.characters, Symbols(data))) == Success(data)
  {
    LookupSpell(a.characters, a.values, Symbols(data));
    BytesSymbols(data);
  }

  /**
   * With padding the encoding is 8 characters per started group of 5 bytes;
   * without it, the characters that carry data: the ceiling of 8n/5.
   */
  lemma EncodedLength(a: Alphabet, data: seq<byte>)
    requires |a.characters| >= 32
    ensures a.padding.Some? ==> |Encoded(a, data)| == (|data| + 4) / 5 * 8
    ensures a.padding.None? ==> |Encoded(a, data)| == (8 * |data| + 4) / 5
  {
    if |data| > 0 {
      EncodedLengths(a, data);
      EncodedCounts(|data|);
      var c := FillCount(|data|, 5) * 8 / 5;
      if a.padding.Some? {
        assert |Encoded(a, data)| == |Kept(a, data)| + c;
      } else {
        assert |Encoded(a, data)| == |Kept(a, data)|;
      }
    }
  }

  lemma EncodedCounts(n: nat)
    ensures (n + FillCount(n, 5)) / 5 == (n + 4) / 5
    ensures 8 * ((n + FillCount(n, 5)) / 5) - FillCount(n, 5) * 8 / 5 == (8 * n + 4) / 5
  {
    var p := FillCount(n, 5);
    var c := p * 8 / 5;
    FillerCounts(p);
    var m := (n + p) / 5;
    DivModUnique(n + p, 5, m, 0);
    DivModUnique(n + 4, 5, m, 4 - p);
    var r := 4 as int - 8 * p + 5 * c;
    DivModUnique(8 * n + 4, 5, 8 * m - c, r);
  }

  /**
   * Decoding accepts a text of any length: it fails exactly when a character
   * left after the trailing padding is not ASCII or not in the alphabet, and
   * never with `wrongNumberOfBytes`.
   */
  lemma DecodedOutcome(a: Alphabet, text: seq<char>)
    requires |a.characters| == 32 && Inverts(a.characters, a.values)
    ensures var t := Unpadded(a, text);
      Decoded(a, text).Success? <==> forall i :: 0 <= i < |t| ==> IsAscii(t[i]) && a.values[t[i] as int].Some?
    ensures Decoded(a, text).Failure? ==> Decoded(a, text).error != WrongNumberOfBytes
  {
    var t := Unpadded(a, text);
    if |text| == 0 {
      assert t == [];
    } else {
      var filled := Filled(a, t);
      LookupIff(a.values, filled);
      assert filled[..|t|] == t;
      forall i | |t| <= i < |filled|
        ensures IsAscii(filled[i]) && a.values[filled[i] as int].Some?
      {
        assert filled[i] == a.characters[0];
      }
    }
  }

  // ----- Worked examples -----

  /** The symbols of one group, given in their arithmetic form. */
  lemma GroupSymbolsAre(b0: byte, b1: byte, b2: byte, b3: byte, b4: byte, s: seq<byte>)
    requires |s| == 8
    requires s[0] == b0 / 8 && s[1] == b0 % 8 * 4 + b1 / 64 && s[2] == b1 / 2 % 32
    requires s[3] == b1 % 2 * 16 + b2 / 16 && s[4] == b2 % 16 * 2 + b3 / 128 && s[5] == b3 / 4 % 32
    requires s[6] == b3 % 4 * 8 + b4 / 32 && s[7] == b4 % 32
    ensures GroupSymbols(b0, b1, b2, b3, b4) == s
  {
    SymbolsClosed(b0, b1, b2, b3, b4);
  }

  /** The symbols of five bytes, given in their arithmetic form. */
  lemma OneGroupSymbols(p: seq<byte>, s: seq<byte>)
    requires |p| == 5 && |s| == 8
    requires s[0] == p[0] / 8 && s[1] == p[0] % 8 * 4 + p[1] / 64 && s[2] == p[1] / 2 % 32
    requires s[3] == p[1] % 2 * 16 + p[2] / 16 && s[4] == p[2] % 16 * 2 + p[3] / 128 && s[5] == p[3] / 4 % 32
    requires s[6] == p[3] % 4 * 8 + p[4] / 32 && s[7] == p[4] % 32
    ensures Symbols(p) == s
  {
    assert p[..0] == [];
    GroupSymbolsAre(p[0], p[1], p[2], p[3], p[4], s);
  }

  /** The symbols of ten bytes, given in their arithmetic form. */
  lemma TwoGroupsSymbols(p: seq<byte>, s: seq<byte>)
    requires |p| == 10 && |s| == 16
    requires s[0] == p[0] / 8 && s[1] == p[0] % 8 * 4 + p[1] / 64 && s[2] == p[1] / 2 % 32
    requires s[3] == p[1] % 2 * 16 + p[2] / 16 && s[4] == p[2] % 16 * 2 + p[3] / 128 && s[5] == p[3] / 4 % 32
    requires s[6] == p[3] % 4 * 8 + p[4] / 32 && s[7] == p[4] % 32
    requires s[8] == p[5] / 8 && s[9] == p[5] % 8 * 4 + p[6] / 64 && s[10] == p[6] / 2 % 32
    requires s[11] == p[6] % 2 * 16 + p[7] / 16 && s[12] == p[7] % 16 * 2 + p[8] / 128 && s[13] == p[8] / 4 % 32
    requires s[14] == p[8] % 4 * 8 + p[9] / 32 && s[15] == p[9] % 32
    ensures Symbols(p) == s
  {
    assert p[..5][..0] == [];
    GroupSymbolsAre(p[0], p[1], p[2], p[3], p[4], s[..8]);
    GroupSymbolsAre(p[5], p[6], p[7], p[8], p[9], s[8..]);
    assert s == s[..8] + s[8..];
  }

  /** The encoding of non-empty data from its spelled-out symbols. */
  lemma EncodedFrom(a: Alphabet, data: seq<byte>, spelled: seq<char>, kept: seq<char>)
    requires |a.characters| >= 32 && |data| > 0
    requires Spell(a.characters, Symbols(Padded(data))) == spelled
    requires kept == spelled[..|spelled| - FillCount(|data|, 5) * 8 / 5]
    ensures Encoded(a, data) == kept + if a.padding.Some? then Repeat(a.padding.value, FillCount(|data|, 5) * 8 / 5) else []
  {
  }

  /**
   * Once the trailing padding is trimmed, the first character that is not
   * ASCII, or has no value, decides the error, whatever follows it.
   */
  lemma DecodedFirstError(a: Alphabet, text: seq<char>, k: nat)
    requires |a.characters| > 0 && |a.values| == 128 && |text| > 0
    requires k < |Unpadded(a, text)|
    requires forall i :: 0 <= i < k ==> IsAscii(Unpadded(a, text)[i]) && a.values[Unpadded(a, text)[i] as int].Some?
    ensures !IsAscii(Unpadded(a, text)[k]) ==> Decoded(a, text) == Failure(NonAsciiCharacters)
    ensures IsAscii(Unpadded(a, text)[k]) && a.values[Unpadded(a, text)[k] as int].None? ==> Decoded(a, text) == Failure(ValuesNotInAlphabet)
  {
    var t := Unpadded(a, text);
    var filled := Filled(a, t);
    assert filled[..|t|] == t;
    LookupFirstFailure(a.values, filled, k);
  }
}
