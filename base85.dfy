/**
 * The Base-85 codec (Sources/Bases/Base85.swift): every 4 bytes, read as a
 * big-endian 32-bit number, become its 5 base-85 digits, most significant
 * first; a short last group is filled with zero bytes and the digits that
 * carry only filler are dropped. An alphabet may abbreviate a whole group of
 * four zero bytes, or of four spaces, to a single character, and may wrap
 * the text in delimiters. The decoder undoes each step and fills a short
 * last group with the character of the largest value, 84.
 */
module Base85 {

  import opened Wrappers
  import opened Bits
  import opened Text
  import opened Errors
  import opened AlphabetTables
  import opened CollectionExtensions

  /**
   * `characters` maps the 85 values to characters, `values` maps each of the
   * 128 ASCII codes to a value or to nothing; the delimiters and the two
   * shortcut characters are optional.
   */
  datatype Alphabet = Alphabet(
    characters: seq<char>,
    values: seq<Option<byte>>,
    startDelimiter: Option<seq<char>>,
    endDelimiter: Option<seq<char>>,
    fourZeros: Option<char>,
    fourSpaces: Option<char>)

  // ----- Alphabet -----

  /**
   * The outcome of `init(characters:startDelimeter:endDelimeter:fourZeros:fourSpaces:)`:
   * 85 ASCII characters; neither the delimiters nor the shortcut characters are checked.
   */
  function Checked(characters: seq<char>, startDelimiter: Option<seq<char>>, endDelimiter: Option<seq<char>>,
                   fourZeros: Option<char>, fourSpaces: Option<char>): (r: Result<Alphabet, AlphabetError>)
    ensures r.Success? ==> r.value.characters == characters && |r.value.values| == 128
    ensures r.Success? ==> r.value.startDelimiter == startDelimiter && r.value.endDelimiter == endDelimiter
    ensures r.Success? ==> r.value.fourZeros == fourZeros && r.value.fourSpaces == fourSpaces
  {
    if |characters| != 85 then Failure(WrongNumberOfCharacters)
    else if !AllAscii(characters) then Failure(NoAsciiValue)
    else Success(Alphabet(characters, ValueTable(AsciiCodes(characters)), startDelimiter, endDelimiter, fourZeros, fourSpaces))
  }

  /** The checked initialiser: count check, ASCII values, then the 128-entry table. */
  method NewAlphabet(characters: seq<char>, startDelimiter: Option<seq<char>>, endDelimiter: Option<seq<char>>,
                     fourZeros: Option<char>, fourSpaces: Option<char>) returns (r: Result<Alphabet, AlphabetError>)
    ensures r == Checked(characters, startDelimiter, endDelimiter, fourZeros, fourSpaces)
  {
    if |characters| != 85 {
      return Failure(WrongNumberOfCharacters);
    }
    var asciiValues := AsciiValues(characters);
    if asciiValues.None? {
      return Failure(NoAsciiValue);
    }
    var values := BuildValueTable(asciiValues.value);
    return Success(Alphabet(characters, values, startDelimiter, endDelimiter, fourZeros, fourSpaces));
  }

  /** A checked alphabet whose characters are distinct decodes exactly its own characters. */
  lemma CheckedInverts(characters: seq<char>, startDelimiter: Option<seq<char>>, endDelimiter: Option<seq<char>>,
                       fourZeros: Option<char>, fourSpaces: Option<char>)
    requires Checked(characters, startDelimiter, endDelimiter, fourZeros, fourSpaces).Success? && Distinct(characters)
    ensures Inverts(characters, Checked(characters, startDelimiter, endDelimiter, fourZeros, fourSpaces).value.values)
    ensures OnlyCharacters(characters, Checked(characters, startDelimiter, endDelimiter, fourZeros, fourSpaces).value.values)
  {
    ValueTableInverts(characters);
  }

  /**
   * The checked initialiser fails exactly on a wrong count or on a non-ASCII
   * character, in that order, whatever the delimiters and shortcut characters.
   */
  lemma CheckedErrors(characters: seq<char>, startDelimiter: Option<seq<char>>, endDelimiter: Option<seq<char>>,
                      fourZeros: Option<char>, fourSpaces: Option<char>)
    ensures Checked(characters, startDelimiter, endDelimiter, fourZeros, fourSpaces) == Failure(WrongNumberOfCharacters)
      <==> |characters| != 85
    ensures Checked(characters, startDelimiter, endDelimiter, fourZeros, fourSpaces) == Failure(NoAsciiValue)
      <==> |characters| == 85 && exists i :: 0 <= i < 85 && !IsAscii(characters[i])
    ensures Checked(characters, startDelimiter, endDelimiter, fourZeros, fourSpaces).Success?
      <==> Checked(characters, None, None, None, None).Success?
  {
  }

  // ----- Numbers -----

  /** `UInt32(bigEndian:)` of four bytes. */
  function Word(b0: byte, b1: byte, b2: byte, b3: byte): (n: nat)
    ensures n < 0x1_0000_0000
  {
    b0 * 0x100_0000 + b1 * 0x1_0000 + b2 * 0x100 + b3
  }

  /** The five base-85 digits the encoder takes from a 32-bit number, most significant first. */
  function WordDigits(n: nat): (r: seq<byte>)
    requires n < 0x1_0000_0000
    ensures |r| == 5 && forall i :: 0 <= i < 5 ==> r[i] < 85
  {
    [(n / 52_200_625) % 85, (n / 614_125) % 85, (n / 7_225) % 85, (n / 85) % 85, n % 85]
  }

  /** The number five digits stand for, without any limit. */
  function Number(v: seq<byte>): nat
    requires |v| == 5
  {
    (v[0] as int) * 52_200_625 + (v[1] as int) * 614_125 + (v[2] as int) * 7_225 + (v[3] as int) * 85 + v[4] as int
  }

  /** `UInt32` addition as Swift checks it: a sum past 2^32 - 1 stops the program (`None`). */
  function CheckedAdd(x: Option<nat>, y: Option<nat>): Option<nat> {
    if x.None? || y.None? || x.value + y.value >= 0x1_0000_0000 then None else Some(x.value + y.value)
  }

  /** `UInt32` multiplication of a digit by a place value, checked the same way. */
  function CheckedMul(v: byte, k: nat): Option<nat> {
    if (v as int) * k >= 0x1_0000_0000 then None else Some((v as int) * k)
  }

  /**
   * The decoder's number for five digits, summed left to right in checked
   * 32-bit arithmetic: it exists exactly when the exact number is below
   * 2^32, and is then that number.
   */
  function GroupNumber(v: seq<byte>): (r: Option<nat>)
    requires |v| == 5
    ensures r.Some? <==> Number(v) < 0x1_0000_0000
    ensures r.Some? ==> r.value == Number(v)
  {
    CheckedAdd(CheckedAdd(CheckedAdd(CheckedAdd(
      CheckedMul(v[0], 52_200_625), CheckedMul(v[1], 614_125)), CheckedMul(v[2], 7_225)), CheckedMul(v[3], 85)),
      Some(v[4]))
  }

  /** The four bytes of a 32-bit number, most significant first (`(n >> 24) & 0xFF` and so on). */
  function WordBytes(n: nat): (r: seq<byte>)
    requires n < 0x1_0000_0000
    ensures |r| == 4
  {
    [n / 0x100_0000 % 0x100, n / 0x1_0000 % 0x100, n / 0x100 % 0x100, n % 0x100]
  }

  /** The digits of a 32-bit number stand for that number. */
  lemma WordDigitsValue(n: nat)
    requires n < 0x1_0000_0000
    ensures Number(WordDigits(n)) == n
  {
    var q1 := n / 85;
    var q2 := q1 / 85;
    var q3 := q2 / 85;
    var q4 := q3 / 85;
    var d1, d2, d3, d4 := q3 % 85, q2 % 85, q1 % 85, n % 85;
    assert n == q1 * 85 + d4;
    assert q1 == q2 * 85 + d3;
    assert q2 == q3 * 85 + d2;
    assert q3 == q4 * 85 + d1;
    DivModUnique(n, 7_225, q2, d3 * 85 + d4);
    DivModUnique(n, 614_125, q3, d2 * 7_225 + d3 * 85 + d4);
    DivModUnique(n, 52_200_625, q4, d1 * 614_125 + d2 * 7_225 + d3 * 85 + d4);
    DivModUnique(q4, 85, 0, q4);
  }

  /**
   * A number that exceeds a word by less than 256^(4 - k) keeps the word's
   * first k bytes, as long as what it adds fits below them.
   */
  lemma WordBytesAbove(b0: byte, b1: byte, b2: byte, b3: byte, r: nat)
    requires Word(b0, b1, b2, b3) + r < 0x1_0000_0000
    ensures var m := Word(b0, b1, b2, b3) + r;
      (b1 * 0x1_0000 + b2 * 0x100 + b3 + r < 0x100_0000 ==> WordBytes(m)[0] == b0)
      && (b2 * 0x100 + b3 + r < 0x1_0000 ==> WordBytes(m)[1] == b1)
      && (b3 + r < 0x100 ==> WordBytes(m)[2] == b2)
      && (r == 0 ==> WordBytes(m)[3] == b3)
  {
    var m := Word(b0, b1, b2, b3) + r;
    if b1 * 0x1_0000 + b2 * 0x100 + b3 + r < 0x100_0000 {
      DivModUnique(m, 0x100_0000, b0, b1 * 0x1_0000 + b2 * 0x100 + b3 + r);
      DivModUnique(b0, 0x100, 0, b0);
    }
    if b2 * 0x100 + b3 + r < 0x1_0000 {
      DivModUnique(m, 0x1_0000, b0 * 0x100 + b1, b2 * 0x100 + b3 + r);
      DivModUnique(b0 * 0x100 + b1, 0x100, b0, b1);
    }
    if b3 + r < 0x100 {
      DivModUnique(m, 0x100, b0 * 0x1_0000 + b1 * 0x100 + b2, b3 + r);
      DivModUnique(b0 * 0x1_0000 + b1 * 0x100 + b2, 0x100, b0 * 0x100 + b1, b2);
    }
    if r == 0 {
      DivModUnique(m, 0x100, b0 * 0x1_0000 + b1 * 0x100 + b2, b3);
    }
  }

  /** A whole group survives the trip through its digits: the decoder's number and bytes give it back. */
  lemma GroupRoundTrip(b0: byte, b1: byte, b2: byte, b3: byte)
    ensures GroupNumber(WordDigits(Word(b0, b1, b2, b3))) == Some(Word(b0, b1, b2, b3))
    ensures WordBytes(Word(b0, b1, b2, b3)) == [b0, b1, b2, b3]
  {
    WordDigitsValue(Word(b0, b1, b2, b3));
    WordBytesAbove(b0, b1, b2, b3, 0);
  }

  /** The place value of the last p digits: 256^p. */
  function FillerSpan(p: nat): nat
    requires p <= 3
  {
    if p == 0 then 1 else if p == 1 then 0x100 else if p == 2 then 0x1_0000 else 0x100_0000
  }

  /** Setting the last p digits to 84 raises the number by less than 85^p, hence by less than 256^p. */
  lemma FilledNumber(d: seq<byte>, p: nat)
    requires |d| == 5 && p <= 3 && forall i :: 0 <= i < 5 ==> d[i] < 85
    ensures Number(d) <= Number(d[..5 - p] + Repeat(84, p)) < Number(d) + FillerSpan(p)
  {
    var e := d[..5 - p] + Repeat(84, p);
    assert forall i :: 0 <= i < 5 - p ==> e[i] == d[i];
    assert forall i :: 5 - p <= i < 5 ==> e[i] == 84;
  }

  /**
   * The last group of a padded input, whose last p bytes are zero: with its
   * last p digits set to 84, its number still fits in 32 bits and keeps the
   * group's first 4 - p bytes.
   */
  lemma LastGroup(b0: byte, b1: byte, b2: byte, b3: byte, p: nat)
    requires p <= 3 && (p >= 1 ==> b3 == 0) && (p >= 2 ==> b2 == 0) && (p >= 3 ==> b1 == 0)
    ensures var e := WordDigits(Word(b0, b1, b2, b3))[..5 - p] + Repeat(84, p);
      Number(e) < 0x1_0000_0000 && WordBytes(Number(e))[..4 - p] == [b0, b1, b2, b3][..4 - p]
  {
    var n := Word(b0, b1, b2, b3);
    var d := WordDigits(n);
    var e := d[..5 - p] + Repeat(84, p);
    WordDigitsValue(n);
    FilledNumber(d, p);
    var r := Number(e) - n;
    WordBytesAbove(b0, b1, b2, b3, r);
    var m := WordBytes(Number(e));
    assert m[..4 - p] == [b0, b1, b2, b3][..4 - p] by {
      if p == 0 {
        assert m == [b0, b1, b2, b3];
      } else if p == 1 {
        assert m[..3] == [b0, b1, b2];
      } else if p == 2 {
        assert m[..2] == [b0, b1];
      }
    }
  }

  // ----- Encoder -----

  /** The base-85 digits of whole groups of four bytes, group after group. */
  function Digits(data: seq<byte>): (r: seq<byte>)
    requires |data| % 4 == 0
    ensures |r| == |data| / 4 * 5 && forall i :: 0 <= i < |r| ==> r[i] < 85
  {
    if |data| == 0 then []
    else
      var n := |data|;
      Digits(data[..n - 4]) + WordDigits(Word(data[n - 4], data[n - 3], data[n - 2], data[n - 1]))
  }

  /** The data followed by the zero bytes that make its length a multiple of 4. */
  function Padded(data: seq<byte>): (r: seq<byte>)
    ensures |r| % 4 == 0 && |r| == |data| + FillCount(|data|, 4)
    ensures r[..|data|] == data && forall j :: |data| <= j < |r| ==> r[j] == 0
  {
    data + Repeat(0, FillCount(|data|, 4))
  }

  /**
   * How many characters the encoder drops and how many bytes the decoder
   * drops, for p filler bytes: p * 5 / 4 and (p + 1) * 3 / 4 are both p.
   * A decoder fill of 4 characters, which no encoder output needs, drops 3.
   */
  lemma FillerCounts(p: nat)
    requires p <= 4
    ensures p < 4 ==> p * 5 / 4 == p
    ensures 0 < p < 4 ==> (p + 1) * 3 / 4 == p
    ensures p == 4 ==> (p + 1) * 3 / 4 == 3
  {
  }

  /** The characters of the digits of non-empty data, without those that come only from filler. */
  function Kept(a: Alphabet, data: seq<byte>): (r: seq<char>)
    requires |a.characters| >= 85 && |data| > 0
  {
    var spelled := Spell(a.characters, Digits(Padded(data)));
    spelled[..|spelled| - FillCount(|data|, 4) * 5 / 4]
  }

  /** The five characters for four zero bytes: the character of value 0, five times. */
  function ZerosGroup(a: Alphabet): seq<char>
    requires |a.characters| >= 85
  {
    Repeat(a.characters[0], 5)
  }

  /** The five characters for four spaces, the digits 10, 27, 53, 67 and 43. */
  function SpacesGroup(a: Alphabet): seq<char>
    requires |a.characters| >= 85
  {
    [a.characters[10], a.characters[27], a.characters[53], a.characters[67], a.characters[43]]
  }

  /** Four zero bytes and four spaces, as words. */
  lemma ShortcutWords()
    ensures Word(0x20, 0x20, 0x20, 0x20) == 538_976_288 && Word(0, 0, 0, 0) == 0
  {
  }

  /** Four zero bytes have the digits 0, 0, 0, 0, 0 and four spaces the digits 10, 27, 53, 67, 43. */
  lemma ShortcutDigits()
    ensures WordDigits(0) == [0, 0, 0, 0, 0] && WordDigits(538_976_288) == [10, 27, 53, 67, 43]
  {
    var n := 538_976_288;
    assert n / 52_200_625 == 10 && n / 614_125 == 877 && n / 7_225 == 74_598 && n / 85 == 6_340_897;
  }

  /** `addZerosSpacesCharacters(in:)`: a whole group of zeros or of spaces becomes its shortcut, when the alphabet has one. */
  function Shortcut(a: Alphabet, chunk: seq<char>): (r: seq<char>)
    requires |a.characters| >= 85
  {
    if |chunk| == 5 && chunk == ZerosGroup(a) && a.fourZeros.Some? then [a.fourZeros.value]
    else if |chunk| == 5 && chunk == SpacesGroup(a) && a.fourSpaces.Some? then [a.fourSpaces.value]
    else chunk
  }

  /** The chunks, each through `Shortcut`, put back together. */
  function Shortened(a: Alphabet, chunks: seq<seq<char>>): seq<char>
    requires |a.characters| >= 85
    decreases |chunks|
  {
    if |chunks| == 0 then [] else Shortcut(a, chunks[0]) + Shortened(a, chunks[1..])
  }

  /** A text may not end in the zeros shortcut: a trailing one is spelled out again. */
  function WithoutTrailingShortcut(a: Alphabet, output: seq<char>): seq<char>
    requires |a.characters| >= 85
  {
    if a.fourZeros.Some? && |output| > 0 && output[|output| - 1] == a.fourZeros.value
    then output[..|output| - 1] + ZerosGroup(a)
    else output
  }

  /** The text between the delimiters the alphabet has. */
  function Delimited(a: Alphabet, output: seq<char>): seq<char> {
    var started := if a.startDelimiter.Some? then a.startDelimiter.value + output else output;
    if a.endDelimiter.Some? then started + a.endDelimiter.value else started
  }

  /** The encoding of non-empty data before the delimiters. */
  function Body(a: Alphabet, data: seq<byte>): seq<char>
    requires |a.characters| >= 85 && |data| > 0
  {
    WithoutTrailingShortcut(a, Shortened(a, Chunked(Kept(a, data), 5)))
  }

  /** The outcome of `Encoder.encode`. */
  function Encoded(a: Alphabet, data: seq<byte>): seq<char>
    requires |a.characters| >= 85
  {
    if |data| == 0 then [] else Delimited(a, Body(a, data))
  }

  /**
   * `Encoder.encode`: zero-fill, five digits per group, drop the filler
   * digits, abbreviate, spell out a trailing zeros shortcut, then add the
   * delimiters.
   */
  method Encode(a: Alphabet, data: seq<byte>) returns (output: seq<char>)
    requires |a.characters| >= 85
    ensures output == Encoded(a, data)
  {
    if |data| == 0 {
      return [];
    }
    var shortened := Shortened(a, Chunked(Kept(a, data), 5));
    output := shortened;
    if a.fourZeros.Some? && |output| > 0 && output[|output| - 1] == a.fourZeros.value {
      output := output[..|output| - 1];
      output := output + ZerosGroup(a);
    }
    assert output == WithoutTrailingShortcut(a, shortened);
    var body := output;
    if a.startDelimiter.Some? {
      output := a.startDelimiter.value + output;
    }
    if a.endDelimiter.Some? {
      output := output + a.endDelimiter.value;
    }
    assert output == Delimited(a, body);
    assert body == Body(a, data);
  }

  // ----- Decoder -----

  /** Why decoding fails: an error thrown, or a group whose number overflows the checked 32-bit sum and stops the program. */
  datatype DecodeFailure = Thrown(error: DecodingError) | Overflow

  /** The text without the delimiters it starts and ends with; a delimiter that is not there is left alone. */
  function Undelimited(a: Alphabet, text: seq<char>): seq<char> {
    var t := if a.startDelimiter.Some? && HasPrefix(text, a.startDelimiter.value)
      then text[|a.startDelimiter.value|..] else text;
    if a.endDelimiter.Some? && HasSuffix(t, a.endDelimiter.value) then t[..|t| - |a.endDelimiter.value|] else t
  }

  /** The text with every zeros shortcut, then every spaces shortcut, replaced by the five characters it stands for. */
  function Expanded(a: Alphabet, text: seq<char>): seq<char>
    requires |a.characters| >= 85
  {
    var t := if a.fourZeros.Some? then ReplacingOccurrences(text, [a.fourZeros.value], ZerosGroup(a)) else text;
    if a.fourSpaces.Some? then ReplacingOccurrences(t, [a.fourSpaces.value], SpacesGroup(a)) else t
  }

  /**
   * The bytes of the groups of five values, group after group; a group
   * whose number does not fit in 32 bits overflows. The decoder only ever
   * passes whole groups; a shorter tail would contribute nothing.
   */
  function GroupsBytes(values: seq<byte>): (r: Result<seq<byte>, DecodeFailure>)
    ensures r.Success? ==> |r.value| == |values| / 5 * 4
    ensures r.Failure? ==> r.error == Overflow
  {
    if |values| < 5 then Success([])
    else
      var n := |values|;
      DivModUnique(n, 5, (n - 5) / 5 + 1, (n - 5) % 5);
      var front :- GroupsBytes(values[..n - 5]);
      match GroupNumber(values[n - 5..])
      case None => Failure(Overflow)
      case Some(number) => Success(front + WordBytes(number))
  }

  /** The decoded bytes without those that came only from filler characters. */
  function WithoutFiller(data: seq<byte>, padCharacterCount: nat): (r: seq<byte>)
    requires padCharacterCount < 5 && (padCharacterCount > 0 ==> |data| >= 4)
  {
    if padCharacterCount > 0 then data[..|data| - (padCharacterCount + 1) * 3 / 4] else data
  }

  /** The lengths of a text filled up to a multiple of 5, and of its bytes. */
  lemma FilledLengths(n: nat, c: nat)
    requires c < 5 && (n + c) % 5 == 0 && (c > 0 || n > 0)
    ensures (n + c) / 5 * 4 >= 4
  {
    DivModUnique(n + c, 5, (n + c) / 5, 0);
  }

  /** Decoding a text whose delimiters are stripped and whose shortcuts are expanded. */
  function DecodedCharacters(a: Alphabet, t: seq<char>): (r: Result<seq<byte>, DecodeFailure>)
    requires |a.characters| >= 85 && |a.values| == 128
  {
    var padCharacterCount := FillCount(|t|, 5);
    var values := Lookup(a.values, t + Repeat(a.characters[84], padCharacterCount));
    if values.Failure? then Failure(Thrown(values.error))
    else
      var groups := GroupsBytes(values.value);
      if groups.Failure? || padCharacterCount == 0 then groups
      else
        FilledLengths(|t|, padCharacterCount);
        Success(WithoutFiller(groups.value, padCharacterCount))
  }

  /** The outcome of `Decoder.decode`. */
  function Decoded(a: Alphabet, text: seq<char>): (r: Result<seq<byte>, DecodeFailure>)
    requires |a.characters| >= 85 && |a.values| == 128
  {
    if |text| == 0 then Success([]) else DecodedCharacters(a, Expanded(a, Undelimited(a, text)))
  }

  /**
   * `Decoder.decode`: strip the delimiters, expand the shortcuts, then
   * decode the characters.
   */
  method Decode(a: Alphabet, text: seq<char>) returns (r: Result<seq<byte>, DecodeFailure>)
    requires |a.characters| >= 85 && |a.values| == 128
    ensures r == Decoded(a, text)
  {
    if |text| == 0 {
      return Success([]);
    }
    var t := text;
    if a.startDelimiter.Some? && HasPrefix(t, a.startDelimiter.value) {
      t := t[|a.startDelimiter.value|..];
    }
    if a.endDelimiter.Some? && HasSuffix(t, a.endDelimiter.value) {
      t := t[..|t| - |a.endDelimiter.value|];
    }
    if a.fourZeros.Some? {
      t := ReplacingOccurrences(t, [a.fourZeros.value], ZerosGroup(a));
    }
    if a.fourSpaces.Some? {
      t := ReplacingOccurrences(t, [a.fourSpaces.value], SpacesGroup(a));
    }
    assert t == Expanded(a, Undelimited(a, text));
    r := DecodeCharacters(a, t);
  }

  /**
   * The rest of `Decoder.decode`: fill up to a multiple of 5 with the
   * character of value 84, look every character up, turn each group of five
   * values into four bytes, then drop the bytes made of filler.
   */
  method DecodeCharacters(a: Alphabet, t: seq<char>) returns (r: Result<seq<byte>, DecodeFailure>)
    requires |a.characters| >= 85 && |a.values| == 128
    ensures r == DecodedCharacters(a, t)
  {
    var padCharacterCount := FillCount(|t|, 5);
    var filled := t + Repeat(a.characters[84], padCharacterCount);
    var values := Lookup(a.values, filled);
    if values.Failure? {
      return Failure(Thrown(values.error));
    }
    var groups := GroupsBytes(values.value);
    if groups.Failure? {
      return Failure(groups.error);
    }
    var data := groups.value;
    if padCharacterCount > 0 {
      FilledLengths(|t|, padCharacterCount);
      data := data[..|data| - (padCharacterCount + 1) * 3 / 4];
    }
    return Success(data);
  }

  // ----- Round trip -----

  /** The shortcut characters are not among the alphabet's characters, and differ from each other. */
  predicate ShortcutsFit(a: Alphabet) {
    (a.fourZeros.Some? ==> a.fourZeros.value !in a.characters)
    && (a.fourSpaces.Some? ==> a.fourSpaces.value !in a.characters)
    && (a.fourZeros.Some? && a.fourSpaces.Some? ==> a.fourZeros.value != a.fourSpaces.value)
  }

  /** Every character of `s` is one of the alphabet's. */
  predicate InAlphabet(a: Alphabet, s: seq<char>) {
    forall i :: 0 <= i < |s| ==> s[i] in a.characters
  }

  /** Expanding the shortcuts commutes with concatenation. */
  lemma ExpandedAppend(a: Alphabet, x: seq<char>, y: seq<char>)
    requires |a.characters| >= 85
    ensures Expanded(a, x + y) == Expanded(a, x) + Expanded(a, y)
  {
    var x', y' := x, y;
    if a.fourZeros.Some? {
      ReplacingCharAppend(x, y, a.fourZeros.value, ZerosGroup(a));
      x' := ReplacingOccurrences(x, [a.fourZeros.value], ZerosGroup(a));
      y' := ReplacingOccurrences(y, [a.fourZeros.value], ZerosGroup(a));
    }
    if a.fourSpaces.Some? {
      ReplacingCharAppend(x', y', a.fourSpaces.value, SpacesGroup(a));
    }
  }

  /** Text made of the alphabet's characters has nothing to expand. */
  lemma ExpandedPlain(a: Alphabet, s: seq<char>)
    requires |a.characters| >= 85 && ShortcutsFit(a) && InAlphabet(a, s)
    ensures Expanded(a, s) == s
  {
    if a.fourZeros.Some? {
      ReplacingAbsentChar(s, a.fourZeros.value, ZerosGroup(a));
    }
    if a.fourSpaces.Some? {
      ReplacingAbsentChar(s, a.fourSpaces.value, SpacesGroup(a));
    }
  }

  /** The characters for zeros and for spaces are the alphabet's own. */
  lemma GroupsInAlphabet(a: Alphabet)
    requires |a.characters| >= 85
    ensures InAlphabet(a, ZerosGroup(a)) && InAlphabet(a, SpacesGroup(a))
  {
  }

  /** Expanding a chunk's shortcut gives the chunk back. */
  lemma ExpandedShortcut(a: Alphabet, chunk: seq<char>)
    requires |a.characters| >= 85 && ShortcutsFit(a) && InAlphabet(a, chunk)
    ensures Expanded(a, Shortcut(a, chunk)) == chunk
  {
    GroupsInAlphabet(a);
    if |chunk| == 5 && chunk == ZerosGroup(a) && a.fourZeros.Some? {
      var z := a.fourZeros.value;
      ReplacingLeading([], [z], ZerosGroup(a));
      assert [z] + [] == [z];
      assert ReplacingOccurrences([z], [z], ZerosGroup(a)) == ZerosGroup(a);
      if a.fourSpaces.Some? {
        ReplacingAbsentChar(ZerosGroup(a), a.fourSpaces.value, SpacesGroup(a));
      }
    } else if |chunk| == 5 && chunk == SpacesGroup(a) && a.fourSpaces.Some? {
      var y := a.fourSpaces.value;
      if a.fourZeros.Some? {
        ReplacingAbsentChar([y], a.fourZeros.value, ZerosGroup(a));
      }
      ReplacingLeading([], [y], SpacesGroup(a));
      assert [y] + [] == [y];
    } else {
      ExpandedPlain(a, chunk);
    }
  }

  /** Expanding abbreviated chunks of the alphabet's characters puts the chunks back together. */
  lemma {:induction false} ExpandedShortened(a: Alphabet, chunks: seq<seq<char>>)
    requires |a.characters| >= 85 && ShortcutsFit(a)
    requires forall k :: 0 <= k < |chunks| ==> InAlphabet(a, chunks[k])
    ensures Expanded(a, Shortened(a, chunks)) == Flatten(chunks)
    decreases |chunks|
  {
    if |chunks| == 0 {
      ExpandedPlain(a, []);
    } else {
      ExpandedAppend(a, Shortcut(a, chunks[0]), Shortened(a, chunks[1..]));
      ExpandedShortcut(a, chunks[0]);
      ExpandedShortened(a, chunks[1..]);
    }
  }

  /** Spelling out a trailing zeros shortcut does not change what the text expands to. */
  lemma ExpandedTrailing(a: Alphabet, s: seq<char>)
    requires |a.characters| >= 85 && ShortcutsFit(a)
    ensures Expanded(a, WithoutTrailingShortcut(a, s)) == Expanded(a, s)
  {
    if a.fourZeros.Some? && |s| > 0 && s[|s| - 1] == a.fourZeros.value {
      var z := a.fourZeros.value;
      var front := s[..|s| - 1];
      assert s == front + [z];
      ExpandedAppend(a, front, [z]);
      ExpandedAppend(a, front, ZerosGroup(a));
      GroupsInAlphabet(a);
      ExpandedShortcut(a, ZerosGroup(a));
      assert Shortcut(a, ZerosGroup(a)) == [z];
      ExpandedPlain(a, ZerosGroup(a));
    }
  }

  /** Delimiters only add characters. */
  lemma DelimitedLength(a: Alphabet, output: seq<char>)
    ensures |Delimited(a, output)| >= |output|
  {
  }

  /** The delimiters the encoder adds are the ones the decoder strips. */
  lemma UndelimitedDelimited(a: Alphabet, body: seq<char>)
    ensures Undelimited(a, Delimited(a, body)) == body
  {
    var text := Delimited(a, body);
    var started := if a.startDelimiter.Some? then a.startDelimiter.value + body else body;
    if a.startDelimiter.Some? {
      assert text[..|a.startDelimiter.value|] == a.startDelimiter.value;
      assert text[|a.startDelimiter.value|..] == if a.endDelimiter.Some? then body + a.endDelimiter.value else body;
    }
    if a.endDelimiter.Some? {
      var t := body + a.endDelimiter.value;
      assert t[|t| - |a.endDelimiter.value|..] == a.endDelimiter.value;
      assert t[..|t| - |a.endDelimiter.value|] == body;
    }
  }

  /**
   * No bytes encode as the empty text even when the alphabet has delimiters;
   * any other encoding starts and ends with the delimiters the alphabet has.
   */
  lemma EncodedDelimiters(a: Alphabet, data: seq<byte>)
    requires |a.characters| >= 85
    ensures |data| == 0 <==> Encoded(a, data) == []
    ensures |data| > 0 && a.startDelimiter.Some? ==> HasPrefix(Encoded(a, data), a.startDelimiter.value)
    ensures |data| > 0 && a.endDelimiter.Some? ==> HasSuffix(Encoded(a, data), a.endDelimiter.value)
  {
    if |data| > 0 {
      assert |Body(a, data)| > 0 by {
        KeptLength(a, data);
        var chunks := Chunked(Kept(a, data), 5);
        ChunkedCount(Kept(a, data), 5);
        ChunkedLengths(Kept(a, data), 5);
        assert |chunks[0]| > 0;
        assert |Shortened(a, chunks)| >= |Shortcut(a, chunks[0])| > 0;
      }
      DelimitedLength(a, Body(a, data));
      var text := Delimited(a, Body(a, data));
      var started := if a.startDelimiter.Some? then a.startDelimiter.value + Body(a, data) else Body(a, data);
      if a.startDelimiter.Some? {
        assert text[..|a.startDelimiter.value|] == a.startDelimiter.value;
      }
      if a.endDelimiter.Some? {
        assert text[|text| - |a.endDelimiter.value|..] == a.endDelimiter.value;
      }
    }
  }

  /** The lengths involved in encoding non-empty data: 4 bytes give 5 characters, a last group of k bytes gives k + 1. */
  lemma KeptLength(a: Alphabet, data: seq<byte>)
    requires |a.characters| >= 85 && |data| > 0
    ensures |Padded(data)| >= 4
    ensures |Kept(a, data)| == |Padded(data)| / 4 * 5 - FillCount(|data|, 4)
    ensures FillCount(|Kept(a, data)|, 5) == FillCount(|data|, 4)
    ensures |Kept(a, data)| == (5 * |data| + 3) / 4
  {
    var p := FillCount(|data|, 4);
    FillerCounts(p);
    var g := |Padded(data)| / 4;
    DivModUnique(|Padded(data)|, 4, g, 0);
    if p == 0 {
      DivModUnique(5 * g, 5, g, 0);
    } else {
      DivModUnique(5 * g - p, 5, g - 1, 5 - p);
    }
    DivModUnique(5 * |data| + 3, 4, 5 * g - p, 3 - p);
  }

  /** Every character of `Kept` is one of the alphabet's. */
  lemma KeptInAlphabet(a: Alphabet, data: seq<byte>)
    requires |a.characters| >= 85 && |data| > 0
    ensures InAlphabet(a, Kept(a, data))
  {
    var spelled := Spell(a.characters, Digits(Padded(data)));
    KeptLength(a, data);
    forall i | 0 <= i < |Kept(a, data)|
      ensures Kept(a, data)[i] in a.characters
    {
      assert Kept(a, data)[i] == spelled[i];
    }
  }

  /** Expanding the body gives back the characters of the digits. */
  lemma BodyExpands(a: Alphabet, data: seq<byte>)
    requires |a.characters| >= 85 && ShortcutsFit(a) && |data| > 0
    ensures Expanded(a, Body(a, data)) == Kept(a, data)
  {
    var kept := Kept(a, data);
    var chunks := Chunked(kept, 5);
    KeptInAlphabet(a, data);
    ChunkedElements(kept, 5);
    forall k | 0 <= k < |chunks|
      ensures InAlphabet(a, chunks[k])
    {
      assert forall j :: 0 <= j < |chunks[k]| ==> chunks[k][j] in kept;
    }
    ExpandedShortened(a, chunks);
    FlattenChunked(kept, 5);
    ExpandedTrailing(a, Shortened(a, chunks));
  }

  /** A sequence of at least four elements is what precedes its last four, then those four. */
  lemma LastFour<T>(s: seq<T>)
    requires |s| >= 4
    ensures s == s[..|s| - 4] + [s[|s| - 4], s[|s| - 3], s[|s| - 2], s[|s| - 1]]
  {
  }

  /** Decoding the values of whole groups, then those of one more group: the bytes of both, or an overflow. */
  lemma GroupsBytesLast(front: seq<byte>, e: seq<byte>)
    requires |e| == 5 && |front| % 5 == 0
    ensures GroupsBytes(front + e) ==
      match GroupsBytes(front)
      case Failure(f) => Failure(f)
      case Success(bytes) => if GroupNumber(e).None? then Failure(Overflow) else Success(bytes + WordBytes(Number(e)))
  {
    var x := front + e;
    assert x[..|x| - 5] == front;
    assert x[|x| - 5..] == e;
  }

  /** Decoding the digits of whole groups gives the groups back. */
  lemma {:induction false} GroupsBytesDigits(data: seq<byte>)
    requires |data| % 4 == 0
    ensures GroupsBytes(Digits(data)) == Success(data)
    decreases |data|
  {
    if |data| > 0 {
      var n := |data|;
      var front := data[..n - 4];
      LastFour(data);
      GroupsBytesDigits(front);
      var w := WordDigits(Word(data[n - 4], data[n - 3], data[n - 2], data[n - 1]));
      assert Digits(data) == Digits(front) + w;
      DivModUnique(|Digits(front)|, 5, |front| / 4, 0);
      GroupsBytesLast(Digits(front), w);
      GroupRoundTrip(data[n - 4], data[n - 3], data[n - 2], data[n - 1]);
    }
  }

  /** Spelling values whose last p are replaced by c: the spelling with its last p characters replaced by c's. */
  lemma SpellFilled(characters: seq<char>, d: seq<byte>, p: nat, c: byte)
    requires p <= |d| && c < |characters| && forall i :: 0 <= i < |d| ==> d[i] < |characters|
    ensures Spell(characters, d[..|d| - p] + Repeat(c, p)) == Spell(characters, d)[..|d| - p] + Repeat(characters[c], p)
  {
  }

  /** Cutting the end of the second part of a concatenation. */
  lemma TrimAppend<T>(x: seq<T>, w: seq<T>, p: nat, y: seq<T>)
    requires p <= |w|
    ensures x + (w[..|w| - p] + y) == (x + w)[..|x + w| - p] + y
  {
    assert (x + w)[..|x + w| - p] == x + w[..|w| - p];
  }

  /** FilledSpelling over plain sequences: the digits d split as f + w, and kept the spelling of d less its last p. */
  lemma FilledSpellingOf(characters: seq<char>, d: seq<byte>, f: seq<byte>, w: seq<byte>, p: nat, kept: seq<char>)
    requires |characters| == 85 && d == f + w && p <= |w| && forall i :: 0 <= i < |d| ==> d[i] < 85
    requires (forall i :: 0 <= i < |f| ==> f[i] < 85) && forall i :: 0 <= i < |w| ==> w[i] < 85
    requires kept == Spell(characters, d)[..|d| - p]
    ensures Spell(characters, f + (w[..|w| - p] + Repeat(84, p))) == kept + Repeat(characters[84], p)
  {
    TrimAppend(f, w, p, Repeat(84, p));
    SpellFilled(characters, d, p, 84);
  }

  /** The filled text is the spelling of the digits with the last p replaced by 84. */
  lemma FilledSpelling(a: Alphabet, data: seq<byte>, front: seq<byte>, w: seq<byte>)
    requires |a.characters| == 85 && |data| > 0 && |w| == 5 && forall i :: 0 <= i < 5 ==> w[i] < 85
    requires |front| % 4 == 0 && Digits(Padded(data)) == Digits(front) + w
    ensures FillCount(|data|, 4) < 4
    ensures Spell(a.characters, Digits(front) + (w[..5 - FillCount(|data|, 4)] + Repeat(84, FillCount(|data|, 4))))
      == Kept(a, data) + Repeat(a.characters[84], FillCount(|data|, 4))
  {
    var p := FillCount(|data|, 4);
    FillerCounts(p);
    var d := Digits(Padded(data));
    assert p * 5 / 4 == p;
    FilledSpellingOf(a.characters, d, Digits(front), w, p, Kept(a, data));
  }

  /** The bytes of the filled last group, less the p made of filler, are the data's last bytes. */
  lemma WithoutFillerLast(data: seq<byte>, front: seq<byte>, last: seq<byte>)
    requires |data| > 0 && |last| == 4 && FillCount(|data|, 4) < 4
    requires Padded(data)[..|Padded(data)| - 4] == front
    requires last[..4 - FillCount(|data|, 4)] == Padded(data)[|Padded(data)| - 4..][..4 - FillCount(|data|, 4)]
    ensures WithoutFiller(front + last, FillCount(|data|, 4)) == data
  {
    var padded := Padded(data);
    var p := FillCount(|data|, 4);
    FillerCounts(p);
    assert padded == front + padded[|padded| - 4..];
    assert data == padded[..|padded| - p];
    if p > 0 {
      assert (front + last)[..|front + last| - p] == front + last[..4 - p];
    }
  }

  /** Filling `Kept` with the character of value 84 and decoding gives the data back. */
  lemma DecodedKept(a: Alphabet, data: seq<byte>)
    requires |a.characters| == 85 && Inverts(a.characters, a.values) && |data| > 0
    ensures DecodedCharacters(a, Kept(a, data)) == Success(data)
  {
    var padded := Padded(data);
    var p := FillCount(|data|, 4);
    var n := |padded|;
    KeptLength(a, data);
    var front := padded[..n - 4];
    LastFour(padded);
    var b0, b1, b2, b3 := padded[n - 4], padded[n - 3], padded[n - 2], padded[n - 1];
    var w := WordDigits(Word(b0, b1, b2, b3));
    assert Digits(padded) == Digits(front) + w;
    FilledSpelling(a, data, front, w);
    var e := w[..5 - p] + Repeat(84, p);
    LookupSpell(a.characters, a.values, Digits(front) + e);
    DivModUnique(|Digits(front)|, 5, |front| / 4, 0);
    GroupsBytesDigits(front);
    GroupsBytesLast(Digits(front), e);
    LastGroup(b0, b1, b2, b3, p);
    var last := WordBytes(Number(e));
    assert [b0, b1, b2, b3] == padded[n - 4..];
    WithoutFillerLast(data, front, last);
  }

  /**
   * Decoding undoes encoding, for an alphabet of 85 characters that inverts
   * them, whose shortcut characters are not among them and differ; the
   * delimiters may be anything.
   */
  lemma RoundTrip(a: Alphabet, data: seq<byte>)
    requires |a.characters| == 85 && Inverts(a.characters, a.values) && ShortcutsFit(a)
    ensures Decoded(a, Encoded(a, data)) == Success(data)
  {
    if |data| > 0 {
      BodyEnd(a, data);
      DelimitedLength(a, Body(a, data));
      UndelimitedDelimited(a, Body(a, data));
      BodyExpands(a, data);
      DecodedKept(a, data);
    }
  }

  /**
   * The body of a non-empty encoding is never empty and, by the trailing
   * fix, never ends in the zeros shortcut; the encoding is empty exactly
   * for empty data.
   */
  lemma BodyEnd(a: Alphabet, data: seq<byte>)
    requires |a.characters| >= 85 && ShortcutsFit(a) && |data| > 0
    ensures |Body(a, data)| > 0
    ensures a.fourZeros.Some? ==> Body(a, data)[|Body(a, data)| - 1] != a.fourZeros.value
  {
    BodyExpands(a, data);
    KeptLength(a, data);
    var s := Shortened(a, Chunked(Kept(a, data), 5));
    if a.fourZeros.Some? && |s| > 0 && s[|s| - 1] == a.fourZeros.value {
      assert Body(a, data)[|Body(a, data)| - 1] == a.characters[0];
    }
  }

  // ----- Outcomes -----

  /** Group g of a sequence of values: the five values from 5 * g on. */
  function GroupAt(values: seq<byte>, g: nat): (r: seq<byte>)
    requires 5 * g + 5 <= |values|
    ensures |r| == 5 && forall i :: 0 <= i < 5 ==> r[i] == values[5 * g + i]
  {
    values[5 * g .. 5 * g + 5]
  }

  /** Turning k whole groups into bytes overflows exactly when one of the groups stands for a number of 2^32 or more. */
  lemma {:induction false} GroupsBytesOverflow(values: seq<byte>, k: nat)
    requires |values| == 5 * k
    ensures GroupsBytes(values).Failure? <==> exists g :: 0 <= g < k && Number(GroupAt(values, g)) >= 0x1_0000_0000
    decreases k
  {
    if k > 0 {
      var front := values[..|values| - 5];
      assert values[|values| - 5..] == GroupAt(values, k - 1);
      GroupsBytesOverflow(front, k - 1);
      forall g | 0 <= g < k - 1
        ensures GroupAt(front, g) == GroupAt(values, g)
      {
      }
    }
  }

  /** When no group overflows, group g gives bytes 4 * g to 4 * g + 3: the bytes of its number. */
  lemma {:induction false} GroupsBytesValues(values: seq<byte>, k: nat)
    requires |values| == 5 * k && GroupsBytes(values).Success?
    ensures |GroupsBytes(values).value| == 4 * k
    ensures forall g :: 0 <= g < k ==> Number(GroupAt(values, g)) < 0x1_0000_0000
    ensures forall g :: 0 <= g < k ==> GroupsBytes(values).value[4 * g .. 4 * g + 4] == WordBytes(Number(GroupAt(values, g)))
    decreases k
  {
    if k > 0 {
      var front := values[..|values| - 5];
      var last := GroupAt(values, k - 1);
      assert values[|values| - 5..] == last;
      DivModUnique(|values|, 5, k, 0);
      GroupsBytesOverflow(values, k);
      GroupsBytesValues(front, k - 1);
      var f := GroupsBytes(front).value;
      var r := GroupsBytes(values).value;
      assert r == f + WordBytes(Number(last));
      forall g | 0 <= g < k
        ensures r[4 * g .. 4 * g + 4] == WordBytes(Number(GroupAt(values, g)))
      {
        if g < k - 1 {
          assert GroupAt(front, g) == GroupAt(values, g);
          assert r[4 * g .. 4 * g + 4] == f[4 * g .. 4 * g + 4];
        } else {
          assert r[4 * g ..] == WordBytes(Number(last));
        }
      }
    }
  }

  /**
   * Decoding fails with an error thrown exactly when the text is not empty
   * and, once its delimiters are stripped and its shortcuts expanded, holds
   * a character that is not ASCII or has no value; the fill character, of
   * value 84, always has one. The error is never a wrong number of bytes.
   */
  lemma DecodedOutcome(a: Alphabet, text: seq<char>)
    requires |a.characters| == 85 && Inverts(a.characters, a.values)
    ensures var t := Expanded(a, Undelimited(a, text));
      (Decoded(a, text).Failure? && Decoded(a, text).error.Thrown?)
      <==> |text| > 0 && !(forall i :: 0 <= i < |t| ==> IsAscii(t[i]) && a.values[t[i] as int].Some?)
    ensures Decoded(a, text).Failure? && Decoded(a, text).error.Thrown? ==> Decoded(a, text).error.error != WrongNumberOfBytes
  {
    if |text| > 0 {
      var t := Expanded(a, Undelimited(a, text));
      var filled := t + Repeat(a.characters[84], FillCount(|t|, 5));
      LookupIff(a.values, filled);
      assert filled[..|t|] == t;
      forall i | |t| <= i < |filled|
        ensures IsAscii(filled[i]) && a.values[filled[i] as int].Some?
      {
        assert filled[i] == a.characters[84];
      }
    }
  }

  /**
   * Decoding the characters overflows exactly when every character (the
   * fill included) has a value and one group of five values stands for a
   * number of 2^32 or more.
   */
  lemma DecodedOverflow(a: Alphabet, t: seq<char>)
    requires |a.characters| >= 85 && |a.values| == 128
    ensures var filled := t + Repeat(a.characters[84], FillCount(|t|, 5));
      DecodedCharacters(a, t) == Failure(Overflow)
      <==> (Lookup(a.values, filled).Success?
        && exists g :: 0 <= g < |filled| / 5 && Number(GroupAt(Lookup(a.values, filled).value, g)) >= 0x1_0000_0000)
  {
    var filled := t + Repeat(a.characters[84], FillCount(|t|, 5));
    var k := |filled| / 5;
    DivModUnique(|filled|, 5, k, 0);
    var values := Lookup(a.values, filled);
    if values.Success? {
      GroupsBytesOverflow(values.value, k);
    }
  }

  /** Without shortcuts, abbreviating chunks only puts them back together. */
  lemma {:induction false} ShortenedPlain(a: Alphabet, chunks: seq<seq<char>>)
    requires |a.characters| >= 85 && a.fourZeros.None? && a.fourSpaces.None?
    ensures Shortened(a, chunks) == Flatten(chunks)
    decreases |chunks|
  {
    if |chunks| > 0 {
      ShortenedPlain(a, chunks[1..]);
    }
  }

  /** Without shortcuts, the text between the delimiters is the characters of the digits, less those of filler. */
  lemma BodyPlain(a: Alphabet, data: seq<byte>)
    requires |a.characters| >= 85 && a.fourZeros.None? && a.fourSpaces.None? && |data| > 0
    ensures Body(a, data) == Kept(a, data)
  {
    ShortenedPlain(a, Chunked(Kept(a, data), 5));
    FlattenChunked(Kept(a, data), 5);
  }

  /**
   * For an alphabet without shortcuts, n > 0 bytes encode to ceil(5n / 4)
   * characters between the delimiters.
   */
  lemma EncodedLength(a: Alphabet, data: seq<byte>)
    requires |a.characters| >= 85 && a.fourZeros.None? && a.fourSpaces.None? && |data| > 0
    ensures |Encoded(a, data)| == (if a.startDelimiter.Some? then |a.startDelimiter.value| else 0)
      + (5 * |data| + 3) / 4 + (if a.endDelimiter.Some? then |a.endDelimiter.value| else 0)
  {
    KeptLength(a, data);
    BodyPlain(a, data);
  }

  // ----- Worked examples -----

  /** The digits of whole groups, one group at a time. */
  lemma DigitsAppend(x: seq<byte>, y: seq<byte>)
    requires |x| % 4 == 0 && |y| == 4
    ensures Digits(x + y) == Digits(x) + WordDigits(Word(y[0], y[1], y[2], y[3]))
  {
    assert (x + y)[..|x|] == x;
    assert (x + y)[|x|..] == y;
  }

  /** A group of four zero bytes adds the digits 0, 0, 0, 0, 0. */
  lemma DigitsZeros(x: seq<byte>, y: seq<byte>)
    requires |x| % 4 == 0 && |y| == 4
    requires y[0] == 0 && y[1] == 0 && y[2] == 0 && y[3] == 0
    ensures Digits(x + y) == Digits(x) + WordDigits(0)
  {
    DigitsAppend(x, y);
    assert Word(y[0], y[1], y[2], y[3]) == 0;
  }

  /** One group of four zero bytes has the digits of the number 0. */
  lemma ZeroGroupDigits()
    ensures Digits([0, 0, 0, 0]) == WordDigits(0)
  {
    var g: seq<byte> := [0, 0, 0, 0];
    assert [] + g == g;
    DigitsZeros([], g);
  }

  /**
   * Once the delimiters are stripped and the shortcuts expanded, the first
   * character that is not ASCII, or has no value, decides the error,
   * whatever follows it.
   */
  lemma DecodedFirstError(a: Alphabet, text: seq<char>, k: nat)
    requires |a.characters| >= 85 && |a.values| == 128 && |text| > 0
    requires k < |Expanded(a, Undelimited(a, text))|
    requires forall i :: 0 <= i < k ==>
      IsAscii(Expanded(a, Undelimited(a, text))[i]) && a.values[Expanded(a, Undelimited(a, text))[i] as int].Some?
    ensures !IsAscii(Expanded(a, Undelimited(a, text))[k]) ==> Decoded(a, text) == Failure(Thrown(NonAsciiCharacters))
    ensures IsAscii(Expanded(a, Undelimited(a, text))[k]) && a.values[Expanded(a, Undelimited(a, text))[k] as int].None? ==>
      Decoded(a, text) == Failure(Thrown(ValuesNotInAlphabet))
  {
    var t := Expanded(a, Undelimited(a, text));
    var filled := t + Repeat(a.characters[84], FillCount(|t|, 5));
    assert filled[..|t|] == t;
    LookupFirstFailure(a.values, filled, k);
  }
}
