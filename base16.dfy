/**
 * The Base-16 codec (Sources/Bases/Base16.swift): every byte becomes two
 * alphabet characters, high half first.
 */
module Base16 {

  import opened Wrappers
  import opened Bits
  import opened Text
  import opened Errors
  import opened AlphabetTables
  import opened CollectionExtensions

  /**
   * `characters` maps the 16 values to characters; `values` maps each of the
   * 128 ASCII codes to a value or to nothing.
   */
  datatype Alphabet = Alphabet(characters: seq<char>, values: seq<Option<byte>>)

  /** The outcome of the checking initialiser `init(characters:)`. */
  function Checked(characters: seq<char>): (r: Result<Alphabet, AlphabetError>)
    ensures r.Success? ==> r.value.characters == characters && |r.value.values| == 128
  {
    if |characters| != 16 then Failure(WrongNumberOfCharacters)
    else if !AllAscii(characters) then Failure(NoAsciiValue)
    else Success(Alphabet(characters, ValueTable(AsciiCodes(characters))))
  }

  /** `init(characters:)`: count check, ASCII values, then the 128-entry table. */
  method NewAlphabet(characters: seq<char>) returns (r: Result<Alphabet, AlphabetError>)
    ensures r == Checked(characters)
  {
    if |characters| != 16 {
      return Failure(WrongNumberOfCharacters);
    }
    var asciiValues := AsciiValues(characters);
    if asciiValues.None? {
      return Failure(NoAsciiValue);
    }
    var values := BuildValueTable(asciiValues.value);
    return Success(Alphabet(characters, values));
  }

  /** A checked alphabet whose characters are distinct decodes exactly its own characters. */
  lemma CheckedInverts(characters: seq<char>)
    requires Checked(characters).Success? && Distinct(characters)
    ensures Inverts(characters, Checked(characters).value.values)
    ensures OnlyCharacters(characters, Checked(characters).value.values)
  {
    ValueTableInverts(characters);
  }

  /** The checked initialiser fails exactly on a wrong count or on a non-ASCII character, in that order. */
  lemma CheckedErrors(characters: seq<char>)
    ensures Checked(characters) == Failure(WrongNumberOfCharacters) <==> |characters| != 16
    ensures Checked(characters) == Failure(NoAsciiValue) <==>
      |characters| == 16 && exists i :: 0 <= i < 16 && !IsAscii(characters[i])
  {
  }

  // ----- Encoder -----

  /** The two characters of one byte: the high four bits, then the low four. */
  function EncodedByte(a: Alphabet, datum: byte): (r: seq<char>)
    requires |a.characters| >= 16
  {
    [a.characters[Low(Shr(datum, 4), 4)], a.characters[Low(datum, 4)]]
  }

  /** The encoding of `data`, byte after byte. */
  function Encoded(a: Alphabet, data: seq<byte>): (r: seq<char>)
    requires |a.characters| >= 16
    ensures |r| == 2 * |data|
  {
    if |data| == 0 then []
    else Encoded(a, data[..|data| - 1]) + EncodedByte(a, data[|data| - 1])
  }

  /** `Encoder.encode`. */
  method Encode(a: Alphabet, data: seq<byte>) returns (output: seq<char>)
    requires |a.characters| >= 16
    ensures output == Encoded(a, data)
  {
    output := [];
    for i := 0 to |data|
      invariant output == Encoded(a, data[..i])
    {
      var datum := data[i];
      assert data[..i + 1][..i] == data[..i];
      output := output + [a.characters[Low(Shr(datum, 4), 4)]];
      output := output + [a.characters[Low(datum, 4)]];
    }
    assert data[..|data|] == data;
  }

  /** Character 2i is the digit of the high half of byte i, character 2i+1 that of its low half. */
  lemma {:induction false} EncodedDigits(a: Alphabet, data: seq<byte>)
    requires |a.characters| >= 16
    ensures forall i :: 0 <= i < |data| ==>
      Encoded(a, data)[2 * i] == a.characters[data[i] / 16] &&
      Encoded(a, data)[2 * i + 1] == a.characters[data[i] % 16]
    decreases |data|
  {
    Pow2Values();
    if |data| > 0 {
      var init := data[..|data| - 1];
      EncodedDigits(a, init);
      forall i | 0 <= i < |data|
        ensures Encoded(a, data)[2 * i] == a.characters[data[i] / 16]
        ensures Encoded(a, data)[2 * i + 1] == a.characters[data[i] % 16]
      {
        if i < |init| {
          assert data[i] == init[i];
        }
      }
    }
  }

  /** A text whose digits are those of `data`, pair by pair, is the encoding of `data`. */
  lemma EncodedIs(a: Alphabet, data: seq<byte>, text: seq<char>)
    requires |a.characters| >= 16 && |text| == 2 * |data|
    requires forall i :: 0 <= i < |data| ==>
      text[2 * i] == a.characters[data[i] / 16] && text[2 * i + 1] == a.characters[data[i] % 16]
    ensures Encoded(a, data) == text
  {
    EncodedDigits(a, data);
    forall k | 0 <= k < |text|
      ensures Encoded(a, data)[k] == text[k]
    {
      var i := k / 2;
      DivModUnique(k, 2, i, k % 2);
      if k % 2 == 0 {
        assert k == 2 * i && text[k] == a.characters[data[i] / 16];
      } else {
        assert k == 2 * i + 1 && text[k] == a.characters[data[i] % 16];
      }
    }
  }

  // ----- Decoder -----

  /** One pair of characters: both must be ASCII, then both must have a value. */
  function DecodedPair(a: Alphabet, upper: char, lower: char): (r: Result<byte, DecodingError>)
    requires |a.values| == 128
  {
    if !IsAscii(upper) || !IsAscii(lower) then Failure(NonAsciiCharacters)
    else if a.values[upper as int].None? || a.values[lower as int].None? then Failure(ValuesNotInAlphabet)
    else Success(OrByte(Shl(a.values[upper as int].value, 4), Low(a.values[lower as int].value, 4)))
  }

  /** The pairs of an even-length text, first to last; the first failing pair decides the error. */
  function DecodedPairs(a: Alphabet, text: seq<char>): (r: Result<seq<byte>, DecodingError>)
    requires |a.values| == 128 && |text| % 2 == 0
    ensures r.Success? ==> 2 * |r.value| == |text|
  {
    if |text| == 0 then Success([])
    else
      var init :- DecodedPairs(a, text[..|text| - 2]);
      var last :- DecodedPair(a, text[|text| - 2], text[|text| - 1]);
      Success(init + [last])
  }

  /** Once a prefix of pairs fails, the whole text fails with the same error. */
  lemma {:induction false} DecodedPairsFailureStays(a: Alphabet, text: seq<char>, k: nat)
    requires |a.values| == 128 && |text| % 2 == 0 && k % 2 == 0 && k <= |text|
    ensures DecodedPairs(a, text[..k]).Failure? ==> DecodedPairs(a, text) == DecodedPairs(a, text[..k])
    decreases |text| - k
  {
    if k < |text| {
      var t' := text[..|text| - 2];
      assert t'[..k] == text[..k];
      DecodedPairsFailureStays(a, t', k);
    } else {
      assert text[..k] == text;
    }
  }

  /** `text.contains(where:)` a character outside the alphabet, scanning from the front. */
  predicate ContainsUnknown(a: Alphabet, text: seq<char>)
    decreases |text|
  {
    |text| > 0 && (text[0] !in a.characters || ContainsUnknown(a, text[1..]))
  }

  lemma {:induction false} ContainsUnknownIff(a: Alphabet, text: seq<char>)
    ensures ContainsUnknown(a, text) <==> exists i :: 0 <= i < |text| && text[i] !in a.characters
    decreases |text|
  {
    if |text| > 0 {
      ContainsUnknownIff(a, text[1..]);
      if text[0] in a.characters && ContainsUnknown(a, text) {
        var i :| 0 <= i < |text[1..]| && text[1..][i] !in a.characters;
        assert text[i + 1] !in a.characters;
      }
    }
  }

  /** Membership in the alphabet, as the predicate `Filter` takes. */
  function Known(a: Alphabet): char -> bool {
    c => c in a.characters
  }

  /** The outcome of `Decoder.decode`. */
  function Decoded(a: Alphabet, ignoreUnknownCharacters: bool, text: seq<char>): (r: Result<seq<byte>, DecodingError>)
    requires |a.values| == 128
  {
    if !ignoreUnknownCharacters && ContainsUnknown(a, text) then
      Failure(ValuesNotInAlphabet)
    else
      var t := if ignoreUnknownCharacters then Filter(text, Known(a)) else text;
      if |t| % 2 != 0 then Failure(WrongNumberOfBytes)
      else DecodedPairs(a, t)
  }

  /** `Decoder.decode`: filter or reject unknown characters, check the length, then decode pair by pair. */
  method Decode(a: Alphabet, ignoreUnknownCharacters: bool, text: seq<char>) returns (r: Result<seq<byte>, DecodingError>)
    requires |a.values| == 128
    ensures r == Decoded(a, ignoreUnknownCharacters, text)
  {
    var t := text;
    if ignoreUnknownCharacters {
      t := Filter(text, Known(a));
    } else if ContainsUnknown(a, text) {
      return Failure(ValuesNotInAlphabet);
    }
    if |t| % 2 != 0 {
      return Failure(WrongNumberOfBytes);
    }
    r := DecodePairs(a, t);
  }

  /** The chunk-and-map step of `Decoder.decode`: the pairs decoded in order, stopping at the first error. */
  method DecodePairs(a: Alphabet, t: seq<char>) returns (r: Result<seq<byte>, DecodingError>)
    requires |a.values| == 128 && |t| % 2 == 0
    ensures r == DecodedPairs(a, t)
  {
    var chunks := Chunks(t, 2);
    var n := |t| / 2;
    ChunkedExactly(t, 2, n);
    var data: seq<byte> := [];
    for i := 0 to |chunks|
      invariant DecodedPairs(a, t[..2 * i]) == Success(data)
    {
      var chunk := chunks[i];
      assert chunk == t[2 * i .. 2 * i + 2];
      assert (2 * i) % 2 == 0 && (2 * i + 2) % 2 == 0;
      DecodedPairsStep(a, t, 2 * i, data);
      var datum :- DecodedPair(a, chunk[0], chunk[1]);
      data := data + [datum];
    }
    assert t[..2 * n] == t;
    return Success(data);
  }

  /** One more pair extends the decoded prefix, or its error is the outcome of the whole text. */
  lemma DecodedPairsStep(a: Alphabet, t: seq<char>, k: nat, data: seq<byte>)
    requires |a.values| == 128 && |t| % 2 == 0 && k % 2 == 0 && (k + 2) % 2 == 0 && k + 2 <= |t|
    requires DecodedPairs(a, t[..k]) == Success(data)
    ensures var pair := DecodedPair(a, t[k], t[k + 1]);
      && (pair.Success? ==> DecodedPairs(a, t[..k + 2]) == Success(data + [pair.value]))
      && (pair.Failure? ==> DecodedPairs(a, t) == Failure(pair.error))
  {
    var u := t[..k + 2];
    assert u[..|u| - 2] == t[..k];
    assert u[|u| - 2] == t[k] && u[|u| - 1] == t[k + 1];
    DecodedPairsFailureStays(a, t, k + 2);
  }

  // ----- Properties -----

  /** Every character of an encoding belongs to the alphabet. */
  lemma {:induction false} EncodedInAlphabet(a: Alphabet, data: seq<byte>)
    requires |a.characters| >= 16
    ensures forall i :: 0 <= i < |Encoded(a, data)| ==> Encoded(a, data)[i] in a.characters
    decreases |data|
  {
    if |data| > 0 {
      EncodedInAlphabet(a, data[..|data| - 1]);
    }
  }

  /** Decoding the two characters of a byte gives the byte back. */
  lemma DecodedEncodedByte(a: Alphabet, datum: byte)
    requires |a.characters| >= 16 && Inverts(a.characters, a.values)
    ensures DecodedPair(a, EncodedByte(a, datum)[0], EncodedByte(a, datum)[1]) == Success(datum)
  {
    var hi := datum / 16;
    var lo := datum % 16;
    var e := EncodedByte(a, datum);
    Halves(datum);
    assert e[0] == a.characters[hi] && e[1] == a.characters[lo];
    assert a.values[e[0] as int] == Some(hi) && a.values[e[1] as int] == Some(lo);
    assert Low(lo, 4) == lo;
    OrDisjoint(hi * 16, lo, 4);
  }

  /** The bit operations on the two halves of a byte, as arithmetic. */
  lemma Halves(datum: byte)
    ensures Low(Shr(datum, 4), 4) == datum / 16 && Low(datum, 4) == datum % 16
    ensures Shl(datum / 16, 4) == datum / 16 * 16 && (datum / 16 * 16) % Pow2(4) == 0
    ensures Pow2(4) == 16
  {
    assert Pow2(4) == 16;
  }

  lemma {:induction false} DecodedPairsEncoded(a: Alphabet, data: seq<byte>)
    requires |a.characters| >= 16 && Inverts(a.characters, a.values)
    ensures DecodedPairs(a, Encoded(a, data)) == Success(data)
    decreases |data|
  {
    if |data| > 0 {
      var init := data[..|data| - 1];
      var e := Encoded(a, data);
      assert e[..|e| - 2] == Encoded(a, init);
      DecodedPairsEncoded(a, init);
      DecodedEncodedByte(a, data[|data| - 1]);
      assert data == init + [data[|data| - 1]];
    }
  }

  /** Round trip: with an alphabet whose table inverts its characters, decoding an encoding gives the data back, in either mode. */
  lemma RoundTrip(a: Alphabet, ignoreUnknownCharacters: bool, data: seq<byte>)
    requires |a.characters| >= 16 && Inverts(a.characters, a.values)
    ensures Decoded(a, ignoreUnknownCharacters, Encoded(a, data)) == Success(data)
  {
    var e := Encoded(a, data);
    assert |e| % 2 == 0;
    EncodedInAlphabet(a, data);
    DecodedKnownText(a, ignoreUnknownCharacters, e);
    DecodedPairsEncoded(a, data);
  }

  /** A text made only of alphabet characters is decoded pair by pair in either mode. */
  lemma DecodedKnownText(a: Alphabet, ignoreUnknownCharacters: bool, text: seq<char>)
    requires |a.values| == 128
    requires forall i :: 0 <= i < |text| ==> text[i] in a.characters
    ensures |text| % 2 == 0 ==> Decoded(a, ignoreUnknownCharacters, text) == DecodedPairs(a, text)
    ensures |text| % 2 != 0 ==> Decoded(a, ignoreUnknownCharacters, text) == Failure(WrongNumberOfBytes)
  {
    ContainsUnknownIff(a, text);
    if ignoreUnknownCharacters {
      FilterKeepsAll(text, Known(a));
    }
  }

  /**
   * The other direction: when the table maps exactly the 16 characters, a
   * text that decodes is the encoding of what it decodes to.
   */
  lemma {:induction false} EncodedDecodedPairs(a: Alphabet, text: seq<char>)
    requires |a.characters| == 16 && OnlyCharacters(a.characters, a.values)
    requires |text| % 2 == 0 && DecodedPairs(a, text).Success?
    ensures Encoded(a, DecodedPairs(a, text).value) == text
    decreases |text|
  {
    if |text| > 0 {
      var init := text[..|text| - 2];
      var upper, lower := text[|text| - 2], text[|text| - 1];
      DecodedPairsSplit(a, text);
      var prefix := DecodedPairs(a, init).value;
      var last := DecodedPair(a, upper, lower).value;
      EncodedDecodedPairs(a, init);
      EncodedDecodedPair(a, upper, lower);
      EncodedAppend(a, prefix, last);
    }
  }

  /** A text that decodes is a prefix that decodes followed by a last pair that decodes. */
  lemma DecodedPairsSplit(a: Alphabet, text: seq<char>)
    requires |a.values| == 128 && |text| % 2 == 0 && |text| > 0 && DecodedPairs(a, text).Success?
    ensures |text| >= 2 && (|text| - 2) % 2 == 0
    ensures text == text[..|text| - 2] + [text[|text| - 2], text[|text| - 1]]
    ensures DecodedPairs(a, text[..|text| - 2]).Success? && DecodedPair(a, text[|text| - 2], text[|text| - 1]).Success?
    ensures DecodedPairs(a, text).value
      == DecodedPairs(a, text[..|text| - 2]).value + [DecodedPair(a, text[|text| - 2], text[|text| - 1]).value]
  {
    var n := |text|;
    DivModUnique(n - 2, 2, n / 2 - 1, 0);
    LastTwo(text);
  }

  lemma EncodedAppend(a: Alphabet, data: seq<byte>, datum: byte)
    requires |a.characters| >= 16
    ensures Encoded(a, data + [datum]) == Encoded(a, data) + EncodedByte(a, datum)
  {
    assert (data + [datum])[..|data|] == data;
  }

  lemma EncodedDecodedPair(a: Alphabet, upper: char, lower: char)
    requires |a.characters| == 16 && OnlyCharacters(a.characters, a.values)
    requires DecodedPair(a, upper, lower).Success?
    ensures EncodedByte(a, DecodedPair(a, upper, lower).value) == [upper, lower]
  {
    var hi := a.values[upper as int].value;
    var lo := a.values[lower as int].value;
    assert hi < 16 && lo < 16 && a.characters[hi] == upper && a.characters[lo] == lower;
    var b := hi * 16 + lo;
    assert DecodedPair(a, upper, lower).value == b by {
      Pow2Values();
      DivModUnique(hi * 16, 256, 0, hi * 16);
      DivModUnique(lo, 16, 0, lo);
      DivModUnique(hi * 16, 16, hi, 0);
      OrDisjoint(hi * 16, lo, 4);
    }
    assert EncodedByte(a, b) == [a.characters[hi], a.characters[lo]] by {
      DivModUnique(b, 16, hi, lo);
      Halves(b);
    }
  }

  lemma DecodeEncode(a: Alphabet, text: seq<char>)
    requires |a.characters| == 16 && Inverts(a.characters, a.values) && OnlyCharacters(a.characters, a.values)
    requires Decoded(a, false, text).Success?
    ensures Encoded(a, Decoded(a, false, text).value) == text
  {
    EncodedDecodedPairs(a, text);
  }

  /** With an invertible alphabet, pairs of alphabet characters always decode. */
  lemma {:induction false} DecodedPairsSucceed(a: Alphabet, text: seq<char>)
    requires |a.values| == 128 && Inverts(a.characters, a.values)
    requires |text| % 2 == 0 && forall i :: 0 <= i < |text| ==> text[i] in a.characters
    ensures DecodedPairs(a, text).Success?
    decreases |text|
  {
    if |text| > 0 {
      DecodedPairsSucceed(a, text[..|text| - 2]);
      var u := text[|text| - 2];
      var l := text[|text| - 1];
      var iu :| 0 <= iu < |a.characters| && a.characters[iu] == u;
      var il :| 0 <= il < |a.characters| && a.characters[il] == l;
    }
  }

  /**
   * With an invertible alphabet the decoder's only failures are the ones
   * its two guards name: a strict decoder fails exactly on a character
   * outside the alphabet or an odd length, an ignoring one exactly on an
   * odd number of alphabet characters.
   */
  lemma DecodedOutcome(a: Alphabet, text: seq<char>)
    requires |a.values| == 128 && Inverts(a.characters, a.values)
    ensures Decoded(a, false, text).Success? <==>
      (forall i :: 0 <= i < |text| ==> text[i] in a.characters) && |text| % 2 == 0
    ensures Decoded(a, true, text).Success? <==> |Filter(text, Known(a))| % 2 == 0
  {
    ContainsUnknownIff(a, text);
    if (forall i :: 0 <= i < |text| ==> text[i] in a.characters) && |text| % 2 == 0 {
      DecodedPairsSucceed(a, text);
    }
    var f := Filter(text, Known(a));
    if |f| % 2 == 0 {
      DecodedPairsSucceed(a, f);
    }
  }

  /**
   * A strict decoder checks for characters outside the alphabet before it
   * checks the length: any such character, wherever it stands, gives
   * `valuesNotInAlphabet` even when the length is odd, and a text made only
   * of alphabet characters but of odd length gives `wrongNumberOfBytes`.
   */
  lemma DecodedStrictErrors(a: Alphabet, text: seq<char>)
    requires |a.values| == 128
    ensures (exists i :: 0 <= i < |text| && text[i] !in a.characters) ==> Decoded(a, false, text) == Failure(ValuesNotInAlphabet)
    ensures (forall i :: 0 <= i < |text| ==> text[i] in a.characters) && |text| % 2 != 0 ==>
      Decoded(a, false, text) == Failure(WrongNumberOfBytes)
  {
    ContainsUnknownIff(a, text);
  }

  /** Ignoring unknown characters is decoding strictly the text with them filtered out. */
  lemma IgnoringIsFiltering(a: Alphabet, text: seq<char>)
    requires |a.values| == 128
    ensures Decoded(a, true, text) == Decoded(a, false, Filter(text, Known(a)))
  {
    ContainsUnknownIff(a, Filter(text, Known(a)));
  }

  /** An ignoring decoder is unaffected by non-alphabet characters around the text. */
  lemma IgnoringSurroundingNoise(a: Alphabet, noise: seq<char>, text: seq<char>)
    requires |a.values| == 128
    requires forall i :: 0 <= i < |noise| ==> noise[i] !in a.characters
    ensures Decoded(a, true, noise + text + noise) == Decoded(a, true, text)
  {
    var keep := Known(a);
    FilterAppend(noise + text, noise, keep);
    FilterAppend(noise, text, keep);
    FilterDropsAll(noise, keep);
    assert Filter(noise + text + noise, keep) == Filter(text, keep);
  }
}
