/**
 * The built-in Base-16 alphabets of Sources/Bases/Base16+Alphabet.swift,
 * each written out as its characters and its 128-entry value table, and
 * proved equal to what the checked initialiser builds from the characters.
 */
module Base16Alphabets {

  import opened Wrappers
  import opened Bits
  import opened Text
  import opened Errors
  import opened AlphabetTables
  import opened Base16
  import opened TestVectors

  const UppercaseCharacters: seq<char> := "0123456789ABCDEF"
  const UppercaseValues: seq<Option<byte>> :=
    [None, None, None, None, None, None, None, None] +
    [None, None, None, None, None, None, None, None] +
    [None, None, None, None, None, None, None, None] +
    [None, None, None, None, None, None, None, None] +
    [None, None, None, None, None, None, None, None] +
    [None, None, None, None, None, None, None, None] +
    [Some(0), Some(1), Some(2), Some(3), Some(4), Some(5), Some(6), Some(7)] +
    [Some(8), Some(9), None, None, None, None, None, None] +
    [None, Some(10), Some(11), Some(12), Some(13), Some(14), Some(15), None] +
    [None, None, None, None, None, None, None, None] +
    [None, None, None, None, None, None, None, None] +
    [None, None, None, None, None, None, None, None] +
    [None, None, None, None, None, None, None, None] +
    [None, None, None, None, None, None, None, None] +
    [None, None, None, None, None, None, None, None] +
    [None, None, None, None, None, None, None, None]
  const Uppercase: Alphabet := Alphabet(UppercaseCharacters, UppercaseValues)

  /** The table of `uppercase` sends every character back to its index. */
  lemma UppercaseInverts()
    ensures Inverts(UppercaseCharacters, UppercaseValues)
  {
    forall v | 0 <= v < 16
      ensures IsAscii(UppercaseCharacters[v]) && UppercaseValues[UppercaseCharacters[v] as int] == Some(v)
    {
      Enumerate32(v, 0);
    }
  }

  /** Every entry of the `uppercase` table names the character with that code. */
  lemma UppercaseOnlyCharacters()
    ensures OnlyCharacters(UppercaseCharacters, UppercaseValues)
  {
    forall c | 0 <= c < 128 && UppercaseValues[c].Some?
      ensures UppercaseValues[c].value < 16 && UppercaseCharacters[UppercaseValues[c].value] as int == c
    {
      if c < 64 {
        Enumerate64(c, 0);
      } else {
        Enumerate64(c, 64);
      }
    }
  }

  /** `uppercase` is what the checked initialiser builds from its characters. */
  lemma UppercaseChecked()
    ensures Checked(UppercaseCharacters) == Success(Uppercase)
  {
    UppercaseInverts();
    UppercaseOnlyCharacters();
    ValueTableIs(UppercaseCharacters, UppercaseValues);
  }

  /** `uppercase` meets the conditions under which decoding and encoding undo each other. */
  lemma UppercaseFits()
    ensures |Uppercase.characters| == 16 && Inverts(Uppercase.characters, Uppercase.values)
    ensures OnlyCharacters(Uppercase.characters, Uppercase.values)
  {
    assert Uppercase.characters == UppercaseCharacters && Uppercase.values == UppercaseValues;
    UppercaseInverts();
    UppercaseOnlyCharacters();
  }

  const LowercaseCharacters: seq<char> := "0123456789abcdef"
  const LowercaseValues: seq<Option<byte>> :=
    [None, None, None, None, None, None, None, None] +
    [None, None, None, None, None, None, None, None] +
    [None, None, None, None, None, None, None, None] +
    [None, None, None, None, None, None, None, None] +
    [None, None, None, None, None, None, None, None] +
    [None, None, None, None, None, None, None, None] +
    [Some(0), Some(1), Some(2), Some(3), Some(4), Some(5), Some(6), Some(7)] +
    [Some(8), Some(9), None, None, None, None, None, None] +
    [None, None, None, None, None, None, None, None] +
    [None, None, None, None, None, None, None, None] +
    [None, None, None, None, None, None, None, None] +
    [None, None, None, None, None, None, None, None] +
    [None, Some(10), Some(11), Some(12), Some(13), Some(14), Some(15), None] +
    [None, None, None, None, None, None, None, None] +
    [None, None, None, None, None, None, None, None] +
    [None, None, None, None, None, None, None, None]
  const Lowercase: Alphabet := Alphabet(LowercaseCharacters, LowercaseValues)

  /** The table of `lowercase` sends every character back to its index. */
  lemma LowercaseInverts()
    ensures Inverts(LowercaseCharacters, LowercaseValues)
  {
    forall v | 0 <= v < 16
      ensures IsAscii(LowercaseCharacters[v]) && LowercaseValues[LowercaseCharacters[v] as int] == Some(v)
    {
      Enumerate32(v, 0);
    }
  }

  /** Every entry of the `lowercase` table names the character with that code. */
  lemma LowercaseOnlyCharacters()
    ensures OnlyCharacters(LowercaseCharacters, LowercaseValues)
  {
    forall c | 0 <= c < 128 && LowercaseValues[c].Some?
      ensures LowercaseValues[c].value < 16 && LowercaseCharacters[LowercaseValues[c].value] as int == c
    {
      if c < 64 {
        Enumerate64(c, 0);
      } else {
        Enumerate64(c, 64);
      }
    }
  }

  /** `lowercase` is what the checked initialiser builds from its characters. */
  lemma LowercaseChecked()
    ensures Checked(LowercaseCharacters) == Success(Lowercase)
  {
    LowercaseInverts();
    LowercaseOnlyCharacters();
    ValueTableIs(LowercaseCharacters, LowercaseValues);
  }

  /** `lowercase` meets the conditions under which decoding and encoding undo each other. */
  lemma LowercaseFits()
    ensures |Lowercase.characters| == 16 && Inverts(Lowercase.characters, Lowercase.values)
    ensures OnlyCharacters(Lowercase.characters, Lowercase.values)
  {
    assert Lowercase.characters == LowercaseCharacters && Lowercase.values == LowercaseValues;
    LowercaseInverts();
    LowercaseOnlyCharacters();
  }

  // ----- Properties of the built-in alphabets -----

  /** `uppercase` has no lower-case letters and `lowercase` no upper-case ones. */
  lemma OneCaseOnly()
    ensures forall c :: 'a' as int <= c <= 'f' as int ==> UppercaseValues[c].None?
    ensures forall c :: 'A' as int <= c <= 'F' as int ==> LowercaseValues[c].None?
  {
  }

  /** Both built-in alphabets decode what they encode, in either mode. */
  lemma BuiltInRoundTrips(ignoreUnknownCharacters: bool, data: seq<byte>)
    ensures Decoded(Uppercase, ignoreUnknownCharacters, Encoded(Uppercase, data)) == Success(data)
    ensures Decoded(Lowercase, ignoreUnknownCharacters, Encoded(Lowercase, data)) == Success(data)
  {
    UppercaseFits();
    RoundTrip(Uppercase, ignoreUnknownCharacters, data);
    LowercaseFits();
    RoundTrip(Lowercase, ignoreUnknownCharacters, data);
  }

  // ----- Test vectors of section 10 of RFC 4648 -----

  /** "foobar" is "666F6F626172" in `uppercase`. */
  lemma UppercaseFoobar()
    ensures Encoded(Uppercase, Foobar) == "666F6F626172"
  {
    assert Uppercase.characters == UppercaseCharacters;
    assert Encoded(Uppercase, Foobar) == "666F6F626172" by {
      EncodedIs(Uppercase, Foobar, "666F6F626172");
    }
  }

  /** "foobar" is "666f6f626172" in `lowercase`. */
  lemma LowercaseFoobar()
    ensures Encoded(Lowercase, Foobar) == "666f6f626172"
  {
    assert Lowercase.characters == LowercaseCharacters;
    assert Encoded(Lowercase, Foobar) == "666f6f626172" by {
      EncodedIs(Lowercase, Foobar, "666f6f626172");
    }
  }

  /** "666F6F626172" decodes to "foobar". */
  lemma UppercaseFoobarDecoded()
    ensures Decoded(Uppercase, false, "666F6F626172") == Success(Foobar)
    ensures Decoded(Uppercase, true, "666F6F626172") == Success(Foobar)
  {
    UppercaseFoobar();
    UppercaseFits();
    RoundTrip(Uppercase, false, Foobar);
    RoundTrip(Uppercase, true, Foobar);
  }

  /** "666f6f626172" decodes to "foobar". */
  lemma LowercaseFoobarDecoded()
    ensures Decoded(Lowercase, false, "666f6f626172") == Success(Foobar)
    ensures Decoded(Lowercase, true, "666f6f626172") == Success(Foobar)
  {
    LowercaseFoobar();
    LowercaseFits();
    RoundTrip(Lowercase, false, Foobar);
    RoundTrip(Lowercase, true, Foobar);
  }

  /** Ignoring unknown characters, a "_" on either side changes nothing. */
  lemma UppercaseFoobarAmidNoise()
    ensures Decoded(Uppercase, true, "_" + "666F6F626172" + "_") == Success(Foobar)
  {
    UppercaseFoobarDecoded();
    UnderscoreUnknown();
    IgnoringSurroundingNoise(Uppercase, "_", "666F6F626172");
  }

  /** "f" is "66" in `uppercase`. */
  lemma UppercaseF()
    ensures Encoded(Uppercase, F) == "66"
  {
    assert Uppercase.characters == UppercaseCharacters;
    EncodedIs(Uppercase, F, "66");
  }

  /** "fo" is "666F" in `uppercase`. */
  lemma UppercaseFo()
    ensures Encoded(Uppercase, Fo) == "666F"
  {
    assert Uppercase.characters == UppercaseCharacters;
    EncodedIs(Uppercase, Fo, "666F");
  }

  /** "foo" is "666F6F" in `uppercase`. */
  lemma UppercaseFoo()
    ensures Encoded(Uppercase, Foo) == "666F6F"
  {
    assert Uppercase.characters == UppercaseCharacters;
    EncodedIs(Uppercase, Foo, "666F6F");
  }

  /** "foob" is "666F6F62" in `uppercase`. */
  lemma UppercaseFoob()
    ensures Encoded(Uppercase, Foob) == "666F6F62"
  {
    assert Uppercase.characters == UppercaseCharacters;
    EncodedIs(Uppercase, Foob, "666F6F62");
  }

  /** "fooba" is "666F6F6261" in `uppercase`. */
  lemma UppercaseFooba()
    ensures Encoded(Uppercase, Fooba) == "666F6F6261"
  {
    assert Uppercase.characters == UppercaseCharacters;
    EncodedIs(Uppercase, Fooba, "666F6F6261");
  }


  /** An encoding in `uppercase` decodes back in strict mode, and amid "_" noise when ignoring unknown characters. */
  lemma UppercaseDecodesVector(data: seq<byte>, text: seq<char>)
    requires Encoded(Uppercase, data) == text
    ensures Decoded(Uppercase, false, text) == Success(data)
    ensures Decoded(Uppercase, true, "_" + text + "_") == Success(data)
  {
    UppercaseFits();
    RoundTrip(Uppercase, false, data);
    RoundTrip(Uppercase, true, data);
    UnderscoreUnknown();
    IgnoringSurroundingNoise(Uppercase, "_", text);
  }

  /** Each of the seven test vectors of `uppercase` decodes back, with and without surrounding "_". */
  lemma UppercaseVectorsDecoded()
    ensures Decoded(Uppercase, false, "") == Success([]) && Decoded(Uppercase, true, "_" + "" + "_") == Success([])
    ensures Decoded(Uppercase, false, "66") == Success(F) && Decoded(Uppercase, true, "_" + "66" + "_") == Success(F)
    ensures Decoded(Uppercase, false, "666F") == Success(Fo) && Decoded(Uppercase, true, "_" + "666F" + "_") == Success(Fo)
    ensures Decoded(Uppercase, false, "666F6F") == Success(Foo) && Decoded(Uppercase, true, "_" + "666F6F" + "_") == Success(Foo)
    ensures Decoded(Uppercase, false, "666F6F62") == Success(Foob) && Decoded(Uppercase, true, "_" + "666F6F62" + "_") == Success(Foob)
    ensures Decoded(Uppercase, false, "666F6F6261") == Success(Fooba) && Decoded(Uppercase, true, "_" + "666F6F6261" + "_") == Success(Fooba)
    ensures Decoded(Uppercase, false, "666F6F626172") == Success(Foobar) && Decoded(Uppercase, true, "_" + "666F6F626172" + "_") == Success(Foobar)
  {
    UppercaseF();
    UppercaseFo();
    UppercaseFoo();
    UppercaseFoob();
    UppercaseFooba();
    UppercaseFoobar();
    UppercaseDecodesVector([], "");
    UppercaseDecodesVector(F, "66");
    UppercaseDecodesVector(Fo, "666F");
    UppercaseDecodesVector(Foo, "666F6F");
    UppercaseDecodesVector(Foob, "666F6F62");
    UppercaseDecodesVector(Fooba, "666F6F6261");
    UppercaseDecodesVector(Foobar, "666F6F626172");
  }

  /** "f" is "66" in `lowercase`. */
  lemma LowercaseF()
    ensures Encoded(Lowercase, F) == "66"
  {
    assert Lowercase.characters == LowercaseCharacters;
    EncodedIs(Lowercase, F, "66");
  }

  /** "fo" is "666f" in `lowercase`. */
  lemma LowercaseFo()
    ensures Encoded(Lowercase, Fo) == "666f"
  {
    assert Lowercase.characters == LowercaseCharacters;
    EncodedIs(Lowercase, Fo, "666f");
  }

  /** "foo" is "666f6f" in `lowercase`. */
  lemma LowercaseFoo()
    ensures Encoded(Lowercase, Foo) == "666f6f"
  {
    assert Lowercase.characters == LowercaseCharacters;
    EncodedIs(Lowercase, Foo, "666f6f");
  }

  /** "foob" is "666f6f62" in `lowercase`. */
  lemma LowercaseFoob()
    ensures Encoded(Lowercase, Foob) == "666f6f62"
  {
    assert Lowercase.characters == LowercaseCharacters;
    EncodedIs(Lowercase, Foob, "666f6f62");
  }

  /** "fooba" is "666f6f6261" in `lowercase`. */
  lemma LowercaseFooba()
    ensures Encoded(Lowercase, Fooba) == "666f6f6261"
  {
    assert Lowercase.characters == LowercaseCharacters;
    EncodedIs(Lowercase, Fooba, "666f6f6261");
  }


  /** An encoding in `lowercase` decodes back in strict mode, and amid "_" noise when ignoring unknown characters. */
  lemma LowercaseDecodesVector(data: seq<byte>, text: seq<char>)
    requires Encoded(Lowercase, data) == text
    ensures Decoded(Lowercase, false, text) == Success(data)
    ensures Decoded(Lowercase, true, "_" + text + "_") == Success(data)
  {
    LowercaseFits();
    RoundTrip(Lowercase, false, data);
    RoundTrip(Lowercase, true, data);
    UnderscoreUnknown();
    IgnoringSurroundingNoise(Lowercase, "_", text);
  }

  /** Each of the seven test vectors of `lowercase` decodes back, with and without surrounding "_". */
  lemma LowercaseVectorsDecoded()
    ensures Decoded(Lowercase, false, "") == Success([]) && Decoded(Lowercase, true, "_" + "" + "_") == Success([])
    ensures Decoded(Lowercase, false, "66") == Success(F) && Decoded(Lowercase, true, "_" + "66" + "_") == Success(F)
    ensures Decoded(Lowercase, false, "666f") == Success(Fo) && Decoded(Lowercase, true, "_" + "666f" + "_") == Success(Fo)
    ensures Decoded(Lowercase, false, "666f6f") == Success(Foo) && Decoded(Lowercase, true, "_" + "666f6f" + "_") == Success(Foo)
    ensures Decoded(Lowercase, false, "666f6f62") == Success(Foob) && Decoded(Lowercase, true, "_" + "666f6f62" + "_") == Success(Foob)
    ensures Decoded(Lowercase, false, "666f6f6261") == Success(Fooba) && Decoded(Lowercase, true, "_" + "666f6f6261" + "_") == Success(Fooba)
    ensures Decoded(Lowercase, false, "666f6f626172") == Success(Foobar) && Decoded(Lowercase, true, "_" + "666f6f626172" + "_") == Success(Foobar)
  {
    LowercaseF();
    LowercaseFo();
    LowercaseFoo();
    LowercaseFoob();
    LowercaseFooba();
    LowercaseFoobar();
    LowercaseDecodesVector([], "");
    LowercaseDecodesVector(F, "66");
    LowercaseDecodesVector(Fo, "666f");
    LowercaseDecodesVector(Foo, "666f6f");
    LowercaseDecodesVector(Foob, "666f6f62");
    LowercaseDecodesVector(Fooba, "666f6f6261");
    LowercaseDecodesVector(Foobar, "666f6f626172");
  }

  /** "_" is in neither alphabet. */
  lemma UnderscoreUnknown()
    ensures '_' !in Uppercase.characters && '_' !in Lowercase.characters
  {
    assert Uppercase.characters == UppercaseCharacters && Lowercase.characters == LowercaseCharacters;
    assert UppercaseValues['_' as int].None? && LowercaseValues['_' as int].None?;
    UppercaseInverts();
    LowercaseInverts();
    NotInverted(UppercaseCharacters, UppercaseValues, '_');
    NotInverted(LowercaseCharacters, LowercaseValues, '_');
  }

  // ----- Error outcomes from the test suite -----

  /** A strict `lowercase` decoder rejects "000z" for its letter and "000" for its odd length. */
  lemma LowercaseDecodingErrors()
    ensures Decoded(Lowercase, false, "000z") == Failure(ValuesNotInAlphabet)
    ensures Decoded(Lowercase, false, "000") == Failure(WrongNumberOfBytes)
  {
    assert Lowercase.characters == LowercaseCharacters;
    ContainsUnknownIff(Lowercase, "000z");
    assert "000z"[3] !in LowercaseCharacters;
    ContainsUnknownIff(Lowercase, "000");
  }

  /**
   * An unchecked alphabet of "0", "1" and "¡" with an empty table: a pair
   * holding "¡" is not ASCII, and "00" has no value.
   */
  lemma UncheckedAlphabetErrors()
    ensures Decoded(Alphabet("01¡", Repeat(None, 128)), false, "0¡") == Failure(NonAsciiCharacters)
    ensures Decoded(Alphabet("01¡", Repeat(None, 128)), false, "00") == Failure(ValuesNotInAlphabet)
  {
    var a := Alphabet("01¡", Repeat(None, 128));
    ContainsUnknownIff(a, "0¡");
    ContainsUnknownIff(a, "00");
    assert "0¡"[..0] == [] && "00"[..0] == [];
  }

  /** No characters is the wrong number; a non-ASCII first character has no ASCII value. */
  lemma AlphabetErrors()
    ensures Checked([]) == Failure(WrongNumberOfCharacters)
    ensures Checked("¡123456789ABCDEF") == Failure(NoAsciiValue)
  {
    assert !IsAscii("¡123456789ABCDEF"[0]);
  }
}
