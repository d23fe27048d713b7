/**
 * The built-in Base-85 alphabets of Sources/Bases/Base85+Alphabet.swift:
 * three tables of characters and values (`ascii`, `btoaLike` and
 * `adobeAscii85` share one), each proved equal to what the checked
 * initialiser builds; with them, the examples of the test suite.
 */
module Base85Alphabets {

  import opened Wrappers
  import opened Bits
  import opened Text
  import opened Errors
  import opened AlphabetTables
  import opened CollectionExtensions
  import opened Base85

  // ----- the tables of `ascii`, which `btoaLike` and `adobeAscii85` repeat -----

  const AsciiCharacters: seq<char> :=
    (("!\"#$%&\'()*+,-./0" +
    ("123456789:;<=>?@" +
    "ABCDEFGHIJKLMNOP")) +
    ("QRSTUVWXYZ[\\]^_`" +
    ("abcdefghijklmnop" +
    "qrstu")))
  const AsciiValues: seq<Option<byte>> :=
    (((([None, None, None, None, None, None, None, None] +
    [None, None, None, None, None, None, None, None]) +
    ([None, None, None, None, None, None, None, None] +
    [None, None, None, None, None, None, None, None])) +
    (([None, Some(0), Some(1), Some(2), Some(3), Some(4), Some(5), Some(6)] +
    [Some(7), Some(8), Some(9), Some(10), Some(11), Some(12), Some(13), Some(14)]) +
    ([Some(15), Some(16), Some(17), Some(18), Some(19), Some(20), Some(21), Some(22)] +
    [Some(23), Some(24), Some(25), Some(26), Some(27), Some(28), Some(29), Some(30)]))) +
    ((([Some(31), Some(32), Some(33), Some(34), Some(35), Some(36), Some(37), Some(38)] +
    [Some(39), Some(40), Some(41), Some(42), Some(43), Some(44), Some(45), Some(46)]) +
    ([Some(47), Some(48), Some(49), Some(50), Some(51), Some(52), Some(53), Some(54)] +
    [Some(55), Some(56), Some(57), Some(58), Some(59), Some(60), Some(61), Some(62)])) +
    (([Some(63), Some(64), Some(65), Some(66), Some(67), Some(68), Some(69), Some(70)] +
    [Some(71), Some(72), Some(73), Some(74), Some(75), Some(76), Some(77), Some(78)]) +
    ([Some(79), Some(80), Some(81), Some(82), Some(83), Some(84), None, None] +
    [None, None, None, None, None, None, None, None]))))

  /** The table sends each of the characters for 0 to 7 back to its index. */
  lemma AsciiInverts0()
    ensures InvertsBetween(AsciiCharacters, AsciiValues, 0, 8)
  {
    forall v | 0 <= v < 8
      ensures IsAscii(AsciiCharacters[v]) && AsciiValues[AsciiCharacters[v] as int] == Some(v)
    {
      Enumerate8(v, 0);
    }
  }

  /** The table sends each of the characters for 8 to 15 back to its index. */
  lemma AsciiInverts8()
    ensures InvertsBetween(AsciiCharacters, AsciiValues, 8, 16)
  {
    forall v | 8 <= v < 16
      ensures IsAscii(AsciiCharacters[v]) && AsciiValues[AsciiCharacters[v] as int] == Some(v)
    {
      Enumerate8(v, 8);
    }
  }

  /** The table sends each of the characters for 16 to 23 back to its index. */
  lemma AsciiInverts16()
    ensures InvertsBetween(AsciiCharacters, AsciiValues, 16, 24)
  {
    forall v | 16 <= v < 24
      ensures IsAscii(AsciiCharacters[v]) && AsciiValues[AsciiCharacters[v] as int] == Some(v)
    {
      Enumerate8(v, 16);
    }
  }

  /** The table sends each of the characters for 24 to 31 back to its index. */
  lemma AsciiInverts24()
    ensures InvertsBetween(AsciiCharacters, AsciiValues, 24, 32)
  {
    forall v | 24 <= v < 32
      ensures IsAscii(AsciiCharacters[v]) && AsciiValues[AsciiCharacters[v] as int] == Some(v)
    {
      Enumerate8(v, 24);
    }
  }

  /** The table sends each of the characters for 32 to 39 back to its index. */
  lemma AsciiInverts32()
    ensures InvertsBetween(AsciiCharacters, AsciiValues, 32, 40)
  {
    forall v | 32 <= v < 40
      ensures IsAscii(AsciiCharacters[v]) && AsciiValues[AsciiCharacters[v] as int] == Some(v)
    {
      Enumerate8(v, 32);
    }
  }

  /** The table sends each of the characters for 40 to 47 back to its index. */
  lemma AsciiInverts40()
    ensures InvertsBetween(AsciiCharacters, AsciiValues, 40, 48)
  {
    forall v | 40 <= v < 48
      ensures IsAscii(AsciiCharacters[v]) && AsciiValues[AsciiCharacters[v] as int] == Some(v)
    {
      Enumerate8(v, 40);
    }
  }

  /** The table sends each of the characters for 48 to 55 back to its index. */
  lemma AsciiInverts48()
    ensures InvertsBetween(AsciiCharacters, AsciiValues, 48, 56)
  {
    forall v | 48 <= v < 56
      ensures IsAscii(AsciiCharacters[v]) && AsciiValues[AsciiCharacters[v] as int] == Some(v)
    {
      Enumerate8(v, 48);
    }
  }

  /** The table sends each of the characters for 56 to 63 back to its index. */
  lemma AsciiInverts56()
    ensures InvertsBetween(AsciiCharacters, AsciiValues, 56, 64)
  {
    forall v | 56 <= v < 64
      ensures IsAscii(AsciiCharacters[v]) && AsciiValues[AsciiCharacters[v] as int] == Some(v)
    {
      Enumerate8(v, 56);
    }
  }

  /** The table sends each of the characters for 64 to 71 back to its index. */
  lemma AsciiInverts64()
    ensures InvertsBetween(AsciiCharacters, AsciiValues, 64, 72)
  {
    forall v | 64 <= v < 72
      ensures IsAscii(AsciiCharacters[v]) && AsciiValues[AsciiCharacters[v] as int] == Some(v)
    {
      Enumerate8(v, 64);
    }
  }

  /** The table sends each of the characters for 72 to 79 back to its index. */
  lemma AsciiInverts72()
    ensures InvertsBetween(AsciiCharacters, AsciiValues, 72, 80)
  {
    forall v | 72 <= v < 80
      ensures IsAscii(AsciiCharacters[v]) && AsciiValues[AsciiCharacters[v] as int] == Some(v)
    {
      Enumerate8(v, 72);
    }
  }

  /** The table sends each of the characters for 80 to 84 back to its index. */
  lemma AsciiInverts80()
    ensures InvertsBetween(AsciiCharacters, AsciiValues, 80, 85)
  {
    forall v | 80 <= v < 85
      ensures IsAscii(AsciiCharacters[v]) && AsciiValues[AsciiCharacters[v] as int] == Some(v)
    {
      Enumerate8(v, 80);
    }
  }

  /** The table sends every character back to its index. */
  lemma AsciiInverts()
    ensures Inverts(AsciiCharacters, AsciiValues)
  {
    AsciiInverts0();
    AsciiInverts8();
    AsciiInverts16();
    AsciiInverts24();
    AsciiInverts32();
    AsciiInverts40();
    AsciiInverts48();
    AsciiInverts56();
    AsciiInverts64();
    AsciiInverts72();
    AsciiInverts80();
    InvertsByEights(AsciiCharacters, AsciiValues);
  }

  /** No control code has an entry. */
  lemma AsciiOnlyCharacters0()
    ensures OnlyCharactersBetween(AsciiCharacters, AsciiValues, 0, 32)
  {
    forall c | 0 <= c < 32
      ensures AsciiValues[c].None?
    {
      Enumerate32(c, 0);
    }
  }

  /** The entries for the codes 32 to 63 name characters with those codes. */
  lemma AsciiOnlyCharacters32()
    ensures OnlyCharactersBetween(AsciiCharacters, AsciiValues, 32, 64)
  {
    forall c | 32 <= c < 64 && AsciiValues[c].Some?
      ensures AsciiValues[c].value < 85 && AsciiCharacters[AsciiValues[c].value] as int == c
    {
      Enumerate32(c, 32);
    }
  }

  /** The entries for the codes 64 to 95 name characters with those codes. */
  lemma AsciiOnlyCharacters64()
    ensures OnlyCharactersBetween(AsciiCharacters, AsciiValues, 64, 96)
  {
    forall c | 64 <= c < 96 && AsciiValues[c].Some?
      ensures AsciiValues[c].value < 85 && AsciiCharacters[AsciiValues[c].value] as int == c
    {
      Enumerate32(c, 64);
    }
  }

  /** The entries for the codes 96 to 127 name characters with those codes. */
  lemma AsciiOnlyCharacters96()
    ensures OnlyCharactersBetween(AsciiCharacters, AsciiValues, 96, 128)
  {
    forall c | 96 <= c < 128 && AsciiValues[c].Some?
      ensures AsciiValues[c].value < 85 && AsciiCharacters[AsciiValues[c].value] as int == c
    {
      Enumerate32(c, 96);
    }
  }

  /** Every entry of the table names the character with that code. */
  lemma AsciiOnlyCharacters()
    ensures OnlyCharacters(AsciiCharacters, AsciiValues)
  {
    AsciiOnlyCharacters0();
    AsciiOnlyCharacters32();
    AsciiOnlyCharacters64();
    AsciiOnlyCharacters96();
    OnlyCharactersByQuarters(AsciiCharacters, AsciiValues);
  }

  /** The checked initialiser builds this table from these characters, whatever the delimiters and shortcuts. */
  lemma AsciiChecked(startDelimiter: Option<seq<char>>, endDelimiter: Option<seq<char>>, fourZeros: Option<char>, fourSpaces: Option<char>)
    ensures Checked(AsciiCharacters, startDelimiter, endDelimiter, fourZeros, fourSpaces)
      == Success(Alphabet(AsciiCharacters, AsciiValues, startDelimiter, endDelimiter, fourZeros, fourSpaces))
  {
    AsciiInverts();
    AsciiOnlyCharacters();
    ValueTableIs(AsciiCharacters, AsciiValues);
  }

  /** The characters for 0 to 15 are the codes 33 to 48. */
  lemma AsciiConsecutive0()
    ensures forall v :: 0 <= v < 16 ==> AsciiCharacters[v] as int == 33 + v
  {
    forall v | 0 <= v < 16
      ensures AsciiCharacters[v] as int == 33 + v
    {
      Enumerate16(v, 0);
    }
  }

  /** The characters for 16 to 31 are the codes 49 to 64. */
  lemma AsciiConsecutive16()
    ensures forall v :: 16 <= v < 32 ==> AsciiCharacters[v] as int == 33 + v
  {
    forall v | 16 <= v < 32
      ensures AsciiCharacters[v] as int == 33 + v
    {
      Enumerate16(v, 16);
    }
  }

  /** The characters for 32 to 47 are the codes 65 to 80. */
  lemma AsciiConsecutive32()
    ensures forall v :: 32 <= v < 48 ==> AsciiCharacters[v] as int == 33 + v
  {
    forall v | 32 <= v < 48
      ensures AsciiCharacters[v] as int == 33 + v
    {
      Enumerate16(v, 32);
    }
  }

  /** The characters for 48 to 63 are the codes 81 to 96. */
  lemma AsciiConsecutive48()
    ensures forall v :: 48 <= v < 64 ==> AsciiCharacters[v] as int == 33 + v
  {
    forall v | 48 <= v < 64
      ensures AsciiCharacters[v] as int == 33 + v
    {
      Enumerate16(v, 48);
    }
  }

  /** The characters for 64 to 79 are the codes 97 to 112. */
  lemma AsciiConsecutive64()
    ensures forall v :: 64 <= v < 80 ==> AsciiCharacters[v] as int == 33 + v
  {
    forall v | 64 <= v < 80
      ensures AsciiCharacters[v] as int == 33 + v
    {
      Enumerate16(v, 64);
    }
  }

  /** The characters for 80 to 84 are the codes 113 to 117. */
  lemma AsciiConsecutive80()
    ensures forall v :: 80 <= v < 85 ==> AsciiCharacters[v] as int == 33 + v
  {
    forall v | 80 <= v < 85
      ensures AsciiCharacters[v] as int == 33 + v
    {
      Enumerate8(v, 80);
    }
  }

  /** The characters of `ascii` are the codes 33 to 117, in order. */
  lemma AsciiCodesConsecutive()
    ensures forall v :: 0 <= v < 85 ==> AsciiCharacters[v] as int == 33 + v
  {
    AsciiConsecutive0();
    AsciiConsecutive16();
    AsciiConsecutive32();
    AsciiConsecutive48();
    AsciiConsecutive64();
    AsciiConsecutive80();
  }

  /** The codes 33 to 117 map to the code less 33. */
  lemma AsciiValuesInRange()
    ensures forall c :: 33 <= c < 118 ==> AsciiValues[c] == Some(c - 33)
  {
    forall c | 33 <= c < 118
      ensures AsciiValues[c] == Some(c - 33)
    {
      assert AsciiCharacters[c - 33] as int == c by { AsciiCodesConsecutive(); }
      assert AsciiValues[AsciiCharacters[c - 33] as int] == Some(c - 33) by { AsciiInverts(); }
    }
  }

  /** No other code has an entry. */
  lemma AsciiValuesOutside()
    ensures forall c :: 0 <= c < 128 && !(33 <= c < 118) ==> AsciiValues[c].None?
  {
    AsciiCodesConsecutive();
    AsciiOnlyCharacters();
  }

  /**
   * `ascii` is the 85 consecutive codes from "!" (33) to "u" (117), and the
   * value of a code is the code less 33; every other code is unmapped.
   */
  lemma AsciiConsecutive()
    ensures forall v :: 0 <= v < 85 ==> AsciiCharacters[v] as int == 33 + v
    ensures forall c :: 0 <= c < 128 ==> AsciiValues[c] == if 33 <= c < 118 then Some(c - 33) else None
  {
    AsciiCodesConsecutive();
    AsciiValuesInRange();
    AsciiValuesOutside();
  }

  // ----- the tables of `rfc1924Like` -----

  const Rfc1924Characters: seq<char> :=
    (("0123456789ABCDEF" +
    ("GHIJKLMNOPQRSTUV" +
    "WXYZabcdefghijkl")) +
    ("mnopqrstuvwxyz!#" +
    ("$%&()*+-;<=>?@^_" +
    "`{|}~")))
  const Rfc1924Values: seq<Option<byte>> :=
    (((([None, None, None, None, None, None, None, None] +
    [None, None, None, None, None, None, None, None]) +
    ([None, None, None, None, None, None, None, None] +
    [None, None, None, None, None, None, None, None])) +
    (([None, Some(62), None, Some(63), Some(64), Some(65), Some(66), None] +
    [Some(67), Some(68), Some(69), Some(70), None, Some(71), None, None]) +
    ([Some(0), Some(1), Some(2), Some(3), Some(4), Some(5), Some(6), Some(7)] +
    [Some(8), Some(9), None, Some(72), Some(73), Some(74), Some(75), Some(76)]))) +
    ((([Some(77), Some(10), Some(11), Some(12), Some(13), Some(14), Some(15), Some(16)] +
    [Some(17), Some(18), Some(19), Some(20), Some(21), Some(22), Some(23), Some(24)]) +
    ([Some(25), Some(26), Some(27), Some(28), Some(29), Some(30), Some(31), Some(32)] +
    [Some(33), Some(34), Some(35), None, None, None, Some(78), Some(79)])) +
    (([Some(80), Some(36), Some(37), Some(38), Some(39), Some(40), Some(41), Some(42)] +
    [Some(43), Some(44), Some(45), Some(46), Some(47), Some(48), Some(49), Some(50)]) +
    ([Some(51), Some(52), Some(53), Some(54), Some(55), Some(56), Some(57), Some(58)] +
    [Some(59), Some(60), Some(61), Some(81), Some(82), Some(83), Some(84), None]))))

  /** The table sends each of the characters for 0 to 7 back to its index. */
  lemma Rfc1924Inverts0()
    ensures InvertsBetween(Rfc1924Characters, Rfc1924Values, 0, 8)
  {
    forall v | 0 <= v < 8
      ensures IsAscii(Rfc1924Characters[v]) && Rfc1924Values[Rfc1924Characters[v] as int] == Some(v)
    {
      Enumerate8(v, 0);
    }
  }

  /** The table sends each of the characters for 8 to 15 back to its index. */
  lemma Rfc1924Inverts8()
    ensures InvertsBetween(Rfc1924Characters, Rfc1924Values, 8, 16)
  {
    forall v | 8 <= v < 16
      ensures IsAscii(Rfc1924Characters[v]) && Rfc1924Values[Rfc1924Characters[v] as int] == Some(v)
    {
      Enumerate8(v, 8);
    }
  }

  /** The table sends each of the characters for 16 to 23 back to its index. */
  lemma Rfc1924Inverts16()
    ensures InvertsBetween(Rfc1924Characters, Rfc1924Values, 16, 24)
  {
    forall v | 16 <= v < 24
      ensures IsAscii(Rfc1924Characters[v]) && Rfc1924Values[Rfc1924Characters[v] as int] == Some(v)
    {
      Enumerate8(v, 16);
    }
  }

  /** The table sends each of the characters for 24 to 31 back to its index. */
  lemma Rfc1924Inverts24()
    ensures InvertsBetween(Rfc1924Characters, Rfc1924Values, 24, 32)
  {
    forall v | 24 <= v < 32
      ensures IsAscii(Rfc1924Characters[v]) && Rfc1924Values[Rfc1924Characters[v] as int] == Some(v)
    {
      Enumerate8(v, 24);
    }
  }

  /** The table sends each of the characters for 32 to 39 back to its index. */
  lemma Rfc1924Inverts32()
    ensures InvertsBetween(Rfc1924Characters, Rfc1924Values, 32, 40)
  {
    forall v | 32 <= v < 40
      ensures IsAscii(Rfc1924Characters[v]) && Rfc1924Values[Rfc1924Characters[v] as int] == Some(v)
    {
      Enumerate8(v, 32);
    }
  }

  /** The table sends each of the characters for 40 to 47 back to its index. */
  lemma Rfc1924Inverts40()
    ensures InvertsBetween(Rfc1924Characters, Rfc1924Values, 40, 48)
  {
    forall v | 40 <= v < 48
      ensures IsAscii(Rfc1924Characters[v]) && Rfc1924Values[Rfc1924Characters[v] as int] == Some(v)
    {
      Enumerate8(v, 40);
    }
  }

  /** The table sends each of the characters for 48 to 55 back to its index. */
  lemma Rfc1924Inverts48()
    ensures InvertsBetween(Rfc1924Characters, Rfc1924Values, 48, 56)
  {
    forall v | 48 <= v < 56
      ensures IsAscii(Rfc1924Characters[v]) && Rfc1924Values[Rfc1924Characters[v] as int] == Some(v)
    {
      Enumerate8(v, 48);
    }
  }

  /** The table sends each of the characters for 56 to 63 back to its index. */
  lemma Rfc1924Inverts56()
    ensures InvertsBetween(Rfc1924Characters, Rfc1924Values, 56, 64)
  {
    forall v | 56 <= v < 64
      ensures IsAscii(Rfc1924Characters[v]) && Rfc1924Values[Rfc1924Characters[v] as int] == Some(v)
    {
      Enumerate8(v, 56);
    }
  }

  /** The table sends each of the characters for 64 to 71 back to its index. */
  lemma Rfc1924Inverts64()
    ensures InvertsBetween(Rfc1924Characters, Rfc1924Values, 64, 72)
  {
    forall v | 64 <= v < 72
      ensures IsAscii(Rfc1924Characters[v]) && Rfc1924Values[Rfc1924Characters[v] as int] == Some(v)
    {
      Enumerate8(v, 64);
    }
  }

  /** The table sends each of the characters for 72 to 79 back to its index. */
  lemma Rfc1924Inverts72()
    ensures InvertsBetween(Rfc1924Characters, Rfc1924Values, 72, 80)
  {
    forall v | 72 <= v < 80
      ensures IsAscii(Rfc1924Characters[v]) && Rfc1924Values[Rfc1924Characters[v] as int] == Some(v)
    {
      Enumerate8(v, 72);
    }
  }

  /** The table sends each of the characters for 80 to 84 back to its index. */
  lemma Rfc1924Inverts80()
    ensures InvertsBetween(Rfc1924Characters, Rfc1924Values, 80, 85)
  {
    forall v | 80 <= v < 85
      ensures IsAscii(Rfc1924Characters[v]) && Rfc1924Values[Rfc1924Characters[v] as int] == Some(v)
    {
      Enumerate8(v, 80);
    }
  }

  /** The table sends every character back to its index. */
  lemma Rfc1924Inverts()
    ensures Inverts(Rfc1924Characters, Rfc1924Values)
  {
    Rfc1924Inverts0();
    Rfc1924Inverts8();
    Rfc1924Inverts16();
    Rfc1924Inverts24();
    Rfc1924Inverts32();
    Rfc1924Inverts40();
    Rfc1924Inverts48();
    Rfc1924Inverts56();
    Rfc1924Inverts64();
    Rfc1924Inverts72();
    Rfc1924Inverts80();
    InvertsByEights(Rfc1924Characters, Rfc1924Values);
  }

  /** No control code has an entry. */
  lemma Rfc1924OnlyCharacters0()
    ensures OnlyCharactersBetween(Rfc1924Characters, Rfc1924Values, 0, 32)
  {
    forall c | 0 <= c < 32
      ensures Rfc1924Values[c].None?
    {
      Enumerate32(c, 0);
    }
  }

  /** The entries for the codes 32 to 63 name characters with those codes. */
  lemma Rfc1924OnlyCharacters32()
    ensures OnlyCharactersBetween(Rfc1924Characters, Rfc1924Values, 32, 64)
  {
    forall c | 32 <= c < 64 && Rfc1924Values[c].Some?
      ensures Rfc1924Values[c].value < 85 && Rfc1924Characters[Rfc1924Values[c].value] as int == c
    {
      Enumerate32(c, 32);
    }
  }

  /** The entries for the codes 64 to 95 name characters with those codes. */
  lemma Rfc1924OnlyCharacters64()
    ensures OnlyCharactersBetween(Rfc1924Characters, Rfc1924Values, 64, 96)
  {
    forall c | 64 <= c < 96 && Rfc1924Values[c].Some?
      ensures Rfc1924Values[c].value < 85 && Rfc1924Characters[Rfc1924Values[c].value] as int == c
    {
      Enumerate32(c, 64);
    }
  }

  /** The entries for the codes 96 to 127 name characters with those codes. */
  lemma Rfc1924OnlyCharacters96()
    ensures OnlyCharactersBetween(Rfc1924Characters, Rfc1924Values, 96, 128)
  {
    forall c | 96 <= c < 128 && Rfc1924Values[c].Some?
      ensures Rfc1924Values[c].value < 85 && Rfc1924Characters[Rfc1924Values[c].value] as int == c
    {
      Enumerate32(c, 96);
    }
  }

  /** Every entry of the table names the character with that code. */
  lemma Rfc1924OnlyCharacters()
    ensures OnlyCharacters(Rfc1924Characters, Rfc1924Values)
  {
    Rfc1924OnlyCharacters0();
    Rfc1924OnlyCharacters32();
    Rfc1924OnlyCharacters64();
    Rfc1924OnlyCharacters96();
    OnlyCharactersByQuarters(Rfc1924Characters, Rfc1924Values);
  }

  /** The checked initialiser builds this table from these characters, whatever the delimiters and shortcuts. */
  lemma Rfc1924Checked(startDelimiter: Option<seq<char>>, endDelimiter: Option<seq<char>>, fourZeros: Option<char>, fourSpaces: Option<char>)
    ensures Checked(Rfc1924Characters, startDelimiter, endDelimiter, fourZeros, fourSpaces)
      == Success(Alphabet(Rfc1924Characters, Rfc1924Values, startDelimiter, endDelimiter, fourZeros, fourSpaces))
  {
    Rfc1924Inverts();
    Rfc1924OnlyCharacters();
    ValueTableIs(Rfc1924Characters, Rfc1924Values);
  }

  // ----- the tables of `z85` -----

  const Z85Characters: seq<char> :=
    (("0123456789abcdef" +
    ("ghijklmnopqrstuv" +
    "wxyzABCDEFGHIJKL")) +
    ("MNOPQRSTUVWXYZ.-" +
    (":+=^!/*?&<>()[]{" +
    "}@%$#")))
  const Z85Values: seq<Option<byte>> :=
    (((([None, None, None, None, None, None, None, None] +
    [None, None, None, None, None, None, None, None]) +
    ([None, None, None, None, None, None, None, None] +
    [None, None, None, None, None, None, None, None])) +
    (([None, Some(68), None, Some(84), Some(83), Some(82), Some(72), None] +
    [Some(75), Some(76), Some(70), Some(65), None, Some(63), Some(62), Some(69)]) +
    ([Some(0), Some(1), Some(2), Some(3), Some(4), Some(5), Some(6), Some(7)] +
    [Some(8), Some(9), Some(64), None, Some(73), Some(66), Some(74), Some(71)]))) +
    ((([Some(81), Some(36), Some(37), Some(38), Some(39), Some(40), Some(41), Some(42)] +
    [Some(43), Some(44), Some(45), Some(46), Some(47), Some(48), Some(49), Some(50)]) +
    ([Some(51), Some(52), Some(53), Some(54), Some(55), Some(56), Some(57), Some(58)] +
    [Some(59), Some(60), Some(61), Some(77), None, Some(78), Some(67), None])) +
    (([None, Some(10), Some(11), Some(12), Some(13), Some(14), Some(15), Some(16)] +
    [Some(17), Some(18), Some(19), Some(20), Some(21), Some(22), Some(23), Some(24)]) +
    ([Some(25), Some(26), Some(27), Some(28), Some(29), Some(30), Some(31), Some(32)] +
    [Some(33), Some(34), Some(35), Some(79), None, Some(80), None, None]))))

  /** The table sends each of the characters for 0 to 7 back to its index. */
  lemma Z85Inverts0()
    ensures InvertsBetween(Z85Characters, Z85Values, 0, 8)
  {
    forall v | 0 <= v < 8
      ensures IsAscii(Z85Characters[v]) && Z85Values[Z85Characters[v] as int] == Some(v)
    {
      Enumerate8(v, 0);
    }
  }

  /** The table sends each of the characters for 8 to 15 back to its index. */
  lemma Z85Inverts8()
    ensures InvertsBetween(Z85Characters, Z85Values, 8, 16)
  {
    forall v | 8 <= v < 16
      ensures IsAscii(Z85Characters[v]) && Z85Values[Z85Characters[v] as int] == Some(v)
    {
      Enumerate8(v, 8);
    }
  }

  /** The table sends each of the characters for 16 to 23 back to its index. */
  lemma Z85Inverts16()
    ensures InvertsBetween(Z85Characters, Z85Values, 16, 24)
  {
    forall v | 16 <= v < 24
      ensures IsAscii(Z85Characters[v]) && Z85Values[Z85Characters[v] as int] == Some(v)
    {
      Enumerate8(v, 16);
    }
  }

  /** The table sends each of the characters for 24 to 31 back to its index. */
  lemma Z85Inverts24()
    ensures InvertsBetween(Z85Characters, Z85Values, 24, 32)
  {
    forall v | 24 <= v < 32
      ensures IsAscii(Z85Characters[v]) && Z85Values[Z85Characters[v] as int] == Some(v)
    {
      Enumerate8(v, 24);
    }
  }

  /** The table sends each of the characters for 32 to 39 back to its index. */
  lemma Z85Inverts32()
    ensures InvertsBetween(Z85Characters, Z85Values, 32, 40)
  {
    forall v | 32 <= v < 40
      ensures IsAscii(Z85Characters[v]) && Z85Values[Z85Characters[v] as int] == Some(v)
    {
      Enumerate8(v, 32);
    }
  }

  /** The table sends each of the characters for 40 to 47 back to its index. */
  lemma Z85Inverts40()
    ensures InvertsBetween(Z85Characters, Z85Values, 40, 48)
  {
    forall v | 40 <= v < 48
      ensures IsAscii(Z85Characters[v]) && Z85Values[Z85Characters[v] as int] == Some(v)
    {
      Enumerate8(v, 40);
    }
  }

  /** The table sends each of the characters for 48 to 55 back to its index. */
  lemma Z85Inverts48()
    ensures InvertsBetween(Z85Characters, Z85Values, 48, 56)
  {
    forall v | 48 <= v < 56
      ensures IsAscii(Z85Characters[v]) && Z85Values[Z85Characters[v] as int] == Some(v)
    {
      Enumerate8(v, 48);
    }
  }

  /** The table sends each of the characters for 56 to 63 back to its index. */
  lemma Z85Inverts56()
    ensures InvertsBetween(Z85Characters, Z85Values, 56, 64)
  {
    forall v | 56 <= v < 64
      ensures IsAscii(Z85Characters[v]) && Z85Values[Z85Characters[v] as int] == Some(v)
    {
      Enumerate8(v, 56);
    }
  }

  /** The table sends each of the characters for 64 to 71 back to its index. */
  lemma Z85Inverts64()
    ensures InvertsBetween(Z85Characters, Z85Values, 64, 72)
  {
    forall v | 64 <= v < 72
      ensures IsAscii(Z85Characters[v]) && Z85Values[Z85Characters[v] as int] == Some(v)
    {
      Enumerate8(v, 64);
    }
  }

  /** The table sends each of the characters for 72 to 79 back to its index. */
  lemma Z85Inverts72()
    ensures InvertsBetween(Z85Characters, Z85Values, 72, 80)
  {
    forall v | 72 <= v < 80
      ensures IsAscii(Z85Characters[v]) && Z85Values[Z85Characters[v] as int] == Some(v)
    {
      Enumerate8(v, 72);
    }
  }

  /** The table sends each of the characters for 80 to 84 back to its index. */
  lemma Z85Inverts80()
    ensures InvertsBetween(Z85Characters, Z85Values, 80, 85)
  {
    forall v | 80 <= v < 85
      ensures IsAscii(Z85Characters[v]) && Z85Values[Z85Characters[v] as int] == Some(v)
    {
      Enumerate8(v, 80);
    }
  }

  /** The table sends every character back to its index. */
  lemma Z85Inverts()
    ensures Inverts(Z85Characters, Z85Values)
  {
    Z85Inverts0();
    Z85Inverts8();
    Z85Inverts16();
    Z85Inverts24();
    Z85Inverts32();
    Z85Inverts40();
    Z85Inverts48();
    Z85Inverts56();
    Z85Inverts64();
    Z85Inverts72();
    Z85Inverts80();
    InvertsByEights(Z85Characters, Z85Values);
  }

  /** No control code has an entry. */
  lemma Z85OnlyCharacters0()
    ensures OnlyCharactersBetween(Z85Characters, Z85Values, 0, 32)
  {
    forall c | 0 <= c < 32
      ensures Z85Values[c].None?
    {
      Enumerate32(c, 0);
    }
  }

  /** The entries for the codes 32 to 63 name characters with those codes. */
  lemma Z85OnlyCharacters32()
    ensures OnlyCharactersBetween(Z85Characters, Z85Values, 32, 64)
  {
    forall c | 32 <= c < 64 && Z85Values[c].Some?
      ensures Z85Values[c].value < 85 && Z85Characters[Z85Values[c].value] as int == c
    {
      Enumerate32(c, 32);
    }
  }

  /** The entries for the codes 64 to 95 name characters with those codes. */
  lemma Z85OnlyCharacters64()
    ensures OnlyCharactersBetween(Z85Characters, Z85Values, 64, 96)
  {
    forall c | 64 <= c < 96 && Z85Values[c].Some?
      ensures Z85Values[c].value < 85 && Z85Characters[Z85Values[c].value] as int == c
    {
      Enumerate32(c, 64);
    }
  }

  /** The entries for the codes 96 to 127 name characters with those codes. */
  lemma Z85OnlyCharacters96()
    ensures OnlyCharactersBetween(Z85Characters, Z85Values, 96, 128)
  {
    forall c | 96 <= c < 128 && Z85Values[c].Some?
      ensures Z85Values[c].value < 85 && Z85Characters[Z85Values[c].value] as int == c
    {
      Enumerate32(c, 96);
    }
  }

  /** Every entry of the table names the character with that code. */
  lemma Z85OnlyCharacters()
    ensures OnlyCharacters(Z85Characters, Z85Values)
  {
    Z85OnlyCharacters0();
    Z85OnlyCharacters32();
    Z85OnlyCharacters64();
    Z85OnlyCharacters96();
    OnlyCharactersByQuarters(Z85Characters, Z85Values);
  }

  /** The checked initialiser builds this table from these characters, whatever the delimiters and shortcuts. */
  lemma Z85Checked(startDelimiter: Option<seq<char>>, endDelimiter: Option<seq<char>>, fourZeros: Option<char>, fourSpaces: Option<char>)
    ensures Checked(Z85Characters, startDelimiter, endDelimiter, fourZeros, fourSpaces)
      == Success(Alphabet(Z85Characters, Z85Values, startDelimiter, endDelimiter, fourZeros, fourSpaces))
  {
    Z85Inverts();
    Z85OnlyCharacters();
    ValueTableIs(Z85Characters, Z85Values);
  }

  // ----- The built-in alphabets -----

  /** `ascii`: the characters "!" to "u" in code order, no delimiters, no shortcuts. */
  const Ascii: Alphabet := Alphabet(AsciiCharacters, AsciiValues, None, None, None, None)

  /** `btoaLike`: the same characters, with "z" for four zero bytes and "y" for four spaces. */
  const BtoaLike: Alphabet := Alphabet(AsciiCharacters, AsciiValues, None, None, Some('z'), Some('y'))

  /** `adobeAscii85`: the same characters between "<~" and "~>", with "z" for four zero bytes. */
  const AdobeAscii85: Alphabet := Alphabet(AsciiCharacters, AsciiValues, Some("<~"), Some("~>"), Some('z'), None)

  /** `rfc1924Like`: the characters of RFC 1924, no delimiters, no shortcuts. */
  const Rfc1924Like: Alphabet := Alphabet(Rfc1924Characters, Rfc1924Values, None, None, None, None)

  /** `z85`: the characters of ZeroMQ's Z85, no delimiters, no shortcuts. */
  const Z85: Alphabet := Alphabet(Z85Characters, Z85Values, None, None, None, None)

  /** Each built-in alphabet is what the checked initialiser builds from its characters, delimiters and shortcuts. */
  lemma BuiltInsChecked()
    ensures Checked(AsciiCharacters, None, None, None, None) == Success(Ascii)
    ensures Checked(AsciiCharacters, None, None, Some('z'), Some('y')) == Success(BtoaLike)
    ensures Checked(AsciiCharacters, Some("<~"), Some("~>"), Some('z'), None) == Success(AdobeAscii85)
    ensures Checked(Rfc1924Characters, None, None, None, None) == Success(Rfc1924Like)
    ensures Checked(Z85Characters, None, None, None, None) == Success(Z85)
  {
    AsciiChecked(None, None, None, None);
    AsciiChecked(None, None, Some('z'), Some('y'));
    AsciiChecked(Some("<~"), Some("~>"), Some('z'), None);
    Rfc1924Checked(None, None, None, None);
    Z85Checked(None, None, None, None);
  }

  /** Neither "z" nor "y" is one of the characters "!" to "u". */
  lemma AsciiExcludes()
    ensures 'z' !in AsciiCharacters && 'y' !in AsciiCharacters
  {
    assert AsciiValues['z' as int].None? && AsciiValues['y' as int].None?;
    AsciiInverts();
    NotInverted(AsciiCharacters, AsciiValues, 'z');
    NotInverted(AsciiCharacters, AsciiValues, 'y');
  }

  // ----- Round trips -----

  /** Every built-in alphabet decodes what it encodes. */
  lemma BuiltInRoundTrips(data: seq<byte>)
    ensures Decoded(Ascii, Encoded(Ascii, data)) == Success(data)
    ensures Decoded(BtoaLike, Encoded(BtoaLike, data)) == Success(data)
    ensures Decoded(AdobeAscii85, Encoded(AdobeAscii85, data)) == Success(data)
    ensures Decoded(Rfc1924Like, Encoded(Rfc1924Like, data)) == Success(data)
    ensures Decoded(Z85, Encoded(Z85, data)) == Success(data)
  {
    AsciiInverts();
    AsciiExcludes();
    RoundTrip(Ascii, data);
    RoundTrip(BtoaLike, data);
    RoundTrip(AdobeAscii85, data);
    Rfc1924Inverts();
    RoundTrip(Rfc1924Like, data);
    Z85Inverts();
    RoundTrip(Z85, data);
  }

  /** Without shortcuts, `ascii`, `rfc1924Like` and `z85` turn n > 0 bytes into ceil(5n / 4) characters. */
  lemma BuiltInLengths(data: seq<byte>)
    requires |data| > 0
    ensures |Encoded(Ascii, data)| == (5 * |data| + 3) / 4
    ensures |Encoded(Rfc1924Like, data)| == (5 * |data| + 3) / 4
    ensures |Encoded(Z85, data)| == (5 * |data| + 3) / 4
  {
    EncodedLength(Ascii, data);
    EncodedLength(Rfc1924Like, data);
    EncodedLength(Z85, data);
  }

  // ----- Examples of the test suite -----

  /** The table facts the round trip needs, for the characters "!" to "u". */
  lemma AsciiFits()
    ensures |AsciiCharacters| == 85 && Inverts(AsciiCharacters, AsciiValues)
    ensures 'z' !in AsciiCharacters && 'y' !in AsciiCharacters
  {
    AsciiInverts();
    AsciiExcludes();
  }

  /** The five characters for four zero bytes and for four spaces, in `btoaLike`. */
  lemma BtoaLikeGroups()
    ensures ZerosGroup(BtoaLike) == "!!!!!" && SpacesGroup(BtoaLike) == "+<VdL"
  {
    assert AsciiCharacters[0] == '!';
    assert AsciiCharacters[10] == '+' && AsciiCharacters[27] == '<' && AsciiCharacters[53] == 'V';
    assert AsciiCharacters[67] == 'd' && AsciiCharacters[43] == 'L';
  }

  /** The bytes of "ABCD". */
  const Abcd: seq<byte> := [0x41, 0x42, 0x43, 0x44]

  /** Group 0 of Abcd read as a 32-bit number, and its digits. */
  lemma AbcdWord0()
    ensures WordDigits(Word(0x41, 0x42, 0x43, 0x44)) == [20, 82, 67, 80, 11]
  {
    assert Word(0x41, 0x42, 0x43, 0x44) == 1_094_861_636;
  }

  /** The digits of Abcd, zero-filled to one whole group. */
  lemma AbcdDigits()
    ensures Digits(Padded(Abcd)) == [20, 82, 67, 80, 11]
  {
    assert Padded(Abcd) == [0x41, 0x42, 0x43, 0x44] by {
      assert FillCount(4, 4) == 0;
    }
    assert [] + [0x41, 0x42, 0x43, 0x44] == [0x41, 0x42, 0x43, 0x44];
    DigitsAppend([], [0x41, 0x42, 0x43, 0x44]);
    AbcdWord0();
  }

  /** Digits 0 to 4 of Abcd, written with the alphabet's characters. */
  lemma AbcdSpelled()
    ensures Spell(AsciiCharacters, [20, 82, 67, 80, 11]) == "5sdq,"
  {
    var s := Spell(AsciiCharacters, [20, 82, 67, 80, 11]);
    assert s[0] == '5' && s[1] == 's' && s[2] == 'd' && s[3] == 'q' && s[4] == ',';
  }

  /** Abcd is "5sdq," in `ascii`. */
  lemma AbcdEncoded()
    ensures Encoded(Ascii, Abcd) == "5sdq,"
  {
    AbcdDigits();
    AbcdSpelled();
    assert FillCount(4, 4) * 5 / 4 == 0;
    assert Kept(Ascii, Abcd) == "5sdq,";
    BodyPlain(Ascii, Abcd);
  }

  /** "5sdq," decodes to Abcd in `ascii`. */
  lemma AbcdDecoded()
    ensures Decoded(Ascii, "5sdq,") == Success(Abcd)
  {
    AbcdEncoded();
    AsciiFits();
    RoundTrip(Ascii, Abcd);
  }

  /** The bytes of "ABCD", four spaces, then "EFGHIJ". */
  const AbcdSpacesEfghij: seq<byte> := [0x41, 0x42, 0x43, 0x44, 0x20, 0x20, 0x20, 0x20, 0x45, 0x46, 0x47, 0x48, 0x49, 0x4A]

  /** Group 1 of AbcdSpacesEfghij read as a 32-bit number, and its digits. */
  lemma AbcdSpacesEfghijWord1()
    ensures WordDigits(Word(0x20, 0x20, 0x20, 0x20)) == [10, 27, 53, 67, 43]
  {
    assert Word(0x20, 0x20, 0x20, 0x20) == 538_976_288;
  }

  /** Group 2 of AbcdSpacesEfghij read as a 32-bit number, and its digits. */
  lemma AbcdSpacesEfghijWord2()
    ensures WordDigits(Word(0x45, 0x46, 0x47, 0x48)) == [22, 22, 42, 67, 27]
  {
    assert Word(0x45, 0x46, 0x47, 0x48) == 1_162_233_672;
  }

  /** Group 3 of AbcdSpacesEfghij read as a 32-bit number, and its digits. */
  lemma AbcdSpacesEfghijWord3()
    ensures WordDigits(Word(0x49, 0x4A, 0x00, 0x00)) == [23, 47, 14, 82, 62]
  {
    assert Word(0x49, 0x4A, 0x00, 0x00) == 1_229_586_432;
  }

  /** The digits of the first 1 group of AbcdSpacesEfghij. */
  lemma AbcdSpacesEfghijDigits0()
    ensures Digits([0x41, 0x42, 0x43, 0x44]) == [20, 82, 67, 80, 11]
  {
    assert [] + [0x41, 0x42, 0x43, 0x44] == [0x41, 0x42, 0x43, 0x44];
    DigitsAppend([], [0x41, 0x42, 0x43, 0x44]);
    AbcdWord0();
  }

  /** The digits of the first 2 groups of AbcdSpacesEfghij. */
  lemma AbcdSpacesEfghijDigits1()
    ensures Digits([0x41, 0x42, 0x43, 0x44] + [0x20, 0x20, 0x20, 0x20]) == [20, 82, 67, 80, 11] + [10, 27, 53, 67, 43]
  {
    AbcdSpacesEfghijDigits0();
    DigitsAppend([0x41, 0x42, 0x43, 0x44], [0x20, 0x20, 0x20, 0x20]);
    AbcdSpacesEfghijWord1();
  }

  /** The digits of the first 3 groups of AbcdSpacesEfghij. */
  lemma AbcdSpacesEfghijDigits2()
    ensures Digits([0x41, 0x42, 0x43, 0x44] + [0x20, 0x20, 0x20, 0x20] + [0x45, 0x46, 0x47, 0x48]) == [20, 82, 67, 80, 11] + [10, 27, 53, 67, 43] + [22, 22, 42, 67, 27]
  {
    AbcdSpacesEfghijDigits1();
    DigitsAppend([0x41, 0x42, 0x43, 0x44] + [0x20, 0x20, 0x20, 0x20], [0x45, 0x46, 0x47, 0x48]);
    AbcdSpacesEfghijWord2();
  }

  /** The digits of AbcdSpacesEfghij, zero-filled to 4 whole groups. */
  lemma AbcdSpacesEfghijDigits()
    ensures Digits(Padded(AbcdSpacesEfghij)) == [20, 82, 67, 80, 11] + [10, 27, 53, 67, 43] + [22, 22, 42, 67, 27] + [23, 47, 14, 82, 62]
  {
    assert Padded(AbcdSpacesEfghij) == [0x41, 0x42, 0x43, 0x44] + [0x20, 0x20, 0x20, 0x20] + [0x45, 0x46, 0x47, 0x48] + [0x49, 0x4A, 0x00, 0x00] by {
      assert FillCount(14, 4) == 2;
    }
    AbcdSpacesEfghijDigits2();
    DigitsAppend([0x41, 0x42, 0x43, 0x44] + [0x20, 0x20, 0x20, 0x20] + [0x45, 0x46, 0x47, 0x48], [0x49, 0x4A, 0x00, 0x00]);
    AbcdSpacesEfghijWord3();
  }

  /** Digits 5 to 9 of AbcdSpacesEfghij, written with the alphabet's characters. */
  lemma AbcdSpacesEfghijSpelled1()
    ensures Spell(AsciiCharacters, [10, 27, 53, 67, 43]) == "+<VdL"
  {
    var s := Spell(AsciiCharacters, [10, 27, 53, 67, 43]);
    assert s[0] == '+' && s[1] == '<' && s[2] == 'V' && s[3] == 'd' && s[4] == 'L';
  }

  /** Digits 10 to 14 of AbcdSpacesEfghij, written with the alphabet's characters. */
  lemma AbcdSpacesEfghijSpelled2()
    ensures Spell(AsciiCharacters, [22, 22, 42, 67, 27]) == "77Kd<"
  {
    var s := Spell(AsciiCharacters, [22, 22, 42, 67, 27]);
    assert s[0] == '7' && s[1] == '7' && s[2] == 'K' && s[3] == 'd' && s[4] == '<';
  }

  /** Digits 15 to 19 of AbcdSpacesEfghij, written with the alphabet's characters. */
  lemma AbcdSpacesEfghijSpelled3()
    ensures Spell(AsciiCharacters, [23, 47, 14, 82, 62]) == "8P/s_"
  {
    var s := Spell(AsciiCharacters, [23, 47, 14, 82, 62]);
    assert s[0] == '8' && s[1] == 'P' && s[2] == '/' && s[3] == 's' && s[4] == '_';
  }

  /** All the digits of AbcdSpacesEfghij, written with the alphabet's characters. */
  lemma AbcdSpacesEfghijSpelled()
    ensures Spell(AsciiCharacters, [20, 82, 67, 80, 11] + [10, 27, 53, 67, 43] + [22, 22, 42, 67, 27] + [23, 47, 14, 82, 62]) == "5sdq," + "+<VdL" + "77Kd<" + "8P/s_"
  {
    AbcdSpelled();
    AbcdSpacesEfghijSpelled1();
    AbcdSpacesEfghijSpelled2();
    AbcdSpacesEfghijSpelled3();
    SpellAppend(AsciiCharacters, [20, 82, 67, 80, 11], [10, 27, 53, 67, 43]);
    SpellAppend(AsciiCharacters, [20, 82, 67, 80, 11] + [10, 27, 53, 67, 43], [22, 22, 42, 67, 27]);
    SpellAppend(AsciiCharacters, [20, 82, 67, 80, 11] + [10, 27, 53, 67, 43] + [22, 22, 42, 67, 27], [23, 47, 14, 82, 62]);
  }

  /** AbcdSpacesEfghij is "5sdq,y77Kd<8P/" in `btoaLike`. */
  lemma AbcdSpacesEfghijEncoded()
    ensures Encoded(BtoaLike, AbcdSpacesEfghij) == "5sdq,y77Kd<8P/"
  {
    AbcdSpacesEfghijKept();
    AbcdSpacesEfghijChunks();
    BtoaLikeGroups();
    AbcdSpacesEfghijShortened(BtoaLike);
    assert Body(BtoaLike, AbcdSpacesEfghij) == "5sdq,y77Kd<8P/";
  }

  /** The characters of AbcdSpacesEfghij that `btoaLike` keeps once the filler is dropped. */
  lemma AbcdSpacesEfghijKept()
    ensures Kept(BtoaLike, AbcdSpacesEfghij) == "5sdq,+<VdL77Kd<8P/"
  {
    AbcdSpacesEfghijDigits();
    AbcdSpacesEfghijSpelled();
    assert FillCount(14, 4) * 5 / 4 == 2;
    assert ("5sdq," + "+<VdL" + "77Kd<" + "8P/s_")[..18] == "5sdq,+<VdL77Kd<8P/";
  }

  /** The kept characters of AbcdSpacesEfghij in groups of five. */
  lemma AbcdSpacesEfghijChunks()
    ensures Chunked("5sdq,+<VdL77Kd<8P/", 5) == ["5sdq,", "+<VdL", "77Kd<", "8P/"]
  {
    assert "5sdq,+<VdL77Kd<8P/"[..5] == "5sdq," && "5sdq,+<VdL77Kd<8P/"[5..] == "+<VdL77Kd<8P/";
    assert "+<VdL77Kd<8P/"[..5] == "+<VdL" && "+<VdL77Kd<8P/"[5..] == "77Kd<8P/";
    assert "77Kd<8P/"[..5] == "77Kd<" && "77Kd<8P/"[5..] == "8P/";
    assert Chunked("5sdq,+<VdL77Kd<8P/", 5) == ["5sdq,"] + Chunked("+<VdL77Kd<8P/", 5);
    assert Chunked("+<VdL77Kd<8P/", 5) == ["+<VdL"] + Chunked("77Kd<8P/", 5);
    assert Chunked("77Kd<8P/", 5) == ["77Kd<"] + Chunked("8P/", 5);
    assert Chunked("8P/", 5) == ["8P/"];
  }

  /**
   * With the shortcuts of `btoaLike`, the group of four spaces becomes "y"
   * and no other group of AbcdSpacesEfghij changes.
   */
  lemma AbcdSpacesEfghijShortened(a: Alphabet)
    requires |a.characters| >= 85 && a.fourZeros == Some('z') && a.fourSpaces == Some('y')
    requires ZerosGroup(a) == "!!!!!" && SpacesGroup(a) == "+<VdL"
    ensures Shortened(a, ["5sdq,", "+<VdL", "77Kd<", "8P/"]) == "5sdq,y77Kd<8P/"
  {
    assert ["5sdq,", "+<VdL", "77Kd<", "8P/"][1..] == ["+<VdL", "77Kd<", "8P/"];
    assert ["+<VdL", "77Kd<", "8P/"][1..] == ["77Kd<", "8P/"];
    assert ["77Kd<", "8P/"][1..] == ["8P/"];
    assert ["8P/"][1..] == [];
  }

  /** "5sdq,y77Kd<8P/" decodes to AbcdSpacesEfghij in `btoaLike`. */
  lemma AbcdSpacesEfghijDecoded()
    ensures Decoded(BtoaLike, "5sdq,y77Kd<8P/") == Success(AbcdSpacesEfghij)
  {
    AbcdSpacesEfghijEncoded();
    AsciiFits();
    RoundTrip(BtoaLike, AbcdSpacesEfghij);
  }

  /** Four zero bytes, then a one. */
  const ZerosThenOne: seq<byte> := [0x00, 0x00, 0x00, 0x00, 0x01]

  /** Group 1 of ZerosThenOne read as a 32-bit number, and its digits. */
  lemma ZerosThenOneWord1()
    ensures WordDigits(Word(0x01, 0x00, 0x00, 0x00)) == [0, 27, 27, 9, 1]
  {
    assert Word(0x01, 0x00, 0x00, 0x00) == 16_777_216;
  }

  /** The digits of ZerosThenOne, zero-filled to 2 whole groups. */
  lemma ZerosThenOneDigits()
    ensures Digits(Padded(ZerosThenOne)) == WordDigits(0) + WordDigits(Word(0x01, 0x00, 0x00, 0x00))
  {
    var g0: seq<byte> := [0x00, 0x00, 0x00, 0x00];
    var g1: seq<byte> := [0x01, 0x00, 0x00, 0x00];
    calc {
      Digits(Padded(ZerosThenOne));
      { assert FillCount(5, 4) == 3; assert Padded(ZerosThenOne) == g0 + g1; }
      Digits(g0 + g1);
      { DigitsAppend(g0, g1); }
      Digits(g0) + WordDigits(Word(0x01, 0x00, 0x00, 0x00));
      { ZeroGroupDigits(); }
      WordDigits(0) + WordDigits(Word(0x01, 0x00, 0x00, 0x00));
    }
  }

  /** Digits 0 to 4 of ZerosThenOne, written with the alphabet's characters. */
  lemma ZerosSpelled()
    ensures Spell(AsciiCharacters, [0, 0, 0, 0, 0]) == "!!!!!"
  {
    var s := Spell(AsciiCharacters, [0, 0, 0, 0, 0]);
    assert s[0] == '!' && s[1] == '!' && s[2] == '!' && s[3] == '!' && s[4] == '!';
  }

  /** Digits 5 to 9 of ZerosThenOne, written with the alphabet's characters. */
  lemma ZerosThenOneSpelled1()
    ensures Spell(AsciiCharacters, [0, 27, 27, 9, 1]) == "!<<*\""
  {
    var s := Spell(AsciiCharacters, [0, 27, 27, 9, 1]);
    assert s[0] == '!' && s[1] == '<' && s[2] == '<' && s[3] == '*' && s[4] == '\"';
  }

  /** All the digits of ZerosThenOne, written with the alphabet's characters. */
  lemma ZerosThenOneSpelled()
    ensures Spell(AsciiCharacters, [0, 0, 0, 0, 0] + [0, 27, 27, 9, 1]) == "!!!!!" + "!<<*\""
  {
    ZerosSpelled();
    ZerosThenOneSpelled1();
    SpellAppend(AsciiCharacters, [0, 0, 0, 0, 0], [0, 27, 27, 9, 1]);
  }

  /** ZerosThenOne is "z!<" in `btoaLike`. */
  lemma ZerosThenOneEncoded()
    ensures Encoded(BtoaLike, ZerosThenOne) == "z!<"
  {
    ZerosThenOneDigits();
    ShortcutDigits();
    ZerosThenOneWord1();
    ZerosThenOneSpelled();
    assert FillCount(5, 4) * 5 / 4 == 3;
    assert ("!!!!!" + "!<<*\"")[..7] == "!!!!!!<";
    assert Kept(BtoaLike, ZerosThenOne) == "!!!!!!<";
    BtoaLikeGroups();
    assert "!!!!!!<"[..5] == "!!!!!" && "!!!!!!<"[5..] == "!<";
    assert Chunked("!!!!!!<", 5) == ["!!!!!"] + Chunked("!<", 5);
    assert Chunked("!<", 5) == ["!<"];
    assert Chunked("!!!!!!<", 5) == ["!!!!!", "!<"];
    assert Shortcut(BtoaLike, "!!!!!") == "z";
    assert Shortcut(BtoaLike, "!<") == "!<";
    assert ["!!!!!", "!<"][1..] == ["!<"];
    assert ["!<"][1..] == [];
    assert Shortened(BtoaLike, ["!!!!!", "!<"]) == "z!<";
    assert Body(BtoaLike, ZerosThenOne) == "z!<";
  }

  /** "z!<" decodes to ZerosThenOne in `btoaLike`. */
  lemma ZerosThenOneDecoded()
    ensures Decoded(BtoaLike, "z!<") == Success(ZerosThenOne)
  {
    ZerosThenOneEncoded();
    AsciiFits();
    RoundTrip(BtoaLike, ZerosThenOne);
  }

  /** Eight zero bytes. */
  const EightZeros: seq<byte> := [0x00, 0x00, 0x00, 0x00, 0x00, 0x00, 0x00, 0x00]


  /** The digits of EightZeros, zero-filled to 2 whole groups: the second group adds the digits of 0. */
  lemma EightZerosDigits()
    ensures Digits(Padded(EightZeros)) == Digits([0, 0, 0, 0]) + WordDigits(0)
  {
    var g: seq<byte> := [0, 0, 0, 0];
    assert Padded(EightZeros) == g + g by {
      assert FillCount(8, 4) == 0;
    }
    DigitsZeros(g, g);
  }

  /** All the digits of EightZeros, written with the alphabet's characters. */
  lemma EightZerosSpelled()
    ensures Spell(AsciiCharacters, [0, 0, 0, 0, 0] + [0, 0, 0, 0, 0]) == "!!!!!" + "!!!!!"
  {
    ZerosSpelled();
    ZerosSpelled();
    SpellAppend(AsciiCharacters, [0, 0, 0, 0, 0], [0, 0, 0, 0, 0]);
  }

  /** EightZeros is "z!!!!!" in `btoaLike`. */
  lemma EightZerosEncoded()
    ensures Encoded(BtoaLike, EightZeros) == "z!!!!!"
  {
    assert Digits(Padded(EightZeros)) == WordDigits(0) + WordDigits(0) by {
      EightZerosDigits();
      ZeroGroupDigits();
    }
    ShortcutDigits();
    EightZerosSpelled();
    assert FillCount(8, 4) * 5 / 4 == 0;
    assert "!!!!!" + "!!!!!" == "!!!!!!!!!!";
    assert Kept(BtoaLike, EightZeros) == "!!!!!!!!!!";
    BtoaLikeGroups();
    assert "!!!!!!!!!!"[..5] == "!!!!!" && "!!!!!!!!!!"[5..] == "!!!!!";
    assert Chunked("!!!!!!!!!!", 5) == ["!!!!!"] + Chunked("!!!!!", 5);
    assert Chunked("!!!!!", 5) == ["!!!!!"];
    assert Chunked("!!!!!!!!!!", 5) == ["!!!!!", "!!!!!"];
    assert Shortcut(BtoaLike, "!!!!!") == "z";
    assert Shortcut(BtoaLike, "!!!!!") == "z";
    assert ["!!!!!", "!!!!!"][1..] == ["!!!!!"];
    assert ["!!!!!"][1..] == [];
    assert Shortened(BtoaLike, ["!!!!!", "!!!!!"]) == "zz";
    assert "zz"[..1] + "!!!!!" == "z!!!!!";
    assert Body(BtoaLike, EightZeros) == "z!!!!!";
  }

  /** "z!!!!!" decodes to EightZeros in `btoaLike`. */
  lemma EightZerosDecoded()
    ensures Decoded(BtoaLike, "z!!!!!") == Success(EightZeros)
  {
    EightZerosEncoded();
    AsciiFits();
    RoundTrip(BtoaLike, EightZeros);
  }

  /** The sixteen bytes of the `rfc1924Like` example. */
  const Rfc1924Sample: seq<byte> := [0x10, 0x80, 0x00, 0x00, 0x00, 0x00, 0x00, 0x00, 0x00, 0x08, 0x08, 0x00, 0x20, 0x0C, 0x41, 0x7A]

  /** Group 0 of Rfc1924Sample read as a 32-bit number, and its digits. */
  lemma Rfc1924SampleWord0()
    ensures WordDigits(Word(0x10, 0x80, 0x00, 0x00)) == [5, 25, 64, 63, 59]
  {
    assert Word(0x10, 0x80, 0x00, 0x00) == 276_824_064;
  }

  /** Group 2 of Rfc1924Sample read as a 32-bit number, and its digits. */
  lemma Rfc1924SampleWord2()
    ensures WordDigits(Word(0x00, 0x08, 0x08, 0x00)) == [0, 0, 72, 72, 16]
  {
    assert Word(0x00, 0x08, 0x08, 0x00) == 526_336;
  }

  /** Group 3 of Rfc1924Sample read as a 32-bit number, and its digits. */
  lemma Rfc1924SampleWord3()
    ensures WordDigits(Word(0x20, 0x0C, 0x41, 0x7A)) == [10, 25, 43, 47, 61]
  {
    assert Word(0x20, 0x0C, 0x41, 0x7A) == 537_674_106;
  }

  /** The digits of the first 1 group of Rfc1924Sample. */
  lemma Rfc1924SampleDigits0()
    ensures Digits([0x10, 0x80, 0x00, 0x00]) == WordDigits(Word(0x10, 0x80, 0x00, 0x00))
  {
    assert [] + [0x10, 0x80, 0x00, 0x00] == [0x10, 0x80, 0x00, 0x00];
    DigitsAppend([], [0x10, 0x80, 0x00, 0x00]);
  }

  /** The digits of the first 2 groups of Rfc1924Sample. */
  lemma Rfc1924SampleDigits1()
    ensures Digits([0x10, 0x80, 0x00, 0x00] + [0x00, 0x00, 0x00, 0x00]) == WordDigits(Word(0x10, 0x80, 0x00, 0x00)) + WordDigits(0)
  {
    Rfc1924SampleDigits0();
    DigitsZeros([0x10, 0x80, 0x00, 0x00], [0x00, 0x00, 0x00, 0x00]);
  }

  /** The digits of the first 3 groups of Rfc1924Sample. */
  lemma Rfc1924SampleDigits2()
    ensures Digits([0x10, 0x80, 0x00, 0x00] + [0x00, 0x00, 0x00, 0x00] + [0x00, 0x08, 0x08, 0x00]) == WordDigits(Word(0x10, 0x80, 0x00, 0x00)) + WordDigits(0) + WordDigits(Word(0x00, 0x08, 0x08, 0x00))
  {
    Rfc1924SampleDigits1();
    DigitsAppend([0x10, 0x80, 0x00, 0x00] + [0x00, 0x00, 0x00, 0x00], [0x00, 0x08, 0x08, 0x00]);
  }

  /** The digits of Rfc1924Sample, zero-filled to 4 whole groups. */
  lemma Rfc1924SampleDigits()
    ensures Digits(Padded(Rfc1924Sample)) == WordDigits(Word(0x10, 0x80, 0x00, 0x00)) + WordDigits(0) + WordDigits(Word(0x00, 0x08, 0x08, 0x00)) + WordDigits(Word(0x20, 0x0C, 0x41, 0x7A))
  {
    assert Padded(Rfc1924Sample) == [0x10, 0x80, 0x00, 0x00] + [0x00, 0x00, 0x00, 0x00] + [0x00, 0x08, 0x08, 0x00] + [0x20, 0x0C, 0x41, 0x7A] by {
      assert FillCount(16, 4) == 0;
    }
    Rfc1924SampleDigits2();
    DigitsAppend([0x10, 0x80, 0x00, 0x00] + [0x00, 0x00, 0x00, 0x00] + [0x00, 0x08, 0x08, 0x00], [0x20, 0x0C, 0x41, 0x7A]);
  }

  /** Digits 0 to 4 of Rfc1924Sample, written with the alphabet's characters. */
  lemma Rfc1924SampleSpelled0()
    ensures Spell(Rfc1924Characters, [5, 25, 64, 63, 59]) == "5P$#x"
  {
    var s := Spell(Rfc1924Characters, [5, 25, 64, 63, 59]);
    assert s[0] == '5' && s[1] == 'P' && s[2] == '$' && s[3] == '#' && s[4] == 'x';
  }

  /** Digits 5 to 9 of Rfc1924Sample, written with the alphabet's characters. */
  lemma Rfc1924SampleSpelled1()
    ensures Spell(Rfc1924Characters, [0, 0, 0, 0, 0]) == "00000"
  {
    var s := Spell(Rfc1924Characters, [0, 0, 0, 0, 0]);
    assert s[0] == '0' && s[1] == '0' && s[2] == '0' && s[3] == '0' && s[4] == '0';
  }

  /** Digits 10 to 14 of Rfc1924Sample, written with the alphabet's characters. */
  lemma Rfc1924SampleSpelled2()
    ensures Spell(Rfc1924Characters, [0, 0, 72, 72, 16]) == "00;;G"
  {
    var s := Spell(Rfc1924Characters, [0, 0, 72, 72, 16]);
    assert s[0] == '0' && s[1] == '0' && s[2] == ';' && s[3] == ';' && s[4] == 'G';
  }

  /** Digits 15 to 19 of Rfc1924Sample, written with the alphabet's characters. */
  lemma Rfc1924SampleSpelled3()
    ensures Spell(Rfc1924Characters, [10, 25, 43, 47, 61]) == "APhlz"
  {
    var s := Spell(Rfc1924Characters, [10, 25, 43, 47, 61]);
    assert s[0] == 'A' && s[1] == 'P' && s[2] == 'h' && s[3] == 'l' && s[4] == 'z';
  }

  /** All the digits of Rfc1924Sample, written with the alphabet's characters. */
  lemma Rfc1924SampleSpelled()
    ensures Spell(Rfc1924Characters, [5, 25, 64, 63, 59] + [0, 0, 0, 0, 0] + [0, 0, 72, 72, 16] + [10, 25, 43, 47, 61]) == "5P$#x" + "00000" + "00;;G" + "APhlz"
  {
    Rfc1924SampleSpelled0();
    Rfc1924SampleSpelled1();
    Rfc1924SampleSpelled2();
    Rfc1924SampleSpelled3();
    SpellAppend(Rfc1924Characters, [5, 25, 64, 63, 59], [0, 0, 0, 0, 0]);
    SpellAppend(Rfc1924Characters, [5, 25, 64, 63, 59] + [0, 0, 0, 0, 0], [0, 0, 72, 72, 16]);
    SpellAppend(Rfc1924Characters, [5, 25, 64, 63, 59] + [0, 0, 0, 0, 0] + [0, 0, 72, 72, 16], [10, 25, 43, 47, 61]);
  }

  /** Rfc1924Sample is "5P$#x0000000;;GAPhlz" in `rfc1924Like`. */
  lemma Rfc1924SampleEncoded()
    ensures Encoded(Rfc1924Like, Rfc1924Sample) == "5P$#x0000000;;GAPhlz"
  {
    Rfc1924SampleDigits();
    ShortcutDigits();
    Rfc1924SampleWord0();
    Rfc1924SampleWord2();
    Rfc1924SampleWord3();
    Rfc1924SampleSpelled();
    assert FillCount(16, 4) * 5 / 4 == 0;
    assert "5P$#x" + "00000" + "00;;G" + "APhlz" == "5P$#x0000000;;GAPhlz";
    assert Kept(Rfc1924Like, Rfc1924Sample) == "5P$#x0000000;;GAPhlz";
    BodyPlain(Rfc1924Like, Rfc1924Sample);
  }

  /** "5P$#x0000000;;GAPhlz" decodes to Rfc1924Sample in `rfc1924Like`. */
  lemma Rfc1924SampleDecoded()
    ensures Decoded(Rfc1924Like, "5P$#x0000000;;GAPhlz") == Success(Rfc1924Sample)
  {
    Rfc1924SampleEncoded();
    Rfc1924Inverts();
    RoundTrip(Rfc1924Like, Rfc1924Sample);
  }

  /** The eight bytes that spell "HelloWorld" in Z85. */
  const HelloWorld: seq<byte> := [0x86, 0x4F, 0xD2, 0x6F, 0xB5, 0x59, 0xF7, 0x5B]

  /** Group 0 of HelloWorld read as a 32-bit number, and its digits. */
  lemma HelloWorldWord0()
    ensures WordDigits(Word(0x86, 0x4F, 0xD2, 0x6F)) == [43, 14, 21, 21, 24]
  {
    assert Word(0x86, 0x4F, 0xD2, 0x6F) == 2_253_378_159;
  }

  /** Group 1 of HelloWorld read as a 32-bit number, and its digits. */
  lemma HelloWorldWord1()
    ensures WordDigits(Word(0xB5, 0x59, 0xF7, 0x5B)) == [58, 24, 27, 21, 13]
  {
    assert Word(0xB5, 0x59, 0xF7, 0x5B) == 3_042_572_123;
  }

  /** The digits of the first 1 group of HelloWorld. */
  lemma HelloWorldDigits0()
    ensures Digits([0x86, 0x4F, 0xD2, 0x6F]) == [43, 14, 21, 21, 24]
  {
    assert [] + [0x86, 0x4F, 0xD2, 0x6F] == [0x86, 0x4F, 0xD2, 0x6F];
    DigitsAppend([], [0x86, 0x4F, 0xD2, 0x6F]);
    HelloWorldWord0();
  }

  /** The digits of HelloWorld, zero-filled to 2 whole groups. */
  lemma HelloWorldDigits()
    ensures Digits(Padded(HelloWorld)) == [43, 14, 21, 21, 24] + [58, 24, 27, 21, 13]
  {
    assert Padded(HelloWorld) == [0x86, 0x4F, 0xD2, 0x6F] + [0xB5, 0x59, 0xF7, 0x5B] by {
      assert FillCount(8, 4) == 0;
    }
    HelloWorldDigits0();
    DigitsAppend([0x86, 0x4F, 0xD2, 0x6F], [0xB5, 0x59, 0xF7, 0x5B]);
    HelloWorldWord1();
  }

  /** Digits 0 to 4 of HelloWorld, written with the alphabet's characters. */
  lemma HelloWorldSpelled0()
    ensures Spell(Z85Characters, [43, 14, 21, 21, 24]) == "Hello"
  {
    var s := Spell(Z85Characters, [43, 14, 21, 21, 24]);
    assert s[0] == 'H' && s[1] == 'e' && s[2] == 'l' && s[3] == 'l' && s[4] == 'o';
  }

  /** Digits 5 to 9 of HelloWorld, written with the alphabet's characters. */
  lemma HelloWorldSpelled1()
    ensures Spell(Z85Characters, [58, 24, 27, 21, 13]) == "World"
  {
    var s := Spell(Z85Characters, [58, 24, 27, 21, 13]);
    assert s[0] == 'W' && s[1] == 'o' && s[2] == 'r' && s[3] == 'l' && s[4] == 'd';
  }

  /** All the digits of HelloWorld, written with the alphabet's characters. */
  lemma HelloWorldSpelled()
    ensures Spell(Z85Characters, [43, 14, 21, 21, 24] + [58, 24, 27, 21, 13]) == "Hello" + "World"
  {
    HelloWorldSpelled0();
    HelloWorldSpelled1();
    SpellAppend(Z85Characters, [43, 14, 21, 21, 24], [58, 24, 27, 21, 13]);
  }

  /** HelloWorld is "HelloWorld" in `z85`. */
  lemma HelloWorldEncoded()
    ensures Encoded(Z85, HelloWorld) == "HelloWorld"
  {
    HelloWorldDigits();
    HelloWorldSpelled();
    assert FillCount(8, 4) * 5 / 4 == 0;
    assert "Hello" + "World" == "HelloWorld";
    assert Kept(Z85, HelloWorld) == "HelloWorld";
    BodyPlain(Z85, HelloWorld);
  }

  /** "HelloWorld" decodes to HelloWorld in `z85`. */
  lemma HelloWorldDecoded()
    ensures Decoded(Z85, "HelloWorld") == Success(HelloWorld)
  {
    HelloWorldEncoded();
    Z85Inverts();
    RoundTrip(Z85, HelloWorld);
  }

  /** The empty input encodes to the empty text in `btoaLike`, and back. */
  lemma BtoaLikeEmpty()
    ensures Encoded(BtoaLike, []) == [] && Decoded(BtoaLike, "") == Success([])
  {
  }

  // ----- Errors -----

  /** `ascii` rejects "¡" as not ASCII and "w" as not in the alphabet. */
  lemma DecodingErrors()
    ensures Decoded(Ascii, "¡") == Failure(Thrown(NonAsciiCharacters))
    ensures Decoded(Ascii, "w") == Failure(Thrown(ValuesNotInAlphabet))
  {
    assert !IsAscii("¡"[0]) && AsciiValues['w' as int].None?;
    assert Expanded(Ascii, Undelimited(Ascii, "¡")) == "¡" && Expanded(Ascii, Undelimited(Ascii, "w")) == "w";
    DecodedFirstError(Ascii, "¡", 0);
    DecodedFirstError(Ascii, "w", 0);
  }

  /** No characters is the wrong number; 85 copies of "¡" have no ASCII value. */
  lemma AlphabetErrors()
    ensures Checked([], None, None, None, None) == Failure(WrongNumberOfCharacters)
    ensures Checked(Repeat('¡', 85), None, None, None, None) == Failure(NoAsciiValue)
  {
    assert !IsAscii(Repeat('¡', 85)[0]);
  }

  /** "uuuuu" stands for 85^5 - 1, which does not fit in 32 bits: decoding it overflows. */
  lemma AsciiOverflow()
    ensures Decoded(Ascii, "uuuuu") == Failure(Overflow)
  {
    AsciiLookupU();
    assert Expanded(Ascii, Undelimited(Ascii, "uuuuu")) == "uuuuu";
    assert FillCount(5, 5) == 0;
    assert "uuuuu" + Repeat('u', 0) == "uuuuu";
    AsciiLargestGroup();
  }

  /** In `ascii`, "u" has the value 84. */
  lemma AsciiLookupU()
    ensures Lookup(AsciiValues, "uuuuu") == Success([84, 84, 84, 84, 84])
  {
    assert AsciiValues['u' as int] == Some(84);
    LookupRepeated(AsciiValues, 'u', 84, 5);
    assert Repeat('u', 5) == "uuuuu";
    assert Repeat(84 as byte, 5) == [84, 84, 84, 84, 84];
  }

  /** Five digits 84 stand for 85^5 - 1, past the largest 32-bit number. */
  lemma AsciiLargestGroup()
    ensures GroupsBytes([84, 84, 84, 84, 84]) == Failure(Overflow)
  {
    var values: seq<byte> := [84, 84, 84, 84, 84];
    assert values[5 - 5..] == values;
    assert Number(values) == 4_437_053_124;
  }
}
