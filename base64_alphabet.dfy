/**
 * The built-in Base-64 alphabets of Sources/Bases/Base64+Alphabet.swift,
 * each written out as its characters and its 128-entry value table, and
 * proved equal to what the checked initialiser builds; with them, the test
 * vectors of section 10 of RFC 4648 and the examples of the test suite.
 */
module Base64Alphabets {

  import opened Wrappers
  import opened Bits
  import opened Text
  import opened Errors
  import opened AlphabetTables
  import opened CollectionExtensions
  import opened LineSeparators
  import opened Base64
  import opened TestVectors

  // ----- the tables of `standard`, which `utf7`, `mime` and `mime(lineLength:)` repeat -----

  const StandardCharacters: seq<char> :=
    (("ABCDEFGHIJKLMNOP" +
    "QRSTUVWXYZabcdef") +
    ("ghijklmnopqrstuv" +
    "wxyz0123456789+/"))
  const StandardValues: seq<Option<byte>> :=
    (((([None, None, None, None, None, None, None, None] +
    [None, None, None, None, None, None, None, None]) +
    ([None, None, None, None, None, None, None, None] +
    [None, None, None, None, None, None, None, None])) +
    (([None, None, None, None, None, None, None, None] +
    [None, None, None, Some(62), None, None, None, Some(63)]) +
    ([Some(52), Some(53), Some(54), Some(55), Some(56), Some(57), Some(58), Some(59)] +
    [Some(60), Some(61), None, None, None, None, None, None]))) +
    ((([None, Some(0), Some(1), Some(2), Some(3), Some(4), Some(5), Some(6)] +
    [Some(7), Some(8), Some(9), Some(10), Some(11), Some(12), Some(13), Some(14)]) +
    ([Some(15), Some(16), Some(17), Some(18), Some(19), Some(20), Some(21), Some(22)] +
    [Some(23), Some(24), Some(25), None, None, None, None, None])) +
    (([None, Some(26), Some(27), Some(28), Some(29), Some(30), Some(31), Some(32)] +
    [Some(33), Some(34), Some(35), Some(36), Some(37), Some(38), Some(39), Some(40)]) +
    ([Some(41), Some(42), Some(43), Some(44), Some(45), Some(46), Some(47), Some(48)] +
    [Some(49), Some(50), Some(51), None, None, None, None, None]))))

  /** The table sends each of the characters for 0 to 15 back to its index. */
  lemma StandardInverts0()
    ensures forall v :: 0 <= v < 16 ==> IsAscii(StandardCharacters[v]) && StandardValues[StandardCharacters[v] as int] == Some(v)
  {
    forall v | 0 <= v < 16
      ensures IsAscii(StandardCharacters[v]) && StandardValues[StandardCharacters[v] as int] == Some(v)
    {
      Enumerate16(v, 0);
    }
  }

  /** The table sends each of the characters for 16 to 31 back to its index. */
  lemma StandardInverts16()
    ensures forall v :: 16 <= v < 32 ==> IsAscii(StandardCharacters[v]) && StandardValues[StandardCharacters[v] as int] == Some(v)
  {
    forall v | 16 <= v < 32
      ensures IsAscii(StandardCharacters[v]) && StandardValues[StandardCharacters[v] as int] == Some(v)
    {
      Enumerate16(v, 16);
    }
  }

  /** The table sends each of the characters for 32 to 47 back to its index. */
  lemma StandardInverts32()
    ensures forall v :: 32 <= v < 48 ==> IsAscii(StandardCharacters[v]) && StandardValues[StandardCharacters[v] as int] == Some(v)
  {
    forall v | 32 <= v < 48
      ensures IsAscii(StandardCharacters[v]) && StandardValues[StandardCharacters[v] as int] == Some(v)
    {
      Enumerate16(v, 32);
    }
  }

  /** The table sends each of the characters for 48 to 63 back to its index. */
  lemma StandardInverts48()
    ensures forall v :: 48 <= v < 64 ==> IsAscii(StandardCharacters[v]) && StandardValues[StandardCharacters[v] as int] == Some(v)
  {
    forall v | 48 <= v < 64
      ensures IsAscii(StandardCharacters[v]) && StandardValues[StandardCharacters[v] as int] == Some(v)
    {
      Enumerate16(v, 48);
    }
  }

  /** The table sends every character back to its index. */
  lemma StandardInverts()
    ensures Inverts(StandardCharacters, StandardValues)
  {
    StandardInverts0();
    StandardInverts16();
    StandardInverts32();
    StandardInverts48();
    InvertsByQuarters(StandardCharacters, StandardValues);
  }

  /** No control code has an entry. */
  lemma StandardOnlyCharacters0()
    ensures OnlyCharactersBetween(StandardCharacters, StandardValues, 0, 32)
  {
    forall c | 0 <= c < 32
      ensures StandardValues[c].None?
    {
      Enumerate32(c, 0);
    }
  }

  /** The entries for the codes 32 to 63 name characters with those codes. */
  lemma StandardOnlyCharacters32()
    ensures OnlyCharactersBetween(StandardCharacters, StandardValues, 32, 64)
  {
    forall c | 32 <= c < 64 && StandardValues[c].Some?
      ensures StandardValues[c].value < 64 && StandardCharacters[StandardValues[c].value] as int == c
    {
      Enumerate32(c, 32);
    }
  }

  /** The entries for the codes 64 to 95 name characters with those codes. */
  lemma StandardOnlyCharacters64()
    ensures OnlyCharactersBetween(StandardCharacters, StandardValues, 64, 96)
  {
    forall c | 64 <= c < 96 && StandardValues[c].Some?
      ensures StandardValues[c].value < 64 && StandardCharacters[StandardValues[c].value] as int == c
    {
      Enumerate32(c, 64);
    }
  }

  /** The entries for the codes 96 to 127 name characters with those codes. */
  lemma StandardOnlyCharacters96()
    ensures OnlyCharactersBetween(StandardCharacters, StandardValues, 96, 128)
  {
    forall c | 96 <= c < 128 && StandardValues[c].Some?
      ensures StandardValues[c].value < 64 && StandardCharacters[StandardValues[c].value] as int == c
    {
      Enumerate32(c, 96);
    }
  }

  /** Every entry of the table names the character with that code. */
  lemma StandardOnlyCharacters()
    ensures OnlyCharacters(StandardCharacters, StandardValues)
  {
    StandardOnlyCharacters0();
    StandardOnlyCharacters32();
    StandardOnlyCharacters64();
    StandardOnlyCharacters96();
    OnlyCharactersByQuarters(StandardCharacters, StandardValues);
  }

  /** The checked initialiser builds this table from these characters, whatever the padding and separator. */
  lemma StandardChecked(padding: Option<char>, lineSeparator: Option<LineSeparator>)
    ensures Checked(StandardCharacters, padding, lineSeparator) == Success(Alphabet(StandardCharacters, StandardValues, padding, lineSeparator))
  {
    StandardInverts();
    StandardOnlyCharacters();
    ValueTableIs(StandardCharacters, StandardValues);
  }

  /** Neither '=' nor a carriage return is one of the characters. */
  lemma StandardExcludes()
    ensures '=' !in StandardCharacters && '\r' !in StandardCharacters
  {
    assert StandardValues['=' as int].None? && StandardValues['\r' as int].None?;
    StandardInverts();
    NotInverted(StandardCharacters, StandardValues, '=');
    NotInverted(StandardCharacters, StandardValues, '\r');
  }

  // ----- the tables of `base64url` -----

  const Base64urlCharacters: seq<char> :=
    (("ABCDEFGHIJKLMNOP" +
    "QRSTUVWXYZabcdef") +
    ("ghijklmnopqrstuv" +
    "wxyz0123456789-_"))
  const Base64urlValues: seq<Option<byte>> :=
    (((([None, None, None, None, None, None, None, None] +
    [None, None, None, None, None, None, None, None]) +
    ([None, None, None, None, None, None, None, None] +
    [None, None, None, None, None, None, None, None])) +
    (([None, None, None, None, None, None, None, None] +
    [None, None, None, None, None, Some(62), None, None]) +
    ([Some(52), Some(53), Some(54), Some(55), Some(56), Some(57), Some(58), Some(59)] +
    [Some(60), Some(61), None, None, None, None, None, None]))) +
    ((([None, Some(0), Some(1), Some(2), Some(3), Some(4), Some(5), Some(6)] +
    [Some(7), Some(8), Some(9), Some(10), Some(11), Some(12), Some(13), Some(14)]) +
    ([Some(15), Some(16), Some(17), Some(18), Some(19), Some(20), Some(21), Some(22)] +
    [Some(23), Some(24), Some(25), None, None, None, None, Some(63)])) +
    (([None, Some(26), Some(27), Some(28), Some(29), Some(30), Some(31), Some(32)] +
    [Some(33), Some(34), Some(35), Some(36), Some(37), Some(38), Some(39), Some(40)]) +
    ([Some(41), Some(42), Some(43), Some(44), Some(45), Some(46), Some(47), Some(48)] +
    [Some(49), Some(50), Some(51), None, None, None, None, None]))))

  /** The table sends each of the characters for 0 to 15 back to its index. */
  lemma Base64urlInverts0()
    ensures forall v :: 0 <= v < 16 ==> IsAscii(Base64urlCharacters[v]) && Base64urlValues[Base64urlCharacters[v] as int] == Some(v)
  {
    forall v | 0 <= v < 16
      ensures IsAscii(Base64urlCharacters[v]) && Base64urlValues[Base64urlCharacters[v] as int] == Some(v)
    {
      Enumerate16(v, 0);
    }
  }

  /** The table sends each of the characters for 16 to 31 back to its index. */
  lemma Base64urlInverts16()
    ensures forall v :: 16 <= v < 32 ==> IsAscii(Base64urlCharacters[v]) && Base64urlValues[Base64urlCharacters[v] as int] == Some(v)
  {
    forall v | 16 <= v < 32
      ensures IsAscii(Base64urlCharacters[v]) && Base64urlValues[Base64urlCharacters[v] as int] == Some(v)
    {
      Enumerate16(v, 16);
    }
  }

  /** The table sends each of the characters for 32 to 47 back to its index. */
  lemma Base64urlInverts32()
    ensures forall v :: 32 <= v < 48 ==> IsAscii(Base64urlCharacters[v]) && Base64urlValues[Base64urlCharacters[v] as int] == Some(v)
  {
    forall v | 32 <= v < 48
      ensures IsAscii(Base64urlCharacters[v]) && Base64urlValues[Base64urlCharacters[v] as int] == Some(v)
    {
      Enumerate16(v, 32);
    }
  }

  /** The table sends each of the characters for 48 to 63 back to its index. */
  lemma Base64urlInverts48()
    ensures forall v :: 48 <= v < 64 ==> IsAscii(Base64urlCharacters[v]) && Base64urlValues[Base64urlCharacters[v] as int] == Some(v)
  {
    forall v | 48 <= v < 64
      ensures IsAscii(Base64urlCharacters[v]) && Base64urlValues[Base64urlCharacters[v] as int] == Some(v)
    {
      Enumerate16(v, 48);
    }
  }

  /** The table sends every character back to its index. */
  lemma Base64urlInverts()
    ensures Inverts(Base64urlCharacters, Base64urlValues)
  {
    Base64urlInverts0();
    Base64urlInverts16();
    Base64urlInverts32();
    Base64urlInverts48();
    InvertsByQuarters(Base64urlCharacters, Base64urlValues);
  }

  /** No control code has an entry. */
  lemma Base64urlOnlyCharacters0()
    ensures OnlyCharactersBetween(Base64urlCharacters, Base64urlValues, 0, 32)
  {
    forall c | 0 <= c < 32
      ensures Base64urlValues[c].None?
    {
      Enumerate32(c, 0);
    }
  }

  /** The entries for the codes 32 to 63 name characters with those codes. */
  lemma Base64urlOnlyCharacters32()
    ensures OnlyCharactersBetween(Base64urlCharacters, Base64urlValues, 32, 64)
  {
    forall c | 32 <= c < 64 && Base64urlValues[c].Some?
      ensures Base64urlValues[c].value < 64 && Base64urlCharacters[Base64urlValues[c].value] as int == c
    {
      Enumerate32(c, 32);
    }
  }

  /** The entries for the codes 64 to 95 name characters with those codes. */
  lemma Base64urlOnlyCharacters64()
    ensures OnlyCharactersBetween(Base64urlCharacters, Base64urlValues, 64, 96)
  {
    forall c | 64 <= c < 96 && Base64urlValues[c].Some?
      ensures Base64urlValues[c].value < 64 && Base64urlCharacters[Base64urlValues[c].value] as int == c
    {
      Enumerate32(c, 64);
    }
  }

  /** The entries for the codes 96 to 127 name characters with those codes. */
  lemma Base64urlOnlyCharacters96()
    ensures OnlyCharactersBetween(Base64urlCharacters, Base64urlValues, 96, 128)
  {
    forall c | 96 <= c < 128 && Base64urlValues[c].Some?
      ensures Base64urlValues[c].value < 64 && Base64urlCharacters[Base64urlValues[c].value] as int == c
    {
      Enumerate32(c, 96);
    }
  }

  /** Every entry of the table names the character with that code. */
  lemma Base64urlOnlyCharacters()
    ensures OnlyCharacters(Base64urlCharacters, Base64urlValues)
  {
    Base64urlOnlyCharacters0();
    Base64urlOnlyCharacters32();
    Base64urlOnlyCharacters64();
    Base64urlOnlyCharacters96();
    OnlyCharactersByQuarters(Base64urlCharacters, Base64urlValues);
  }

  /** The checked initialiser builds this table from these characters, whatever the padding and separator. */
  lemma Base64urlChecked(padding: Option<char>, lineSeparator: Option<LineSeparator>)
    ensures Checked(Base64urlCharacters, padding, lineSeparator) == Success(Alphabet(Base64urlCharacters, Base64urlValues, padding, lineSeparator))
  {
    Base64urlInverts();
    Base64urlOnlyCharacters();
    ValueTableIs(Base64urlCharacters, Base64urlValues);
  }

  /** Neither '=' nor a carriage return is one of the characters. */
  lemma Base64urlExcludes()
    ensures '=' !in Base64urlCharacters && '\r' !in Base64urlCharacters
  {
    assert Base64urlValues['=' as int].None? && Base64urlValues['\r' as int].None?;
    Base64urlInverts();
    NotInverted(Base64urlCharacters, Base64urlValues, '=');
    NotInverted(Base64urlCharacters, Base64urlValues, '\r');
  }

  // ----- the tables of `imapMailboxNames` -----

  const ImapMailboxNamesCharacters: seq<char> :=
    (("ABCDEFGHIJKLMNOP" +
    "QRSTUVWXYZabcdef") +
    ("ghijklmnopqrstuv" +
    "wxyz0123456789+,"))
  const ImapMailboxNamesValues: seq<Option<byte>> :=
    (((([None, None, None, None, None, None, None, None] +
    [None, None, None, None, None, None, None, None]) +
    ([None, None, None, None, None, None, None, None] +
    [None, None, None, None, None, None, None, None])) +
    (([None, None, None, None, None, None, None, None] +
    [None, None, None, Some(62), Some(63), None, None, None]) +
    ([Some(52), Some(53), Some(54), Some(55), Some(56), Some(57), Some(58), Some(59)] +
    [Some(60), Some(61), None, None, None, None, None, None]))) +
    ((([None, Some(0), Some(1), Some(2), Some(3), Some(4), Some(5), Some(6)] +
    [Some(7), Some(8), Some(9), Some(10), Some(11), Some(12), Some(13), Some(14)]) +
    ([Some(15), Some(16), Some(17), Some(18), Some(19), Some(20), Some(21), Some(22)] +
    [Some(23), Some(24), Some(25), None, None, None, None, None])) +
    (([None, Some(26), Some(27), Some(28), Some(29), Some(30), Some(31), Some(32)] +
    [Some(33), Some(34), Some(35), Some(36), Some(37), Some(38), Some(39), Some(40)]) +
    ([Some(41), Some(42), Some(43), Some(44), Some(45), Some(46), Some(47), Some(48)] +
    [Some(49), Some(50), Some(51), None, None, None, None, None]))))

  /** The table sends each of the characters for 0 to 15 back to its index. */
  lemma ImapMailboxNamesInverts0()
    ensures forall v :: 0 <= v < 16 ==> IsAscii(ImapMailboxNamesCharacters[v]) && ImapMailboxNamesValues[ImapMailboxNamesCharacters[v] as int] == Some(v)
  {
    forall v | 0 <= v < 16
      ensures IsAscii(ImapMailboxNamesCharacters[v]) && ImapMailboxNamesValues[ImapMailboxNamesCharacters[v] as int] == Some(v)
    {
      Enumerate16(v, 0);
    }
  }

  /** The table sends each of the characters for 16 to 31 back to its index. */
  lemma ImapMailboxNamesInverts16()
    ensures forall v :: 16 <= v < 32 ==> IsAscii(ImapMailboxNamesCharacters[v]) && ImapMailboxNamesValues[ImapMailboxNamesCharacters[v] as int] == Some(v)
  {
    forall v | 16 <= v < 32
      ensures IsAscii(ImapMailboxNamesCharacters[v]) && ImapMailboxNamesValues[ImapMailboxNamesCharacters[v] as int] == Some(v)
    {
      Enumerate16(v, 16);
    }
  }

  /** The table sends each of the characters for 32 to 47 back to its index. */
  lemma ImapMailboxNamesInverts32()
    ensures forall v :: 32 <= v < 48 ==> IsAscii(ImapMailboxNamesCharacters[v]) && ImapMailboxNamesValues[ImapMailboxNamesCharacters[v] as int] == Some(v)
  {
    forall v | 32 <= v < 48
      ensures IsAscii(ImapMailboxNamesCharacters[v]) && ImapMailboxNamesValues[ImapMailboxNamesCharacters[v] as int] == Some(v)
    {
      Enumerate16(v, 32);
    }
  }

  /** The table sends each of the characters for 48 to 63 back to its index. */
  lemma ImapMailboxNamesInverts48()
    ensures forall v :: 48 <= v < 64 ==> IsAscii(ImapMailboxNamesCharacters[v]) && ImapMailboxNamesValues[ImapMailboxNamesCharacters[v] as int] == Some(v)
  {
    forall v | 48 <= v < 64
      ensures IsAscii(ImapMailboxNamesCharacters[v]) && ImapMailboxNamesValues[ImapMailboxNamesCharacters[v] as int] == Some(v)
    {
      Enumerate16(v, 48);
    }
  }

  /** The table sends every character back to its index. */
  lemma ImapMailboxNamesInverts()
    ensures Inverts(ImapMailboxNamesCharacters, ImapMailboxNamesValues)
  {
    ImapMailboxNamesInverts0();
    ImapMailboxNamesInverts16();
    ImapMailboxNamesInverts32();
    ImapMailboxNamesInverts48();
    InvertsByQuarters(ImapMailboxNamesCharacters, ImapMailboxNamesValues);
  }

  /** No control code has an entry. */
  lemma ImapMailboxNamesOnlyCharacters0()
    ensures OnlyCharactersBetween(ImapMailboxNamesCharacters, ImapMailboxNamesValues, 0, 32)
  {
    forall c | 0 <= c < 32
      ensures ImapMailboxNamesValues[c].None?
    {
      Enumerate32(c, 0);
    }
  }

  /** The entries for the codes 32 to 63 name characters with those codes. */
  lemma ImapMailboxNamesOnlyCharacters32()
    ensures OnlyCharactersBetween(ImapMailboxNamesCharacters, ImapMailboxNamesValues, 32, 64)
  {
    forall c | 32 <= c < 64 && ImapMailboxNamesValues[c].Some?
      ensures ImapMailboxNamesValues[c].value < 64 && ImapMailboxNamesCharacters[ImapMailboxNamesValues[c].value] as int == c
    {
      Enumerate32(c, 32);
    }
  }

  /** The entries for the codes 64 to 95 name characters with those codes. */
  lemma ImapMailboxNamesOnlyCharacters64()
    ensures OnlyCharactersBetween(ImapMailboxNamesCharacters, ImapMailboxNamesValues, 64, 96)
  {
    forall c | 64 <= c < 96 && ImapMailboxNamesValues[c].Some?
      ensures ImapMailboxNamesValues[c].value < 64 && ImapMailboxNamesCharacters[ImapMailboxNamesValues[c].value] as int == c
    {
      Enumerate32(c, 64);
    }
  }

  /** The entries for the codes 96 to 127 name characters with those codes. */
  lemma ImapMailboxNamesOnlyCharacters96()
    ensures OnlyCharactersBetween(ImapMailboxNamesCharacters, ImapMailboxNamesValues, 96, 128)
  {
    forall c | 96 <= c < 128 && ImapMailboxNamesValues[c].Some?
      ensures ImapMailboxNamesValues[c].value < 64 && ImapMailboxNamesCharacters[ImapMailboxNamesValues[c].value] as int == c
    {
      Enumerate32(c, 96);
    }
  }

  /** Every entry of the table names the character with that code. */
  lemma ImapMailboxNamesOnlyCharacters()
    ensures OnlyCharacters(ImapMailboxNamesCharacters, ImapMailboxNamesValues)
  {
    ImapMailboxNamesOnlyCharacters0();
    ImapMailboxNamesOnlyCharacters32();
    ImapMailboxNamesOnlyCharacters64();
    ImapMailboxNamesOnlyCharacters96();
    OnlyCharactersByQuarters(ImapMailboxNamesCharacters, ImapMailboxNamesValues);
  }

  /** The checked initialiser builds this table from these characters, whatever the padding and separator. */
  lemma ImapMailboxNamesChecked(padding: Option<char>, lineSeparator: Option<LineSeparator>)
    ensures Checked(ImapMailboxNamesCharacters, padding, lineSeparator) == Success(Alphabet(ImapMailboxNamesCharacters, ImapMailboxNamesValues, padding, lineSeparator))
  {
    ImapMailboxNamesInverts();
    ImapMailboxNamesOnlyCharacters();
    ValueTableIs(ImapMailboxNamesCharacters, ImapMailboxNamesValues);
  }

  /** Neither '=' nor a carriage return is one of the characters. */
  lemma ImapMailboxNamesExcludes()
    ensures '=' !in ImapMailboxNamesCharacters && '\r' !in ImapMailboxNamesCharacters
  {
    assert ImapMailboxNamesValues['=' as int].None? && ImapMailboxNamesValues['\r' as int].None?;
    ImapMailboxNamesInverts();
    NotInverted(ImapMailboxNamesCharacters, ImapMailboxNamesValues, '=');
    NotInverted(ImapMailboxNamesCharacters, ImapMailboxNamesValues, '\r');
  }

  // ----- The built-in alphabets -----

  /** `standard`, from section 4 of RFC 4648: padded with "=", no lines. */
  const Standard: Alphabet := Alphabet(StandardCharacters, StandardValues, Some('='), None)

  /** `base64url`, from section 5 of RFC 4648: "-" and "_" for 62 and 63, padded with "=". */
  const Base64url: Alphabet := Alphabet(Base64urlCharacters, Base64urlValues, Some('='), None)

  /** `utf7`, from RFC 2152: the standard characters without padding. */
  const Utf7: Alphabet := Alphabet(StandardCharacters, StandardValues, None, None)

  /** `imapMailboxNames`, from RFC 3501: "," for 63, no padding. */
  const ImapMailboxNames: Alphabet := Alphabet(ImapMailboxNamesCharacters, ImapMailboxNamesValues, None, None)

  /** `mime`, from RFC 2045: the standard characters, padded, in lines of 76 joined by CR LF. */
  const Mime: Alphabet := Alphabet(StandardCharacters, StandardValues, Some('='), Some(LineSeparator("\r\n", 76)))

  /** `mime(lineLength:)`: the `mime` alphabet with another line length, refused when it is not positive. */
  function MimeWithLineLength(lineLength: int): (r: Result<Alphabet, LineSeparatorError>)
    ensures r.Success? <==> lineLength > 0
    ensures r.Failure? ==> r.error == NonPositiveLength
    ensures r.Success? ==> r.value.characters == Mime.characters && r.value.values == Mime.values && r.value.padding == Mime.padding
    ensures r.Success? ==> r.value.lineSeparator == Some(LineSeparator("\r\n", lineLength))
  {
    match NewLineSeparator("\r\n", lineLength)
    case Failure(e) => Failure(e)
    case Success(separator) => Success(Alphabet(StandardCharacters, StandardValues, Some('='), Some(separator)))
  }

  /** A line length of 76 gives back `mime` itself; zero or less is refused. */
  lemma MimeWithLineLengthExamples(lineLength: int)
    ensures MimeWithLineLength(76) == Success(Mime)
    ensures lineLength <= 0 ==> MimeWithLineLength(lineLength) == Failure(NonPositiveLength)
  {
  }

  // ----- Agreement with the checked initialiser -----

  /** Each built-in alphabet is what the checked initialiser builds from its characters, padding and separator. */
  lemma BuiltInsChecked()
    ensures Checked(StandardCharacters, Some('='), None) == Success(Standard)
    ensures Checked(Base64urlCharacters, Some('='), None) == Success(Base64url)
    ensures Checked(StandardCharacters, None, None) == Success(Utf7)
    ensures Checked(ImapMailboxNamesCharacters, None, None) == Success(ImapMailboxNames)
    ensures Checked(StandardCharacters, Some('='), Some(LineSeparator("\r\n", 76))) == Success(Mime)
  {
    StandardChecked(Some('='), None);
    Base64urlChecked(Some('='), None);
    StandardChecked(None, None);
    ImapMailboxNamesChecked(None, None);
    StandardChecked(Some('='), Some(LineSeparator("\r\n", 76)));
  }

  /** `base64url` has "-" and "_" where `standard` has "+" and "/", and is the same elsewhere. */
  lemma Base64urlVariant()
    ensures forall i :: 0 <= i < 62 ==> Base64urlCharacters[i] == StandardCharacters[i]
    ensures StandardCharacters[62] == '+' && StandardCharacters[63] == '/'
    ensures Base64urlCharacters[62] == '-' && Base64urlCharacters[63] == '_'
    ensures forall c :: 0 <= c < 128 && c != '-' as int && c != '_' as int && c != '+' as int && c != '/' as int ==>
      Base64urlValues[c] == StandardValues[c]
  {
    forall i | 0 <= i < 62
      ensures Base64urlCharacters[i] == StandardCharacters[i]
    {
      Enumerate64(i, 0);
    }
    forall c | 0 <= c < 128 && c != '-' as int && c != '_' as int && c != '+' as int && c != '/' as int
      ensures Base64urlValues[c] == StandardValues[c]
    {
      if c < 64 {
        Enumerate64(c, 0);
      } else {
        Enumerate64(c, 64);
      }
    }
  }

  /** `imapMailboxNames` has "," where `standard` has "/", and is the same elsewhere. */
  lemma ImapMailboxNamesVariant()
    ensures forall i :: 0 <= i < 63 ==> ImapMailboxNamesCharacters[i] == StandardCharacters[i]
    ensures ImapMailboxNamesCharacters[63] == ','
    ensures forall c :: 0 <= c < 128 && c != ',' as int && c != '/' as int ==> ImapMailboxNamesValues[c] == StandardValues[c]
  {
    forall i | 0 <= i < 63
      ensures ImapMailboxNamesCharacters[i] == StandardCharacters[i]
    {
      Enumerate64(i, 0);
    }
    forall c | 0 <= c < 128 && c != ',' as int && c != '/' as int
      ensures ImapMailboxNamesValues[c] == StandardValues[c]
    {
      if c < 64 {
        Enumerate64(c, 0);
      } else {
        Enumerate64(c, 64);
      }
    }
  }

  // ----- Round trips -----

  /** The table facts the round trip needs, for the standard characters. */
  lemma StandardFits()
    ensures |StandardCharacters| == 64 && Inverts(StandardCharacters, StandardValues)
    ensures '=' !in StandardCharacters && '\r' !in StandardCharacters
  {
    StandardInverts();
    StandardExcludes();
  }

  /** Every built-in alphabet decodes what it encodes, padded or not. */
  lemma BuiltInRoundTrips(pad: bool, data: seq<byte>)
    ensures Decoded(Standard, Encoded(Standard, pad, data)) == Success(data)
    ensures Decoded(Base64url, Encoded(Base64url, pad, data)) == Success(data)
    ensures Decoded(Utf7, Encoded(Utf7, pad, data)) == Success(data)
    ensures Decoded(ImapMailboxNames, Encoded(ImapMailboxNames, pad, data)) == Success(data)
    ensures Decoded(Mime, Encoded(Mime, pad, data)) == Success(data)
  {
    StandardFits();
    RoundTrip(Standard, pad, data);
    RoundTrip(Utf7, pad, data);
    RoundTrip(Mime, pad, data);
    Base64urlInverts();
    Base64urlExcludes();
    RoundTrip(Base64url, pad, data);
    ImapMailboxNamesInverts();
    RoundTrip(ImapMailboxNames, pad, data);
  }

  /** So does `mime(lineLength:)`, for every line length it accepts. */
  lemma MimeWithLineLengthRoundTrip(lineLength: int, pad: bool, data: seq<byte>)
    requires lineLength > 0
    ensures Decoded(MimeWithLineLength(lineLength).value, Encoded(MimeWithLineLength(lineLength).value, pad, data)) == Success(data)
  {
    StandardFits();
    RoundTrip(MimeWithLineLength(lineLength).value, pad, data);
  }

  // ----- Test vectors of section 10 of RFC 4648 -----

  /** "f" zero-filled to a whole group, and the 6-bit values of "f" and "foobar". */
  const FPadded: seq<byte> := [102, 0, 0]
  const FSymbols: seq<byte> := [25, 32, 0, 0]
  const FoobarSymbols: seq<byte> := [25, 38, 61, 47, 24, 38, 5, 50]

  /** The 6-bit values of "f". */
  lemma FGroups()
    ensures Symbols(Padded(F)) == FSymbols
  {
    assert Padded(F) == FPadded by {
      assert FillCount(1, 3) == 2;
    }
    assert SymbolsOfGroup(FPadded, FSymbols, 0);
    SymbolsAre(FPadded, FSymbols, 1);
  }

  /** The 6-bit values of "f", written with the standard characters. */
  lemma FSpelled()
    ensures Spell(StandardCharacters, FSymbols) == "ZgAA"
  {
    var s := Spell(StandardCharacters, FSymbols);
    assert s[0] == 'Z' && s[1] == 'g' && s[2] == 'A' && s[3] == 'A';
  }

  /** "f" is "Zg==" with padding and "Zg" without. */
  lemma FEncoded()
    ensures Encoded(Standard, true, F) == "Zg=="
    ensures Encoded(Standard, false, F) == "Zg"
  {
    FGroups();
    FSpelled();
    assert FillCount(1, 3) * 4 / 3 == 2;
    BodyFrom(Standard, true, F, "ZgAA", "Zg");
    BodyFrom(Standard, false, F, "ZgAA", "Zg");
    assert Repeat('=', 2) == "==";
  }

  /** The 6-bit values of "foobar", which needs no filler. */
  lemma FoobarGroups()
    ensures Symbols(Padded(Foobar)) == FoobarSymbols
  {
    assert Padded(Foobar) == Foobar by {
      assert FillCount(6, 3) == 0;
    }
    assert SymbolsOfGroup(Foobar, FoobarSymbols, 0) && SymbolsOfGroup(Foobar, FoobarSymbols, 1);
    SymbolsAre(Foobar, FoobarSymbols, 2);
  }

  /** The 6-bit values of "foobar", written with the standard characters. */
  lemma FoobarSpelled()
    ensures Spell(StandardCharacters, FoobarSymbols) == "Zm9vYmFy"
  {
    var s := Spell(StandardCharacters, FoobarSymbols);
    assert s[0] == 'Z' && s[1] == 'm' && s[2] == '9' && s[3] == 'v';
    assert s[4] == 'Y' && s[5] == 'm' && s[6] == 'F' && s[7] == 'y';
  }

  /** "foobar" is "Zm9vYmFy", with or without padding. */
  lemma FoobarEncoded(pad: bool)
    ensures Encoded(Standard, pad, Foobar) == "Zm9vYmFy"
  {
    FoobarGroups();
    FoobarSpelled();
    assert FillCount(6, 3) * 4 / 3 == 0;
    BodyFrom(Standard, pad, Foobar, "Zm9vYmFy", "Zm9vYmFy");
  }

  /** "fo" zero-filled to whole groups, and its 6-bit values. */
  const FoPadded: seq<byte> := [102, 111, 0]
  const FoSymbols: seq<byte> := [25, 38, 60, 0]

  /** The 6-bit values of "fo". */
  lemma FoGroups()
    ensures Symbols(Padded(Fo)) == FoSymbols
  {
    assert Padded(Fo) == FoPadded by {
      assert FillCount(2, 3) == 1;
    }
    assert SymbolsOfGroup(FoPadded, FoSymbols, 0);
    SymbolsAre(FoPadded, FoSymbols, 1);
  }

  /** The 6-bit values of "fo", written with the standard characters. */
  lemma FoSpelled()
    ensures Spell(StandardCharacters, FoSymbols) == "Zm8A"
  {
    var s := Spell(StandardCharacters, FoSymbols);
    assert s[0] == 'Z' && s[1] == 'm' && s[2] == '8' && s[3] == 'A';
  }

  /** "fo" is "Zm8=" with padding. */
  lemma FoEncoded()
    ensures Encoded(Standard, true, Fo) == "Zm8="
  {
    FoGroups();
    FoSpelled();
    assert FillCount(2, 3) * 4 / 3 == 1;
    BodyFrom(Standard, true, Fo, "Zm8A", "Zm8");
    assert Repeat('=', 1) == "=";
  }

  /** The 6-bit values of "foo", which needs no filler. */
  const FooSymbols: seq<byte> := [25, 38, 61, 47]

  /** The 6-bit values of "foo". */
  lemma FooGroups()
    ensures Symbols(Padded(Foo)) == FooSymbols
  {
    assert Padded(Foo) == Foo by {
      assert FillCount(3, 3) == 0;
    }
    assert SymbolsOfGroup(Foo, FooSymbols, 0);
    SymbolsAre(Foo, FooSymbols, 1);
  }

  /** The 6-bit values of "foo", written with the standard characters. */
  lemma FooSpelled()
    ensures Spell(StandardCharacters, FooSymbols) == "Zm9v"
  {
    var s := Spell(StandardCharacters, FooSymbols);
    assert s[0] == 'Z' && s[1] == 'm' && s[2] == '9' && s[3] == 'v';
  }

  /** "foo" is "Zm9v" with padding. */
  lemma FooEncoded()
    ensures Encoded(Standard, true, Foo) == "Zm9v"
  {
    FooGroups();
    FooSpelled();
    assert FillCount(3, 3) * 4 / 3 == 0;
    BodyFrom(Standard, true, Foo, "Zm9v", "Zm9v");
  }

  /** "foob" zero-filled to whole groups, and its 6-bit values. */
  const FoobPadded: seq<byte> := [102, 111, 111, 98, 0, 0]
  const FoobSymbols: seq<byte> := [25, 38, 61, 47, 24, 32, 0, 0]

  /** The 6-bit values of "foob". */
  lemma FoobGroups()
    ensures Symbols(Padded(Foob)) == FoobSymbols
  {
    assert Padded(Foob) == FoobPadded by {
      assert FillCount(4, 3) == 2;
    }
    assert SymbolsOfGroup(FoobPadded, FoobSymbols, 0) && SymbolsOfGroup(FoobPadded, FoobSymbols, 1);
    SymbolsAre(FoobPadded, FoobSymbols, 2);
  }

  /** The 6-bit values of "foob", written with the standard characters. */
  lemma FoobSpelled()
    ensures Spell(StandardCharacters, FoobSymbols) == "Zm9vYgAA"
  {
    var s := Spell(StandardCharacters, FoobSymbols);
    assert s[0] == 'Z' && s[1] == 'm' && s[2] == '9' && s[3] == 'v';
    assert s[4] == 'Y' && s[5] == 'g' && s[6] == 'A' && s[7] == 'A';
  }

  /** "foob" is "Zm9vYg==" with padding. */
  lemma FoobEncoded()
    ensures Encoded(Standard, true, Foob) == "Zm9vYg=="
  {
    FoobGroups();
    FoobSpelled();
    assert FillCount(4, 3) * 4 / 3 == 2;
    BodyFrom(Standard, true, Foob, "Zm9vYgAA", "Zm9vYg");
    assert Repeat('=', 2) == "==";
  }

  /** "fooba" zero-filled to whole groups, and its 6-bit values. */
  const FoobaPadded: seq<byte> := [102, 111, 111, 98, 97, 0]
  const FoobaSymbols: seq<byte> := [25, 38, 61, 47, 24, 38, 4, 0]

  /** The 6-bit values of "fooba". */
  lemma FoobaGroups()
    ensures Symbols(Padded(Fooba)) == FoobaSymbols
  {
    assert Padded(Fooba) == FoobaPadded by {
      assert FillCount(5, 3) == 1;
    }
    assert SymbolsOfGroup(FoobaPadded, FoobaSymbols, 0) && SymbolsOfGroup(FoobaPadded, FoobaSymbols, 1);
    SymbolsAre(FoobaPadded, FoobaSymbols, 2);
  }

  /** The 6-bit values of "fooba", written with the standard characters. */
  lemma FoobaSpelled()
    ensures Spell(StandardCharacters, FoobaSymbols) == "Zm9vYmEA"
  {
    var s := Spell(StandardCharacters, FoobaSymbols);
    assert s[0] == 'Z' && s[1] == 'm' && s[2] == '9' && s[3] == 'v';
    assert s[4] == 'Y' && s[5] == 'm' && s[6] == 'E' && s[7] == 'A';
  }

  /** "fooba" is "Zm9vYmE=" with padding. */
  lemma FoobaEncoded()
    ensures Encoded(Standard, true, Fooba) == "Zm9vYmE="
  {
    FoobaGroups();
    FoobaSpelled();
    assert FillCount(5, 3) * 4 / 3 == 1;
    BodyFrom(Standard, true, Fooba, "Zm9vYmEA", "Zm9vYmE");
    assert Repeat('=', 1) == "=";
  }

  /** Each of the seven test vectors decodes back: "", "Zg==", "Zm8=", "Zm9v", "Zm9vYg==", "Zm9vYmE=" and "Zm9vYmFy". */
  lemma VectorsDecoded()
    ensures Decoded(Standard, "") == Success([])
    ensures Decoded(Standard, "Zg==") == Success(F)
    ensures Decoded(Standard, "Zm8=") == Success(Fo)
    ensures Decoded(Standard, "Zm9v") == Success(Foo)
    ensures Decoded(Standard, "Zm9vYg==") == Success(Foob)
    ensures Decoded(Standard, "Zm9vYmE=") == Success(Fooba)
    ensures Decoded(Standard, "Zm9vYmFy") == Success(Foobar)
  {
    FEncoded();
    FoEncoded();
    FooEncoded();
    FoobEncoded();
    FoobaEncoded();
    FoobarEncoded(true);
    StandardFits();
    RoundTrip(Standard, true, F);
    RoundTrip(Standard, true, Fo);
    RoundTrip(Standard, true, Foo);
    RoundTrip(Standard, true, Foob);
    RoundTrip(Standard, true, Fooba);
    RoundTrip(Standard, true, Foobar);
  }

  // ----- Lines: the line separator example of the test suite -----

  /** The standard characters and padding, with lines of 3 characters joined by "_". */
  const Underscored: Alphabet := Alphabet(StandardCharacters, StandardValues, Some('='), Some(LineSeparator("_", 3)))

  /** Ten bytes 0x41, zero-filled to whole groups, and their 6-bit values. */
  const TenA: seq<byte> := [65, 65, 65, 65, 65, 65, 65, 65, 65, 65]
  const TenAPadded: seq<byte> := [65, 65, 65, 65, 65, 65, 65, 65, 65, 65, 0, 0]
  const TenASymbols: seq<byte> := [16, 20, 5, 1, 16, 20, 5, 1, 16, 20, 5, 1, 16, 16, 0, 0]

  /** The 6-bit values of the ten bytes. */
  lemma TenAGroups()
    ensures Symbols(Padded(TenA)) == TenASymbols
  {
    assert Padded(TenA) == TenAPadded by {
      assert FillCount(10, 3) == 2;
    }
    assert SymbolsOfGroup(TenAPadded, TenASymbols, 0) && SymbolsOfGroup(TenAPadded, TenASymbols, 1);
    assert SymbolsOfGroup(TenAPadded, TenASymbols, 2) && SymbolsOfGroup(TenAPadded, TenASymbols, 3);
    SymbolsAre(TenAPadded, TenASymbols, 4);
  }

  /** The same values, written with the standard characters. */
  lemma TenASpelled()
    ensures Spell(StandardCharacters, TenASymbols) == "QUFBQUFBQUFBQQAA"
  {
    var s := Spell(StandardCharacters, TenASymbols);
    assert s[0] == 'Q' && s[1] == 'U' && s[2] == 'F' && s[3] == 'B';
    assert s[4] == 'Q' && s[5] == 'U' && s[6] == 'F' && s[7] == 'B';
    assert s[8] == 'Q' && s[9] == 'U' && s[10] == 'F' && s[11] == 'B';
    assert s[12] == 'Q' && s[13] == 'Q' && s[14] == 'A' && s[15] == 'A';
  }

  /** Before it is cut into lines, the encoding is "QUFBQUFBQUFBQQ==". */
  lemma TenABody()
    ensures Body(Underscored, true, TenA) == "QUFBQUFBQUFBQQ=="
  {
    TenAGroups();
    TenASpelled();
    assert FillCount(10, 3) * 4 / 3 == 2;
    BodyFrom(Underscored, true, TenA, "QUFBQUFBQUFBQQAA", "QUFBQUFBQUFBQQ");
    assert Repeat('=', 2) == "==";
  }

  /** The last four lines. */
  lemma TenALastLines()
    ensures Chunked("FBQUFBQQ==", 3) == ["FBQ", "UFB", "QQ=", "="]
  {
    assert Chunked("=", 3) == ["="];
    assert Chunked("QQ==", 3) == ["QQ="] + Chunked("=", 3) by {
      assert "QQ=="[..3] == "QQ=" && "QQ=="[3..] == "=";
    }
    assert Chunked("UFBQQ==", 3) == ["UFB"] + Chunked("QQ==", 3) by {
      assert "UFBQQ=="[..3] == "UFB" && "UFBQQ=="[3..] == "QQ==";
    }
    assert Chunked("FBQUFBQQ==", 3) == ["FBQ"] + Chunked("UFBQQ==", 3) by {
      assert "FBQUFBQQ=="[..3] == "FBQ" && "FBQUFBQQ=="[3..] == "UFBQQ==";
    }
  }

  /** Lines of three, the last one shorter. */
  lemma TenALines()
    ensures Chunked("QUFBQUFBQUFBQQ==", 3) == ["QUF", "BQU", "FBQ", "UFB", "QQ=", "="]
  {
    TenALastLines();
    assert Chunked("BQUFBQUFBQQ==", 3) == ["BQU"] + Chunked("FBQUFBQQ==", 3) by {
      assert "BQUFBQUFBQQ=="[..3] == "BQU" && "BQUFBQUFBQQ=="[3..] == "FBQUFBQQ==";
    }
    assert Chunked("QUFBQUFBQUFBQQ==", 3) == ["QUF"] + Chunked("BQUFBQUFBQQ==", 3) by {
      assert "QUFBQUFBQUFBQQ=="[..3] == "QUF" && "QUFBQUFBQUFBQQ=="[3..] == "BQUFBQUFBQQ==";
    }
  }

  /** The last four lines joined by "_". */
  lemma TenALastJoined()
    ensures Joined(["FBQ", "UFB", "QQ=", "="], "_") == "FBQ_UFB_QQ=_="
  {
    var lines: seq<seq<char>> := ["FBQ", "UFB", "QQ=", "="];
    assert Joined(lines[3..], "_") == "=";
    assert Joined(lines[2..], "_") == "QQ=" + "_" + "=" by {
      assert lines[2..][1..] == lines[3..];
    }
    assert Joined(lines[1..], "_") == "UFB" + "_" + "QQ=_=" by {
      assert lines[1..][1..] == lines[2..];
    }
    assert Joined(lines, "_") == "FBQ" + "_" + "UFB_QQ=_=";
  }

  /** The lines joined by "_". */
  lemma TenAJoined()
    ensures Joined(["QUF", "BQU", "FBQ", "UFB", "QQ=", "="], "_") == "QUF_BQU_FBQ_UFB_QQ=_="
  {
    var lines: seq<seq<char>> := ["QUF", "BQU", "FBQ", "UFB", "QQ=", "="];
    TenALastJoined();
    assert lines[2..] == ["FBQ", "UFB", "QQ=", "="];
    assert Joined(lines[1..], "_") == "BQU" + "_" + "FBQ_UFB_QQ=_=" by {
      assert lines[1..][1..] == lines[2..];
    }
    assert Joined(lines, "_") == "QUF" + "_" + "BQU_FBQ_UFB_QQ=_=";
  }

  /** Ten bytes 0x41 encode to "QUF_BQU_FBQ_UFB_QQ=_=", padding included in the lines. */
  lemma TenAEncoded()
    ensures Encoded(Underscored, true, TenA) == "QUF_BQU_FBQ_UFB_QQ=_="
  {
    TenABody();
    TenALines();
    TenAJoined();
  }

  /** "_" is neither a standard character nor the padding, so it can separate lines. */
  lemma UnderscoredFits()
    ensures |Underscored.characters| == 64 && Inverts(Underscored.characters, Underscored.values)
    ensures Underscored.padding.value !in Underscored.characters && SeparatorFits(Underscored)
  {
    assert Underscored.characters == StandardCharacters && Underscored.values == StandardValues;
    StandardFits();
    UnderscoreNotStandard();
  }

  /** "_" has no entry in the standard table, so it is not a standard character. */
  lemma UnderscoreNotStandard()
    ensures '_' !in StandardCharacters
  {
    assert StandardValues['_' as int].None?;
    StandardInverts();
    NotInverted(StandardCharacters, StandardValues, '_');
  }

  /** The lines decode back to the ten bytes. */
  lemma TenADecoded()
    ensures Decoded(Underscored, "QUF_BQU_FBQ_UFB_QQ=_=") == Success(TenA)
  {
    TenAEncoded();
    UnderscoredFits();
    RoundTrip(Underscored, true, TenA);
  }

  // ----- Lines: the `mime` example of the test suite -----

  /**
   * Eighty bytes take 110 characters in `mime`: a first line of 76, CR LF,
   * and a last line of 32.
   */
  lemma MimeEightyBytes(data: seq<byte>)
    requires |data| == 80
    ensures var e := Encoded(Mime, true, data);
      && |e| == 110 && e[76..78] == "\r\n"
      && e[..76] + e[78..] == Body(Mime, true, data)
  {
    var body := Body(Mime, true, data);
    BodyLength(Mime, true, data);
    assert |body| == 108;
    assert Chunked(body, 76) == [body[..76], body[76..]] by {
      assert Chunked(body[76..], 76) == [body[76..]];
    }
    assert Joined([body[..76], body[76..]], "\r\n") == body[..76] + "\r\n" + Joined([body[76..]], "\r\n");
    assert body == body[..76] + body[76..];
  }

  // ----- Error outcomes from the test suite -----

  /** `standard` rejects "¡" as not ASCII and "_" as not in the alphabet. */
  lemma DecodingErrors()
    ensures Decoded(Standard, "¡") == Failure(NonAsciiCharacters)
    ensures Decoded(Standard, "_") == Failure(ValuesNotInAlphabet)
  {
    assert !IsAscii("¡"[0]) && StandardValues['_' as int].None?;
    assert Unpadded(Standard, WithoutSeparators(Standard, "¡")) == "¡";
    assert Unpadded(Standard, WithoutSeparators(Standard, "_")) == "_";
    DecodedFirstError(Standard, "¡", 0);
    DecodedFirstError(Standard, "_", 0);
  }

  /** No characters is the wrong number; 64 copies of "¡" have no ASCII value, whatever the padding. */
  lemma AlphabetErrors()
    ensures Checked([], None, None) == Failure(WrongNumberOfCharacters)
    ensures Checked(Repeat('¡', 64), Some('¡'), None) == Failure(NoAsciiValue)
    ensures Checked(Repeat('¡', 64), None, None) == Failure(NoAsciiValue)
  {
    assert !IsAscii(Repeat('¡', 64)[0]);
  }
}
