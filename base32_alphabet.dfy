/**
 * The built-in Base-32 alphabets of Sources/Bases/Base32+Alphabet.swift,
 * each written out as its characters and its 128-entry value table, and
 * proved equal to what the checked initialiser builds from the synonym
 * groups the test suite gives for it.
 */
module Base32Alphabets {

  import opened Wrappers
  import opened Bits
  import opened Text
  import opened Errors
  import opened AlphabetTables
  import opened Base32
  import opened TestVectors

  const Rfc4648Characters: seq<char> := "ABCDEFGHIJKLMNOP" +
    "QRSTUVWXYZ234567"
  const Rfc4648Values: seq<Option<byte>> :=
    [None, None, None, None, None, None, None, None] +
    [None, None, None, None, None, None, None, None] +
    [None, None, None, None, None, None, None, None] +
    [None, None, None, None, None, None, None, None] +
    [None, None, None, None, None, None, None, None] +
    [None, None, None, None, None, None, None, None] +
    [None, None, Some(26), Some(27), Some(28), Some(29), Some(30), Some(31)] +
    [None, None, None, None, None, None, None, None] +
    [None, Some(0), Some(1), Some(2), Some(3), Some(4), Some(5), Some(6)] +
    [Some(7), Some(8), Some(9), Some(10), Some(11), Some(12), Some(13), Some(14)] +
    [Some(15), Some(16), Some(17), Some(18), Some(19), Some(20), Some(21), Some(22)] +
    [Some(23), Some(24), Some(25), None, None, None, None, None] +
    [None, Some(0), Some(1), Some(2), Some(3), Some(4), Some(5), Some(6)] +
    [Some(7), Some(8), Some(9), Some(10), Some(11), Some(12), Some(13), Some(14)] +
    [Some(15), Some(16), Some(17), Some(18), Some(19), Some(20), Some(21), Some(22)] +
    [Some(23), Some(24), Some(25), None, None, None, None, None]
  const Rfc4648: Alphabet := Alphabet(Rfc4648Characters, Rfc4648Values, Some('='))

  /** The synonym groups the test suite builds `rfc4648` from. */
  const Rfc4648Groups: seq<seq<char>> :=
    ["Aa", "Bb", "Cc", "Dd", "Ee", "Ff", "Gg", "Hh"] +
    ["Ii", "Jj", "Kk", "Ll", "Mm", "Nn", "Oo", "Pp"] +
    ["Qq", "Rr", "Ss", "Tt", "Uu", "Vv", "Ww", "Xx"] +
    ["Yy", "Zz", "22", "33", "44", "55", "66", "77"]

  lemma Rfc4648GroupsShape()
    ensures AllNonEmpty(Rfc4648Groups) && AllGroupsAscii(Rfc4648Groups) && Rfc4648Characters == Firsts(Rfc4648Groups)
  {
    forall g | 0 <= g < 32
      ensures |Rfc4648Groups[g]| > 0 && AllAscii(Rfc4648Groups[g]) && Rfc4648Characters[g] == Rfc4648Groups[g][0]
    {
      Enumerate32(g, 0);
    }
  }

  lemma Rfc4648Members0()
    ensures forall g, k :: 0 <= g < 8 && 0 <= k < |Rfc4648Groups[g]| ==> Rfc4648Values[Rfc4648Groups[g][k] as int] == Some(g)
  {
    forall g | 0 <= g < 8
      ensures forall k :: 0 <= k < |Rfc4648Groups[g]| ==> Rfc4648Values[Rfc4648Groups[g][k] as int] == Some(g)
    {
      Enumerate32(g, 0);
    }
  }

  lemma Rfc4648Members8()
    ensures forall g, k :: 8 <= g < 16 && 0 <= k < |Rfc4648Groups[g]| ==> Rfc4648Values[Rfc4648Groups[g][k] as int] == Some(g)
  {
    forall g | 8 <= g < 16
      ensures forall k :: 0 <= k < |Rfc4648Groups[g]| ==> Rfc4648Values[Rfc4648Groups[g][k] as int] == Some(g)
    {
      Enumerate32(g, 8);
    }
  }

  lemma Rfc4648Members16()
    ensures forall g, k :: 16 <= g < 24 && 0 <= k < |Rfc4648Groups[g]| ==> Rfc4648Values[Rfc4648Groups[g][k] as int] == Some(g)
  {
    forall g | 16 <= g < 24
      ensures forall k :: 0 <= k < |Rfc4648Groups[g]| ==> Rfc4648Values[Rfc4648Groups[g][k] as int] == Some(g)
    {
      Enumerate32(g, 16);
    }
  }

  lemma Rfc4648Members24()
    ensures forall g, k :: 24 <= g < 32 && 0 <= k < |Rfc4648Groups[g]| ==> Rfc4648Values[Rfc4648Groups[g][k] as int] == Some(g)
  {
    forall g | 24 <= g < 32
      ensures forall k :: 0 <= k < |Rfc4648Groups[g]| ==> Rfc4648Values[Rfc4648Groups[g][k] as int] == Some(g)
    {
      Enumerate32(g, 24);
    }
  }

  lemma Rfc4648Entries()
    ensures forall c :: 0 <= c < 128 && Rfc4648Values[c].Some? ==> Rfc4648Values[c].value < 32 && c as char in Rfc4648Groups[Rfc4648Values[c].value]
  {
    forall c | 0 <= c < 128 && Rfc4648Values[c].Some?
      ensures Rfc4648Values[c].value < 32 && c as char in Rfc4648Groups[Rfc4648Values[c].value]
    {
      if c < 64 {
        Enumerate64(c, 0);
      } else {
        Enumerate64(c, 64);
      }
    }
  }

  /** `rfc4648` is what the initialiser builds from its synonym groups. */
  lemma Rfc4648Checked()
    ensures Checked(Rfc4648Groups, Some('=')) == Success(Rfc4648)
  {
    Rfc4648GroupsShape();
    Rfc4648Members0();
    Rfc4648Members8();
    Rfc4648Members16();
    Rfc4648Members24();
    Rfc4648Entries();
    CheckedIs(Rfc4648Groups, Rfc4648);
  }

  /** The table of `rfc4648` inverts its characters. */
  lemma Rfc4648Inverts()
    ensures Inverts(Rfc4648Characters, Rfc4648Values)
  {
    Rfc4648GroupsShape();
    Rfc4648Members0();
    Rfc4648Members8();
    Rfc4648Members16();
    Rfc4648Members24();
    FirstsInvert(Rfc4648Groups, Rfc4648Characters, Rfc4648Values);
  }

  /** The padding character has no value in `rfc4648`. */
  lemma Rfc4648PaddingUnmapped()
    ensures Rfc4648Values['=' as int].None?
  {
  }

  /** `rfc4648` meets the conditions under which decoding undoes encoding. */
  lemma Rfc4648Fits()
    ensures |Rfc4648.characters| == 32 && Inverts(Rfc4648.characters, Rfc4648.values)
    ensures Rfc4648.padding.Some? ==> Rfc4648.padding.value !in Rfc4648.characters
  {
    assert Rfc4648.characters == Rfc4648Characters && Rfc4648.values == Rfc4648Values;
    Rfc4648Inverts();
    Rfc4648PaddingUnmapped();
    NotInverted(Rfc4648Characters, Rfc4648Values, '=');
  }

  const ZBase32Characters: seq<char> := "ybndrfg8ejkmcpqx" +
    "ot1uwisza345h769"
  const ZBase32Values: seq<Option<byte>> :=
    [None, None, None, None, None, None, None, None] +
    [None, None, None, None, None, None, None, None] +
    [None, None, None, None, None, None, None, None] +
    [None, None, None, None, None, None, None, None] +
    [None, None, None, None, None, None, None, None] +
    [None, None, None, None, None, None, None, None] +
    [None, Some(18), None, Some(25), Some(26), Some(27), Some(30), Some(29)] +
    [Some(7), Some(31), None, None, None, None, None, None] +
    [None, Some(24), Some(1), Some(12), Some(3), Some(8), Some(5), Some(6)] +
    [Some(28), Some(21), Some(9), Some(10), None, Some(11), Some(2), Some(16)] +
    [Some(13), Some(14), Some(4), Some(22), Some(17), Some(19), None, Some(20)] +
    [Some(15), Some(0), Some(23), None, None, None, None, None] +
    [None, Some(24), Some(1), Some(12), Some(3), Some(8), Some(5), Some(6)] +
    [Some(28), Some(21), Some(9), Some(10), None, Some(11), Some(2), Some(16)] +
    [Some(13), Some(14), Some(4), Some(22), Some(17), Some(19), None, Some(20)] +
    [Some(15), Some(0), Some(23), None, None, None, None, None]
  const ZBase32: Alphabet := Alphabet(ZBase32Characters, ZBase32Values, None)

  /** The synonym groups the test suite builds `zBase32` from. */
  const ZBase32Groups: seq<seq<char>> :=
    ["yY", "bB", "nN", "dD", "rR", "fF", "gG", "88"] +
    ["eE", "jJ", "kK", "mM", "cC", "pP", "qQ", "xX"] +
    ["oO", "tT", "11", "uU", "wW", "iI", "sS", "zZ"] +
    ["aA", "33", "44", "55", "hH", "77", "66", "99"]

  lemma ZBase32GroupsShape()
    ensures AllNonEmpty(ZBase32Groups) && AllGroupsAscii(ZBase32Groups) && ZBase32Characters == Firsts(ZBase32Groups)
  {
    forall g | 0 <= g < 32
      ensures |ZBase32Groups[g]| > 0 && AllAscii(ZBase32Groups[g]) && ZBase32Characters[g] == ZBase32Groups[g][0]
    {
      Enumerate32(g, 0);
    }
  }

  lemma ZBase32Members0()
    ensures forall g, k :: 0 <= g < 8 && 0 <= k < |ZBase32Groups[g]| ==> ZBase32Values[ZBase32Groups[g][k] as int] == Some(g)
  {
    forall g | 0 <= g < 8
      ensures forall k :: 0 <= k < |ZBase32Groups[g]| ==> ZBase32Values[ZBase32Groups[g][k] as int] == Some(g)
    {
      Enumerate32(g, 0);
    }
  }

  lemma ZBase32Members8()
    ensures forall g, k :: 8 <= g < 16 && 0 <= k < |ZBase32Groups[g]| ==> ZBase32Values[ZBase32Groups[g][k] as int] == Some(g)
  {
    forall g | 8 <= g < 16
      ensures forall k :: 0 <= k < |ZBase32Groups[g]| ==> ZBase32Values[ZBase32Groups[g][k] as int] == Some(g)
    {
      Enumerate32(g, 8);
    }
  }

  lemma ZBase32Members16()
    ensures forall g, k :: 16 <= g < 24 && 0 <= k < |ZBase32Groups[g]| ==> ZBase32Values[ZBase32Groups[g][k] as int] == Some(g)
  {
    forall g | 16 <= g < 24
      ensures forall k :: 0 <= k < |ZBase32Groups[g]| ==> ZBase32Values[ZBase32Groups[g][k] as int] == Some(g)
    {
      Enumerate32(g, 16);
    }
  }

  lemma ZBase32Members24()
    ensures forall g, k :: 24 <= g < 32 && 0 <= k < |ZBase32Groups[g]| ==> ZBase32Values[ZBase32Groups[g][k] as int] == Some(g)
  {
    forall g | 24 <= g < 32
      ensures forall k :: 0 <= k < |ZBase32Groups[g]| ==> ZBase32Values[ZBase32Groups[g][k] as int] == Some(g)
    {
      Enumerate32(g, 24);
    }
  }

  lemma ZBase32Entries()
    ensures forall c :: 0 <= c < 128 && ZBase32Values[c].Some? ==> ZBase32Values[c].value < 32 && c as char in ZBase32Groups[ZBase32Values[c].value]
  {
    forall c | 0 <= c < 128 && ZBase32Values[c].Some?
      ensures ZBase32Values[c].value < 32 && c as char in ZBase32Groups[ZBase32Values[c].value]
    {
      if c < 64 {
        Enumerate64(c, 0);
      } else {
        Enumerate64(c, 64);
      }
    }
  }

  /** `zBase32` is what the initialiser builds from its synonym groups. */
  lemma ZBase32Checked()
    ensures Checked(ZBase32Groups, None) == Success(ZBase32)
  {
    ZBase32GroupsShape();
    ZBase32Members0();
    ZBase32Members8();
    ZBase32Members16();
    ZBase32Members24();
    ZBase32Entries();
    CheckedIs(ZBase32Groups, ZBase32);
  }

  /** The table of `zBase32` inverts its characters. */
  lemma ZBase32Inverts()
    ensures Inverts(ZBase32Characters, ZBase32Values)
  {
    ZBase32GroupsShape();
    ZBase32Members0();
    ZBase32Members8();
    ZBase32Members16();
    ZBase32Members24();
    FirstsInvert(ZBase32Groups, ZBase32Characters, ZBase32Values);
  }

  /** `zBase32` meets the conditions under which decoding undoes encoding. */
  lemma ZBase32Fits()
    ensures |ZBase32.characters| == 32 && Inverts(ZBase32.characters, ZBase32.values)
    ensures ZBase32.padding.Some? ==> ZBase32.padding.value !in ZBase32.characters
  {
    assert ZBase32.characters == ZBase32Characters && ZBase32.values == ZBase32Values;
    ZBase32Inverts();
  }

  const CrockfordCharacters: seq<char> := "0123456789ABCDEF" +
    "GHJKMNPQRSTVWXYZ"
  const CrockfordValues: seq<Option<byte>> :=
    [None, None, None, None, None, None, None, None] +
    [None, None, None, None, None, None, None, None] +
    [None, None, None, None, None, None, None, None] +
    [None, None, None, None, None, None, None, None] +
    [None, None, None, None, None, None, None, None] +
    [None, None, None, None, None, None, None, None] +
    [Some(0), Some(1), Some(2), Some(3), Some(4), Some(5), Some(6), Some(7)] +
    [Some(8), Some(9), None, None, None, None, None, None] +
    [None, Some(10), Some(11), Some(12), Some(13), Some(14), Some(15), Some(16)] +
    [Some(17), Some(1), Some(18), Some(19), Some(1), Some(20), Some(21), Some(0)] +
    [Some(22), Some(23), Some(24), Some(25), Some(26), None, Some(27), Some(28)] +
    [Some(29), Some(30), Some(31), None, None, None, None, None] +
    [None, Some(10), Some(11), Some(12), Some(13), Some(14), Some(15), Some(16)] +
    [Some(17), Some(1), Some(18), Some(19), Some(1), Some(20), Some(21), Some(0)] +
    [Some(22), Some(23), Some(24), Some(25), Some(26), None, Some(27), Some(28)] +
    [Some(29), Some(30), Some(31), None, None, None, None, None]
  const Crockford: Alphabet := Alphabet(CrockfordCharacters, CrockfordValues, None)

  /** The synonym groups the test suite builds `crockford` from. */
  const CrockfordGroups: seq<seq<char>> :=
    ["0oO", "1iIlL", "22", "33", "44", "55", "66", "77"] +
    ["88", "99", "Aa", "Bb", "Cc", "Dd", "Ee", "Ff"] +
    ["Gg", "Hh", "Jj", "Kk", "Mm", "Nn", "Pp", "Qq"] +
    ["Rr", "Ss", "Tt", "Vv", "Ww", "Xx", "Yy", "Zz"]

  lemma CrockfordGroupsShape()
    ensures AllNonEmpty(CrockfordGroups) && AllGroupsAscii(CrockfordGroups) && CrockfordCharacters == Firsts(CrockfordGroups)
  {
    forall g | 0 <= g < 32
      ensures |CrockfordGroups[g]| > 0 && AllAscii(CrockfordGroups[g]) && CrockfordCharacters[g] == CrockfordGroups[g][0]
    {
      Enumerate32(g, 0);
    }
  }

  lemma CrockfordMembers0()
    ensures forall g, k :: 0 <= g < 8 && 0 <= k < |CrockfordGroups[g]| ==> CrockfordValues[CrockfordGroups[g][k] as int] == Some(g)
  {
    forall g | 0 <= g < 8
      ensures forall k :: 0 <= k < |CrockfordGroups[g]| ==> CrockfordValues[CrockfordGroups[g][k] as int] == Some(g)
    {
      Enumerate32(g, 0);
    }
  }

  lemma CrockfordMembers8()
    ensures forall g, k :: 8 <= g < 16 && 0 <= k < |CrockfordGroups[g]| ==> CrockfordValues[CrockfordGroups[g][k] as int] == Some(g)
  {
    forall g | 8 <= g < 16
      ensures forall k :: 0 <= k < |CrockfordGroups[g]| ==> CrockfordValues[CrockfordGroups[g][k] as int] == Some(g)
    {
      Enumerate32(g, 8);
    }
  }

  lemma CrockfordMembers16()
    ensures forall g, k :: 16 <= g < 24 && 0 <= k < |CrockfordGroups[g]| ==> CrockfordValues[CrockfordGroups[g][k] as int] == Some(g)
  {
    forall g | 16 <= g < 24
      ensures forall k :: 0 <= k < |CrockfordGroups[g]| ==> CrockfordValues[CrockfordGroups[g][k] as int] == Some(g)
    {
      Enumerate32(g, 16);
    }
  }

  lemma CrockfordMembers24()
    ensures forall g, k :: 24 <= g < 32 && 0 <= k < |CrockfordGroups[g]| ==> CrockfordValues[CrockfordGroups[g][k] as int] == Some(g)
  {
    forall g | 24 <= g < 32
      ensures forall k :: 0 <= k < |CrockfordGroups[g]| ==> CrockfordValues[CrockfordGroups[g][k] as int] == Some(g)
    {
      Enumerate32(g, 24);
    }
  }

  lemma CrockfordEntries()
    ensures forall c :: 0 <= c < 128 && CrockfordValues[c].Some? ==> CrockfordValues[c].value < 32 && c as char in CrockfordGroups[CrockfordValues[c].value]
  {
    forall c | 0 <= c < 128 && CrockfordValues[c].Some?
      ensures CrockfordValues[c].value < 32 && c as char in CrockfordGroups[CrockfordValues[c].value]
    {
      if c < 64 {
        Enumerate64(c, 0);
      } else {
        Enumerate64(c, 64);
      }
    }
  }

  /** `crockford` is what the initialiser builds from its synonym groups. */
  lemma CrockfordChecked()
    ensures Checked(CrockfordGroups, None) == Success(Crockford)
  {
    CrockfordGroupsShape();
    CrockfordMembers0();
    CrockfordMembers8();
    CrockfordMembers16();
    CrockfordMembers24();
    CrockfordEntries();
    CheckedIs(CrockfordGroups, Crockford);
  }

  /** The table of `crockford` inverts its characters. */
  lemma CrockfordInverts()
    ensures Inverts(CrockfordCharacters, CrockfordValues)
  {
    CrockfordGroupsShape();
    CrockfordMembers0();
    CrockfordMembers8();
    CrockfordMembers16();
    CrockfordMembers24();
    FirstsInvert(CrockfordGroups, CrockfordCharacters, CrockfordValues);
  }

  /** `crockford` meets the conditions under which decoding undoes encoding. */
  lemma CrockfordFits()
    ensures |Crockford.characters| == 32 && Inverts(Crockford.characters, Crockford.values)
    ensures Crockford.padding.Some? ==> Crockford.padding.value !in Crockford.characters
  {
    assert Crockford.characters == CrockfordCharacters && Crockford.values == CrockfordValues;
    CrockfordInverts();
  }

  const Base32hexCharacters: seq<char> := "0123456789ABCDEF" +
    "GHIJKLMNOPQRSTUV"
  const Base32hexValues: seq<Option<byte>> :=
    [None, None, None, None, None, None, None, None] +
    [None, None, None, None, None, None, None, None] +
    [None, None, None, None, None, None, None, None] +
    [None, None, None, None, None, None, None, None] +
    [None, None, None, None, None, None, None, None] +
    [None, None, None, None, None, None, None, None] +
    [Some(0), Some(1), Some(2), Some(3), Some(4), Some(5), Some(6), Some(7)] +
    [Some(8), Some(9), None, None, None, None, None, None] +
    [None, Some(10), Some(11), Some(12), Some(13), Some(14), Some(15), Some(16)] +
    [Some(17), Some(18), Some(19), Some(20), Some(21), Some(22), Some(23), Some(24)] +
    [Some(25), Some(26), Some(27), Some(28), Some(29), Some(30), Some(31), None] +
    [None, None, None, None, None, None, None, None] +
    [None, Some(10), Some(11), Some(12), Some(13), Some(14), Some(15), Some(16)] +
    [Some(17), Some(18), Some(19), Some(20), Some(21), Some(22), Some(23), Some(24)] +
    [Some(25), Some(26), Some(27), Some(28), Some(29), Some(30), Some(31), None] +
    [None, None, None, None, None, None, None, None]
  const Base32hex: Alphabet := Alphabet(Base32hexCharacters, Base32hexValues, Some('='))

  /** The synonym groups the test suite builds `base32hex` from. */
  const Base32hexGroups: seq<seq<char>> :=
    ["00", "11", "22", "33", "44", "55", "66", "77"] +
    ["88", "99", "Aa", "Bb", "Cc", "Dd", "Ee", "Ff"] +
    ["Gg", "Hh", "Ii", "Jj", "Kk", "Ll", "Mm", "Nn"] +
    ["Oo", "Pp", "Qq", "Rr", "Ss", "Tt", "Uu", "Vv"]

  lemma Base32hexGroupsShape()
    ensures AllNonEmpty(Base32hexGroups) && AllGroupsAscii(Base32hexGroups) && Base32hexCharacters == Firsts(Base32hexGroups)
  {
    forall g | 0 <= g < 32
      ensures |Base32hexGroups[g]| > 0 && AllAscii(Base32hexGroups[g]) && Base32hexCharacters[g] == Base32hexGroups[g][0]
    {
      Enumerate32(g, 0);
    }
  }

  lemma Base32hexMembers0()
    ensures forall g, k :: 0 <= g < 8 && 0 <= k < |Base32hexGroups[g]| ==> Base32hexValues[Base32hexGroups[g][k] as int] == Some(g)
  {
    forall g | 0 <= g < 8
      ensures forall k :: 0 <= k < |Base32hexGroups[g]| ==> Base32hexValues[Base32hexGroups[g][k] as int] == Some(g)
    {
      Enumerate32(g, 0);
    }
  }

  lemma Base32hexMembers8()
    ensures forall g, k :: 8 <= g < 16 && 0 <= k < |Base32hexGroups[g]| ==> Base32hexValues[Base32hexGroups[g][k] as int] == Some(g)
  {
    forall g | 8 <= g < 16
      ensures forall k :: 0 <= k < |Base32hexGroups[g]| ==> Base32hexValues[Base32hexGroups[g][k] as int] == Some(g)
    {
      Enumerate32(g, 8);
    }
  }

  lemma Base32hexMembers16()
    ensures forall g, k :: 16 <= g < 24 && 0 <= k < |Base32hexGroups[g]| ==> Base32hexValues[Base32hexGroups[g][k] as int] == Some(g)
  {
    forall g | 16 <= g < 24
      ensures forall k :: 0 <= k < |Base32hexGroups[g]| ==> Base32hexValues[Base32hexGroups[g][k] as int] == Some(g)
    {
      Enumerate32(g, 16);
    }
  }

  lemma Base32hexMembers24()
    ensures forall g, k :: 24 <= g < 32 && 0 <= k < |Base32hexGroups[g]| ==> Base32hexValues[Base32hexGroups[g][k] as int] == Some(g)
  {
    forall g | 24 <= g < 32
      ensures forall k :: 0 <= k < |Base32hexGroups[g]| ==> Base32hexValues[Base32hexGroups[g][k] as int] == Some(g)
    {
      Enumerate32(g, 24);
    }
  }

  lemma Base32hexEntries()
    ensures forall c :: 0 <= c < 128 && Base32hexValues[c].Some? ==> Base32hexValues[c].value < 32 && c as char in Base32hexGroups[Base32hexValues[c].value]
  {
    forall c | 0 <= c < 128 && Base32hexValues[c].Some?
      ensures Base32hexValues[c].value < 32 && c as char in Base32hexGroups[Base32hexValues[c].value]
    {
      if c < 64 {
        Enumerate64(c, 0);
      } else {
        Enumerate64(c, 64);
      }
    }
  }

  /** `base32hex` is what the initialiser builds from its synonym groups. */
  lemma Base32hexChecked()
    ensures Checked(Base32hexGroups, Some('=')) == Success(Base32hex)
  {
    Base32hexGroupsShape();
    Base32hexMembers0();
    Base32hexMembers8();
    Base32hexMembers16();
    Base32hexMembers24();
    Base32hexEntries();
    CheckedIs(Base32hexGroups, Base32hex);
  }

  /** The table of `base32hex` inverts its characters. */
  lemma Base32hexInverts()
    ensures Inverts(Base32hexCharacters, Base32hexValues)
  {
    Base32hexGroupsShape();
    Base32hexMembers0();
    Base32hexMembers8();
    Base32hexMembers16();
    Base32hexMembers24();
    FirstsInvert(Base32hexGroups, Base32hexCharacters, Base32hexValues);
  }

  /** The padding character has no value in `base32hex`. */
  lemma Base32hexPaddingUnmapped()
    ensures Base32hexValues['=' as int].None?
  {
  }

  /** `base32hex` meets the conditions under which decoding undoes encoding. */
  lemma Base32hexFits()
    ensures |Base32hex.characters| == 32 && Inverts(Base32hex.characters, Base32hex.values)
    ensures Base32hex.padding.Some? ==> Base32hex.padding.value !in Base32hex.characters
  {
    assert Base32hex.characters == Base32hexCharacters && Base32hex.values == Base32hexValues;
    Base32hexInverts();
    Base32hexPaddingUnmapped();
    NotInverted(Base32hexCharacters, Base32hexValues, '=');
  }

  const GeohashCharacters: seq<char> := "0123456789bcdefg" +
    "hjkmnpqrstuvwxyz"
  const GeohashValues: seq<Option<byte>> :=
    [None, None, None, None, None, None, None, None] +
    [None, None, None, None, None, None, None, None] +
    [None, None, None, None, None, None, None, None] +
    [None, None, None, None, None, None, None, None] +
    [None, None, None, None, None, None, None, None] +
    [None, None, None, None, None, None, None, None] +
    [Some(0), Some(1), Some(2), Some(3), Some(4), Some(5), Some(6), Some(7)] +
    [Some(8), Some(9), None, None, None, None, None, None] +
    [None, None, Some(10), Some(11), Some(12), Some(13), Some(14), Some(15)] +
    [Some(16), None, Some(17), Some(18), None, Some(19), Some(20), None] +
    [Some(21), Some(22), Some(23), Some(24), Some(25), Some(26), Some(27), Some(28)] +
    [Some(29), Some(30), Some(31), None, None, None, None, None] +
    [None, None, Some(10), Some(11), Some(12), Some(13), Some(14), Some(15)] +
    [Some(16), None, Some(17), Some(18), None, Some(19), Some(20), None] +
    [Some(21), Some(22), Some(23), Some(24), Some(25), Some(26), Some(27), Some(28)] +
    [Some(29), Some(30), Some(31), None, None, None, None, None]
  const Geohash: Alphabet := Alphabet(GeohashCharacters, GeohashValues, None)

  /** The synonym groups the test suite builds `geohash` from. */
  const GeohashGroups: seq<seq<char>> :=
    ["00", "11", "22", "33", "44", "55", "66", "77"] +
    ["88", "99", "bB", "cC", "dD", "eE", "fF", "gG"] +
    ["hH", "jJ", "kK", "mM", "nN", "pP", "qQ", "rR"] +
    ["sS", "tT", "uU", "vV", "wW", "xX", "yY", "zZ"]

  lemma GeohashGroupsShape()
    ensures AllNonEmpty(GeohashGroups) && AllGroupsAscii(GeohashGroups) && GeohashCharacters == Firsts(GeohashGroups)
  {
    forall g | 0 <= g < 32
      ensures |GeohashGroups[g]| > 0 && AllAscii(GeohashGroups[g]) && GeohashCharacters[g] == GeohashGroups[g][0]
    {
      Enumerate32(g, 0);
    }
  }

  lemma GeohashMembers0()
    ensures forall g, k :: 0 <= g < 8 && 0 <= k < |GeohashGroups[g]| ==> GeohashValues[GeohashGroups[g][k] as int] == Some(g)
  {
    forall g | 0 <= g < 8
      ensures forall k :: 0 <= k < |GeohashGroups[g]| ==> GeohashValues[GeohashGroups[g][k] as int] == Some(g)
    {
      Enumerate32(g, 0);
    }
  }

  lemma GeohashMembers8()
    ensures forall g, k :: 8 <= g < 16 && 0 <= k < |GeohashGroups[g]| ==> GeohashValues[GeohashGroups[g][k] as int] == Some(g)
  {
    forall g | 8 <= g < 16
      ensures forall k :: 0 <= k < |GeohashGroups[g]| ==> GeohashValues[GeohashGroups[g][k] as int] == Some(g)
    {
      Enumerate32(g, 8);
    }
  }

  lemma GeohashMembers16()
    ensures forall g, k :: 16 <= g < 24 && 0 <= k < |GeohashGroups[g]| ==> GeohashValues[GeohashGroups[g][k] as int] == Some(g)
  {
    forall g | 16 <= g < 24
      ensures forall k :: 0 <= k < |GeohashGroups[g]| ==> GeohashValues[GeohashGroups[g][k] as int] == Some(g)
    {
      Enumerate32(g, 16);
    }
  }

  lemma GeohashMembers24()
    ensures forall g, k :: 24 <= g < 32 && 0 <= k < |GeohashGroups[g]| ==> GeohashValues[GeohashGroups[g][k] as int] == Some(g)
  {
    forall g | 24 <= g < 32
      ensures forall k :: 0 <= k < |GeohashGroups[g]| ==> GeohashValues[GeohashGroups[g][k] as int] == Some(g)
    {
      Enumerate32(g, 24);
    }
  }

  lemma GeohashEntries()
    ensures forall c :: 0 <= c < 128 && GeohashValues[c].Some? ==> GeohashValues[c].value < 32 && c as char in GeohashGroups[GeohashValues[c].value]
  {
    forall c | 0 <= c < 128 && GeohashValues[c].Some?
      ensures GeohashValues[c].value < 32 && c as char in GeohashGroups[GeohashValues[c].value]
    {
      if c < 64 {
        Enumerate64(c, 0);
      } else {
        Enumerate64(c, 64);
      }
    }
  }

  /** `geohash` is what the initialiser builds from its synonym groups. */
  lemma GeohashChecked()
    ensures Checked(GeohashGroups, None) == Success(Geohash)
  {
    GeohashGroupsShape();
    GeohashMembers0();
    GeohashMembers8();
    GeohashMembers16();
    GeohashMembers24();
    GeohashEntries();
    CheckedIs(GeohashGroups, Geohash);
  }

  /** The table of `geohash` inverts its characters. */
  lemma GeohashInverts()
    ensures Inverts(GeohashCharacters, GeohashValues)
  {
    GeohashGroupsShape();
    GeohashMembers0();
    GeohashMembers8();
    GeohashMembers16();
    GeohashMembers24();
    FirstsInvert(GeohashGroups, GeohashCharacters, GeohashValues);
  }

  /** `geohash` meets the conditions under which decoding undoes encoding. */
  lemma GeohashFits()
    ensures |Geohash.characters| == 32 && Inverts(Geohash.characters, Geohash.values)
    ensures Geohash.padding.Some? ==> Geohash.padding.value !in Geohash.characters
  {
    assert Geohash.characters == GeohashCharacters && Geohash.values == GeohashValues;
    GeohashInverts();
  }

  const WordSafeCharacters: seq<char> := "23456789CFGHJMPQ" +
    "RVWXcfghjmpqrvwx"
  const WordSafeValues: seq<Option<byte>> :=
    [None, None, None, None, None, None, None, None] +
    [None, None, None, None, None, None, None, None] +
    [None, None, None, None, None, None, None, None] +
    [None, None, None, None, None, None, None, None] +
    [None, None, None, None, None, None, None, None] +
    [None, None, None, None, None, None, None, None] +
    [None, None, Some(0), Some(1), Some(2), Some(3), Some(4), Some(5)] +
    [Some(6), Some(7), None, None, None, None, None, None] +
    [None, None, None, Some(8), None, None, Some(9), Some(10)] +
    [Some(11), None, Some(12), None, None, Some(13), None, None] +
    [Some(14), Some(15), Some(16), None, None, None, Some(17), Some(18)] +
    [Some(19), None, None, None, None, None, None, None] +
    [None, None, None, Some(20), None, None, Some(21), Some(22)] +
    [Some(23), None, Some(24), None, None, Some(25), None, None] +
    [Some(26), Some(27), Some(28), None, None, None, Some(29), Some(30)] +
    [Some(31), None, None, None, None, None, None, None]
  const WordSafe: Alphabet := Alphabet(WordSafeCharacters, WordSafeValues, None)

  /** The synonym groups the test suite builds `wordSafe` from. */
  const WordSafeGroups: seq<seq<char>> :=
    ["2", "3", "4", "5", "6", "7", "8", "9"] +
    ["C", "F", "G", "H", "J", "M", "P", "Q"] +
    ["R", "V", "W", "X", "c", "f", "g", "h"] +
    ["j", "m", "p", "q", "r", "v", "w", "x"]

  lemma WordSafeGroupsShape()
    ensures AllNonEmpty(WordSafeGroups) && AllGroupsAscii(WordSafeGroups) && WordSafeCharacters == Firsts(WordSafeGroups)
  {
    forall g | 0 <= g < 32
      ensures |WordSafeGroups[g]| > 0 && AllAscii(WordSafeGroups[g]) && WordSafeCharacters[g] == WordSafeGroups[g][0]
    {
      Enumerate32(g, 0);
    }
  }

  lemma WordSafeMembers0()
    ensures forall g, k :: 0 <= g < 8 && 0 <= k < |WordSafeGroups[g]| ==> WordSafeValues[WordSafeGroups[g][k] as int] == Some(g)
  {
    forall g | 0 <= g < 8
      ensures forall k :: 0 <= k < |WordSafeGroups[g]| ==> WordSafeValues[WordSafeGroups[g][k] as int] == Some(g)
    {
      Enumerate32(g, 0);
    }
  }

  lemma WordSafeMembers8()
    ensures forall g, k :: 8 <= g < 16 && 0 <= k < |WordSafeGroups[g]| ==> WordSafeValues[WordSafeGroups[g][k] as int] == Some(g)
  {
    forall g | 8 <= g < 16
      ensures forall k :: 0 <= k < |WordSafeGroups[g]| ==> WordSafeValues[WordSafeGroups[g][k] as int] == Some(g)
    {
      Enumerate32(g, 8);
    }
  }

  lemma WordSafeMembers16()
    ensures forall g, k :: 16 <= g < 24 && 0 <= k < |WordSafeGroups[g]| ==> WordSafeValues[WordSafeGroups[g][k] as int] == Some(g)
  {
    forall g | 16 <= g < 24
      ensures forall k :: 0 <= k < |WordSafeGroups[g]| ==> WordSafeValues[WordSafeGroups[g][k] as int] == Some(g)
    {
      Enumerate32(g, 16);
    }
  }

  lemma WordSafeMembers24()
    ensures forall g, k :: 24 <= g < 32 && 0 <= k < |WordSafeGroups[g]| ==> WordSafeValues[WordSafeGroups[g][k] as int] == Some(g)
  {
    forall g | 24 <= g < 32
      ensures forall k :: 0 <= k < |WordSafeGroups[g]| ==> WordSafeValues[WordSafeGroups[g][k] as int] == Some(g)
    {
      Enumerate32(g, 24);
    }
  }

  lemma WordSafeEntries()
    ensures forall c :: 0 <= c < 128 && WordSafeValues[c].Some? ==> WordSafeValues[c].value < 32 && c as char in WordSafeGroups[WordSafeValues[c].value]
  {
    forall c | 0 <= c < 128 && WordSafeValues[c].Some?
      ensures WordSafeValues[c].value < 32 && c as char in WordSafeGroups[WordSafeValues[c].value]
    {
      if c < 64 {
        Enumerate64(c, 0);
      } else {
        Enumerate64(c, 64);
      }
    }
  }

  /** `wordSafe` is what the initialiser builds from its synonym groups. */
  lemma WordSafeChecked()
    ensures Checked(WordSafeGroups, None) == Success(WordSafe)
  {
    WordSafeGroupsShape();
    WordSafeMembers0();
    WordSafeMembers8();
    WordSafeMembers16();
    WordSafeMembers24();
    WordSafeEntries();
    CheckedIs(WordSafeGroups, WordSafe);
  }

  /** The table of `wordSafe` inverts its characters. */
  lemma WordSafeInverts()
    ensures Inverts(WordSafeCharacters, WordSafeValues)
  {
    WordSafeGroupsShape();
    WordSafeMembers0();
    WordSafeMembers8();
    WordSafeMembers16();
    WordSafeMembers24();
    FirstsInvert(WordSafeGroups, WordSafeCharacters, WordSafeValues);
  }

  /** `wordSafe` meets the conditions under which decoding undoes encoding. */
  lemma WordSafeFits()
    ensures |WordSafe.characters| == 32 && Inverts(WordSafe.characters, WordSafe.values)
    ensures WordSafe.padding.Some? ==> WordSafe.padding.value !in WordSafe.characters
  {
    assert WordSafe.characters == WordSafeCharacters && WordSafe.values == WordSafeValues;
    WordSafeInverts();
  }
  // ----- Properties of the built-in alphabets -----

  /** Only `rfc4648` and `base32hex` pad, both with "=". */
  lemma Paddings()
    ensures Rfc4648.padding == Some('=') && Base32hex.padding == Some('=')
    ensures ZBase32.padding.None? && Crockford.padding.None? && Geohash.padding.None? && WordSafe.padding.None?
  {
  }

  /** Every built-in alphabet decodes what it encodes. */
  lemma BuiltInRoundTrips(data: seq<byte>)
    ensures Decoded(Rfc4648, Encoded(Rfc4648, data)) == Success(data)
    ensures Decoded(ZBase32, Encoded(ZBase32, data)) == Success(data)
    ensures Decoded(Crockford, Encoded(Crockford, data)) == Success(data)
    ensures Decoded(Base32hex, Encoded(Base32hex, data)) == Success(data)
    ensures Decoded(Geohash, Encoded(Geohash, data)) == Success(data)
    ensures Decoded(WordSafe, Encoded(WordSafe, data)) == Success(data)
  {
    assert Decoded(Rfc4648, Encoded(Rfc4648, data)) == Success(data) by {
      Rfc4648Fits();
      RoundTrip(Rfc4648, data);
    }
    assert Decoded(ZBase32, Encoded(ZBase32, data)) == Success(data) by {
      ZBase32Fits();
      RoundTrip(ZBase32, data);
    }
    assert Decoded(Crockford, Encoded(Crockford, data)) == Success(data) by {
      CrockfordFits();
      RoundTrip(Crockford, data);
    }
    assert Decoded(Base32hex, Encoded(Base32hex, data)) == Success(data) by {
      Base32hexFits();
      RoundTrip(Base32hex, data);
    }
    assert Decoded(Geohash, Encoded(Geohash, data)) == Success(data) by {
      GeohashFits();
      RoundTrip(Geohash, data);
    }
    assert Decoded(WordSafe, Encoded(WordSafe, data)) == Success(data) by {
      WordSafeFits();
      RoundTrip(WordSafe, data);
    }
  }

  /** `rfc4648` reads a lower-case letter as its upper-case form. */
  lemma Rfc4648IgnoresCase()
    ensures forall c :: 'A' as int <= c <= 'Z' as int ==> Rfc4648.values[c].Some? && Rfc4648.values[c + 32] == Rfc4648.values[c]
  {
    Rfc4648Members0();
    Rfc4648Members8();
    Rfc4648Members16();
    Rfc4648Members24();
    forall c | 'A' as int <= c <= 'Z' as int
      ensures Rfc4648Values[c].Some? && Rfc4648Values[c + 32] == Rfc4648Values[c]
    {
      var g := c - 'A' as int;
      Enumerate32(g, 0);
      assert Rfc4648Groups[g][0] as int == c && Rfc4648Groups[g][1] as int == c + 32;
    }
  }

  /** Crockford's reading of look-alike letters: I, i, L and l are 1, O and o are 0, U is not a digit. */
  lemma CrockfordLookAlikes()
    ensures Crockford.values['I' as int] == Crockford.values['i' as int] == Some(1)
    ensures Crockford.values['L' as int] == Crockford.values['l' as int] == Some(1)
    ensures Crockford.values['O' as int] == Crockford.values['o' as int] == Some(0)
    ensures Crockford.values['U' as int].None? && Crockford.values['u' as int].None?
  {
    assert Crockford.values == CrockfordValues;
  }

  /** Geohash has no a, i, l or o in either case. */
  lemma GeohashGaps()
    ensures forall c :: c in "aAiIlLoO" ==> Geohash.values[c as int].None?
  {
    assert Geohash.values == GeohashValues;
  }

  // ----- Test vectors of section 10 of RFC 4648 -----

  /** "f" and "foobar" zero-padded to whole groups. */
  const FPadded: seq<byte> := [102, 0, 0, 0, 0]
  const FoobarPadded: seq<byte> := [102, 111, 111, 98, 97] + [114, 0, 0, 0, 0]

  /** Their 5-bit values. */
  const FSymbols: seq<byte> := [12, 24, 0, 0, 0, 0, 0, 0]
  const FoobarSymbols: seq<byte> := [12, 25, 23, 22, 30, 24, 19, 1] + [14, 8, 0, 0, 0, 0, 0, 0]

  /** The 5-bit values of "f". */
  lemma FGroups()
    ensures Symbols(Padded(F)) == FSymbols
  {
    assert Padded(F) == FPadded by {
      assert FillCount(1, 5) == 4;
    }
    OneGroupSymbols(FPadded, FSymbols);
  }

  /** The 5-bit values of "foobar". */
  lemma FoobarGroups()
    ensures Symbols(Padded(Foobar)) == FoobarSymbols
  {
    assert Padded(Foobar) == FoobarPadded by {
      assert FillCount(6, 5) == 4;
    }
    TwoGroupsSymbols(FoobarPadded, FoobarSymbols);
  }

  /** The 5-bit values of "f", written with the `rfc4648` characters. */
  lemma Rfc4648FSpelled()
    ensures Spell(Rfc4648Characters, FSymbols) == "MYAAAAAA"
  {
  }

  /** "f" is "MY======" in `rfc4648` when encoding. */
  lemma Rfc4648F()
    ensures Encoded(Rfc4648, F) == "MY======"
  {
    assert Rfc4648.characters == Rfc4648Characters && Rfc4648.padding == Some('=');
    FGroups();
    Rfc4648FSpelled();
    assert FillCount(1, 5) * 8 / 5 == 6;
    EncodedFrom(Rfc4648, F, "MYAAAAAA", "MY");
    assert Repeat('=', 6) == "======";
  }

  /** "MY======" decodes back to the same bytes. */
  lemma Rfc4648FDecoded()
    ensures Decoded(Rfc4648, "MY======") == Success(F)
  {
    Rfc4648F();
    Rfc4648Fits();
    RoundTrip(Rfc4648, F);
  }

  /** The 5-bit values of "foobar", written with the `rfc4648` characters. */
  lemma Rfc4648FoobarSpelled()
    ensures Spell(Rfc4648Characters, FoobarSymbols) == "MZXW6YTBOIAAAAAA"
  {
  }

  /** "foobar" is "MZXW6YTBOI======" in `rfc4648` when encoding. */
  lemma Rfc4648Foobar()
    ensures Encoded(Rfc4648, Foobar) == "MZXW6YTBOI======"
  {
    assert Rfc4648.characters == Rfc4648Characters && Rfc4648.padding == Some('=');
    FoobarGroups();
    Rfc4648FoobarSpelled();
    assert FillCount(6, 5) * 8 / 5 == 6;
    EncodedFrom(Rfc4648, Foobar, "MZXW6YTBOIAAAAAA", "MZXW6YTBOI");
    assert Repeat('=', 6) == "======";
  }

  /** "MZXW6YTBOI======" decodes back to the same bytes. */
  lemma Rfc4648FoobarDecoded()
    ensures Decoded(Rfc4648, "MZXW6YTBOI======") == Success(Foobar)
  {
    Rfc4648Foobar();
    Rfc4648Fits();
    RoundTrip(Rfc4648, Foobar);
  }

  /** The 5-bit values of "f", written with the `base32hex` characters. */
  lemma Base32hexFSpelled()
    ensures Spell(Base32hexCharacters, FSymbols) == "CO000000"
  {
  }

  /** "f" is "CO======" in `base32hex` when encoding. */
  lemma Base32hexF()
    ensures Encoded(Base32hex, F) == "CO======"
  {
    assert Base32hex.characters == Base32hexCharacters && Base32hex.padding == Some('=');
    FGroups();
    Base32hexFSpelled();
    assert FillCount(1, 5) * 8 / 5 == 6;
    EncodedFrom(Base32hex, F, "CO000000", "CO");
    assert Repeat('=', 6) == "======";
  }

  /** "CO======" decodes back to the same bytes. */
  lemma Base32hexFDecoded()
    ensures Decoded(Base32hex, "CO======") == Success(F)
  {
    Base32hexF();
    Base32hexFits();
    RoundTrip(Base32hex, F);
  }

  /** The 5-bit values of "foobar", written with the `base32hex` characters. */
  lemma Base32hexFoobarSpelled()
    ensures Spell(Base32hexCharacters, FoobarSymbols) == "CPNMUOJ1E8000000"
  {
  }

  /** "foobar" is "CPNMUOJ1E8======" in `base32hex` when encoding. */
  lemma Base32hexFoobar()
    ensures Encoded(Base32hex, Foobar) == "CPNMUOJ1E8======"
  {
    assert Base32hex.characters == Base32hexCharacters && Base32hex.padding == Some('=');
    FoobarGroups();
    Base32hexFoobarSpelled();
    assert FillCount(6, 5) * 8 / 5 == 6;
    EncodedFrom(Base32hex, Foobar, "CPNMUOJ1E8000000", "CPNMUOJ1E8");
    assert Repeat('=', 6) == "======";
  }

  /** "CPNMUOJ1E8======" decodes back to the same bytes. */
  lemma Base32hexFoobarDecoded()
    ensures Decoded(Base32hex, "CPNMUOJ1E8======") == Success(Foobar)
  {
    Base32hexFoobar();
    Base32hexFits();
    RoundTrip(Base32hex, Foobar);
  }

  // ----- The other test vectors of the test suite: "", "fo", "foo", "foob" and "fooba" -----

  /** "fo" zero-filled to a whole group, and its 5-bit values. */
  const FoPadded: seq<byte> := [102, 111, 0, 0, 0]
  const FoSymbols: seq<byte> := [12, 25, 23, 16, 0, 0, 0, 0]

  /** The 5-bit values of "fo". */
  lemma FoGroups()
    ensures Symbols(Padded(Fo)) == FoSymbols
  {
    assert Padded(Fo) == FoPadded by {
      assert FillCount(2, 5) == 3;
    }
    OneGroupSymbols(FoPadded, FoSymbols);
  }

  /** The 5-bit values of "fo", written with the `rfc4648` characters. */
  lemma Rfc4648FoSpelled()
    ensures Spell(Rfc4648Characters, FoSymbols) == "MZXQAAAA"
  {
  }

  /** "fo" is "MZXQ====" in `rfc4648` when encoding. */
  lemma Rfc4648Fo()
    ensures Encoded(Rfc4648, Fo) == "MZXQ===="
  {
    assert Rfc4648.characters == Rfc4648Characters && Rfc4648.padding == Some('=');
    FoGroups();
    Rfc4648FoSpelled();
    assert FillCount(2, 5) * 8 / 5 == 4;
    EncodedFrom(Rfc4648, Fo, "MZXQAAAA", "MZXQ");
    assert Repeat('=', 4) == "====";
  }

  /** The 5-bit values of "fo", written with the `base32hex` characters. */
  lemma Base32hexFoSpelled()
    ensures Spell(Base32hexCharacters, FoSymbols) == "CPNG0000"
  {
  }

  /** "fo" is "CPNG====" in `base32hex` when encoding. */
  lemma Base32hexFo()
    ensures Encoded(Base32hex, Fo) == "CPNG===="
  {
    assert Base32hex.characters == Base32hexCharacters && Base32hex.padding == Some('=');
    FoGroups();
    Base32hexFoSpelled();
    assert FillCount(2, 5) * 8 / 5 == 4;
    EncodedFrom(Base32hex, Fo, "CPNG0000", "CPNG");
    assert Repeat('=', 4) == "====";
  }

  /** "foo" zero-filled to a whole group, and its 5-bit values. */
  const FooPadded: seq<byte> := [102, 111, 111, 0, 0]
  const FooSymbols: seq<byte> := [12, 25, 23, 22, 30, 0, 0, 0]

  /** The 5-bit values of "foo". */
  lemma FooGroups()
    ensures Symbols(Padded(Foo)) == FooSymbols
  {
    assert Padded(Foo) == FooPadded by {
      assert FillCount(3, 5) == 2;
    }
    OneGroupSymbols(FooPadded, FooSymbols);
  }

  /** The 5-bit values of "foo", written with the `rfc4648` characters. */
  lemma Rfc4648FooSpelled()
    ensures Spell(Rfc4648Characters, FooSymbols) == "MZXW6AAA"
  {
  }

  /** "foo" is "MZXW6===" in `rfc4648` when encoding. */
  lemma Rfc4648Foo()
    ensures Encoded(Rfc4648, Foo) == "MZXW6==="
  {
    assert Rfc4648.characters == Rfc4648Characters && Rfc4648.padding == Some('=');
    FooGroups();
    Rfc4648FooSpelled();
    assert FillCount(3, 5) * 8 / 5 == 3;
    EncodedFrom(Rfc4648, Foo, "MZXW6AAA", "MZXW6");
    assert Repeat('=', 3) == "===";
  }

  /** The 5-bit values of "foo", written with the `base32hex` characters. */
  lemma Base32hexFooSpelled()
    ensures Spell(Base32hexCharacters, FooSymbols) == "CPNMU000"
  {
  }

  /** "foo" is "CPNMU===" in `base32hex` when encoding. */
  lemma Base32hexFoo()
    ensures Encoded(Base32hex, Foo) == "CPNMU==="
  {
    assert Base32hex.characters == Base32hexCharacters && Base32hex.padding == Some('=');
    FooGroups();
    Base32hexFooSpelled();
    assert FillCount(3, 5) * 8 / 5 == 3;
    EncodedFrom(Base32hex, Foo, "CPNMU000", "CPNMU");
    assert Repeat('=', 3) == "===";
  }

  /** "foob" zero-filled to a whole group, and its 5-bit values. */
  const FoobPadded: seq<byte> := [102, 111, 111, 98, 0]
  const FoobSymbols: seq<byte> := [12, 25, 23, 22, 30, 24, 16, 0]

  /** The 5-bit values of "foob". */
  lemma FoobGroups()
    ensures Symbols(Padded(Foob)) == FoobSymbols
  {
    assert Padded(Foob) == FoobPadded by {
      assert FillCount(4, 5) == 1;
    }
    OneGroupSymbols(FoobPadded, FoobSymbols);
  }

  /** The 5-bit values of "foob", written with the `rfc4648` characters. */
  lemma Rfc4648FoobSpelled()
    ensures Spell(Rfc4648Characters, FoobSymbols) == "MZXW6YQA"
  {
  }

  /** "foob" is "MZXW6YQ=" in `rfc4648` when encoding. */
  lemma Rfc4648Foob()
    ensures Encoded(Rfc4648, Foob) == "MZXW6YQ="
  {
    assert Rfc4648.characters == Rfc4648Characters && Rfc4648.padding == Some('=');
    FoobGroups();
    Rfc4648FoobSpelled();
    assert FillCount(4, 5) * 8 / 5 == 1;
    EncodedFrom(Rfc4648, Foob, "MZXW6YQA", "MZXW6YQ");
    assert Repeat('=', 1) == "=";
  }

  /** The 5-bit values of "foob", written with the `base32hex` characters. */
  lemma Base32hexFoobSpelled()
    ensures Spell(Base32hexCharacters, FoobSymbols) == "CPNMUOG0"
  {
  }

  /** "foob" is "CPNMUOG=" in `base32hex` when encoding. */
  lemma Base32hexFoob()
    ensures Encoded(Base32hex, Foob) == "CPNMUOG="
  {
    assert Base32hex.characters == Base32hexCharacters && Base32hex.padding == Some('=');
    FoobGroups();
    Base32hexFoobSpelled();
    assert FillCount(4, 5) * 8 / 5 == 1;
    EncodedFrom(Base32hex, Foob, "CPNMUOG0", "CPNMUOG");
    assert Repeat('=', 1) == "=";
  }

  /** "fooba" zero-filled to a whole group, and its 5-bit values. */
  const FoobaPadded: seq<byte> := [102, 111, 111, 98, 97]
  const FoobaSymbols: seq<byte> := [12, 25, 23, 22, 30, 24, 19, 1]

  /** The 5-bit values of "fooba". */
  lemma FoobaGroups()
    ensures Symbols(Padded(Fooba)) == FoobaSymbols
  {
    assert Padded(Fooba) == FoobaPadded by {
      assert FillCount(5, 5) == 0;
    }
    OneGroupSymbols(FoobaPadded, FoobaSymbols);
  }

  /** The 5-bit values of "fooba", written with the `rfc4648` characters. */
  lemma Rfc4648FoobaSpelled()
    ensures Spell(Rfc4648Characters, FoobaSymbols) == "MZXW6YTB"
  {
  }

  /** "fooba" is "MZXW6YTB" in `rfc4648` when encoding. */
  lemma Rfc4648Fooba()
    ensures Encoded(Rfc4648, Fooba) == "MZXW6YTB"
  {
    assert Rfc4648.characters == Rfc4648Characters && Rfc4648.padding == Some('=');
    FoobaGroups();
    Rfc4648FoobaSpelled();
    assert FillCount(5, 5) * 8 / 5 == 0;
    EncodedFrom(Rfc4648, Fooba, "MZXW6YTB", "MZXW6YTB");
    assert Repeat('=', 0) == "";
  }

  /** The 5-bit values of "fooba", written with the `base32hex` characters. */
  lemma Base32hexFoobaSpelled()
    ensures Spell(Base32hexCharacters, FoobaSymbols) == "CPNMUOJ1"
  {
  }

  /** "fooba" is "CPNMUOJ1" in `base32hex` when encoding. */
  lemma Base32hexFooba()
    ensures Encoded(Base32hex, Fooba) == "CPNMUOJ1"
  {
    assert Base32hex.characters == Base32hexCharacters && Base32hex.padding == Some('=');
    FoobaGroups();
    Base32hexFoobaSpelled();
    assert FillCount(5, 5) * 8 / 5 == 0;
    EncodedFrom(Base32hex, Fooba, "CPNMUOJ1", "CPNMUOJ1");
    assert Repeat('=', 0) == "";
  }

  /** Each of the seven test vectors of `rfc4648` decodes back. */
  lemma Rfc4648VectorsDecoded()
    ensures Decoded(Rfc4648, "") == Success([])
    ensures Decoded(Rfc4648, "MY======") == Success(F)
    ensures Decoded(Rfc4648, "MZXQ====") == Success(Fo)
    ensures Decoded(Rfc4648, "MZXW6===") == Success(Foo)
    ensures Decoded(Rfc4648, "MZXW6YQ=") == Success(Foob)
    ensures Decoded(Rfc4648, "MZXW6YTB") == Success(Fooba)
    ensures Decoded(Rfc4648, "MZXW6YTBOI======") == Success(Foobar)
  {
    Rfc4648F();
    Rfc4648Fo();
    Rfc4648Foo();
    Rfc4648Foob();
    Rfc4648Fooba();
    Rfc4648Foobar();
    Rfc4648Fits();
    RoundTrip(Rfc4648, F);
    RoundTrip(Rfc4648, Fo);
    RoundTrip(Rfc4648, Foo);
    RoundTrip(Rfc4648, Foob);
    RoundTrip(Rfc4648, Fooba);
    RoundTrip(Rfc4648, Foobar);
  }

  /** Each of the seven test vectors of `base32hex` decodes back. */
  lemma Base32hexVectorsDecoded()
    ensures Decoded(Base32hex, "") == Success([])
    ensures Decoded(Base32hex, "CO======") == Success(F)
    ensures Decoded(Base32hex, "CPNG====") == Success(Fo)
    ensures Decoded(Base32hex, "CPNMU===") == Success(Foo)
    ensures Decoded(Base32hex, "CPNMUOG=") == Success(Foob)
    ensures Decoded(Base32hex, "CPNMUOJ1") == Success(Fooba)
    ensures Decoded(Base32hex, "CPNMUOJ1E8======") == Success(Foobar)
  {
    Base32hexF();
    Base32hexFo();
    Base32hexFoo();
    Base32hexFoob();
    Base32hexFooba();
    Base32hexFoobar();
    Base32hexFits();
    RoundTrip(Base32hex, F);
    RoundTrip(Base32hex, Fo);
    RoundTrip(Base32hex, Foo);
    RoundTrip(Base32hex, Foob);
    RoundTrip(Base32hex, Fooba);
    RoundTrip(Base32hex, Foobar);
  }

  // ----- Error outcomes from the test suite -----

  /** `rfc4648` rejects "¡" as not ASCII and "_" as not in the alphabet. */
  lemma Rfc4648DecodingErrors()
    ensures Decoded(Rfc4648, "¡") == Failure(NonAsciiCharacters)
    ensures Decoded(Rfc4648, "_") == Failure(ValuesNotInAlphabet)
  {
    assert Rfc4648.values == Rfc4648Values;
    assert Unpadded(Rfc4648, "¡") == "¡" && Unpadded(Rfc4648, "_") == "_";
    DecodedFirstError(Rfc4648, "¡", 0);
    DecodedFirstError(Rfc4648, "_", 0);
  }

  /**
   * No groups, or 32 empty groups, are the wrong number of characters; 32
   * groups of a non-ASCII character fail for that character, whether or not
   * it is also the padding.
   */
  lemma AlphabetErrors()
    ensures Checked([], None) == Failure(WrongNumberOfCharacters)
    ensures Checked(Repeat([], 32), None) == Failure(WrongNumberOfCharacters)
    ensures Checked(Repeat(['¡'], 32), Some('¡')) == Failure(NoAsciiValue)
    ensures Checked(Repeat(['¡'], 32), None) == Failure(NoAsciiValue)
  {
    assert Repeat<seq<char>>([], 32)[0] == [];
    assert Repeat(['¡'], 32)[0] == ['¡'];
  }
}
