/**
 * What the Base-16, Base-64 and Base-85 alphabet initialisers share: reading
 * the ASCII code of every character, and filling the 128-entry `values`
 * table that maps an ASCII code back to a character's index. Also the
 * decoders' common first step: looking every character up in that table.
 */
module AlphabetTables {

  import opened Wrappers
  import opened Bits
  import opened Text
  import opened Errors

  /**
   * The last position below n at which `codes` holds c. Filling the table in
   * index order lets a later duplicate overwrite an earlier one, so this is
   * the index the table ends up holding.
   */
  function LastIndex(codes: seq<nat>, c: int, n: nat): (r: Option<byte>)
    requires n <= |codes| <= 256
    ensures r.Some? ==> r.value < n && codes[r.value] == c
    ensures r.Some? ==> forall j :: r.value < j < n ==> codes[j] != c
    ensures r.None? ==> forall j :: 0 <= j < n ==> codes[j] != c
  {
    if n == 0 then None
    else if codes[n - 1] == c then Some(n - 1)
    else LastIndex(codes, c, n - 1)
  }

  /** The table an alphabet initialiser builds from its characters' ASCII codes. */
  function ValueTable(codes: seq<nat>): (t: seq<Option<byte>>)
    requires |codes| <= 256
    ensures |t| == 128
  {
    seq(128, c => LastIndex(codes, c, |codes|))
  }

  /** The fill loop: start with 128 empty entries, then store each index at its character's code. */
  method BuildValueTable(codes: seq<nat>) returns (values: seq<Option<byte>>)
    requires |codes| <= 256 && forall i :: 0 <= i < |codes| ==> codes[i] < 128
    ensures values == ValueTable(codes)
  {
    values := seq(128, _ => None);
    for i := 0 to |codes|
      invariant values == seq(128, c => LastIndex(codes, c, i))
    {
      values := values[codes[i] := Some(i)];
    }
  }

  /** The mapping loop that reads `asciiValue` of every character, giving up at the first non-ASCII one. */
  method AsciiValues(characters: seq<char>) returns (codes: Option<seq<nat>>)
    ensures AllAscii(characters) ==> codes == Some(AsciiCodes(characters))
    ensures !AllAscii(characters) ==> codes == None
  {
    var result: seq<nat> := [];
    for i := 0 to |characters|
      invariant AllAscii(characters[..i]) && result == AsciiCodes(characters[..i])
    {
      if !IsAscii(characters[i]) {
        return None;
      }
      result := result + [characters[i] as int];
    }
    assert characters[..|characters|] == characters;
    return Some(result);
  }

  /** `values` sends every character's code back to its index. */
  predicate Inverts(characters: seq<char>, values: seq<Option<byte>>) {
    |values| == 128 &&
    forall v :: 0 <= v < |characters| ==> IsAscii(characters[v]) && values[characters[v] as int] == Some(v)
  }

  /** `values` sends the characters for `lo` up to `hi` back to their indices. */
  predicate InvertsBetween(characters: seq<char>, values: seq<Option<byte>>, lo: nat, hi: nat) {
    |values| == 128 && hi <= |characters| &&
    forall v :: lo <= v < hi ==> IsAscii(characters[v]) && values[characters[v] as int] == Some(v)
  }

  /** A table inverts 64 characters when it inverts each quarter of them. */
  lemma InvertsByQuarters(characters: seq<char>, values: seq<Option<byte>>)
    requires |characters| == 64
    requires InvertsBetween(characters, values, 0, 16) && InvertsBetween(characters, values, 16, 32)
    requires InvertsBetween(characters, values, 32, 48) && InvertsBetween(characters, values, 48, 64)
    ensures Inverts(characters, values)
  {
  }

  /** A table inverts 85 characters when it inverts each run of 8 of them and the last 5. */
  lemma InvertsByEights(characters: seq<char>, values: seq<Option<byte>>)
    requires |characters| == 85
    requires InvertsBetween(characters, values, 0, 8) && InvertsBetween(characters, values, 8, 16)
    requires InvertsBetween(characters, values, 16, 24) && InvertsBetween(characters, values, 24, 32)
    requires InvertsBetween(characters, values, 32, 40) && InvertsBetween(characters, values, 40, 48)
    requires InvertsBetween(characters, values, 48, 56) && InvertsBetween(characters, values, 56, 64)
    requires InvertsBetween(characters, values, 64, 72) && InvertsBetween(characters, values, 72, 80)
    requires InvertsBetween(characters, values, 80, 85)
    ensures Inverts(characters, values)
  {
  }

  /** A character without an entry in a table that inverts `characters` is not one of them. */
  lemma NotInverted(characters: seq<char>, values: seq<Option<byte>>, c: char)
    requires Inverts(characters, values) && IsAscii(c) && values[c as int].None?
    ensures c !in characters
  {
    forall v | 0 <= v < |characters|
      ensures characters[v] != c
    {
      assert values[characters[v] as int].Some?;
    }
  }

  /** Every entry of `values` names a character with that code: the table has no extra entries. */
  predicate OnlyCharacters(characters: seq<char>, values: seq<Option<byte>>) {
    |values| == 128 &&
    forall c :: 0 <= c < 128 && values[c].Some? ==>
      values[c].value < |characters| && characters[values[c].value] as int == c
  }

  /** The entries of `values` for the codes `lo` up to `hi` name characters with those codes. */
  predicate OnlyCharactersBetween(characters: seq<char>, values: seq<Option<byte>>, lo: nat, hi: nat) {
    |values| == 128 && hi <= 128 &&
    forall c :: lo <= c < hi && values[c].Some? ==> values[c].value < |characters| && characters[values[c].value] as int == c
  }

  /** A table has no extra entries when no quarter of it has. */
  lemma OnlyCharactersByQuarters(characters: seq<char>, values: seq<Option<byte>>)
    requires OnlyCharactersBetween(characters, values, 0, 32) && OnlyCharactersBetween(characters, values, 32, 64)
    requires OnlyCharactersBetween(characters, values, 64, 96) && OnlyCharactersBetween(characters, values, 96, 128)
    ensures OnlyCharacters(characters, values)
  {
  }

  predicate Distinct(s: seq<char>) {
    forall i, j :: 0 <= i < j < |s| ==> s[i] != s[j]
  }

  /** The table built from distinct ASCII characters is exactly their inverse. */
  lemma ValueTableInverts(characters: seq<char>)
    requires |characters| <= 256 && AllAscii(characters) && Distinct(characters)
    ensures Inverts(characters, ValueTable(AsciiCodes(characters)))
    ensures OnlyCharacters(characters, ValueTable(AsciiCodes(characters)))
  {
    var codes := AsciiCodes(characters);
    var t := ValueTable(codes);
    forall v | 0 <= v < |characters|
      ensures t[characters[v] as int] == Some(v)
    {
      var r := LastIndex(codes, characters[v] as int, |codes|);
      assert r.Some?;
    }
  }

  /** A table that inverts the characters and has no other entries is the one the initialiser builds. */
  lemma ValueTableIs(characters: seq<char>, values: seq<Option<byte>>)
    requires |characters| <= 256 && AllAscii(characters)
    requires Inverts(characters, values) && OnlyCharacters(characters, values)
    ensures ValueTable(AsciiCodes(characters)) == values
  {
    var codes := AsciiCodes(characters);
    var t := ValueTable(codes);
    forall c | 0 <= c < 128
      ensures t[c] == values[c]
    {
      if values[c].Some? {
        var v := values[c].value;
        assert codes[v] == c;
        var r := LastIndex(codes, c, |codes|);
        assert r.Some?;
        assert values[characters[r.value] as int] == Some(r.value);
      }
    }
  }

  /**
   * Looking every character up in `values`, first to last: the first
   * non-ASCII character, or the first one without an entry, decides the error.
   */
  function Lookup(values: seq<Option<byte>>, s: seq<char>): (r: Result<seq<byte>, DecodingError>)
    requires |values| == 128
    ensures r.Success? ==> |r.value| == |s|
    ensures r.Failure? ==> r.error != WrongNumberOfBytes
    decreases |s|
  {
    if |s| == 0 then Success([])
    else if !IsAscii(s[0]) then Failure(NonAsciiCharacters)
    else if values[s[0] as int].None? then Failure(ValuesNotInAlphabet)
    else
      var rest :- Lookup(values, s[1..]);
      Success([values[s[0] as int].value] + rest)
  }

  /**
   * Looking up succeeds exactly when every character is ASCII and has an
   * entry, and then yields each character's entry in order; on failure the
   * error is `nonAsciiCharacters` exactly when the first character that is
   * not looked up is not ASCII.
   */
  lemma {:induction false} LookupIff(values: seq<Option<byte>>, s: seq<char>)
    requires |values| == 128
    ensures Lookup(values, s).Success? <==> forall i :: 0 <= i < |s| ==> IsAscii(s[i]) && values[s[i] as int].Some?
    ensures Lookup(values, s).Success? ==> forall i :: 0 <= i < |s| ==> values[s[i] as int] == Some(Lookup(values, s).value[i])
    ensures Lookup(values, s).Failure? ==>
      exists k :: 0 <= k < |s| && (forall i :: 0 <= i < k ==> IsAscii(s[i]) && values[s[i] as int].Some?)
        && (Lookup(values, s).error == NonAsciiCharacters <==> !IsAscii(s[k]))
        && (IsAscii(s[k]) ==> values[s[k] as int].None?)
    decreases |s|
  {
    if |s| > 0 && IsAscii(s[0]) && values[s[0] as int].Some? {
      LookupIff(values, s[1..]);
      var r := Lookup(values, s);
      if r.Failure? {
        var k :| 0 <= k < |s[1..]| && (forall i :: 0 <= i < k ==> IsAscii(s[1..][i]) && values[s[1..][i] as int].Some?)
          && (r.error == NonAsciiCharacters <==> !IsAscii(s[1..][k]))
          && (IsAscii(s[1..][k]) ==> values[s[1..][k] as int].None?);
        assert forall i :: 0 <= i < k + 1 ==> IsAscii(s[i]) && values[s[i] as int].Some? by {
          forall i | 0 <= i < k + 1 ensures IsAscii(s[i]) && values[s[i] as int].Some? {
            if i > 0 { assert s[i] == s[1..][i - 1]; }
          }
        }
        assert s[k + 1] == s[1..][k];
      } else {
        forall i | 0 < i < |s| ensures IsAscii(s[i]) && values[s[i] as int] == Some(r.value[i]) {
          assert s[i] == s[1..][i - 1];
        }
      }
    } else if |s| > 0 {
      assert Lookup(values, s).Failure?;
    }
  }

  /**
   * The first character that cannot be looked up decides the error: when
   * every character before position k is ASCII with an entry, a non-ASCII
   * character at k gives `nonAsciiCharacters` and an ASCII one without an
   * entry gives `valuesNotInAlphabet`, whatever follows.
   */
  lemma {:induction false} LookupFirstFailure(values: seq<Option<byte>>, s: seq<char>, k: nat)
    requires |values| == 128 && k < |s|
    requires forall i :: 0 <= i < k ==> IsAscii(s[i]) && values[s[i] as int].Some?
    ensures !IsAscii(s[k]) ==> Lookup(values, s) == Failure(NonAsciiCharacters)
    ensures IsAscii(s[k]) && values[s[k] as int].None? ==> Lookup(values, s) == Failure(ValuesNotInAlphabet)
    decreases k
  {
    if k > 0 {
      assert IsAscii(s[0]) && values[s[0] as int].Some?;
      forall i | 0 <= i < k - 1
        ensures IsAscii(s[1..][i]) && values[s[1..][i] as int].Some?
      {
        assert s[1..][i] == s[i + 1];
      }
      LookupFirstFailure(values, s[1..], k - 1);
      assert s[1..][k - 1] == s[k];
    }
  }

  /** Looking up a concatenation: the first part's error wins, otherwise the second's, otherwise the values join. */
  lemma {:induction false} LookupAppend(values: seq<Option<byte>>, x: seq<char>, y: seq<char>)
    requires |values| == 128
    ensures Lookup(values, x + y) == LookupBoth(Lookup(values, x), Lookup(values, y))
    decreases |x|
  {
    if |x| == 0 {
      assert x + y == y;
      if Lookup(values, y).Success? {
        assert [] + Lookup(values, y).value == Lookup(values, y).value;
      }
    } else {
      var xy := x + y;
      assert xy[0] == x[0];
      assert xy[1..] == x[1..] + y;
      if IsAscii(x[0]) && values[x[0] as int].Some? {
        LookupAppend(values, x[1..], y);
        var rest := Lookup(values, x[1..]);
        if rest.Success? && Lookup(values, y).Success? {
          var v := values[x[0] as int].value;
          assert [v] + (rest.value + Lookup(values, y).value) == ([v] + rest.value) + Lookup(values, y).value;
        }
      }
    }
  }

  /** Combines the lookups of two consecutive pieces of text. */
  function LookupBoth(first: Result<seq<byte>, DecodingError>, second: Result<seq<byte>, DecodingError>): Result<seq<byte>, DecodingError> {
    if first.Failure? then first
    else if second.Failure? then second
    else Success(first.value + second.value)
  }

  /**
   * One step of a decoding loop over chunks: when the text up to `k` looked
   * up fine, the chunk `text[k..m]` decides whether the text up to `m` does,
   * and a chunk that fails makes the whole text fail with the same error.
   */
  lemma LookupStep(values: seq<Option<byte>>, text: seq<char>, k: nat, m: nat, prefix: seq<byte>)
    requires |values| == 128 && k <= m <= |text|
    requires Lookup(values, text[..k]) == Success(prefix)
    ensures Lookup(values, text[k..m]).Success? ==>
      Lookup(values, text[..m]) == Success(prefix + Lookup(values, text[k..m]).value)
    ensures Lookup(values, text[k..m]).Failure? ==> Lookup(values, text) == Lookup(values, text[k..m])
  {
    assert text[..m] == text[..k] + text[k..m];
    assert text == text[..m] + text[m..];
    LookupAppend(values, text[..k], text[k..m]);
    LookupAppend(values, text[..m], text[m..]);
  }

  /** The characters at the given indices. */
  function Spell(characters: seq<char>, symbols: seq<byte>): (r: seq<char>)
    requires forall i :: 0 <= i < |symbols| ==> symbols[i] < |characters|
    ensures |r| == |symbols|
  {
    seq(|symbols|, i requires 0 <= i < |symbols| => characters[symbols[i]])
  }

  lemma SpellAppend(characters: seq<char>, x: seq<byte>, y: seq<byte>)
    requires forall i :: 0 <= i < |x| ==> x[i] < |characters|
    requires forall i :: 0 <= i < |y| ==> y[i] < |characters|
    ensures Spell(characters, x + y) == Spell(characters, x) + Spell(characters, y)
  {
  }

  /** Looking up spelled-out indices gives the indices back. */
  lemma {:induction false} LookupSpell(characters: seq<char>, values: seq<Option<byte>>, symbols: seq<byte>)
    requires Inverts(characters, values)
    requires forall i :: 0 <= i < |symbols| ==> symbols[i] < |characters|
    ensures Lookup(values, Spell(characters, symbols)) == Success(symbols)
    decreases |symbols|
  {
    if |symbols| > 0 {
      var s := Spell(characters, symbols);
      assert s[1..] == Spell(characters, symbols[1..]);
      LookupSpell(characters, values, symbols[1..]);
      assert symbols == [symbols[0]] + symbols[1..];
    }
  }

  /** n copies of a character with an entry look up as n copies of its value. */
  lemma {:induction false} LookupRepeated(values: seq<Option<byte>>, c: char, v: byte, n: nat)
    requires |values| == 128 && IsAscii(c) && values[c as int] == Some(v)
    ensures Lookup(values, Repeat(c, n)) == Success(Repeat(v, n))
  {
    if n > 0 {
      LookupRepeated(values, c, v, n - 1);
      var s := Repeat(c, n);
      assert s[0] == c && s[1..] == Repeat(c, n - 1);
      assert Repeat(v, n) == [v] + Repeat(v, n - 1);
    }
  }

  /**
   * An integer in a window of 32 is one of the 32 values in it: splitting on
   * them lets the verifier read a constant table entry by entry.
   */
  lemma Enumerate32(c: int, lo: int)
    requires lo <= c < lo + 32
    ensures c == lo + 0 || c == lo + 1 || c == lo + 2 || c == lo + 3 || c == lo + 4 || c == lo + 5 || c == lo + 6 || c == lo + 7
      || c == lo + 8 || c == lo + 9 || c == lo + 10 || c == lo + 11 || c == lo + 12 || c == lo + 13 || c == lo + 14 || c == lo + 15
      || c == lo + 16 || c == lo + 17 || c == lo + 18 || c == lo + 19 || c == lo + 20 || c == lo + 21 || c == lo + 22 || c == lo + 23
      || c == lo + 24 || c == lo + 25 || c == lo + 26 || c == lo + 27 || c == lo + 28 || c == lo + 29 || c == lo + 30 || c == lo + 31
  {
  }

  /** The same for a window of 16. */
  lemma Enumerate16(c: int, lo: int)
    requires lo <= c < lo + 16
    ensures c == lo + 0 || c == lo + 1 || c == lo + 2 || c == lo + 3 || c == lo + 4 || c == lo + 5 || c == lo + 6 || c == lo + 7
      || c == lo + 8 || c == lo + 9 || c == lo + 10 || c == lo + 11 || c == lo + 12 || c == lo + 13 || c == lo + 14 || c == lo + 15
  {
  }

  /** The same for a window of 8. */
  lemma Enumerate8(c: int, lo: int)
    requires lo <= c < lo + 8
    ensures c == lo + 0 || c == lo + 1 || c == lo + 2 || c == lo + 3 || c == lo + 4 || c == lo + 5 || c == lo + 6 || c == lo + 7
  {
  }

  /** The same for a window of 64. */
  lemma Enumerate64(c: int, lo: int)
    requires lo <= c < lo + 64
    ensures c == lo + 0 || c == lo + 1 || c == lo + 2 || c == lo + 3 || c == lo + 4 || c == lo + 5 || c == lo + 6 || c == lo + 7
      || c == lo + 8 || c == lo + 9 || c == lo + 10 || c == lo + 11 || c == lo + 12 || c == lo + 13 || c == lo + 14 || c == lo + 15
      || c == lo + 16 || c == lo + 17 || c == lo + 18 || c == lo + 19 || c == lo + 20 || c == lo + 21 || c == lo + 22 || c == lo + 23
      || c == lo + 24 || c == lo + 25 || c == lo + 26 || c == lo + 27 || c == lo + 28 || c == lo + 29 || c == lo + 30 || c == lo + 31
      || c == lo + 32 || c == lo + 33 || c == lo + 34 || c == lo + 35 || c == lo + 36 || c == lo + 37 || c == lo + 38 || c == lo + 39
      || c == lo + 40 || c == lo + 41 || c == lo + 42 || c == lo + 43 || c == lo + 44 || c == lo + 45 || c == lo + 46 || c == lo + 47
      || c == lo + 48 || c == lo + 49 || c == lo + 50 || c == lo + 51 || c == lo + 52 || c == lo + 53 || c == lo + 54 || c == lo + 55
      || c == lo + 56 || c == lo + 57 || c == lo + 58 || c == lo + 59 || c == lo + 60 || c == lo + 61 || c == lo + 62 || c == lo + 63
  {
  }
}
