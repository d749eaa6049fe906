/** The constants of the Open Location Code format and the lookup from a
    character to its position in the 20-symbol alphabet
    (openlocationcode.cpp, namespace internal and get_alphabet_position). */
module Symbols {
  import opened Text

  const Separator: char := '+'
  const Padding: char := '0'
  /** Digits 2-9 and eleven consonants, in value order. */
  const Alphabet: string := "23456789CFGHJMPQRVWX"
  const EncodingBase: nat := 20
  /** A code has at most 15 significant digits (roughly 1 x 0.5 cm). */
  const MaximumDigitCount: nat := 15
  const MinimumDigitCount: nat := 2
  /** The first 10 digits are latitude/longitude pairs in base 20. */
  const PairCodeLength: nat := 10
  /** The last 5 digits each pick a cell of a 4-column, 5-row grid. */
  const GridCodeLength: nat := 5
  const GridColumns: nat := 4
  const GridRows: nat := 5
  const SeparatorPosition: nat := 8
  /** 20^3: one unit of the last pair digit is 1/8000 of a degree. */
  const PairPrecisionInverse: nat := 8000
  /** 8000 * 5^5: one unit of the last latitude grid digit, per degree. */
  const GridLatPrecisionInverse: nat := 25000000
  /** 8000 * 4^5: one unit of the last longitude grid digit, per degree. */
  const GridLngPrecisionInverse: nat := 8192000
  const LatitudeMaxDegrees: nat := 90
  const LongitudeMaxDegrees: nat := 180

  /** Alphabet positions of 'C' through 'X'; -1 marks a character outside
      the alphabet. */
  const PositionTable: seq<int> :=
    [8, -1, -1, 9, 10, 11, -1, 12, -1, -1, 13, -1, -1, 14, 15, 16, -1, -1, -1, 17, 18, 19]

  /** Position of c in the alphabet, either case, or -1. */
  function AlphabetPosition(c: char): (r: int)
    ensures -1 <= r < |Alphabet|
  {
    if 'C' <= c <= 'X' then PositionTable[c as int - 'C' as int]
    else if 'c' <= c <= 'x' then PositionTable[c as int - 'c' as int]
    else if '2' <= c <= '9' then c as int - '2' as int
    else -1
  }

  predicate IsAlphabetChar(c: char)
  {
    AlphabetPosition(c) >= 0
  }

  /** The lookup inverts the alphabet. */
  lemma AlphabetRoundTrip(i: nat)
    requires i < |Alphabet|
    ensures AlphabetPosition(Alphabet[i]) == i
  {
  }

  /** Every entry of the table that is not -1 names the character it is
      looked up by. */
  lemma TableEntryNamesCharacter(j: nat)
    requires j < |PositionTable| && PositionTable[j] >= 0
    ensures PositionTable[j] < |Alphabet| && Alphabet[PositionTable[j]] as int == 'C' as int + j
  {
  }

  /** Lower-case letters sit at the same position as their upper case. */
  lemma LowerCaseSamePosition(c: char)
    ensures AlphabetPosition(c) == AlphabetPosition(UpperChar(c))
  {
  }

  /** A non-negative position names the upper-cased character; -1 is given
      exactly to the characters whose upper-case form is not a symbol. */
  lemma PositionIdentifiesSymbol(c: char)
    ensures AlphabetPosition(c) >= 0 ==> Alphabet[AlphabetPosition(c)] == UpperChar(c)
    ensures AlphabetPosition(c) < 0 <==> UpperChar(c) !in Alphabet
  {
    var u := UpperChar(c);
    LowerCaseSamePosition(c);
    if 'C' <= u <= 'X' && AlphabetPosition(u) >= 0 {
      TableEntryNamesCharacter(u as int - 'C' as int);
    }
    if u in Alphabet {
      var i :| 0 <= i < |Alphabet| && Alphabet[i] == u;
      AlphabetRoundTrip(i);
    }
  }

  /** Neither the separator nor the padding character is a symbol. */
  lemma SeparatorAndPaddingAreNotSymbols()
    ensures !IsAlphabetChar(Separator) && !IsAlphabetChar(Padding)
    ensures Separator !in Alphabet && Padding !in Alphabet
  {
  }
}
