/** Syntax of a code: IsValid, IsShort, IsFull, CodeLength and the cleaning
    of a code before it is measured or decoded (openlocationcode.cpp). */
module Validator {
  import opened Text
  import opened Symbols

  /** clean_code_chars: the code with its separators taken out, cut at the
      first padding character. The source tests the result of `find` for
      truth, so padding found at index 0 (position 0 is false) is not cut
      off, while padding not found (npos is true) cuts at npos, which keeps
      everything. */
  function CleanCode(code: string): (clean: string)
    ensures Separator !in clean
    // a prefix of the code without its separators ...
    ensures var stripped := RemoveAll(code, Separator);
            |clean| <= |stripped| && clean == stripped[..|clean|]
    // ... the longest one free of padding, unless padding comes first
    ensures var stripped := RemoveAll(code, Separator);
            stripped == [] || stripped[0] != Padding ==>
              Padding !in clean && (|clean| < |stripped| ==> stripped[|clean|] == Padding)
    // padding in front is not cut off at all
    ensures var stripped := RemoveAll(code, Separator);
            stripped != [] && stripped[0] == Padding ==> clean == stripped
  {
    var stripped := RemoveAll(code, Separator);
    match IndexOf(stripped, Padding)
    case None => stripped
    case Some(p) => if p != 0 then stripped[..p] else stripped
  }

  /** CodeLength: the number of significant digits. */
  function CodeLength(code: string): (n: nat)
    ensures n <= |RemoveAll(code, Separator)| <= |code|
  {
    |CleanCode(code)|
  }

  /** Characters a code may hold at all. */
  predicate LegalChar(c: char)
  {
    c == Separator || c == Padding || IsAlphabetChar(c)
  }

  /** The grammar IsValid decides: exactly one separator, at an even index
      no greater than 8, not alone and not followed by exactly one
      character; only symbols, padding and the separator; padding only as
      described by PaddingWellPlaced. */
  predicate ValidCode(code: string): (valid: bool)
    // a separator with one character or none around it is never enough
    ensures valid ==> |code| >= 3
  {
    && |code| > 1
    && Separator in code
    && (var s := FirstIndex(code, Separator);
        && (forall i | s < i < |code| :: code[i] != Separator)
        && s <= SeparatorPosition && s % 2 == 0
        && |code| - s - 1 != 1)
    && (forall i | 0 <= i < |code| :: LegalChar(code[i]))
    && (Padding in code ==> PaddingWellPlaced(code))
  }

  /** Padding is allowed only in a code with eight characters before the
      separator and none after it; it starts at a non-zero even index and
      fills everything up to the separator. */
  predicate PaddingWellPlaced(code: string)
    requires Padding in code && Separator in code
  {
    var p := FirstIndex(code, Padding);
    && FirstIndex(code, Separator) == SeparatorPosition
    && |code| == SeparatorPosition + 1
    && p != 0 && p % 2 == 0
    && forall i | p <= i < SeparatorPosition :: code[i] == Padding
  }

  /** IsValid, check by check as the source makes them. */
  method IsValid(code: string) returns (valid: bool)
    ensures valid == ValidCode(code)
  {
    if |code| == 0 {
      return false;
    }
    var separatorPos := IndexOf(code, Separator);
    // The separator is required.
    if separatorPos.None? {
      return false;
    }
    // There must only be one separator.
    if IndexOf(code, Separator) != LastIndexOf(code, Separator) {
      return false;
    }
    // Not the separator alone.
    if |code| == 1 {
      return false;
    }
    var s := separatorPos.value;
    if s > SeparatorPosition || s % 2 == 1 {
      return false;
    }
    var paddingStart := IndexOf(code, Padding);
    if paddingStart.Some? {
      // Short codes cannot have padding.
      if s < SeparatorPosition {
        return false;
      }
      var p := paddingStart.value;
      if p == 0 || p % 2 == 1 {
        return false;
      }
      // Nothing may follow the separator of a padded code.
      if |code| > s + 1 {
        return false;
      }
      var paddingSection := Substring(code, p, SeparatorPosition - p);
      paddingSection := RemoveAll(paddingSection, Padding);
      if paddingSection != [] {
        return false;
      }
      PaddingChecksSuffice(code, p);
    }
    assert Padding in code ==> PaddingWellPlaced(code);
    // Exactly one character after the separator is not allowed.
    if |code| - s - 1 == 1 {
      return false;
    }
    for i := 0 to |code|
      invariant forall j | 0 <= j < i :: LegalChar(code[j])
    {
      var c := code[i];
      if c != Separator && c != Padding && AlphabetPosition(c) < 0 {
        return false;
      }
    }
    ChecksSuffice(code);
    return true;
  }

  /** The padding checks of IsValid, passed, place the padding well. */
  lemma PaddingChecksSuffice(code: string, p: nat)
    requires Separator in code && FirstIndex(code, Separator) == SeparatorPosition
    requires |code| <= SeparatorPosition + 1
    requires Padding in code && p == FirstIndex(code, Padding) && p != 0 && p % 2 == 0
    requires RemoveAll(Substring(code, p, SeparatorPosition - p), Padding) == []
    ensures PaddingWellPlaced(code)
  {
    assert Substring(code, p, SeparatorPosition - p) == code[p..SeparatorPosition];
    forall i | p <= i < SeparatorPosition
      ensures code[i] == Padding
    {
      assert code[p..SeparatorPosition][i - p] == code[i];
    }
  }

  /** The separator checks of IsValid, passed, with the characters legal
      and the padding well placed, make a valid code. */
  lemma ChecksSuffice(code: string)
    requires |code| > 1 && Separator in code
    requires FirstIndex(code, Separator) == LastIndex(code, Separator)
    requires FirstIndex(code, Separator) <= SeparatorPosition && FirstIndex(code, Separator) % 2 == 0
    requires |code| - FirstIndex(code, Separator) - 1 != 1
    requires forall i | 0 <= i < |code| :: LegalChar(code[i])
    requires Padding in code ==> PaddingWellPlaced(code)
    ensures ValidCode(code)
  {
  }

  /** IsShort: a valid code with fewer than eight characters before the
      separator. */
  predicate IsShort(code: string): (short: bool)
    ensures short ==> Padding !in code
  {
    ValidCode(code) && FirstIndex(code, Separator) < SeparatorPosition
  }

  /** IsFull: a valid code that is not short and whose first two digits stay
      below latitude 90 and longitude 180. A position of -1 becomes a huge
      size_t in the source, which fails the comparison; here it fails the
      first conjunct. */
  predicate IsFull(code: string): (full: bool)
    ensures full ==> Separator in code && FirstIndex(code, Separator) == SeparatorPosition
  {
    && ValidCode(code)
    && !IsShort(code)
    && (var latDigit := AlphabetPosition(code[0]);
        latDigit >= 0 && latDigit * EncodingBase < 2 * LatitudeMaxDegrees)
    && (|code| > 1 ==>
          var lngDigit := AlphabetPosition(code[1]);
          lngDigit >= 0 && lngDigit * EncodingBase < 2 * LongitudeMaxDegrees)
  }

  /** The separator of a valid code. */
  function SeparatorIndex(code: string): (s: nat)
    requires ValidCode(code)
    ensures s < |code| && code[s] == Separator && s <= SeparatorPosition && s % 2 == 0
    ensures forall i | 0 <= i < |code| && i != s :: code[i] != Separator
  {
    FirstIndex(code, Separator)
  }

  /** Each way a code can be malformed makes it invalid. */
  lemma InvalidCodes(code: string)
    ensures code == [] ==> !ValidCode(code)
    ensures Separator !in code ==> !ValidCode(code)
    ensures code == [Separator] ==> !ValidCode(code)
    ensures Separator in code && FirstIndex(code, Separator) != LastIndex(code, Separator) ==> !ValidCode(code)
    ensures Separator in code && FirstIndex(code, Separator) > SeparatorPosition ==> !ValidCode(code)
    ensures Separator in code && FirstIndex(code, Separator) % 2 == 1 ==> !ValidCode(code)
    ensures Separator in code && Padding in code && FirstIndex(code, Separator) < SeparatorPosition ==> !ValidCode(code)
    ensures Padding in code && (FirstIndex(code, Padding) == 0 || FirstIndex(code, Padding) % 2 == 1) ==> !ValidCode(code)
    ensures (Padding in code
             && exists i | FirstIndex(code, Padding) <= i < SeparatorPosition && i < |code| :: code[i] != Padding)
            ==> !ValidCode(code)
    ensures Padding in code && Separator in code && |code| > FirstIndex(code, Separator) + 1 ==> !ValidCode(code)
    ensures Separator in code && |code| == FirstIndex(code, Separator) + 2 ==> !ValidCode(code)
    ensures (exists i | 0 <= i < |code| :: !LegalChar(code[i])) ==> !ValidCode(code)
  {
    if Separator in code && FirstIndex(code, Separator) != LastIndex(code, Separator) {
      assert code[LastIndex(code, Separator)] == Separator;
    }
    if Padding in code && ValidCode(code) {
      assert PaddingWellPlaced(code);
    }
  }

  /** The code without its one separator. */
  lemma StrippedValidCode(code: string)
    requires ValidCode(code)
    ensures var s := SeparatorIndex(code);
            RemoveAll(code, Separator) == code[..s] + code[s + 1..]
  {
    var s := SeparatorIndex(code);
    assert code == code[..s] + [Separator] + code[s + 1..];
    RemoveAllSingle(code[..s], code[s + 1..], Separator);
  }

  /** A valid code cleans to at least two symbols; without padding it keeps
      every character but the separator, with padding it stops where the
      padding starts. */
  lemma ValidCodeCleansToSymbols(code: string)
    requires ValidCode(code)
    ensures |CleanCode(code)| >= 2
    ensures forall i | 0 <= i < |CleanCode(code)| :: IsAlphabetChar(CleanCode(code)[i])
    ensures Padding !in code ==> CodeLength(code) == |code| - 1
    ensures Padding in code ==> CodeLength(code) == FirstIndex(code, Padding)
  {
    var s := SeparatorIndex(code);
    var clean := CleanCode(code);
    CleanValidCode(code);
    if Padding in code {
      var p := FirstIndex(code, Padding);
      forall i | 0 <= i < |clean|
        ensures IsAlphabetChar(clean[i])
      {
        assert clean[i] == code[i] && LegalChar(code[i]) && i < s;
      }
    } else {
      forall i | 0 <= i < |clean|
        ensures IsAlphabetChar(clean[i])
      {
        if i < s {
          assert clean[i] == code[i] && LegalChar(code[i]);
        } else {
          assert clean[i] == code[i + 1] && LegalChar(code[i + 1]);
        }
      }
      if s == 0 {
        assert |code| - 1 >= 2;
      }
    }
  }

  /** What cleaning keeps of a valid code: the characters around the
      separator, or with padding the digits before it. */
  lemma CleanValidCode(code: string)
    requires ValidCode(code)
    ensures Padding !in code ==>
              CleanCode(code) == code[..SeparatorIndex(code)] + code[SeparatorIndex(code) + 1..]
    ensures Padding in code ==>
              FirstIndex(code, Padding) < SeparatorIndex(code)
              && CleanCode(code) == code[..FirstIndex(code, Padding)]
  {
    var s := SeparatorIndex(code);
    StrippedValidCode(code);
    var stripped := code[..s] + code[s + 1..];
    if Padding in code {
      assert PaddingWellPlaced(code);
      var p := FirstIndex(code, Padding);
      assert stripped == code[..SeparatorPosition];
      assert stripped[p] == Padding;
      FirstIndexAt(stripped, Padding, p);
      assert stripped[..p] == code[..p];
    } else {
      assert forall i | 0 <= i < |stripped| :: stripped[i] in code;
    }
  }

  /** A short code carries no padding and keeps every digit. */
  lemma ShortCodeFacts(code: string)
    requires IsShort(code)
    ensures Padding !in code
    ensures CodeLength(code) == |code| - 1
    ensures CodeLength(code) >= 2
  {
    ValidCodeCleansToSymbols(code);
  }

  /** A valid code that is not short has its separator at index 8. */
  lemma NotShortSeparatorAtEight(code: string)
    requires ValidCode(code) && !IsShort(code)
    ensures SeparatorIndex(code) == SeparatorPosition
  {
  }

  /** What a full code guarantees: valid, not short, separator at 8, two
      leading symbols that keep the area below latitude 90 and longitude
      180, and a digit count of 2, 4, 6, 8 or at least 10. */
  lemma FullCodeFacts(code: string)
    requires IsFull(code)
    ensures ValidCode(code) && !IsShort(code)
    ensures SeparatorIndex(code) == SeparatorPosition
    ensures 0 <= AlphabetPosition(code[0]) && AlphabetPosition(code[0]) * 20 < 180
    ensures 0 <= AlphabetPosition(code[1]) && AlphabetPosition(code[1]) * 20 < 360
    ensures var n := CodeLength(code); n in {2, 4, 6, 8} || n >= 10
  {
    ValidCodeCleansToSymbols(code);
    var n := CodeLength(code);
    if Padding in code {
      assert PaddingWellPlaced(code);
      assert n == FirstIndex(code, Padding);
      assert n < SeparatorPosition && n % 2 == 0 && n >= 2;
    } else {
      assert n == |code| - 1 && |code| - SeparatorPosition - 1 != 1;
    }
  }

  /** No code is both short and full. */
  lemma ShortAndFullExclusive(code: string)
    ensures !(IsShort(code) && IsFull(code))
  {
  }

  /** A valid code can be neither short nor full: its leading symbol puts it
      beyond latitude 90. */
  lemma ValidButNeitherShortNorFull()
    ensures var code := "XX000000+";
            ValidCode(code) && !IsShort(code) && !IsFull(code)
  {
    var code := "XX000000+";
    FirstIndexAt(code, Separator, 8);
    FirstIndexAt(code, Padding, 2);
    assert AlphabetPosition('X') == 19;
    assert PaddingWellPlaced(code);
  }
}
