/** The Code 39 character set: the 43 encodable symbols in index order, the
    mapping from a symbol to its index, and the table of nine-element
    bar/space patterns, one per index, plus the start/stop guard pattern. */
module CharSet {

  /** Number of symbols, and so of table entries and of check-digit values. */
  const AlphabetSize: nat := 43

  /** The ten digits '0'..'9' and the 26 capital letters 'A'..'Z', in code order. */
  function Digits(): (s: string)
    ensures |s| == 10 && forall i :: 0 <= i < 10 ==> s[i] as int == '0' as int + i
  {
    seq(10, i requires 0 <= i < 10 => ('0' as int + i) as char)
  }

  function Letters(): (s: string)
    ensures |s| == 26 && forall i :: 0 <= i < 26 ==> s[i] as int == 'A' as int + i
  {
    seq(26, i requires 0 <= i < 26 => ('A' as int + i) as char)
  }
  /** The seven punctuation symbols, in index order 36..42. */
  const Symbols: string := "-._$/+%"

  /** Every encodable symbol, at the position of its index. */
  const Alphabet: string := Digits() + Letters() + Symbols

  predicate IsDigit(c: char) { '0' <= c <= '9' }
  predicate IsUpper(c: char) { 'A' <= c <= 'Z' }
  predicate IsLower(c: char) { 'a' <= c <= 'z' }
  predicate IsSymbol(c: char) {
    c == '-' || c == '.' || c == '_' || c == '$' || c == '/' || c == '+' || c == '%'
  }

  /** A symbol that has a pattern of its own. */
  predicate IsCode39Char(c: char) { IsDigit(c) || IsUpper(c) || IsSymbol(c) }

  /** The character class of the encoder's validation regular expression:
      letters of either case, digits and the seven symbols. */
  predicate MatchesAllowed(c: char) { IsLower(c) || IsCode39Char(c) }

  /** Value of a decimal digit character. */
  function DigitValue(c: char): (v: nat)
    requires IsDigit(c)
    ensures v < 10 && Digits()[v] == c
  {
    c as int - '0' as int
  }

  /** Index of a symbol: fixed indices for the symbols, the digit value for
      digits, and the character code minus 55 for capital letters. */
  function CharIndex(c: char): (k: nat)
    requires IsCode39Char(c)
    ensures k < AlphabetSize && Alphabet[k] == c
  {
    if c == '-' then 36
    else if c == '.' then 37
    else if c == '_' then 38
    else if c == '$' then 39
    else if c == '/' then 40
    else if c == '+' then 41
    else if c == '%' then 42
    else if IsDigit(c) then DigitValue(c)
    else c as int - 55
  }

  /** The three blocks of indices: digits, letters, symbols. */
  lemma {:induction false} CharIndexBlocks(c: char)
    requires IsCode39Char(c)
    ensures IsDigit(c) <==> CharIndex(c) < 10
    ensures IsUpper(c) <==> 10 <= CharIndex(c) < 36
    ensures IsSymbol(c) <==> 36 <= CharIndex(c) < AlphabetSize
    ensures IsUpper(c) ==> CharIndex(c) == c as int - 55
  {
    var k := CharIndex(c);
    if k < 10 {
      assert Alphabet[k] == Digits()[k];
    } else if k < 36 {
      assert Alphabet[k] == Letters()[k - 10];
    } else {
      assert Alphabet[k] == Symbols[k - 36];
    }
  }

  /** CharIndex is a bijection between the encodable symbols and 0..42:
      every index names a symbol, and that symbol maps back to it. */
  lemma {:induction false} AlphabetRoundTrip(k: nat)
    requires k < AlphabetSize
    ensures IsCode39Char(Alphabet[k]) && CharIndex(Alphabet[k]) == k
  {
    var c := Alphabet[k];
    if k < 10 {
      assert c == Digits()[k];
    } else if k < 36 {
      assert c == Letters()[k - 10];
    } else {
      assert c == Symbols[k - 36];
      assert Symbols[0] == '-' && Symbols[1] == '.' && Symbols[2] == '_' && Symbols[3] == '$';
      assert Symbols[4] == '/' && Symbols[5] == '+' && Symbols[6] == '%';
    }
  }

  /** The encodable symbols are exactly the characters of the alphabet. */
  lemma {:induction false} Code39CharsAreAlphabet(c: char)
    ensures IsCode39Char(c) <==> c in Alphabet
  {
    if IsCode39Char(c) {
      assert Alphabet[CharIndex(c)] == c;
    }
    if c in Alphabet {
      var k :| 0 <= k < |Alphabet| && Alphabet[k] == c;
      AlphabetRoundTrip(k);
    }
  }

  /** 1 for a wide element, 0 for a narrow one. */
  function Wide(b: char): nat { if b == '1' then 1 else 0 }

  /** Number of wide elements in a nine-element pattern. */
  function WideCount(p: string): nat
    requires |p| == 9
  {
    Wide(p[0]) + Wide(p[1]) + Wide(p[2]) + Wide(p[3]) + Wide(p[4])
    + Wide(p[5]) + Wide(p[6]) + Wide(p[7]) + Wide(p[8])
  }

  predicate IsBitString(s: string) {
    forall i :: 0 <= i < |s| ==> s[i] == '0' || s[i] == '1'
  }

  /** Nine elements, each narrow ('0') or wide ('1'), exactly three of them wide. */
  predicate ThreeOfNine(p: string) {
    |p| == 9 && IsBitString(p) && WideCount(p) == 3
  }

  /** The start/stop pattern that frames every symbol. */
  const Guard: string := "010010100"

  /** The pattern of each index, in the order of Alphabet. */
  const Patterns: seq<string> := [
    // digits 0 to 9
    "000110100", "100100001", "001100001", "101100000", "000110001",
    "100110000", "001110000", "000100101", "100100100", "001100100",
    // letters A to Z
    "100001001", "001001001", "101001000", "000011001", "100011000",
    "001011000", "000001101", "100001100", "001001100", "000011100",
    "100000011", "001000011", "101000010", "000010011", "100010010",
    "001010010", "000000111", "100000110", "001000110", "000010110",
    "110000001", "011000001", "111000000", "010010001", "110010000",
    "011010000",
    // symbols - . _ $ / + %
    "010000101", "110000100", "011000100", "010101000", "010100010",
    "010001010", "000101010"
  ]

  // The table is checked a few entries per lemma, so that each proof stays
  // small.

  lemma {:induction false} TableRows0To3(k: nat)
    requires 0 <= k < 4
    ensures ThreeOfNine(Patterns[k])
  {
    if k == 0 { assert ThreeOfNine(Patterns[0]); }
    else if k == 1 { assert ThreeOfNine(Patterns[1]); }
    else if k == 2 { assert ThreeOfNine(Patterns[2]); }
    else if k == 3 { assert ThreeOfNine(Patterns[3]); }
  }

  lemma {:induction false} TableRows4To7(k: nat)
    requires 4 <= k < 8
    ensures ThreeOfNine(Patterns[k])
  {
    if k == 4 { assert ThreeOfNine(Patterns[4]); }
    else if k == 5 { assert ThreeOfNine(Patterns[5]); }
    else if k == 6 { assert ThreeOfNine(Patterns[6]); }
    else if k == 7 { assert ThreeOfNine(Patterns[7]); }
  }

  lemma {:induction false} TableRows8To11(k: nat)
    requires 8 <= k < 12
    ensures ThreeOfNine(Patterns[k])
  {
    if k == 8 { assert ThreeOfNine(Patterns[8]); }
    else if k == 9 { assert ThreeOfNine(Patterns[9]); }
    else if k == 10 { assert ThreeOfNine(Patterns[10]); }
    else if k == 11 { assert ThreeOfNine(Patterns[11]); }
  }

  lemma {:induction false} TableRows12To15(k: nat)
    requires 12 <= k < 16
    ensures ThreeOfNine(Patterns[k])
  {
    if k == 12 { assert ThreeOfNine(Patterns[12]); }
    else if k == 13 { assert ThreeOfNine(Patterns[13]); }
    else if k == 14 { assert ThreeOfNine(Patterns[14]); }
    else if k == 15 { assert ThreeOfNine(Patterns[15]); }
  }

  lemma {:induction false} TableRows16To19(k: nat)
    requires 16 <= k < 20
    ensures ThreeOfNine(Patterns[k])
  {
    if k == 16 { assert ThreeOfNine(Patterns[16]); }
    else if k == 17 { assert ThreeOfNine(Patterns[17]); }
    else if k == 18 { assert ThreeOfNine(Patterns[18]); }
    else if k == 19 { assert ThreeOfNine(Patterns[19]); }
  }

  lemma {:induction false} TableRows20To23(k: nat)
    requires 20 <= k < 24
    ensures ThreeOfNine(Patterns[k])
  {
    if k == 20 { assert ThreeOfNine(Patterns[20]); }
    else if k == 21 { assert ThreeOfNine(Patterns[21]); }
    else if k == 22 { assert ThreeOfNine(Patterns[22]); }
    else if k == 23 { assert ThreeOfNine(Patterns[23]); }
  }

  lemma {:induction false} TableRows24To27(k: nat)
    requires 24 <= k < 28
    ensures ThreeOfNine(Patterns[k])
  {
    if k == 24 { assert ThreeOfNine(Patterns[24]); }
    else if k == 25 { assert ThreeOfNine(Patterns[25]); }
    else if k == 26 { assert ThreeOfNine(Patterns[26]); }
    else if k == 27 { assert ThreeOfNine(Patterns[27]); }
  }

  lemma {:induction false} TableRows28To31(k: nat)
    requires 28 <= k < 32
    ensures ThreeOfNine(Patterns[k])
  {
    if k == 28 { assert ThreeOfNine(Patterns[28]); }
    else if k == 29 { assert ThreeOfNine(Patterns[29]); }
    else if k == 30 { assert ThreeOfNine(Patterns[30]); }
    else if k == 31 { assert ThreeOfNine(Patterns[31]); }
  }

  lemma {:induction false} TableRows32To35(k: nat)
    requires 32 <= k < 36
    ensures ThreeOfNine(Patterns[k])
  {
    if k == 32 { assert ThreeOfNine(Patterns[32]); }
    else if k == 33 { assert ThreeOfNine(Patterns[33]); }
    else if k == 34 { assert ThreeOfNine(Patterns[34]); }
    else if k == 35 { assert ThreeOfNine(Patterns[35]); }
  }

  lemma {:induction false} TableRows36To39(k: nat)
    requires 36 <= k < 40
    ensures ThreeOfNine(Patterns[k])
  {
    if k == 36 { assert ThreeOfNine(Patterns[36]); }
    else if k == 37 { assert ThreeOfNine(Patterns[37]); }
    else if k == 38 { assert ThreeOfNine(Patterns[38]); }
    else if k == 39 { assert ThreeOfNine(Patterns[39]); }
  }

  lemma {:induction false} TableRows40To42(k: nat)
    requires 40 <= k < 43
    ensures ThreeOfNine(Patterns[k])
  {
    if k == 40 { assert ThreeOfNine(Patterns[40]); }
    else if k == 41 { assert ThreeOfNine(Patterns[41]); }
    else if k == 42 { assert ThreeOfNine(Patterns[42]); }
  }

  /** Every table entry and the guard are three-of-nine patterns. */
  lemma {:induction false} PatternsAreThreeOfNine()
    ensures |Patterns| == AlphabetSize
    ensures forall k :: 0 <= k < AlphabetSize ==> ThreeOfNine(Patterns[k])
    ensures ThreeOfNine(Guard)
  {
    forall k | 0 <= k < AlphabetSize
      ensures ThreeOfNine(Patterns[k])
    {
      if k < 4 {
        TableRows0To3(k);
      } else if k < 8 {
        TableRows4To7(k);
      } else if k < 12 {
        TableRows8To11(k);
      } else if k < 16 {
        TableRows12To15(k);
      } else if k < 20 {
        TableRows16To19(k);
      } else if k < 24 {
        TableRows20To23(k);
      } else if k < 28 {
        TableRows24To27(k);
      } else if k < 32 {
        TableRows28To31(k);
      } else if k < 36 {
        TableRows32To35(k);
      } else if k < 40 {
        TableRows36To39(k);
      } else {
        TableRows40To42(k);
      }
    }
  }

  /** The pattern of index k. */
  function Pattern(k: nat): (p: string)
    requires k < AlphabetSize
    ensures ThreeOfNine(p)
  {
    PatternsAreThreeOfNine();
    Patterns[k]
  }

}
