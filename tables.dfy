/**
 * The two constant tables of the Base64 codec: the forward alphabet
 * `_base64` (6-bit value -> symbol) and the inverse table `b64lookup`
 * (character code 0..127 -> 6-bit value, or -1 for "not a symbol").
 *
 * Characters are modelled as byte values 0..255 (the codec's `char`).
 * Both tables are written as rows of 16 entries joined together, the
 * layout `b64lookup` has in the C source.
 */
module Base64Tables {

  /** A C `char` of the source or destination buffer, as its byte value. */
  type byte = x: int | 0 <= x < 256

  /** The pad symbol '='. */
  const Pad: byte := 61

  /** Space, tab, newline and carriage return: the characters the decoder refuses outright. */
  predicate IsWhitespace(c: byte)
  {
    c == 32 || c == 9 || c == 10 || c == 13
  }

  /**
   * `_base64`: the standard alphabet of section 4 of RFC 4648, as character codes.
   * Row 0 is "ABCDEFGHIJKLMNOP", row 1 "QRSTUVWXYZabcdef",
   * row 2 "ghijklmnopqrstuv", row 3 "wxyz0123456789+/".
   */
  const AlphabetRow0: seq<byte> := [65, 66, 67, 68, 69, 70, 71, 72, 73, 74, 75, 76, 77, 78, 79, 80]
  const AlphabetRow1: seq<byte> := [81, 82, 83, 84, 85, 86, 87, 88, 89, 90, 97, 98, 99, 100, 101, 102]
  const AlphabetRow2: seq<byte> := [103, 104, 105, 106, 107, 108, 109, 110, 111, 112, 113, 114, 115, 116, 117, 118]
  const AlphabetRow3: seq<byte> := [119, 120, 121, 122, 48, 49, 50, 51, 52, 53, 54, 55, 56, 57, 43, 47]
  const Base64Digits: seq<byte> := (AlphabetRow0 + AlphabetRow1) + (AlphabetRow2 + AlphabetRow3)

  /**
   * The entries of `_base64` by range: 0..25 are 'A'..'Z', 26..51 'a'..'z',
   * 52..61 '0'..'9', 62 is '+' and 63 is '/'.
   */
  function DigitCode(v: int): int
  {
    if v < 26 then v + 65
    else if v < 52 then v + 71
    else if v < 62 then v - 4
    else if v == 62 then 43
    else 47
  }

  /** The literal table `_base64` holds, at every index 0..63, the code `DigitCode` gives. */
  lemma AlphabetTableMatches(v: int)
    requires 0 <= v < 64
    ensures Base64Digits[v] == DigitCode(v) == Symbol(v)
  {
    if v < 16 {
      assert Base64Digits[v] == AlphabetRow0[v];
    } else if v < 32 {
      assert Base64Digits[v] == AlphabetRow1[v - 16];
    } else if v < 48 {
      assert Base64Digits[v] == AlphabetRow2[v - 32];
    } else {
      assert Base64Digits[v] == AlphabetRow3[v - 48];
    }
  }

  /** `b64lookup`, row by row (codes 16*k .. 16*k+15 in row k). */
  const LookupRow0: seq<int> := [-1, -1, -1, -1, -1, -1, -1, -1, -1, -1, -1, -1, -1, -1, -1, -1]
  const LookupRow1: seq<int> := [-1, -1, -1, -1, -1, -1, -1, -1, -1, -1, -1, -1, -1, -1, -1, -1]
  const LookupRow2: seq<int> := [-1, -1, -1, -1, -1, -1, -1, -1, -1, -1, -1, 62, -1, -1, -1, 63]
  const LookupRow3: seq<int> := [52, 53, 54, 55, 56, 57, 58, 59, 60, 61, -1, -1, -1, -1, -1, -1]
  const LookupRow4: seq<int> := [-1, 0, 1, 2, 3, 4, 5, 6, 7, 8, 9, 10, 11, 12, 13, 14]
  const LookupRow5: seq<int> := [15, 16, 17, 18, 19, 20, 21, 22, 23, 24, 25, -1, -1, -1, -1, -1]
  const LookupRow6: seq<int> := [-1, 26, 27, 28, 29, 30, 31, 32, 33, 34, 35, 36, 37, 38, 39, 40]
  const LookupRow7: seq<int> := [41, 42, 43, 44, 45, 46, 47, 48, 49, 50, 51, -1, -1, -1, -1, -1]

  /** The two halves of `b64lookup`: codes 0..63 and codes 64..127. */
  const LookupLow: seq<int> := (LookupRow0 + LookupRow1) + (LookupRow2 + LookupRow3)
  const LookupHigh: seq<int> := (LookupRow4 + LookupRow5) + (LookupRow6 + LookupRow7)

  /** `b64lookup`: 128 entries indexed by character code. */
  const Lookup: seq<int> := LookupLow + LookupHigh

  /**
   * The entries of `b64lookup` by range: 'A'..'Z' are 0..25, 'a'..'z' 26..51,
   * '0'..'9' 52..61, '+' is 62, '/' is 63, every other code -1.
   * `LookupTableMatches` proves this is the table entry for entry.
   */
  function LookupValue(c: int): int
  {
    if 65 <= c <= 90 then c - 65
    else if 97 <= c <= 122 then c - 71
    else if 48 <= c <= 57 then c + 4
    else if c == 43 then 62
    else if c == 47 then 63
    else -1
  }

  /** The literal table `b64lookup` holds, at every code 0..127, the value `LookupValue` gives. */
  lemma LookupTableMatches(c: int)
    requires 0 <= c < 128
    ensures Lookup[c] == LookupValue(c)
  {
    if c < 64 {
      LookupTableMatchesLow(c);
    } else {
      LookupTableMatchesHigh(c);
    }
  }

  lemma LookupTableMatchesLow(c: int)
    requires 0 <= c < 64
    ensures Lookup[c] == LookupValue(c)
  {
    assert Lookup[c] == LookupLow[c];
    if c < 16 {
      assert LookupLow[c] == LookupRow0[c];
    } else if c < 32 {
      assert LookupLow[c] == LookupRow1[c - 16];
    } else if c < 48 {
      assert LookupLow[c] == LookupRow2[c - 32];
    } else {
      assert LookupLow[c] == LookupRow3[c - 48];
    }
  }

  lemma LookupTableMatchesHigh(c: int)
    requires 64 <= c < 128
    ensures Lookup[c] == LookupValue(c)
  {
    assert Lookup[c] == LookupHigh[c - 64];
    if c < 80 {
      assert LookupHigh[c - 64] == LookupRow4[c - 64];
    } else if c < 96 {
      assert LookupHigh[c - 64] == LookupRow5[c - 80];
    } else if c < 112 {
      assert LookupHigh[c - 64] == LookupRow6[c - 96];
    } else {
      assert LookupHigh[c - 64] == LookupRow7[c - 112];
    }
  }

  /**
   * The value the decoder gives a non-pad character: `b64lookup[c]` when the
   * code is in 1..126, and -1 otherwise. This is the effective rule of the
   * `c > 0 && c < 127` guard whatever the signedness of `char`.
   */
  function SymbolValue(c: byte): int
  {
    if 0 < c < 127 then LookupValue(c) else -1
  }

  /** A character of the 64-symbol alphabet. */
  predicate IsSymbol(c: byte)
  {
    SymbolValue(c) >= 0
  }

  /**
   * `_base64[v]`: the symbol for the 6-bit value `v`, which is the table entry
   * (`AlphabetTableMatches`); it is neither '=' nor whitespace.
   */
  function Symbol(v: int): (c: byte)
    requires 0 <= v < 64
    ensures c != Pad && !IsWhitespace(c)
  {
    DigitCode(v)
  }

  /** The inverse table maps every alphabet symbol back to its index. */
  lemma SymbolInverse(v: int)
    requires 0 <= v < 64
    ensures SymbolValue(Symbol(v)) == v
  {
  }

  /** Every code that `b64lookup` accepts is the alphabet symbol of its value. */
  lemma LookupInverse(c: byte)
    requires IsSymbol(c)
    ensures SymbolValue(c) < 64 && Symbol(SymbolValue(c)) == c
  {
  }
}
