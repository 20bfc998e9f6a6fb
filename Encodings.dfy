/**
 * The code-based transforms of `TextConverter`: `morse_code` and
 * `binary_text`.
 */
module Encodings {
  import opened PyStr
  import opened Errors

  /** `MORSE_CODE_DICT` as written. Its comma entry is keyed by the
      two-character string ", ", which a one-character lookup never
      matches. */
  function MorseCodeDictAsWritten(key: string): Option<string> {
    match key
    case "A" => Some(".-")  case "B" => Some("-...")  case "C" => Some("-.-.")  case "D" => Some("-..")
    case "E" => Some(".")  case "F" => Some("..-.")  case "G" => Some("--.")  case "H" => Some("....")
    case "I" => Some("..")  case "J" => Some(".---")  case "K" => Some("-.-")  case "L" => Some(".-..")
    case "M" => Some("--")  case "N" => Some("-.")  case "O" => Some("---")  case "P" => Some(".--.")
    case "Q" => Some("--.-")  case "R" => Some(".-.")  case "S" => Some("...")  case "T" => Some("-")
    case "U" => Some("..-")  case "V" => Some("...-")  case "W" => Some(".--")  case "X" => Some("-..-")
    case "Y" => Some("-.--")  case "Z" => Some("--..")  case "1" => Some(".----")  case "2" => Some("..---")
    case "3" => Some("...--")  case "4" => Some("....-")  case "5" => Some(".....")  case "6" => Some("-....")
    case "7" => Some("--...")  case "8" => Some("---..")  case "9" => Some("----.")  case "0" => Some("-----")
    case ", " => Some("--..--")  case "." => Some(".-.-.-")  case "?" => Some("..--..")  case "/" => Some("-..-.")
    case "-" => Some("-....-")  case "(" => Some("-.--.")  case ")" => Some("-.--.-")
    case _ => None
  }

  /** `MORSE_CODE_DICT.get(char.upper(), '')` with the table as written */
  function MorseTokenAsWritten(c: char): string {
    match MorseCodeDictAsWritten([UpperChar(c)])
    case Some(code) => code
    case None => ""
  }

  function MorseTokensAsWritten(text: string): (tokens: seq<string>)
    ensures |tokens| == |text|
  {
    seq(|text|, i requires 0 <= i < |text| => MorseTokenAsWritten(text[i]))
  }

  /** `morse_code` with the table as written */
  function MorseCodeAsWritten(text: string): string {
    Join(MorseTokensAsWritten(text), " ")
  }

  /** As written, a comma gets the empty token and no character ever gets
      the comma's code "--..--": a text with a comma loses it. */
  lemma MorseCommaUnreachable(c: char)
    ensures MorseCodeDictAsWritten(", ") == Some("--..--")
    ensures MorseTokenAsWritten(',') == ""
    ensures MorseTokenAsWritten(c) != "--..--"
    ensures MorseCodeAsWritten("a,b") == ".-  -..."
  {
    assert MorseTokensAsWritten("a,b") == [".-", "", "-..."];
  }

  /** The table with the comma keyed by "," as evidently intended; every
      other entry is the one written. */
  function MorseCodeDict(key: string): Option<string> {
    if key == "," then Some("--..--")
    else if key == ", " then None
    else MorseCodeDictAsWritten(key)
  }

  /** `MORSE_CODE_DICT.get(char.upper(), '')` */
  function MorseToken(c: char): string {
    match MorseCodeDict([UpperChar(c)])
    case Some(code) => code
    case None => ""
  }

  /** The tokens of the characters of a text, in order */
  function MorseTokens(text: string): (tokens: seq<string>)
    ensures |tokens| == |text|
  {
    seq(|text|, i requires 0 <= i < |text| => MorseToken(text[i]))
  }

  /** `morse_code`: the tokens joined by single spaces */
  function MorseCode(text: string): string {
    Join(MorseTokens(text), " ")
  }

  /** Every entry of the corrected table is reached by its one-character
      key, the comma included; every character but the comma is encoded
      as the code is written. */
  lemma MorseKeysReachable(key: string, c: char)
    ensures MorseCodeDict(key).Some? ==>
      |key| == 1 && MorseToken(key[0]) == MorseCodeDict(key).value
    ensures c != ',' ==> MorseToken(c) == MorseTokenAsWritten(c)
    ensures MorseCode("a,b") == ".- --..-- -..."
  {
    assert MorseTokens("a,b") == [".-", "--..--", "-..."];
  }

  /** Every token is made of dots and dashes only. */
  lemma MorseTokenShape(c: char)
    ensures forall i :: 0 <= i < |MorseToken(c)| ==> MorseToken(c)[i] in ".-"
  {
  }

  /** A non-empty text yields exactly one space between neighbouring
      tokens (so |text| - 1 spaces, even around characters without a
      code), and splitting the result at spaces gives back one token per
      character. */
  lemma MorseCodeSpaces(text: string)
    requires text != []
    ensures multiset(MorseCode(text))[' '] == |text| - 1
    ensures Split(MorseCode(text), ' ') == MorseTokens(text)
  {
    var tokens := MorseTokens(text);
    forall i | 0 <= i < |tokens| ensures ' ' !in tokens[i] {
      MorseTokenShape(text[i]);
    }
    JoinSeparatorCount(tokens, ' ');
    SplitJoin(tokens, ' ');
  }

  /** No token of the code as written holds a space: it is the corrected
      token, or empty for the comma. */
  lemma MorseTokenAsWrittenShape(c: char)
    ensures forall i :: 0 <= i < |MorseTokenAsWritten(c)| ==> MorseTokenAsWritten(c)[i] in ".-"
  {
    if c == ',' {
      MorseCommaUnreachable(c);
    } else {
      MorseKeysReachable("", c);
      MorseTokenShape(c);
    }
  }

  /** A text without a comma is encoded by the code as written exactly as
      by the corrected table. */
  lemma MorseAsWrittenAgrees(text: string)
    ensures ',' !in text ==> MorseCodeAsWritten(text) == MorseCode(text)
  {
    if ',' !in text {
      forall i | 0 <= i < |text| ensures MorseTokensAsWritten(text)[i] == MorseTokens(text)[i] {
        MorseKeysReachable("", text[i]);
      }
      assert MorseTokensAsWritten(text) == MorseTokens(text);
    }
  }

  /** The spacing of `MorseCodeSpaces` holds for the code as written too:
      one space between neighbouring tokens, and splitting at spaces gives
      one token per character. */
  lemma MorseCodeAsWrittenSpaces(text: string)
    requires text != []
    ensures multiset(MorseCodeAsWritten(text))[' '] == |text| - 1
    ensures Split(MorseCodeAsWritten(text), ' ') == MorseTokensAsWritten(text)
  {
    var tokens := MorseTokensAsWritten(text);
    forall i | 0 <= i < |tokens| ensures ' ' !in tokens[i] {
      MorseTokenAsWrittenShape(text[i]);
    }
    JoinSeparatorCount(tokens, ' ');
    SplitJoin(tokens, ' ');
  }

  /** Lower-case letters are encoded like upper-case ones, by the
      corrected table and by the code as written. */
  lemma MorseIgnoresCase(text: string)
    ensures MorseCode(Lower(text)) == MorseCode(text)
    ensures MorseCode(Upper(text)) == MorseCode(text)
    ensures MorseCodeAsWritten(Lower(text)) == MorseCodeAsWritten(text)
    ensures MorseCodeAsWritten(Upper(text)) == MorseCodeAsWritten(text)
  {
    forall i | 0 <= i < |text|
      ensures UpperChar(LowerChar(text[i])) == UpperChar(text[i])
      ensures UpperChar(UpperChar(text[i])) == UpperChar(text[i])
    {
    }
    assert MorseTokens(Lower(text)) == MorseTokens(text);
    assert MorseTokens(Upper(text)) == MorseTokens(text);
    assert MorseTokensAsWritten(Lower(text)) == MorseTokensAsWritten(text);
    assert MorseTokensAsWritten(Upper(text)) == MorseTokensAsWritten(text);
  }

  /** "SOS" in either case */
  lemma MorseExamples()
    ensures MorseCode("SOS") == "... --- ..."
    ensures MorseCode("sos") == "... --- ..."
  {
    assert MorseCode("SOS") == "... --- ..." by {
      assert MorseTokens("SOS") == ["...", "---", "..."];
    }
    assert MorseCode("sos") == "... --- ..." by {
      assert MorseTokens("sos") == ["...", "---", "..."];
    }
  }

  /** A character without a code gets the empty token, so two spaces
      surround it. */
  lemma MorseUnknownCharacterExample()
    ensures MorseCode("a?b") == ".- ..--.. -..."
    ensures MorseCode("a;b") == ".-  -..."
  {
    assert MorseTokens("a?b") == [".-", "..--..", "-..."];
    assert MorseTokens("a;b") == [".-", "", "-..."];
  }

  /** The binary digit for 0 or 1 */
  function Bit(b: nat): char
    requires b < 2
  {
    if b == 0 then '0' else '1'
  }

  /** `format(n, 'b')`: the binary numeral of n without leading zeros */
  function BinaryDigits(n: nat): (s: string)
    ensures |s| >= 1
    ensures forall i :: 0 <= i < |s| ==> s[i] in "01"
    ensures s[0] == '0' ==> n == 0
  {
    if n < 2 then [Bit(n)] else BinaryDigits(n / 2) + [Bit(n % 2)]
  }

  /** `format(n, '08b')`: padded with zeros to at least eight digits */
  function Format08b(n: nat): (s: string)
    ensures forall i :: 0 <= i < |s| ==> s[i] in "01"
  {
    var digits := BinaryDigits(n);
    if |digits| >= 8 then digits else seq(8 - |digits|, _ => '0') + digits
  }

  /** `binary_text`: the numerals of the code points, joined by spaces */
  function BinaryText(text: string): string {
    Join(BinaryTokens(text), " ")
  }

  function BinaryTokens(text: string): (tokens: seq<string>)
    ensures |tokens| == |text|
  {
    seq(|text|, i requires 0 <= i < |text| => Format08b(text[i] as int))
  }

  /** The number a string of binary digits denotes */
  function BinaryValue(s: string): nat {
    if s == [] then 0
    else 2 * BinaryValue(s[..|s| - 1]) + (if s[|s| - 1] == '1' then 1 else 0)
  }

  function Pow2(k: nat): nat {
    if k == 0 then 1 else 2 * Pow2(k - 1)
  }

  /** The numeral denotes n. */
  lemma {:induction false} BinaryDigitsValue(n: nat)
    ensures BinaryValue(BinaryDigits(n)) == n
  {
    if n >= 2 {
      BinaryDigitsValue(n / 2);
      var s := BinaryDigits(n);
      assert s[..|s| - 1] == BinaryDigits(n / 2);
    }
  }

  /** The numeral of n has at most k digits exactly when n < 2^k. */
  lemma {:induction false} BinaryDigitsLength(n: nat, k: nat)
    requires k >= 1
    ensures |BinaryDigits(n)| <= k <==> n < Pow2(k)
  {
    if n >= 2 {
      if k == 1 {
        assert Pow2(1) == 2;
      } else {
        BinaryDigitsLength(n / 2, k - 1);
      }
    } else {
      PowAtLeastTwo(k);
    }
  }

  lemma {:induction false} PowAtLeastTwo(k: nat)
    requires k >= 1
    ensures Pow2(k) >= 2
  {
    if k > 1 {
      PowAtLeastTwo(k - 1);
    }
  }

  /** Leading zeros do not change the value. */
  lemma {:induction false} LeadingZerosValue(zeros: string, s: string)
    requires forall i :: 0 <= i < |zeros| ==> zeros[i] == '0'
    ensures BinaryValue(zeros + s) == BinaryValue(s)
    decreases |s|
  {
    if s == [] {
      assert zeros + s == zeros;
      ZerosValue(zeros);
    } else {
      assert (zeros + s)[..|zeros + s| - 1] == zeros + s[..|s| - 1];
      LeadingZerosValue(zeros, s[..|s| - 1]);
    }
  }

  lemma {:induction false} ZerosValue(zeros: string)
    requires forall i :: 0 <= i < |zeros| ==> zeros[i] == '0'
    ensures BinaryValue(zeros) == 0
  {
    if zeros != [] {
      ZerosValue(zeros[..|zeros| - 1]);
    }
  }

  /** Each token of `binary_text` denotes the code point it encodes; it has
      exactly eight digits when the code point is below 256; from 256 on
      it is the plain numeral, without leading zeros. */
  lemma Format08bMeaning(n: nat)
    ensures BinaryValue(Format08b(n)) == n
    ensures |Format08b(n)| >= 8
    ensures |Format08b(n)| == 8 <==> n < 256
    ensures n >= 256 ==> Format08b(n) == BinaryDigits(n) && Format08b(n)[0] == '1'
  {
    var digits := BinaryDigits(n);
    BinaryDigitsValue(n);
    BinaryDigitsLength(n, 8);
    assert Pow2(8) == 256;
    if |digits| < 8 {
      LeadingZerosValue(seq(8 - |digits|, _ => '0'), digits);
    }
  }

  /** The character with a code point, or U+FFFD where there is none */
  function CharOf(v: nat): char {
    if v < 0xD800 || 0xE000 <= v < 0x11_0000 then v as char else '\U{FFFD}'
  }

  /** The decoder that undoes `binary_text`: split at spaces, read each
      token as a number and take the character with that code point. */
  function DecodeBinary(s: string): string {
    if s == [] then []
    else
      var tokens := Split(s, ' ');
      seq(|tokens|, i requires 0 <= i < |tokens| => CharOf(BinaryValue(tokens[i])))
  }

  /** `binary_text` loses nothing: decoding its output gives the text back,
      for code points past 255 too. A non-empty text gives one token per
      character; the empty text gives the empty string. */
  lemma BinaryRoundTrip(text: string)
    ensures DecodeBinary(BinaryText(text)) == text
    ensures text != [] ==> Split(BinaryText(text), ' ') == BinaryTokens(text)
    ensures text == [] ==> BinaryText(text) == []
  {
    var tokens := BinaryTokens(text);
    if text != [] {
      forall i | 0 <= i < |tokens|
        ensures ' ' !in tokens[i]
        ensures CharOf(BinaryValue(tokens[i])) == text[i]
      {
        Format08bMeaning(text[i] as int);
      }
      SplitJoin(tokens, ' ');
      assert BinaryText(text) != [] by {
        Format08bMeaning(text[0] as int);
        JoinFirst(tokens, " ");
      }
    }
  }

  lemma JoinFirst(parts: seq<string>, sep: string)
    requires |parts| >= 1
    ensures |Join(parts, sep)| >= |parts[0]|
  {
  }
}
