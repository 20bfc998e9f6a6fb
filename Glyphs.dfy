/**
 * The glyph-substitution transforms of `TextConverter`: `reverse_text`,
 * `flipUD` / `text_flip` and `enchant_text`.
 */
module Glyphs {
  import opened PyStr
  import opened Errors

  /** `reverse_text`: the characters of the text in the opposite order */
  function ReverseText(text: string): string {
    Reverse(text)
  }

  /** Reversal undoes itself, and every character moves to the mirrored
      position. */
  lemma ReverseTextInvolution(text: string)
    ensures ReverseText(ReverseText(text)) == text
    ensures |ReverseText(text)| == |text|
    ensures forall i :: 0 <= i < |text| ==> ReverseText(text)[i] == text[|text| - 1 - i]
  {
    ReverseLaws(text, []);
  }

  /**
   * The `str.maketrans` table of `flipUD`, pairing its two 74-character
   * strings code point by code point. The target string has no glyph for
   * 'X' and one extra backslash, so from 'X' to '?' every character gets
   * the glyph meant for its successor in the source string ('Y' becomes
   * 'Z', '1' becomes the turned 2, '!' becomes the inverted '?').
   */
  function FlipMap(c: char): Option<char> {
    match c
    case 'a' => Some('ɐ')  case 'b' => Some('q')  case 'c' => Some('ɔ')  case 'd' => Some('p')
    case 'e' => Some('ǝ')  case 'f' => Some('ɟ')  case 'g' => Some('ɓ')  case 'h' => Some('ɥ')
    case 'i' => Some('ᴉ')  case 'j' => Some('ſ')  case 'k' => Some('ʞ')  case 'l' => Some('l')
    case 'm' => Some('ɯ')  case 'n' => Some('u')  case 'o' => Some('o')  case 'p' => Some('d')
    case 'q' => Some('b')  case 'r' => Some('ɹ')  case 's' => Some('s')  case 't' => Some('ʇ')
    case 'u' => Some('n')  case 'v' => Some('ʌ')  case 'w' => Some('ʍ')  case 'x' => Some('x')
    case 'y' => Some('ʎ')  case 'z' => Some('z')  case 'A' => Some('∀')  case 'B' => Some('ꓭ')
    case 'C' => Some('Ɔ')  case 'D' => Some('ꓷ')  case 'E' => Some('Ǝ')  case 'F' => Some('Ⅎ')
    case 'G' => Some('ꓨ')  case 'H' => Some('H')  case 'I' => Some('I')  case 'J' => Some('ſ')
    case 'K' => Some('ꓘ')  case 'L' => Some('⅃')  case 'M' => Some('W')  case 'N' => Some('N')
    case 'O' => Some('O')  case 'P' => Some('ꓒ')  case 'Q' => Some('Ό')  case 'R' => Some('ꓤ')
    case 'S' => Some('S')  case 'T' => Some('ꓕ')  case 'U' => Some('ꓵ')  case 'V' => Some('Λ')
    case 'W' => Some('M')  case 'X' => Some('⅄')  case 'Y' => Some('Z')  case 'Z' => Some('⇂')
    case '1' => Some('ᘕ')  case '2' => Some('Ԑ')  case '3' => Some('ત')  case '4' => Some('૨')
    case '5' => Some('୧')  case '6' => Some('L')  case '7' => Some('8')  case '8' => Some('მ')
    case '9' => Some('0')  case '0' => Some('·')  case '.' => Some('ˋ')  case ',' => Some('¡')
    case '!' => Some('¿')  case '?' => Some('\\')  case '"' => Some('„')  case '\'' => Some(',')
    case '(' => Some(')')  case ')' => Some('(')  case '[' => Some(']')  case ']' => Some('[')
    case '{' => Some('}')  case '}' => Some('{')
    case _ => None
  }

  /** `str.translate` on one character: characters without an entry are kept */
  function FlipChar(c: char): char {
    match FlipMap(c)
    case Some(glyph) => glyph
    case None => c
  }

  /** `text.translate(flip_map)` */
  function FlipTranslate(text: string): (r: string)
    ensures |r| == |text|
    ensures forall i :: 0 <= i < |text| ==> r[i] == FlipChar(text[i])
  {
    seq(|text|, i requires 0 <= i < |text| => FlipChar(text[i]))
  }

  /** `flipUD`: translate, then reverse */
  function FlipUD(text: string): string {
    Reverse(FlipTranslate(text))
  }

  /** `text_flip` delegates to `flipUD` */
  function TextFlip(text: string): string {
    FlipUD(text)
  }

  /** The flipped text has the length of the input, and position i holds the
      glyph of the character at the mirrored position; characters without a
      table entry pass through. */
  lemma FlipPositions(text: string)
    ensures |TextFlip(text)| == |text|
    ensures forall i :: 0 <= i < |text| ==>
      TextFlip(text)[i] == FlipChar(text[|text| - 1 - i])
    ensures forall i :: 0 <= i < |text| && FlipMap(text[|text| - 1 - i]).None? ==>
      TextFlip(text)[i] == text[|text| - 1 - i]
  {
  }

  /** Translating and reversing commute, and flipping a concatenation flips
      both parts and swaps them. */
  lemma FlipLaws(a: string, b: string)
    ensures FlipUD(a) == FlipTranslate(Reverse(a))
    ensures FlipUD(a + b) == FlipUD(b) + FlipUD(a)
  {
    assert FlipTranslate(a + b) == FlipTranslate(a) + FlipTranslate(b);
    ReverseLaws(FlipTranslate(a), FlipTranslate(b));
  }

  /** The pairings from 'X' on, as the table is written: 'X' takes the
      turned Y, and 'Y' and 'Z' the glyphs meant for their successors. */
  lemma FlipShiftedLetters()
    ensures FlipMap('X') == Some('⅄')
    ensures FlipMap('Y') == Some('Z')
    ensures FlipMap('Z') == Some('⇂')
  {
  }

  /** The digits from '1' on get their successor's glyph. */
  lemma FlipShiftedDigits()
    ensures FlipMap('1') == Some('ᘕ') && FlipMap('2') == Some('Ԑ') && FlipMap('0') == Some('·')
  {
  }

  /** So does the punctuation up to '?'; the brackets are paired with their
      mirror images. */
  lemma FlipShiftedMarks()
    ensures FlipMap('.') == Some('ˋ') && FlipMap('!') == Some('¿') && FlipMap('?') == Some('\\')
    ensures FlipMap('(') == Some(')') && FlipMap(')') == Some('(')
  {
  }

  /**
   * The `str.maketrans` table of `enchant_text` (the Standard Galactic
   * Alphabet). Its source string leaves out p, x and y in both cases; the
   * upper-case letters get the same glyphs as the lower-case ones and the
   * digits and punctuation map to themselves.
   */
  function EnchantMap(c: char): Option<char> {
    match c
    case 'a' => Some('ᔑ')  case 'b' => Some('ʖ')  case 'c' => Some('ᓵ')  case 'd' => Some('↸')
    case 'e' => Some('ᒷ')  case 'f' => Some('⎓')  case 'g' => Some('⊣')  case 'h' => Some('⍑')
    case 'i' => Some('╎')  case 'j' => Some('⋮')  case 'k' => Some('ꖌ')  case 'l' => Some('ꖎ')
    case 'm' => Some('ᒲ')  case 'n' => Some('リ')  case 'o' => Some('𝙹')  case 'q' => Some('ᑑ')
    case 'r' => Some('∷')  case 's' => Some('ᓭ')  case 't' => Some('ℸ')  case 'u' => Some('⚍')
    case 'v' => Some('⍊')  case 'w' => Some('∴')  case 'z' => Some('Λ')  case 'A' => Some('ᔑ')
    case 'B' => Some('ʖ')  case 'C' => Some('ᓵ')  case 'D' => Some('↸')  case 'E' => Some('ᒷ')
    case 'F' => Some('⎓')  case 'G' => Some('⊣')  case 'H' => Some('⍑')  case 'I' => Some('╎')
    case 'J' => Some('⋮')  case 'K' => Some('ꖌ')  case 'L' => Some('ꖎ')  case 'M' => Some('ᒲ')
    case 'N' => Some('リ')  case 'O' => Some('𝙹')  case 'Q' => Some('ᑑ')  case 'R' => Some('∷')
    case 'S' => Some('ᓭ')  case 'T' => Some('ℸ')  case 'U' => Some('⚍')  case 'V' => Some('⍊')
    case 'W' => Some('∴')  case 'Z' => Some('Λ')  case '1' => Some('1')  case '2' => Some('2')
    case '3' => Some('3')  case '4' => Some('4')  case '5' => Some('5')  case '6' => Some('6')
    case '7' => Some('7')  case '8' => Some('8')  case '9' => Some('9')  case '0' => Some('0')
    case '.' => Some('.')  case ',' => Some(',')  case '!' => Some('!')  case '?' => Some('?')
    case '"' => Some('"')  case '\'' => Some('\'')  case '(' => Some('(')  case ')' => Some(')')
    case '[' => Some('[')  case ']' => Some(']')  case '{' => Some('{')  case '}' => Some('}')
    case _ => None
  }

  /** The replacement for x and X: a space, a combining dot above, a slash */
  const EnchantX: string := " \U{0307}/"

  function EnchantChar(c: char): char {
    match EnchantMap(c)
    case Some(glyph) => glyph
    case None => c
  }

  /** `text.translate(enchanted_text)` */
  function EnchantTranslate(text: string): (r: string)
    ensures |r| == |text|
    ensures forall i :: 0 <= i < |text| ==> r[i] == EnchantChar(text[i])
  {
    seq(|text|, i requires 0 <= i < |text| => EnchantChar(text[i]))
  }

  /** The chain of six `str.replace` calls that follows the translation */
  function EnchantReplaceChain(s: string): string {
    Replace(Replace(Replace(Replace(Replace(Replace(
      s, 'p', "!¡"), 'P', "!¡"), 'y', "||"), 'Y', "||"), 'x', EnchantX), 'X', EnchantX)
  }

  /** `enchant_text` */
  function EnchantText(text: string): string {
    EnchantReplaceChain(EnchantTranslate(text))
  }

  /** What one input character becomes in the enchanted text */
  function EnchantGlyph(c: char): string {
    if c == 'p' || c == 'P' then "!¡"
    else if c == 'y' || c == 'Y' then "||"
    else if c == 'x' || c == 'X' then EnchantX
    else [EnchantChar(c)]
  }

  /** The glyphs of the characters of a text, one after the other */
  function EnchantGlyphs(text: string): string {
    if text == [] then [] else EnchantGlyph(text[0]) + EnchantGlyphs(text[1..])
  }

  lemma {:induction false} ReplaceAbsent(s: string, target: char, glyphs: string)
    requires target !in s
    ensures Replace(s, target, glyphs) == s
  {
    if s != [] {
      ReplaceAbsent(s[1..], target, glyphs);
      assert s == [s[0]] + s[1..];
    }
  }

  lemma ReplaceChainAppend(s: string, t: string)
    ensures EnchantReplaceChain(s + t) == EnchantReplaceChain(s) + EnchantReplaceChain(t)
  {
    var s1, t1 := Replace(s, 'p', "!¡"), Replace(t, 'p', "!¡");
    ReplaceAppend(s, t, 'p', "!¡");
    var s2, t2 := Replace(s1, 'P', "!¡"), Replace(t1, 'P', "!¡");
    ReplaceAppend(s1, t1, 'P', "!¡");
    var s3, t3 := Replace(s2, 'y', "||"), Replace(t2, 'y', "||");
    ReplaceAppend(s2, t2, 'y', "||");
    var s4, t4 := Replace(s3, 'Y', "||"), Replace(t3, 'Y', "||");
    ReplaceAppend(s3, t3, 'Y', "||");
    var s5, t5 := Replace(s4, 'x', EnchantX), Replace(t4, 'x', EnchantX);
    ReplaceAppend(s4, t4, 'x', EnchantX);
    ReplaceAppend(s5, t5, 'X', EnchantX);
  }

  lemma ReplaceStep(s: string, target: char, glyphs: string)
    requires |s| == 1 || target !in s
    ensures Replace(s, target, glyphs) == if s == [target] then glyphs else s
  {
    if target !in s {
      ReplaceAbsent(s, target, glyphs);
    } else {
      assert Replace(s, target, glyphs) == glyphs + Replace([], target, glyphs);
    }
  }

  /** The characters the replacement chain rewrites */
  predicate Rewritten(c: char) {
    c == 'p' || c == 'P' || c == 'y' || c == 'Y' || c == 'x' || c == 'X'
  }

  /** What the replacement chain makes of one character */
  function ReplacedGlyph(d: char): string {
    if d == 'p' || d == 'P' then "!¡"
    else if d == 'y' || d == 'Y' then "||"
    else if d == 'x' || d == 'X' then EnchantX
    else [d]
  }

  lemma ReplaceChainOne(d: char)
    ensures EnchantReplaceChain([d]) == ReplacedGlyph(d)
  {
    var s1 := Replace([d], 'p', "!¡");
    ReplaceStep([d], 'p', "!¡");
    var s2 := Replace(s1, 'P', "!¡");
    ReplaceStep(s1, 'P', "!¡");
    var s3 := Replace(s2, 'y', "||");
    ReplaceStep(s2, 'y', "||");
    var s4 := Replace(s3, 'Y', "||");
    ReplaceStep(s3, 'Y', "||");
    var s5 := Replace(s4, 'x', EnchantX);
    ReplaceStep(s4, 'x', EnchantX);
    ReplaceStep(s5, 'X', EnchantX);
  }

  /** No glyph of the translation table is one of the characters the
      replacement chain rewrites. */
  lemma EnchantTableAvoidsReplaced(c: char)
    requires EnchantMap(c).Some?
    ensures !Rewritten(EnchantMap(c).value)
  {
  }

  /** The characters the replacement chain rewrites have no entry in the
      translation table. */
  lemma EnchantTableSkipsRewritten()
    ensures EnchantMap('p').None? && EnchantMap('P').None?
    ensures EnchantMap('y').None? && EnchantMap('Y').None?
    ensures EnchantMap('x').None? && EnchantMap('X').None?
  {
  }

  lemma EnchantGlyphOne(c: char)
    ensures EnchantReplaceChain([EnchantChar(c)]) == EnchantGlyph(c)
  {
    var d := EnchantChar(c);
    ReplaceChainOne(d);
    if Rewritten(c) {
      EnchantTableSkipsRewritten();
    } else if EnchantMap(c).Some? {
      EnchantTableAvoidsReplaced(c);
      assert ReplacedGlyph(d) == [d];
    }
  }

  /** The translate-then-replace pipeline of `enchant_text` amounts to
      replacing every character by its glyph on its own. */
  lemma {:induction false} EnchantPerCharacter(text: string)
    ensures EnchantText(text) == EnchantGlyphs(text)
  {
    if text != [] {
      EnchantPerCharacter(text[1..]);
      assert EnchantTranslate(text) == [EnchantChar(text[0])] + EnchantTranslate(text[1..]);
      ReplaceChainAppend([EnchantChar(text[0])], EnchantTranslate(text[1..]));
      EnchantGlyphOne(text[0]);
    } else {
      assert EnchantTranslate(text) == [];
    }
  }

  lemma EnchantCharIgnoresCase(c: char)
    requires IsAsciiLower(c) && c != 'p' && c != 'x' && c != 'y'
    ensures EnchantChar(UpperChar(c)) == EnchantChar(c)
  {
    if c <= 'f' {
      EnchantAToFIgnoresCase(c);
    } else if c <= 'l' {
      EnchantGToLIgnoresCase(c);
    } else if c <= 's' {
      EnchantMToSIgnoresCase(c);
    } else {
      EnchantTToZIgnoresCase(c);
    }
  }

  lemma EnchantAToFIgnoresCase(c: char)
    requires 'a' <= c <= 'f'
    ensures EnchantChar(UpperChar(c)) == EnchantChar(c)
  {
  }

  lemma EnchantGToLIgnoresCase(c: char)
    requires 'g' <= c <= 'l'
    ensures EnchantChar(UpperChar(c)) == EnchantChar(c)
  {
  }

  lemma EnchantMToSIgnoresCase(c: char)
    requires 'm' <= c <= 's' && c != 'p'
    ensures EnchantChar(UpperChar(c)) == EnchantChar(c)
  {
  }

  lemma EnchantTToZIgnoresCase(c: char)
    requires 't' <= c <= 'z' && c != 'x' && c != 'y'
    ensures EnchantChar(UpperChar(c)) == EnchantChar(c)
  {
  }

  /** An upper-case ASCII letter is enchanted like its lower-case form. */
  lemma EnchantIgnoresCase(c: char)
    requires IsAsciiLower(c)
    ensures EnchantGlyph(UpperChar(c)) == EnchantGlyph(c)
  {
    if c != 'p' && c != 'x' && c != 'y' {
      EnchantCharIgnoresCase(c);
    }
  }

  /** Digits keep their shape, and so does every character that is neither
      in the table nor one of p, x, y in either case. */
  lemma EnchantKeeps(c: char)
    ensures '0' <= c <= '9' ==> EnchantGlyph(c) == [c]
    ensures EnchantMap(c).None? && !Rewritten(c) ==> EnchantGlyph(c) == [c]
  {
  }
}
