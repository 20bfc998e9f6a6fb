/**
 * `caesar_cipher`: every ASCII letter is rotated within its own case's
 * alphabet by a signed shift; every other character is kept.
 */
module Caesar {
  import opened PyStr

  /** The code point of 'A' or 'a', the start of the letter's alphabet */
  function Base(c: char): int {
    if IsAsciiUpper(c) then 65 else 97
  }

  /** One character of the cipher. Python's `%` with the positive divisor
      26 never yields a negative remainder, as Dafny's `%` does not. */
  function ShiftChar(c: char, shift: int): (d: char)
    ensures IsAsciiUpper(d) <==> IsAsciiUpper(c)
    ensures IsAsciiLower(d) <==> IsAsciiLower(c)
    ensures !IsAsciiAlpha(c) ==> d == c
  {
    if IsAsciiAlpha(c) then ((c as int - Base(c) + shift) % 26 + Base(c)) as char else c
  }

  /** The cipher text, character by character */
  function Caesar(text: string, shift: int): (r: string)
    ensures |r| == |text|
  {
    seq(|text|, i requires 0 <= i < |text| => ShiftChar(text[i], shift))
  }

  /** `caesar_cipher`: builds the cipher text one character at a time */
  method CaesarCipher(text: string, shift: int) returns (r: string)
    ensures r == Caesar(text, shift)
  {
    var encrypted: seq<char> := [];
    for i := 0 to |text|
      invariant |encrypted| == i
      invariant forall j :: 0 <= j < i ==> encrypted[j] == ShiftChar(text[j], shift)
    {
      var c := text[i];
      if IsAsciiAlpha(c) {
        var shiftAmount := if IsAsciiUpper(c) then 65 else 97;
        encrypted := encrypted + [((c as int - shiftAmount + shift) % 26 + shiftAmount) as char];
      } else {
        encrypted := encrypted + [c];
      }
    }
    r := encrypted;
  }

  /** Two shifts in a row make one shift by their sum. */
  lemma ShiftCharCompose(c: char, a: int, b: int)
    ensures ShiftChar(ShiftChar(c, a), b) == ShiftChar(c, a + b)
  {
    if IsAsciiAlpha(c) {
      var x := c as int - Base(c);
      var y := (x + a) % 26;
      assert Base(ShiftChar(c, a)) == Base(c);
      ModAdd(x + a, b);
    }
  }

  lemma ModAdd(n: int, b: int)
    ensures (n % 26 + b) % 26 == (n + b) % 26
  {
  }

  lemma ModShift(m: int, q: int)
    ensures (m + 26 * q) % 26 == m % 26
  {
  }

  /** Shifting composes additively, a shift by a multiple of 26 (zero
      included) changes nothing, and so shifting by s and then by -s gives
      the text back, for negative shifts as well. */
  lemma CaesarLaws(text: string, a: int, b: int)
    ensures Caesar(Caesar(text, a), b) == Caesar(text, a + b)
    ensures Caesar(text, 26 * b) == text
    ensures Caesar(Caesar(text, a), -a) == text
  {
    forall i | 0 <= i < |text|
      ensures ShiftChar(ShiftChar(text[i], a), b) == ShiftChar(text[i], a + b)
      ensures ShiftChar(text[i], 26 * b) == text[i]
    {
      ShiftCharCompose(text[i], a, b);
      if IsAsciiAlpha(text[i]) {
        ModShift(text[i] as int - Base(text[i]), b);
      }
    }
    forall i | 0 <= i < |text|
      ensures ShiftChar(ShiftChar(text[i], a), -a) == text[i]
    {
      ShiftCharCompose(text[i], a, -a);
      assert ShiftChar(text[i], 0) == text[i];
    }
  }

  /** The next letter of the same case's alphabet, 'z' and 'Z' wrapping
      round to 'a' and 'A'; every other character is kept. */
  function NextLetter(c: char): char {
    if c == 'z' then 'a'
    else if c == 'Z' then 'A'
    else if IsAsciiAlpha(c) then (c as int + 1) as char
    else c
  }

  /** Stepping n times to the next letter */
  function Rotate(c: char, n: nat): char {
    if n == 0 then c else NextLetter(Rotate(c, n - 1))
  }

  /** A shift by one is a step to the next letter. */
  lemma ShiftCharNext(c: char)
    ensures ShiftChar(c, 1) == NextLetter(c)
  {
  }

  /** A shift by any integer s, negative ones included, steps s % 26 times
      to the next letter. */
  lemma {:induction false} ShiftCharRotates(c: char, s: int)
    ensures ShiftChar(c, s) == Rotate(c, s % 26)
  {
    var q, r := s / 26, s % 26;
    assert s == r + 26 * q;
    ShiftCharCompose(c, r, 26 * q);
    if IsAsciiAlpha(c) {
      var d := ShiftChar(c, r);
      ModShift(d as int - Base(d), q);
    }
    ShiftCharSteps(c, r);
  }

  lemma {:induction false} ShiftCharSteps(c: char, n: nat)
    ensures ShiftChar(c, n) == Rotate(c, n)
  {
    if n == 0 {
      assert ShiftChar(c, 0) == c;
    } else {
      ShiftCharSteps(c, n - 1);
      ShiftCharCompose(c, n - 1, 1);
      ShiftCharNext(ShiftChar(c, n - 1));
    }
  }

  /** Every character of the cipher text is its plain character stepped
      shift % 26 letters on. */
  lemma CaesarRotates(text: string, shift: int)
    ensures forall i :: 0 <= i < |text| ==> Caesar(text, shift)[i] == Rotate(text[i], shift % 26)
  {
    forall i | 0 <= i < |text| ensures Caesar(text, shift)[i] == Rotate(text[i], shift % 26) {
      ShiftCharRotates(text[i], shift);
    }
  }

  /** The alphabet wraps round in both directions. */
  lemma CaesarExamples()
    ensures Caesar("xyz", 3) == "abc"
    ensures Caesar("abc", -1) == "zab"
  {
    assert Caesar("xyz", 3) == "abc" by {
      assert 26 % 26 == 0 && 27 % 26 == 1 && 28 % 26 == 2;
      assert ShiftChar('x', 3) == 'a' && ShiftChar('y', 3) == 'b' && ShiftChar('z', 3) == 'c';
      assert Caesar("xyz", 3) == [ShiftChar('x', 3), ShiftChar('y', 3), ShiftChar('z', 3)];
    }
    assert Caesar("abc", -1) == "zab" by {
      assert -1 % 26 == 25 && 0 % 26 == 0 && 1 % 26 == 1;
      assert ShiftChar('a', -1) == 'z' && ShiftChar('b', -1) == 'a' && ShiftChar('c', -1) == 'b';
      assert Caesar("abc", -1) == [ShiftChar('a', -1), ShiftChar('b', -1), ShiftChar('c', -1)];
    }
  }

  /** Letters of both cases move on, 'Z' wrapping round to 'A', and
      punctuation and blanks are kept. */
  lemma CaesarMixedExample()
    ensures Caesar("Hi, Zed!", 1) == "Ij, Afe!"
  {
    var text := "Hi, Zed!";
    forall i | 0 <= i < |text| ensures Caesar(text, 1)[i] == NextLetter(text[i]) {
      ShiftCharNext(text[i]);
    }
    assert Caesar(text, 1) == [NextLetter('H'), NextLetter('i'), ',', ' ', NextLetter('Z'), NextLetter('e'), NextLetter('d'), '!'];
  }

  /**
   * `caesar_cipher` as written decides with Python's `isalpha` and
   * `isupper`, which hold for letters outside ASCII as well; the
   * classification is taken here as the two flags the library would give.
   */
  function ShiftCharAsWritten(c: char, shift: int, isAlpha: bool, isUpper: bool): char {
    if isAlpha then
      var shiftAmount := if isUpper then 65 else 97;
      ((c as int - shiftAmount + shift) % 26 + shiftAmount) as char
    else c
  }

  /** On ASCII the code as written and the model agree; but the lower-case
      letter 'é' (which `isalpha` accepts) comes out as the ASCII 'g' even
      for a zero shift, so shifting there and back loses it. */
  lemma NonAsciiLetterMangled(c: char, shift: int)
    ensures ShiftCharAsWritten(c, shift, IsAsciiAlpha(c), IsAsciiUpper(c)) == ShiftChar(c, shift)
    ensures ShiftCharAsWritten('é', 0, true, false) == 'g'
    ensures ShiftCharAsWritten(ShiftCharAsWritten('é', 3, true, false), -3, true, false) == 'g'
  {
  }
}
