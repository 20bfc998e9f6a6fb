/**
 * The letter-level transforms of `TextConverter`: `case_switch`,
 * `leetspeak` and `piglatin`.
 */
module Casing {
  import opened PyStr
  import opened Errors

  /** The mode `case_switch` uses when the caller gives none */
  const DefaultCaseMode: string := "upper"

  /** `case_switch`: the mode is compared case-insensitively; anything
      other than "upper" or "lower" raises `ValueError`. */
  function CaseSwitch(text: string, mode: string): (r: Result<string>)
    ensures r.Ok? <==> Lower(mode) in {"upper", "lower"}
    ensures r.Err? ==> r.error.ValueError?
    ensures r.Ok? ==> |r.value| == |text| && Lower(r.value) == Lower(text)
  {
    CaseMappingLaws(text);
    if Lower(mode) == "upper" then Ok(Upper(text))
    else if Lower(mode) == "lower" then Ok(Lower(text))
    else Err(ValueError("Case must be 'upper' or 'lower'"))
  }

  /** Without a mode the text is upper-cased; "upper" makes the text free of
      lower-case letters and "lower" free of upper-case ones, whatever the
      case the mode is written in. */
  lemma CaseSwitchModes(text: string, mode: string)
    ensures CaseSwitch(text, DefaultCaseMode) == Ok(Upper(text))
    ensures CaseSwitch(text, mode) == CaseSwitch(text, Upper(mode))
    ensures Lower(mode) == "upper" ==>
      forall i :: 0 <= i < |text| ==> !IsAsciiLower(CaseSwitch(text, mode).value[i])
    ensures Lower(mode) == "lower" ==>
      forall i :: 0 <= i < |text| ==> !IsAsciiUpper(CaseSwitch(text, mode).value[i])
  {
    CaseMappingLaws(mode);
    assert Lower(DefaultCaseMode) == "upper";
  }

  /** The examples "Hello" in both modes and an unsupported mode */
  lemma CaseSwitchExamples()
    ensures CaseSwitch("Hello", "upper") == Ok("HELLO")
    ensures CaseSwitch("Hello", "lower") == Ok("hello")
    ensures CaseSwitch("x", "sideways").Err?
  {
    assert Lower("upper") == "upper";
    assert Lower("lower") == "lower";
    assert Upper("Hello") == "HELLO";
    assert Lower("Hello") == "hello";
    assert Lower("sideways") != "upper" && Lower("sideways") != "lower" by {
      assert Lower("sideways")[0] == 's';
    }
  }

  /** The `leet_dict` lookup with the character itself as default */
  function LeetChar(c: char): char {
    match c
    case 'a' => '4'
    case 'e' => '3'
    case 'l' => '1'
    case 'o' => '0'
    case 't' => '7'
    case _ => c
  }

  /** `leetspeak`: lower-case the text, then look every character up */
  function Leetspeak(text: string): (r: string)
    ensures |r| == |text|
  {
    var lowered := Lower(text);
    seq(|lowered|, i requires 0 <= i < |lowered| => LeetChar(lowered[i]))
  }

  /** Each of a, e, l, o, t, in either case, becomes the digit 4, 3, 1, 0
      or 7; the result holds no upper-case letter and none of a, e, l, o,
      t; every other character of the lower-cased text is kept, so the
      transform ignores case and applying it twice changes nothing more. */
  lemma LeetspeakLaws(text: string)
    ensures forall i, k :: 0 <= i < |text| && 0 <= k < 5 && LowerChar(text[i]) == "aelot"[k] ==>
      Leetspeak(text)[i] == "43107"[k]
    ensures forall i :: 0 <= i < |text| ==>
      !IsAsciiUpper(Leetspeak(text)[i]) && Leetspeak(text)[i] !in "aelot"
    ensures forall i :: 0 <= i < |text| && LowerChar(text[i]) !in "aelot" ==>
      Leetspeak(text)[i] == LowerChar(text[i])
    ensures Leetspeak(Upper(text)) == Leetspeak(text)
    ensures Leetspeak(Leetspeak(text)) == Leetspeak(text)
  {
    CaseMappingLaws(text);
    var r := Leetspeak(text);
    assert Lower(r) == r;
  }

  lemma LeetspeakExample()
    ensures Leetspeak("Elite") == "31i73"
  {
    assert Lower("Elite") == "elite";
  }

  const Vowels: string := "aeiouAEIOU"

  /** `piglatin`: a text that starts with a vowel gets "way" appended;
      otherwise its first character moves to the end, followed by "ay".
      The empty text fails on the subscript `text[0]`. */
  function PigLatin(text: string): (r: Result<string>)
    ensures r.Err? <==> text == []
    ensures r.Err? ==> r.error == IndexError
    ensures r.Ok? ==> |r.value| == |text| + (if text[0] in Vowels then 3 else 2)
    ensures r.Ok? && text[0] in Vowels ==> r.value[..|text|] == text
    ensures r.Ok? && text[0] !in Vowels ==>
      r.value[..|text| - 1] == text[1..] && r.value[|text| - 1] == text[0]
  {
    if text == [] then Err(IndexError)
    else if text[0] in Vowels then Ok(text + "way")
    else Ok(text[1..] + [text[0]] + "ay")
  }

  /** Pig Latin only moves characters and adds a suffix: the result holds
      the characters of the text plus those of "way" or "ay". */
  lemma PigLatinCharacters(text: string)
    requires text != []
    ensures var suffix := if text[0] in Vowels then "way" else "ay";
      multiset(PigLatin(text).value) == multiset(text) + multiset(suffix) &&
      PigLatin(text).value[|text|..] == suffix
  {
    if text[0] !in Vowels {
      assert text == [text[0]] + text[1..];
    }
  }

  /** "apple" and "pig", and two words with the same
      Pig Latin form: the transform cannot be undone in general. */
  lemma PigLatinExamples()
    ensures PigLatin("apple") == Ok("appleway")
    ensures PigLatin("pig") == Ok("igpay")
    ensures PigLatin("a") == PigLatin("wa") == Ok("away")
  {
    assert "apple"[0] == Vowels[0] && "a"[0] == Vowels[0];
    assert "apple" + "way" == "appleway";
    assert "a" + "way" == "away";
    assert "pig"[0] !in Vowels && "wa"[0] !in Vowels;
    assert "pig"[1..] + ['p'] + "ay" == "igpay";
    assert "wa"[1..] + ['w'] + "ay" == "away";
  }
}
