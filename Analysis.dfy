/** `nerd_mode`: word count, character count and character frequencies. */
module Analysis {
  import opened PyStr

  /** The dictionary `nerd_mode` returns */
  datatype NerdStats = NerdStats(wordCount: nat, charCount: nat, charFrequency: map<char, nat>)

  /** `Counter(text)`: counts the characters from the first to the last */
  function Counter(text: string): map<char, nat>
    decreases |text|
  {
    if text == [] then map[]
    else
      var counts := Counter(text[..|text| - 1]);
      var c := text[|text| - 1];
      counts[c := (if c in counts then counts[c] else 0) + 1]
  }

  /** `nerd_mode` */
  function NerdMode(text: string): NerdStats {
    NerdStats(|Words(text)|, |text|, Counter(text))
  }

  /** The counter has a key for exactly the characters of the text, and
      the count of each is its number of occurrences. */
  lemma {:induction false} CounterCounts(text: string)
    ensures forall c :: c in Counter(text) <==> c in text
    ensures forall c :: c in Counter(text) ==> Counter(text)[c] == multiset(text)[c]
    decreases |text|
  {
    if text != [] {
      var init := text[..|text| - 1];
      CounterCounts(init);
      assert text == init + [text[|text| - 1]];
    }
  }

  /** The character count is the length, and the frequencies add up to it;
      the word count is the number of blank-separated words, zero exactly
      for an all-blank text and never more than (length + 1) / 2. */
  lemma NerdModeFacts(text: string)
    ensures NerdMode(text).charCount == |text| == |multiset(text)|
    ensures forall c :: c in NerdMode(text).charFrequency <==> c in text
    ensures forall c :: c in NerdMode(text).charFrequency ==>
      NerdMode(text).charFrequency[c] == multiset(text)[c] >= 1
    ensures NerdMode(text).wordCount == 0 <==> forall i :: 0 <= i < |text| ==> IsSpace(text[i])
    ensures 2 * NerdMode(text).wordCount <= |text| + 1
  {
    CounterCounts(text);
    WordsEmpty(text);
    WordsBound(text);
  }
}
