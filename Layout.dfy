/**
 * The line- and word-level transforms of `TextConverter`: `text_shadow`
 * and `text_to_emoticons`.
 */
module Layout {
  import opened PyStr
  import opened Errors

  /** The offset `text_shadow` uses when the caller gives none */
  const DefaultShadowOffset: int := 1

  /** `' ' * offset`: Python repeats a string no times for a count below one */
  function Indent(offset: int): (s: string)
    ensures |s| == if offset > 0 then offset else 0
    ensures forall i :: 0 <= i < |s| ==> s[i] == ' '
    ensures '\n' !in s
  {
    seq(if offset > 0 then offset else 0, _ => ' ')
  }

  /** The lines of the shadow copy: every line of the text, indented */
  function ShadowLines(text: string, offset: int): (lines: seq<string>)
    ensures |lines| == |Split(text, '\n')|
    ensures forall i :: 0 <= i < |lines| ==>
      |lines[i]| == |Indent(offset)| + |Split(text, '\n')[i]| &&
      lines[i][..|Indent(offset)|] == Indent(offset) &&
      lines[i][|Indent(offset)|..] == Split(text, '\n')[i]
  {
    var lines := Split(text, '\n');
    seq(|lines|, i requires 0 <= i < |lines| => Indent(offset) + lines[i])
  }

  /** `text_shadow`: the text, a line break, and the indented copy */
  function TextShadow(text: string, offset: int): string {
    text + "\n" + Join(ShadowLines(text, offset), "\n")
  }

  lemma ShadowLinesUnbroken(text: string, offset: int)
    ensures forall i :: 0 <= i < |ShadowLines(text, offset)| ==> '\n' !in ShadowLines(text, offset)[i]
  {
    var lines := Split(text, '\n');
    var indent := Indent(offset);
    forall i | 0 <= i < |lines| ensures '\n' !in indent + lines[i] {
      assert '\n' !in lines[i];
    }
  }

  /** Read line by line, the result is the text's lines followed by the
      same lines indented, as many as the text has. */
  lemma TextShadowLines(text: string, offset: int)
    ensures Split(TextShadow(text, offset), '\n') == Split(text, '\n') + ShadowLines(text, offset)
  {
    var shadow := ShadowLines(text, offset);
    ShadowLinesUnbroken(text, offset);
    SplitJoin(shadow, '\n');
    SplitConcat(text, Join(shadow, "\n"), '\n');
  }

  /** The text itself comes first, unchanged; an offset of zero or less
      gives the text twice. */
  lemma TextShadowCopies(text: string, offset: int)
    ensures TextShadow(text, offset)[..|text|] == text
    ensures offset <= 0 ==> TextShadow(text, offset) == text + "\n" + text
  {
    if offset <= 0 {
      ShadowWithoutIndent(text, offset);
    }
  }

  /** With the default offset every shadow line is its line preceded by
      one space: "hi" becomes "hi\n hi". */
  lemma TextShadowDefault(text: string)
    ensures forall i :: 0 <= i < |Split(text, '\n')| ==>
      ShadowLines(text, DefaultShadowOffset)[i] == " " + Split(text, '\n')[i]
    ensures TextShadow("hi", DefaultShadowOffset) == "hi\n hi"
  {
    assert Indent(DefaultShadowOffset) == " ";
    assert Split("hi", '\n') == ["hi"] by {
      assert RunLength("hi", '\n') == 2;
    }
    assert ShadowLines("hi", DefaultShadowOffset) == [" hi"] by {
      var lines := ShadowLines("hi", DefaultShadowOffset);
      assert |lines| == 1;
      assert lines[0] == Indent(DefaultShadowOffset) + Split("hi", '\n')[0];
      assert " " + "hi" == " hi";
    }
  }

  lemma ShadowWithoutIndent(text: string, offset: int)
    requires offset <= 0
    ensures Join(ShadowLines(text, offset), "\n") == text
  {
    var lines := Split(text, '\n');
    assert Indent(offset) == [];
    assert ShadowLines(text, offset) == lines by {
      forall i | 0 <= i < |lines| ensures ShadowLines(text, offset)[i] == lines[i] {
        assert [] + lines[i] == lines[i];
      }
    }
    JoinSplit(text, '\n');
  }

  /** `emoticon_dict` */
  function EmoticonDict(word: string): Option<string> {
    match word
    case "hello" => Some("👋")
    case "world" => Some("🌍")
    case _ => None
  }

  /** `emoticon_dict.get(word.lower(), word)` */
  function Emoticon(word: string): string {
    match EmoticonDict(Lower(word))
    case Some(emoji) => emoji
    case None => word
  }

  /** The words of the text, each replaced by its emoticon if it has one */
  function EmoticonWords(text: string): (ws: seq<string>)
    ensures |ws| == |Words(text)|
  {
    var words := Words(text);
    seq(|words|, i requires 0 <= i < |words| => Emoticon(words[i]))
  }

  /** `text_to_emoticons`: split at blanks, look every word up, rejoin
      with single spaces */
  function TextToEmoticons(text: string): string {
    Join(EmoticonWords(text), " ")
  }

  /** The result holds the text's words in order, each one replaced by its
      emoticon or kept, and nothing else but single spaces between them. */
  lemma EmoticonsWords(text: string)
    ensures Words(TextToEmoticons(text)) == EmoticonWords(text)
  {
    var ws := EmoticonWords(text);
    forall i | 0 <= i < |ws| ensures IsWord(ws[i]) {
      assert IsWord(Words(text)[i]);
    }
    WordsJoin(ws);
  }

  /** Converting once more changes nothing: an emoticon is not a word of
      the table, and a word without an emoticon stays what it was. */
  lemma EmoticonsIdempotent(text: string)
    ensures TextToEmoticons(TextToEmoticons(text)) == TextToEmoticons(text)
  {
    EmoticonsWords(text);
    var ws := EmoticonWords(text);
    forall i | 0 <= i < |ws| ensures Emoticon(ws[i]) == ws[i] {
      var w := Words(text)[i];
      if EmoticonDict(Lower(w)).Some? {
        assert Lower("👋") == "👋" && Lower("🌍") == "🌍";
      }
    }
    assert EmoticonWords(TextToEmoticons(text)) == ws;
  }

  /** Words joined by single spaces come out as their emoticons joined by
      single spaces. */
  lemma EmoticonsOfJoinedWords(ws: seq<string>)
    requires forall i :: 0 <= i < |ws| ==> IsWord(ws[i])
    ensures TextToEmoticons(Join(ws, " ")) ==
      Join(seq(|ws|, i requires 0 <= i < |ws| => Emoticon(ws[i])), " ")
  {
    WordsJoin(ws);
  }

  /** The table has exactly two keys, and neither emoji is one. */
  lemma EmoticonDictKeys(word: string)
    ensures EmoticonDict(word).Some? <==> word == "hello" || word == "world"
    ensures EmoticonDict("👋").None? && EmoticonDict("🌍").None?
  {
  }

  /** The lookup ignores the case of the word and keeps unknown words as
      they are written. */
  lemma EmoticonLookup()
    ensures Emoticon("hello") == Emoticon("Hello") == "👋"
    ensures Emoticon("WORLD") == "🌍"
    ensures Emoticon("Hi") == "Hi"
  {
    assert Lower("Hello") == "hello";
    assert Lower("hello") == "hello";
    assert Lower("WORLD") == "world";
    assert Lower("Hi") == "hi";
  }
}
