/**
 * The parts of Python's `str` that the text converter builds on: slicing
 * reversal, case mapping, `isalpha`, `isspace`, `split`, `join` and
 * `replace`. Case mapping, `isalpha` and `isspace` are restricted to ASCII:
 * every other character is treated as caseless, non-alphabetic and
 * non-blank, and passes through unchanged.
 */
module PyStr {

  predicate IsAsciiLower(c: char) { 'a' <= c <= 'z' }

  predicate IsAsciiUpper(c: char) { 'A' <= c <= 'Z' }

  predicate IsAsciiAlpha(c: char) { IsAsciiLower(c) || IsAsciiUpper(c) }

  /** The ASCII characters for which Python's `str.isspace()` holds:
      tab, line feed, vertical tab, form feed, carriage return,
      the four information separators U+001C..U+001F, and space. */
  predicate IsSpace(c: char) {
    c == ' ' || '\t' <= c <= '\r' || '\U{1C}' <= c <= '\U{1F}'
  }

  /** `str.upper` on one character */
  function UpperChar(c: char): char {
    if IsAsciiLower(c) then (c as int - 32) as char else c
  }

  /** `str.lower` on one character */
  function LowerChar(c: char): char {
    if IsAsciiUpper(c) then (c as int + 32) as char else c
  }

  /** `text.upper()` */
  function Upper(s: string): (r: string)
    ensures |r| == |s|
    ensures forall i :: 0 <= i < |s| ==> !IsAsciiLower(r[i])
    ensures forall i :: 0 <= i < |s| && !IsAsciiLower(s[i]) ==> r[i] == s[i]
  {
    seq(|s|, i requires 0 <= i < |s| => UpperChar(s[i]))
  }

  /** `text.lower()` */
  function Lower(s: string): (r: string)
    ensures |r| == |s|
    ensures forall i :: 0 <= i < |s| ==> !IsAsciiUpper(r[i])
    ensures forall i :: 0 <= i < |s| && !IsAsciiUpper(s[i]) ==> r[i] == s[i]
  {
    seq(|s|, i requires 0 <= i < |s| => LowerChar(s[i]))
  }

  /** Upper- and lower-casing only differ in the direction they pick:
      each undoes the other on letters and both are idempotent. */
  lemma CaseMappingLaws(s: string)
    ensures Upper(Upper(s)) == Upper(s) && Lower(Lower(s)) == Lower(s)
    ensures Upper(Lower(s)) == Upper(s) && Lower(Upper(s)) == Lower(s)
  {
    assert forall i :: 0 <= i < |s| ==> UpperChar(LowerChar(s[i])) == UpperChar(s[i]);
    assert forall i :: 0 <= i < |s| ==> LowerChar(UpperChar(s[i])) == LowerChar(s[i]);
  }

  /** `text[::-1]` */
  function Reverse<T>(s: seq<T>): (r: seq<T>)
    ensures |r| == |s|
    ensures forall i :: 0 <= i < |s| ==> r[i] == s[|s| - 1 - i]
  {
    seq(|s|, i requires 0 <= i < |s| => s[|s| - 1 - i])
  }

  /** Reversing twice gives the text back, and reversal turns a
      concatenation around. */
  lemma ReverseLaws<T>(s: seq<T>, t: seq<T>)
    ensures Reverse(Reverse(s)) == s
    ensures Reverse(s + t) == Reverse(t) + Reverse(s)
  {
  }

  /** The length of the leading run of characters different from `sep` */
  function RunLength(s: string, sep: char): (n: nat)
    ensures n <= |s|
    ensures sep !in s[..n]
    ensures n < |s| ==> s[n] == sep
  {
    if s == [] || s[0] == sep then 0 else 1 + RunLength(s[1..], sep)
  }

  /** `s.split(sep)` for a one-character separator: the pieces between
      separators, empty pieces included, so there is always at least one. */
  function Split(s: string, sep: char): (parts: seq<string>)
    ensures |parts| >= 1
    ensures forall i :: 0 <= i < |parts| ==> sep !in parts[i]
    decreases |s|
  {
    var n := RunLength(s, sep);
    if n == |s| then [s] else [s[..n]] + Split(s[n + 1..], sep)
  }

  /** `sep.join(parts)` */
  function Join(parts: seq<string>, sep: string): string {
    if |parts| == 0 then []
    else if |parts| == 1 then parts[0]
    else parts[0] + sep + Join(parts[1..], sep)
  }

  /** Splitting and joining at the same separator loses nothing. */
  lemma {:induction false} JoinSplit(s: string, sep: char)
    ensures Join(Split(s, sep), [sep]) == s
    decreases |s|
  {
    var n := RunLength(s, sep);
    if n < |s| {
      var parts, rest := Split(s, sep), Split(s[n + 1..], sep);
      assert parts == [s[..n]] + rest;
      assert parts[0] == s[..n] && parts[1..] == rest;
      JoinSplit(s[n + 1..], sep);
      calc {
        Join(parts, [sep]);
        s[..n] + [sep] + Join(rest, [sep]);
        s[..n] + [sep] + s[n + 1..];
        s;
      }
    }
  }

  /** Joining pieces that do not contain the separator, then splitting,
      gives the pieces back. */
  lemma {:induction false} SplitJoin(parts: seq<string>, sep: char)
    requires |parts| >= 1
    requires forall i :: 0 <= i < |parts| ==> sep !in parts[i]
    ensures Split(Join(parts, [sep]), sep) == parts
  {
    var s := Join(parts, [sep]);
    var rest := if |parts| == 1 then [] else [sep] + Join(parts[1..], [sep]);
    assert s == parts[0] + rest;
    RunLengthOfPiece(parts[0], rest, sep);
    if |parts| > 1 {
      SplitJoin(parts[1..], sep);
      assert s[|parts[0]| + 1..] == Join(parts[1..], [sep]);
      assert Split(s, sep) == [parts[0]] + parts[1..];
    }
  }

  lemma {:induction false} RunLengthOfPiece(w: string, rest: string, sep: char)
    requires sep !in w
    requires rest == [] || rest[0] == sep
    ensures RunLength(w + rest, sep) == |w|
    ensures (w + rest)[..|w|] == w
  {
    if w != [] {
      assert (w + rest)[1..] == w[1..] + rest;
      RunLengthOfPiece(w[1..], rest, sep);
    }
  }

  lemma {:induction false} RunLengthOfLongerText(s: string, t: string, sep: char)
    requires RunLength(s, sep) < |s|
    ensures RunLength(s + t, sep) == RunLength(s, sep)
  {
    if s[0] != sep {
      assert (s + t)[1..] == s[1..] + t;
      RunLengthOfLongerText(s[1..], t, sep);
    }
  }

  /** Splitting text joined at a separator splits both sides. */
  lemma {:induction false} SplitConcat(s: string, t: string, sep: char)
    ensures Split(s + [sep] + t, sep) == Split(s, sep) + Split(t, sep)
    decreases |s|
  {
    var n := RunLength(s, sep);
    if n == |s| {
      SplitConcatFirstPiece(s, t, sep);
    } else {
      var rest := s[n + 1..];
      SplitConcatStep(s, t, sep);
      SplitConcat(rest, t, sep);
      ConsAppend(s[..n], Split(rest, sep), Split(t, sep));
    }
  }

  lemma ConsAppend<T>(x: T, a: seq<T>, b: seq<T>)
    ensures [x] + (a + b) == ([x] + a) + b
  {
  }

  /** A text without the separator is the first piece of the join. */
  lemma SplitConcatFirstPiece(s: string, t: string, sep: char)
    requires RunLength(s, sep) == |s|
    ensures Split(s + [sep] + t, sep) == Split(s, sep) + Split(t, sep)
  {
    var whole := s + ([sep] + t);
    assert s + [sep] + t == whole;
    RunLengthOfPiece(s, [sep] + t, sep);
    assert whole[|s| + 1..] == t;
    SplitAt(whole, sep, |s|, s, t);
  }

  /** A text holding the separator gives its first piece to the join. */
  lemma SplitConcatStep(s: string, t: string, sep: char)
    requires RunLength(s, sep) < |s|
    ensures var n := RunLength(s, sep);
      Split(s + [sep] + t, sep) == [s[..n]] + Split(s[n + 1..] + [sep] + t, sep) &&
      Split(s, sep) == [s[..n]] + Split(s[n + 1..], sep)
  {
    var n := RunLength(s, sep);
    var u := [sep] + t;
    RunLengthOfLongerText(s, u, sep);
    SliceAround(s, u, n);
    SliceAround(s, u, n + 1);
    AppendAssoc(s, [sep], t);
    AppendAssoc(s[n + 1..], [sep], t);
    SplitAt(s + u, sep, n, s[..n], s[n + 1..] + u);
    SplitAt(s, sep, n, s[..n], s[n + 1..]);
  }

  lemma AppendAssoc<T>(a: seq<T>, b: seq<T>, c: seq<T>)
    ensures a + (b + c) == a + b + c
  {
  }

  /** One step of `Split`: the text up to its first separator, then the
      pieces of what follows that separator */
  lemma SplitAt(w: string, sep: char, n: nat, head: string, tail: string)
    requires n == RunLength(w, sep) && n < |w|
    requires head == w[..n] && tail == w[n + 1..]
    ensures Split(w, sep) == [head] + Split(tail, sep)
  {
  }

  /** A join of pieces free of the separator character holds exactly one
      separator between neighbours. */
  lemma {:induction false} JoinSeparatorCount(parts: seq<string>, sep: char)
    requires |parts| >= 1
    requires forall i :: 0 <= i < |parts| ==> sep !in parts[i]
    ensures multiset(Join(parts, [sep]))[sep] == |parts| - 1
  {
    if |parts| > 1 {
      JoinSeparatorCount(parts[1..], sep);
      assert multiset(parts[0])[sep] == 0;
    } else {
      assert multiset(parts[0])[sep] == 0;
    }
  }

  /** `s.replace(target, glyphs)` for a one-character `target` */
  function Replace(s: string, target: char, glyphs: string): string {
    if s == [] then []
    else (if s[0] == target then glyphs else [s[0]]) + Replace(s[1..], target, glyphs)
  }

  /** Replacement works character by character, so it distributes over
      concatenation. */
  lemma {:induction false} ReplaceAppend(s: string, t: string, target: char, glyphs: string)
    ensures Replace(s + t, target, glyphs) == Replace(s, target, glyphs) + Replace(t, target, glyphs)
  {
    if s == [] {
      assert s + t == t;
    } else {
      assert (s + t)[1..] == s[1..] + t;
      ReplaceAppend(s[1..], t, target, glyphs);
    }
  }

  /** No character of a word is blank. */
  predicate IsWord(w: string) {
    w != [] && forall i :: 0 <= i < |w| ==> !IsSpace(w[i])
  }

  /** The length of the leading run of non-blank characters */
  function WordLength(s: string): (n: nat)
    ensures n <= |s|
    ensures forall i :: 0 <= i < n ==> !IsSpace(s[i])
    ensures n < |s| ==> IsSpace(s[n])
  {
    if s == [] || IsSpace(s[0]) then 0 else 1 + WordLength(s[1..])
  }

  /** `s.split()` with no argument: the maximal runs of non-blank
      characters; leading, trailing and repeated blanks produce nothing. */
  function Words(s: string): (ws: seq<string>)
    ensures forall i :: 0 <= i < |ws| ==> IsWord(ws[i])
    decreases |s|
  {
    if s == [] then []
    else if IsSpace(s[0]) then Words(s[1..])
    else
      var n := WordLength(s);
      [s[..n]] + Words(s[n..])
  }

  /** Words are separated by at least one blank, so a text of n characters
      holds at most (n + 1) / 2 words. */
  lemma {:induction false} WordsBound(s: string)
    ensures 2 * |Words(s)| <= |s| + 1
    ensures s != [] && IsSpace(s[0]) ==> 2 * |Words(s)| <= |s|
    decreases |s|
  {
    if s == [] {
    } else if IsSpace(s[0]) {
      WordsBound(s[1..]);
    } else {
      WordsBound(s[WordLength(s)..]);
    }
  }

  /** A text holds no word exactly when all of its characters are blank. */
  lemma {:induction false} WordsEmpty(s: string)
    ensures Words(s) == [] <==> forall i :: 0 <= i < |s| ==> IsSpace(s[i])
    decreases |s|
  {
    if s != [] {
      WordsEmpty(s[1..]);
      if IsSpace(s[0]) {
        assert forall i :: 1 <= i < |s| ==> s[i] == s[1..][i - 1];
      }
    }
  }

  /** Joining words with single spaces and splitting at blanks gives the
      words back. */
  lemma {:induction false} WordsJoin(ws: seq<string>)
    requires forall i :: 0 <= i < |ws| ==> IsWord(ws[i])
    ensures Words(Join(ws, " ")) == ws
  {
    if ws != [] {
      var rest := if |ws| == 1 then [] else " " + Join(ws[1..], " ");
      var s := ws[0] + rest;
      assert Join(ws, " ") == s;
      WordLengthOfWord(ws[0], rest);
      assert s[..|ws[0]|] == ws[0];
      if |ws| == 1 {
        assert s[|ws[0]|..] == [];
      } else {
        assert s[|ws[0]|..] == rest;
        WordsJoin(ws[1..]);
        assert Words(rest) == Words(rest[1..]);
        assert rest[1..] == Join(ws[1..], " ");
      }
    }
  }

  /** A single word is its own only word. */
  lemma WordsOfWord(w: string)
    requires IsWord(w)
    ensures Words(w) == [w]
  {
    WordsJoin([w]);
  }

  /** `split()` cuts at every blank: the words of a text with a blank in
      it are the words before the blank followed by the words after it.
      With WordsOfWord this fixes the words of every text, whatever its
      leading, trailing or repeated blanks. */
  lemma {:induction false} WordsAtBlank(a: string, c: char, b: string)
    requires IsSpace(c)
    ensures Words(a + [c] + b) == Words(a) + Words(b)
    decreases |a|
  {
    var u := [c] + b;
    AppendAssoc(a, [c], b);
    if a == [] {
      assert a + u == u && u[1..] == b;
      WordsBlankStep(u);
    } else if IsSpace(a[0]) {
      SliceAround(a, u, 1);
      WordsBlankStep(a + u);
      WordsBlankStep(a);
      AppendAssoc(a[1..], [c], b);
      WordsAtBlank(a[1..], c, b);
    } else {
      var n := WordLength(a);
      WordLengthOfLonger(a, u);
      SliceAround(a, u, n);
      WordsStep(a + u, n);
      WordsStep(a, n);
      AppendAssoc(a[n..], [c], b);
      WordsAtBlank(a[n..], c, b);
      ConsAppend(a[..n], Words(a[n..]), Words(b));
    }
  }

  /** Repeated blanks produce no empty word. */
  lemma WordsExample()
    ensures Words("a  b") == ["a", "b"]
  {
    assert "a  b" == "a" + [' '] + " b";
    WordsAtBlank("a", ' ', " b");
    WordsOfWord("a");
    WordsOfWord("b");
    WordsBlankStep(" b");
    assert " b"[1..] == "b";
  }

  lemma WordsBlankStep(w: string)
    requires w != [] && IsSpace(w[0])
    ensures Words(w) == Words(w[1..])
  {
  }

  lemma WordsStep(w: string, n: nat)
    requires w != [] && !IsSpace(w[0]) && n == WordLength(w)
    ensures Words(w) == [w[..n]] + Words(w[n..])
  {
  }

  lemma SliceAround<T>(s: seq<T>, u: seq<T>, n: nat)
    requires n <= |s|
    ensures (s + u)[..n] == s[..n] && (s + u)[n..] == s[n..] + u
  {
  }

  /** A blank after a text ends its leading run of non-blanks there at the
      latest. */
  lemma {:induction false} WordLengthOfLonger(a: string, u: string)
    requires u != [] && IsSpace(u[0])
    ensures WordLength(a + u) == WordLength(a)
  {
    if a == [] {
      assert a + u == u;
    } else if !IsSpace(a[0]) {
      assert (a + u)[1..] == a[1..] + u;
      WordLengthOfLonger(a[1..], u);
    }
  }

  lemma {:induction false} WordLengthOfWord(w: string, rest: string)
    requires IsWord(w)
    requires rest == [] || IsSpace(rest[0])
    ensures WordLength(w + rest) == |w|
  {
    assert (w + rest)[1..] == w[1..] + rest;
    if |w| > 1 {
      WordLengthOfWord(w[1..], rest);
    }
  }
}
