/**
 * The history log of `TextConverter`: a fixed table from transform mode to
 * log file, and `save_result`, which appends a result to the log of its
 * mode. The file system is modelled as a map from file path to contents.
 */
module History {
  import opened PyStr
  import opened Errors

  /** The folder all logs live in */
  const HistoryFolder: string := "conversion-history"

  /** The modes that have a history file */
  const Modes: set<string> := {
    "reverse", "flip", "enchant", "case", "leetspeak", "scramble", "piglatin", "caesar",
    "ascii", "border", "zalgo", "morse", "binary", "shadow", "emoticons"
  }

  /** `history_files`: each of the fifteen entries of the table names the
      file `<mode>_history.txt` */
  function HistoryFile(mode: string): Option<string> {
    if mode in Modes then Some(mode + "_history.txt") else None
  }

  /** `os.path.join(folder, name)` with the POSIX separator */
  function JoinPath(folder: string, name: string): string {
    folder + "/" + name
  }

  /** A few entries of the table, and a mode it lacks */
  lemma HistoryFileExamples()
    ensures HistoryFile("reverse") == Some("reverse_history.txt")
    ensures HistoryFile("emoticons") == Some("emoticons_history.txt")
    ensures HistoryFile("nerd").None?
  {
    assert "reverse" + "_history.txt" == "reverse_history.txt";
    assert "emoticons" + "_history.txt" == "emoticons_history.txt";
  }

  /** Different modes log to different files. */
  lemma HistoryPathsDistinct(a: string, b: string)
    requires a in Modes && b in Modes && a != b
    ensures JoinPath(HistoryFolder, HistoryFile(a).value) != JoinPath(HistoryFolder, HistoryFile(b).value)
  {
    var prefix := HistoryFolder + "/";
    var pa, pb := prefix + a + "_history.txt", prefix + b + "_history.txt";
    assert JoinPath(HistoryFolder, HistoryFile(a).value) == pa;
    assert JoinPath(HistoryFolder, HistoryFile(b).value) == pb;
    AffixCancel(prefix, a, b, "_history.txt");
  }

  lemma AffixCancel(prefix: string, a: string, b: string, suffix: string)
    ensures prefix + a + suffix == prefix + b + suffix ==> a == b
  {
    if prefix + a + suffix == prefix + b + suffix {
      assert |a| == |b|;
      assert (prefix + a + suffix)[|prefix|..|prefix| + |a|] == a;
      assert (prefix + b + suffix)[|prefix|..|prefix| + |b|] == b;
    }
  }

  /** A log after a sequence of `save_result` calls on it: each call writes
      a line break followed by the result. */
  function AppendAll(log: string, results: seq<string>): string
    decreases |results|
  {
    if results == [] then log else AppendAll(log + "\n" + results[0], results[1..])
  }

  /** A text without line breaks is a single line. */
  lemma {:induction false} SplitWithoutSeparator(s: string, sep: char)
    requires sep !in s
    ensures Split(s, sep) == [s]
  {
  }

  /** Reading a log back line by line gives its earlier lines followed by
      every result appended to it, in order, as long as the results are
      single lines. */
  lemma {:induction false} AppendAllLines(log: string, results: seq<string>)
    requires forall i :: 0 <= i < |results| ==> '\n' !in results[i]
    ensures Split(AppendAll(log, results), '\n') == Split(log, '\n') + results
    decreases |results|
  {
    if results != [] {
      var next := log + "\n" + results[0];
      assert AppendAll(log, results) == AppendAll(next, results[1..]);
      AppendAllLines(next, results[1..]);
      assert next == log + ['\n'] + results[0];
      SplitConcat(log, results[0], '\n');
      SplitWithoutSeparator(results[0], '\n');
      calc {
        Split(AppendAll(log, results), '\n');
        Split(next, '\n') + results[1..];
        Split(log, '\n') + [results[0]] + results[1..];
        { assert [results[0]] + results[1..] == results; }
        Split(log, '\n') + results;
      }
    }
  }

  /** Appending in two batches is appending once. */
  lemma {:induction false} AppendAllConcat(log: string, xs: seq<string>, ys: seq<string>)
    ensures AppendAll(AppendAll(log, xs), ys) == AppendAll(log, xs + ys)
    decreases |xs|
  {
    if xs == [] {
      assert xs + ys == ys;
    } else {
      AppendAllConcat(log + "\n" + xs[0], xs[1..], ys);
      assert (xs + ys)[1..] == xs[1..] + ys;
    }
  }

  /**
   * `TextConverter` as far as it keeps state: the history folder and the
   * contents of the files in it. A file that was never written reads as
   * empty, as a file opened for appending starts out.
   */
  class TextConverter {
    const historyFolder: string
    var logs: map<string, string>

    /** `__init__`, over the files already on disk */
    constructor(existing: map<string, string>)
      ensures historyFolder == HistoryFolder
      ensures logs == existing
    {
      historyFolder := HistoryFolder;
      logs := existing;
    }

    /** The contents of a file */
    function LogOf(path: string): string
      reads this
    {
      if path in logs then logs[path] else ""
    }

    /** The path of a mode's log, if the mode has one */
    function PathOf(mode: string): Option<string>
      reads this
    {
      match HistoryFile(mode)
      case Some(name) => Some(JoinPath(historyFolder, name))
      case None => None
    }

    /** `save_result`: a mode without a history file raises `KeyError` and
        nothing is written; otherwise a line break and the result are
        appended to that mode's file, every other file is left as it was,
        and the confirmation names the file. */
    method SaveResult(result: string, mode: string) returns (r: Result<string>)
      modifies this
      ensures PathOf(mode).None? ==> r == Err(KeyError(mode)) && logs == old(logs)
      ensures PathOf(mode).Some? ==>
        var path := PathOf(mode).value;
        r == Ok("Result saved to " + path) &&
        logs == old(logs)[path := AppendAll(old(LogOf(path)), [result])]
    {
      var name := HistoryFile(mode);
      if name.None? {
        return Err(KeyError(mode));
      }
      var path := JoinPath(historyFolder, name.value);
      var contents := if path in logs then logs[path] else "";
      logs := logs[path := contents + "\n" + result];
      r := Ok("Result saved to " + path);
    }
  }

  /** Saving results of several modes in turn: each mode's log grows by its
      own results only, and reads back line by line. */
  method SaveTwice(tc: TextConverter, first: string, second: string, mode: string, other: string)
    requires tc.historyFolder == HistoryFolder
    requires mode in Modes && other in Modes && mode != other
    requires '\n' !in first && '\n' !in second
    modifies tc
    ensures var path := tc.PathOf(mode).value;
      Split(tc.LogOf(path), '\n') == Split(old(tc.LogOf(path)), '\n') + [first]
    ensures var path := tc.PathOf(other).value;
      Split(tc.LogOf(path), '\n') == Split(old(tc.LogOf(path)), '\n') + [second]
  {
    HistoryPathsDistinct(mode, other);
    var r1 := tc.SaveResult(first, mode);
    var r2 := tc.SaveResult(second, other);
    AppendAllLines(old(tc.LogOf(tc.PathOf(mode).value)), [first]);
    AppendAllLines(old(tc.LogOf(tc.PathOf(other).value)), [second]);
  }
}
