/**
 * The output and log files of a run. A file is an object whose content is
 * a string; opening it in mode 'w' empties it and `write` appends to it.
 * `initialize_files`, `log_to_file` and `save_to_file` are the three
 * helpers of the script built on those two operations.
 */
module FileIO {

  /** A text file on disk, identified by its path (two paths that name the
      same file are the same object). */
  class TextFile {
    var content: string

    constructor (initial: string)
      ensures content == initial
    {
      content := initial;
    }

    /** `open(path, 'w')`: creates the file or erases what it holds. */
    method Truncate()
      modifies this
      ensures content == []
    {
      content := [];
    }

    /** `file.write(s)` on a file opened for writing or appending. */
    method Write(s: string)
      modifies this
      ensures content == old(content) + s
    {
      content := content + s;
    }
  }

  /** The text of `lines`, each followed by a newline. */
  function Terminated(lines: seq<string>): string
  {
    if lines == [] then [] else lines[0] + "\n" + Terminated(lines[1..])
  }

  /** No line holds a newline of its own. */
  predicate SingleLines(lines: seq<string>)
  {
    forall k :: 0 <= k < |lines| ==> '\n' !in lines[k]
  }

  /** Appending a line to the list appends it, newline-terminated, to the text. */
  lemma {:induction false} TerminatedSnoc(lines: seq<string>, line: string)
    ensures Terminated(lines + [line]) == Terminated(lines) + line + "\n"
    decreases |lines|
  {
    if lines != [] {
      assert (lines + [line])[1..] == lines[1..] + [line];
      TerminatedSnoc(lines[1..], line);
    }
  }

  /** Writing two lists of lines one after the other writes their
      concatenation. */
  lemma {:induction false} TerminatedAppend(first: seq<string>, second: seq<string>)
    ensures Terminated(first + second) == Terminated(first) + Terminated(second)
    decreases |first|
  {
    if first != [] {
      assert (first + second)[1..] == first[1..] + second;
      TerminatedAppend(first[1..], second);
    } else {
      assert first + second == second;
    }
  }

  /** The position of the first newline of `s`, or `|s|` if there is none. */
  function NewlineIndex(s: string): (i: nat)
    ensures i <= |s| && '\n' !in s[..i]
    ensures i < |s| ==> s[i] == '\n'
  {
    if s == [] || s[0] == '\n' then 0
    else
      var j := NewlineIndex(s[1..]);
      assert s[..j + 1] == [s[0]] + s[1..][..j];
      j + 1
  }

  /** The lines a reader sees in `s`: the text between newlines, plus a
      final unterminated piece when `s` does not end with a newline. Only
      `'\n'` ends a line, as for a reader that counts newline characters on
      a POSIX system; Python's universal-newline reading, which also ends a
      line at `'\r'`, and the `"\r\n"` translation of writes on Windows are
      not modelled. */
  function ReadLines(s: string): seq<string>
    decreases |s|
  {
    if s == [] then []
    else
      var i := NewlineIndex(s);
      if i == |s| then [s] else [s[..i]] + ReadLines(s[i + 1..])
  }

  lemma {:induction false} NewlineIndexAfter(line: string, rest: string)
    requires '\n' !in line
    ensures NewlineIndex(line + "\n" + rest) == |line|
    decreases |line|
  {
    var s := line + "\n" + rest;
    if line != [] {
      assert s[1..] == line[1..] + "\n" + rest;
      NewlineIndexAfter(line[1..], rest);
    }
  }

  /** A line free of newlines, followed by a newline, reads as that line
      first. */
  lemma ReadLinesCons(line: string, rest: string)
    requires '\n' !in line
    ensures ReadLines(line + "\n" + rest) == [line] + ReadLines(rest)
  {
    var s := line + "\n" + rest;
    NewlineIndexAfter(line, rest);
    assert s[..|line|] == line;
    assert s[|line| + 1..] == rest;
  }

  /** Reading back a text written line by line gives the same lines, as long
      as no line holds a newline of its own. */
  lemma {:induction false} ReadTerminated(lines: seq<string>)
    requires SingleLines(lines)
    ensures ReadLines(Terminated(lines)) == lines
    decreases |lines|
  {
    if lines != [] {
      ReadLinesCons(lines[0], Terminated(lines[1..]));
      ReadTerminated(lines[1..]);
    }
  }

  /** When no line holds a newline of its own, the text holds exactly one
      newline per line. */
  lemma {:induction false} TerminatedNewlines(lines: seq<string>)
    requires SingleLines(lines)
    ensures multiset(Terminated(lines))['\n'] == |lines|
    decreases |lines|
  {
    if lines != [] {
      TerminatedNewlines(lines[1..]);
      assert multiset(lines[0])['\n'] == 0;
      assert multiset(Terminated(lines)) ==
        multiset(lines[0]) + multiset("\n") + multiset(Terminated(lines[1..]));
    }
  }

  /** A line that holds a newline of its own reads back as two lines. */
  lemma MultiLineEntrySplits()
    ensures ReadLines(Terminated(["a\nb"])) == ["a", "b"]
  {
    ReadLinesCons("a", "b\n");
    ReadLinesCons("b", "");
    assert Terminated(["a\nb"]) == "a" + "\n" + "b\n";
    assert "b\n" == "b" + "\n" + "";
  }

  /** `initialize_files`: both files exist and are empty. */
  method InitializeFiles(output: TextFile, log: TextFile)
    modifies output, log
    ensures output.content == [] && log.content == []
  {
    output.Truncate();
    log.Truncate();
  }

  /** `log_to_file`: appends the message and a newline to the log. */
  method LogToFile(log: TextFile, message: string)
    modifies log
    ensures log.content == old(log.content) + message + "\n"
  {
    log.Write(message + "\n");
  }

  /** `save_to_file`: the output file ends up holding exactly the responses,
      one per line, in the order given; what it held before is gone. */
  method SaveToFile(responses: seq<string>, output: TextFile)
    modifies output
    ensures output.content == Terminated(responses)
  {
    output.Truncate();
    for k := 0 to |responses|
      invariant output.content == Terminated(responses[..k])
    {
      TerminatedSnoc(responses[..k], responses[k]);
      assert responses[..k + 1] == responses[..k] + [responses[k]];
      output.Write(responses[k] + "\n");
    }
    assert responses[..|responses|] == responses;
  }
}
