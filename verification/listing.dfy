/**
 * The parser `get_directories` applies to the text of a LIST reply: split the
 * captured text into lines, keep the lines that start with `d`, and take from
 * each the text after its last `:` with the first three characters dropped
 * (in a Unix `ls -l` line the text after the last `:` is the minutes of the
 * time column, a blank and the name).
 */
module Listing {

  /** Python's `s.split(sep)`: the fields between occurrences of `sep`. */
  function Split(s: string, sep: char): (parts: seq<string>)
    ensures |parts| >= 1
    ensures forall i :: 0 <= i < |parts| ==> sep !in parts[i]
    ensures Join(parts, sep) == s
    decreases |s|
  {
    if |s| == 0 then [""]
    else
      var rest := Split(s[1..], sep);
      if s[0] == sep then
        assert ([""] + rest)[1..] == rest;
        [""] + rest
      else
        var parts := [[s[0]] + rest[0]] + rest[1..];
        assert parts[1..] == rest[1..];
        assert s == [s[0]] + s[1..];
        parts
  }

  /** Python's `sep.join(parts)`. */
  function Join(parts: seq<string>, sep: char): string
    requires |parts| >= 1
    decreases |parts|
  {
    if |parts| == 1 then parts[0] else parts[0] + [sep] + Join(parts[1..], sep)
  }

  /** Splitting text that starts with a separator-free field and a separator. */
  lemma {:induction false} SplitAfterField(a: string, b: string, sep: char)
    requires sep !in a
    ensures Split(a + [sep] + b, sep) == [a] + Split(b, sep)
    decreases |a|
  {
    var s := a + [sep] + b;
    if |a| == 0 {
      assert s[1..] == b;
    } else {
      assert s[1..] == a[1..] + [sep] + b;
      SplitAfterField(a[1..], b, sep);
      assert [s[0]] + a[1..] == a;
    }
  }

  /** A separator-free string splits into itself. */
  lemma {:induction false} SplitNoSeparator(a: string, sep: char)
    requires sep !in a
    ensures Split(a, sep) == [a]
    decreases |a|
  {
    if |a| > 0 {
      SplitNoSeparator(a[1..], sep);
      assert [a[0]] + a[1..] == a;
    }
  }

  /** Joining separator-free fields and splitting again gives the fields back. */
  lemma {:induction false} SplitJoin(parts: seq<string>, sep: char)
    requires |parts| >= 1
    requires forall i :: 0 <= i < |parts| ==> sep !in parts[i]
    ensures Split(Join(parts, sep), sep) == parts
    decreases |parts|
  {
    if |parts| == 1 {
      SplitNoSeparator(parts[0], sep);
    } else {
      SplitJoin(parts[1..], sep);
      SplitAfterField(parts[0], Join(parts[1..], sep), sep);
      assert [parts[0]] + parts[1..] == parts;
    }
  }

  /** Joining splits off the last field after the last separator. */
  lemma {:induction false} JoinLast(parts: seq<string>, sep: char)
    requires |parts| >= 2
    ensures Join(parts, sep) == Join(parts[..|parts| - 1], sep) + [sep] + parts[|parts| - 1]
    decreases |parts|
  {
    if |parts| > 2 {
      JoinLast(parts[1..], sep);
      assert parts[1..][..|parts| - 2] == parts[..|parts| - 1][1..];
    }
  }

  /** What `print(line)` for every line of a listing writes to the captured stream. */
  function Printed(lines: seq<string>): string
    decreases |lines|
  {
    if |lines| == 0 then "" else lines[0] + "\n" + Printed(lines[1..])
  }

  /** Splitting printed lines on newline gives the lines and one empty trailing field. */
  lemma {:induction false} SplitPrinted(lines: seq<string>)
    requires forall i :: 0 <= i < |lines| ==> '\n' !in lines[i]
    ensures Split(Printed(lines), '\n') == lines + [""]
    decreases |lines|
  {
    if |lines| > 0 {
      SplitPrinted(lines[1..]);
      SplitAfterField(lines[0], Printed(lines[1..]), '\n');
      assert lines == [lines[0]] + lines[1..];
    }
  }

  /** Python's `s.split(sep)[-1]`. */
  function LastField(s: string, sep: char): string
  {
    var parts := Split(s, sep);
    parts[|parts| - 1]
  }

  /** The last field is the longest suffix without a separator. */
  lemma LastFieldIsSuffix(s: string, sep: char)
    ensures |LastField(s, sep)| <= |s|
    ensures LastField(s, sep) == s[|s| - |LastField(s, sep)|..]
    ensures sep !in LastField(s, sep)
    ensures |LastField(s, sep)| < |s| ==> s[|s| - |LastField(s, sep)| - 1] == sep
  {
    var parts := Split(s, sep);
    if |parts| >= 2 {
      JoinLast(parts, sep);
    }
  }

  /** The text after a final separator is the last field, whatever precedes it. */
  lemma LastFieldAfter(a: string, b: string, sep: char)
    requires sep !in b
    ensures LastField(a + [sep] + b, sep) == b
  {
    var s := a + [sep] + b;
    var r := LastField(s, sep);
    LastFieldIsSuffix(s, sep);
    assert s[|s| - |b|..] == b;
    assert s[|s| - |b| - 1] == sep;
  }

  /** Python's `s[n:]`: empty when `s` is shorter than `n`. */
  function Drop(s: string, n: nat): string
  {
    if |s| >= n then s[n..] else ""
  }

  /** The line describes a directory: it starts with `d`. */
  predicate IsDirLine(line: string)
  {
    |line| > 0 && line[0] == 'd'
  }

  /** The name taken from a directory line: `line.split(":")[-1][3:]`. */
  function DirectoryName(line: string): string
  {
    Drop(LastField(line, ':'), 3)
  }

  /** The set of directory names found in the lines of a listing. */
  function Directories(lines: seq<string>): (names: set<string>)
    ensures forall n :: n in names <==>
      exists i :: 0 <= i < |lines| && IsDirLine(lines[i]) && DirectoryName(lines[i]) == n
    decreases |lines|
  {
    if |lines| == 0 then {}
    else
      var rest := Directories(lines[1..]);
      assert forall i :: 1 <= i < |lines| ==> lines[i] == lines[1..][i - 1];
      (if IsDirLine(lines[0]) then {DirectoryName(lines[0])} else {}) + rest
  }

  /** `get_directories`: the directory names in the captured text of a LIST reply. */
  function GetDirectories(text: string): set<string>
  {
    Directories(Split(text, '\n'))
  }

  /** A line that does not start with `d` adds no name, wherever it stands. */
  lemma OtherLinesIgnored(before: seq<string>, line: string, after: seq<string>)
    requires !IsDirLine(line)
    ensures Directories(before + [line] + after) == Directories(before + after)
  {
    var all := before + [line] + after;
    var kept := before + after;
    forall n | n in Directories(all)
      ensures n in Directories(kept)
    {
      var i :| 0 <= i < |all| && IsDirLine(all[i]) && DirectoryName(all[i]) == n;
      if i < |before| {
        assert kept[i] == all[i];
      } else {
        assert kept[i - 1] == all[i];
      }
    }
    forall n | n in Directories(kept)
      ensures n in Directories(all)
    {
      var i :| 0 <= i < |kept| && IsDirLine(kept[i]) && DirectoryName(kept[i]) == n;
      if i < |before| {
        assert all[i] == kept[i];
      } else {
        assert all[i + 1] == kept[i];
      }
    }
  }

  /**
   * For a Unix `ls -l` line whose time column ends in ":MM " followed by a name
   * without `:`, the parser yields exactly that name.
   */
  lemma DirectoryNameOfLsLine(columns: string, minutes: string, name: string)
    requires |minutes| == 2 && ':' !in minutes && ':' !in name
    ensures DirectoryName(columns + ":" + minutes + " " + name) == name
  {
    var tail := minutes + " " + name;
    assert columns + ":" + minutes + " " + name == columns + [':'] + tail;
    LastFieldAfter(columns, tail, ':');
    assert tail[3..] == name;
  }
}
