/**
 * What the FTP server answers about one remote directory: NLST gives the
 * names of its entries, LIST gives one Unix `ls -l` line per entry, which the
 * client captures as printed text and classifies with `get_directories`.
 */
module Server {
  import opened FileTree
  import opened Listing

  /** The columns of an `ls -l` line up to the hour of the time column. */
  const DirColumns: string := "drwxr-xr-x 2 ftp ftp 4096 Jan 01 12"
  const FileColumns: string := "-rw-r--r-- 1 ftp ftp 0 Jan 01 12"

  /** The LIST line of one entry: columns, ":MM ", then the name. */
  function LsLine(e: Entry): string
  {
    (if e.node.Dir? then DirColumns else FileColumns) + ":" + "00" + " " + e.name
  }

  /** The LIST reply for a directory holding `es`, one line per entry. */
  function LsLines(es: seq<Entry>): (lines: seq<string>)
    ensures |lines| == |es|
    ensures forall i :: 0 <= i < |es| ==> lines[i] == LsLine(es[i])
  {
    seq(|es|, i requires 0 <= i < |es| => LsLine(es[i]))
  }

  /** The text `self.dir(path)` prints while stdout is captured. */
  function ListText(es: seq<Entry>): string
  {
    Printed(LsLines(es))
  }

  /** The names the client classifies as directories in a directory holding `es`. */
  function Classify(es: seq<Entry>): set<string>
  {
    GetDirectories(ListText(es))
  }

  /** A LIST line starts with `d` exactly for a directory entry. */
  lemma LsLineKind(e: Entry)
    ensures IsDirLine(LsLine(e)) <==> e.node.Dir?
    ensures '\n' !in LsLine(e) <==> '\n' !in e.name
  {
    var cols := if e.node.Dir? then DirColumns else FileColumns;
    assert LsLine(e) == cols + ":00 " + e.name;
    assert LsLine(e)[0] == cols[0];
    assert '\n' !in cols + ":00 ";
  }

  /**
   * With plain names, the client's classification is exactly the set of
   * entries that are directories; a file is never taken for a directory.
   */
  lemma Classification(es: seq<Entry>)
    requires PlainNames(es)
    ensures forall n :: n in Classify(es) <==>
      exists i :: 0 <= i < |es| && es[i].name == n && es[i].node.Dir?
  {
    var lines := LsLines(es);
    forall i | 0 <= i < |es|
      ensures '\n' !in lines[i]
      ensures IsDirLine(lines[i]) <==> es[i].node.Dir?
      ensures es[i].node.Dir? ==> DirectoryName(lines[i]) == es[i].name
    {
      LsLineKind(es[i]);
      if es[i].node.Dir? {
        DirectoryNameOfLsLine(DirColumns, "00", es[i].name);
      }
    }
    SplitPrinted(lines);
    assert Split(ListText(es), '\n') == lines + [""];
    OtherLinesIgnored(lines, "", []);
    assert lines + [""] + [] == lines + [""];
    assert lines + [] == lines;
    assert Classify(es) == Directories(lines);
  }

  /** In a well-formed listing an entry is classified as a directory exactly when it is one. */
  lemma ClassifiedAsDir(es: seq<Entry>, k: nat)
    requires PlainNames(es) && DistinctNames(es) && k < |es|
    ensures es[k].name in Classify(es) <==> es[k].node.Dir?
  {
    Classification(es);
    if es[k].name in Classify(es) {
      var i :| 0 <= i < |es| && es[i].name == es[k].name && es[i].node.Dir?;
      assert i == k;
    }
  }
}
