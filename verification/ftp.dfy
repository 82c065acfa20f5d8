/**
 * The side effects the synchronisation issues and the server and local errors
 * it does not catch. RETR, STOR, NLST, DELE, MKD and RMD are the commands of section
 * 4.1.3 of RFC 959; SIZE is from section 4 of RFC 3659.
 */
module Ftp {
  import opened FileTree

  /** One removal, in the order the deletion cascade performs them. */
  datatype Op =
    | LocalRemove(path: Path)  // os.remove of a local file
    | Dele(path: Path)         // DELE of a remote file
    | Rmd(path: Path)          // RMD of a remote directory

  /** A server reply the client turns into an uncaught `ftplib` exception. */
  datatype Failure =
    | RetrOnDirectory(path: Path)   // RETR (or SIZE) of a path that is a directory
    | StorOnDirectory(path: Path)   // STOR onto a path that is a directory
    | DeleOnDirectory(path: Path)   // DELE of a path that is a directory
    | NlstOnFile(path: Path)        // NLST of a path that is a file, as if a directory
    | NoSuchEntry(path: Path)       // a command on a path the parent does not list
    | LocalMissing(path: Path)      // os.remove of a local path already removed (FileNotFoundError)
    | ListdirOnFile(path: Path)     // os.listdir of a local path that is a file (NotADirectoryError)

  /** Paths removed from the server by DELE. */
  function DelePaths(ops: seq<Op>): set<Path>
    decreases |ops|
  {
    if |ops| == 0 then {} else (if ops[0].Dele? then {ops[0].path} else {}) + DelePaths(ops[1..])
  }

  /** Paths removed from the server by RMD. */
  function RmdPaths(ops: seq<Op>): set<Path>
    decreases |ops|
  {
    if |ops| == 0 then {} else (if ops[0].Rmd? then {ops[0].path} else {}) + RmdPaths(ops[1..])
  }

  /** How many local removals the ops perform. */
  function LocalRemovals(ops: seq<Op>): nat
    decreases |ops|
  {
    if |ops| == 0 then 0 else (if ops[0].LocalRemove? then 1 else 0) + LocalRemovals(ops[1..])
  }

  /** The three summaries distribute over concatenation. */
  lemma {:induction false} OpsAppend(a: seq<Op>, b: seq<Op>)
    ensures DelePaths(a + b) == DelePaths(a) + DelePaths(b)
    ensures RmdPaths(a + b) == RmdPaths(a) + RmdPaths(b)
    ensures LocalRemovals(a + b) == LocalRemovals(a) + LocalRemovals(b)
    decreases |a|
  {
    if |a| > 0 {
      OpsAppend(a[1..], b);
      assert (a + b)[1..] == a[1..] + b;
    } else {
      assert a + b == b;
    }
  }

  /** A path is removed by DELE exactly when some DELE op names it. */
  lemma {:induction false} DelePathsMember(ops: seq<Op>, q: Path)
    ensures q in DelePaths(ops) <==> exists i :: 0 <= i < |ops| && ops[i] == Dele(q)
    decreases |ops|
  {
    if |ops| > 0 {
      DelePathsMember(ops[1..], q);
      assert forall i :: 1 <= i < |ops| ==> ops[i] == ops[1..][i - 1];
    }
  }

  /** A path is removed by RMD exactly when some RMD op names it. */
  lemma {:induction false} RmdPathsMember(ops: seq<Op>, q: Path)
    ensures q in RmdPaths(ops) <==> exists i :: 0 <= i < |ops| && ops[i] == Rmd(q)
    decreases |ops|
  {
    if |ops| > 0 {
      RmdPathsMember(ops[1..], q);
      assert forall i :: 1 <= i < |ops| ==> ops[i] == ops[1..][i - 1];
    }
  }

  /** `q` names a path strictly inside the directory `p`. */
  predicate StrictlyUnder(p: Path, q: Path)
  {
    |p| < |q| && q[..|p|] == p
  }
}
