/**
 * Path normalisation at the top of `sync`: every `/` becomes `\`, and a
 * remote path consisting of a single `\` becomes the empty path (the root).
 */
module Paths {

  /** `p.replace("/", "\\")`. */
  function ReplaceSlashes(p: string): (r: string)
    ensures |r| == |p|
    ensures '/' !in r
    ensures forall i :: 0 <= i < |p| ==> r[i] == (if p[i] == '/' then '\\' else p[i])
    decreases |p|
  {
    if |p| == 0 then ""
    else [if p[0] == '/' then '\\' else p[0]] + ReplaceSlashes(p[1..])
  }

  /** The local path as `sync` rewrites it. */
  function NormalizeLocal(p: string): (r: string)
    ensures '/' !in r
    ensures |r| == |p|
  {
    ReplaceSlashes(p)
  }

  /** The remote path as `sync` rewrites it: the root `\` becomes "". */
  function NormalizeRemote(p: string): (r: string)
    ensures '/' !in r
    ensures r == "" <==> p == "" || p == "/" || p == "\\"
    ensures r != "" ==> |r| == |p|
  {
    var q := ReplaceSlashes(p);
    assert (p == "/" || p == "\\") ==> q == "\\";
    if q == "\\" then
      assert |p| == 1 && (p[0] == '/' || p[0] == '\\');
      assert p == [p[0]];
      ""
    else
      q
  }

  /** A string without `/` is left alone by the rewrite. */
  lemma {:induction false} ReplaceSlashesFixed(p: string)
    requires '/' !in p
    ensures ReplaceSlashes(p) == p
  {
    assert forall i :: 0 <= i < |p| ==> p[i] != '/';
  }

  /** Normalising a local path a second time changes nothing. */
  lemma NormalizeLocalIdempotent(p: string)
    ensures NormalizeLocal(NormalizeLocal(p)) == NormalizeLocal(p)
  {
    ReplaceSlashesFixed(NormalizeLocal(p));
  }

  /** Normalising a remote path a second time changes nothing. */
  lemma NormalizeRemoteIdempotent(p: string)
    ensures NormalizeRemote(NormalizeRemote(p)) == NormalizeRemote(p)
  {
    var r := NormalizeRemote(p);
    ReplaceSlashesFixed(r);
  }
}
