/**
 * The candidate sets `sync` computes from the local and remote listings of one
 * directory level: the symmetric difference of the two name sets, split by the
 * side each name comes from.
 */
module Diff {

  /** `to_download_list` and `to_upload_list`, as sets. */
  datatype Candidates = Candidates(toDownload: set<string>, toUpload: set<string>)

  /** The names present in exactly one of the two listings. */
  function SymmetricDifference(a: set<string>, b: set<string>): (d: set<string>)
    ensures forall n :: n in d <==> (n in a) != (n in b)
  {
    (a - b) + (b - a)
  }

  function NameSet(items: seq<string>): (s: set<string>)
    ensures forall n :: n in s <==> n in items
  {
    set n | n in items
  }

  /** Partition the symmetric difference by origin. */
  function Partition(localItems: seq<string>, remoteItems: seq<string>): (c: Candidates)
    ensures c.toDownload !! c.toUpload
    ensures c.toDownload + c.toUpload == SymmetricDifference(NameSet(localItems), NameSet(remoteItems))
    ensures forall n :: n in c.toDownload <==> n in remoteItems && n !in localItems
    ensures forall n :: n in c.toUpload <==> n in localItems && n !in remoteItems
  {
    var local := NameSet(localItems);
    var remote := NameSet(remoteItems);
    var difference := SymmetricDifference(local, remote);
    Candidates(difference * remote, difference * local)
  }
}
