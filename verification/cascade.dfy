/**
 * `delete_file`: remove a local file and/or a remote path. A remote path the
 * client classifies as a directory (by LIST of its parent) is emptied child by
 * child, in NLST order, before RMD; any other remote path is removed by DELE
 * and its cached digest is evicted. The code as written hands its local path
 * to every recursive call; the corrected version removes it once.
 */
module Cascade {
  import opened Wrappers
  import opened FileTree
  import opened Server
  import opened Ftp

  /** The paths of the files in the tree rooted at `p`. */
  function FilePaths(p: Path, n: Node): set<Path>
    decreases Size(n), 0
  {
    match n
    case File(_) => {p}
    case Dir(cs) => ChildFilePaths(p, cs)
  }

  function ChildFilePaths(p: Path, cs: seq<Entry>): set<Path>
    decreases SizeSeq(cs), 1
  {
    if |cs| == 0 then {}
    else FilePaths(p + [cs[0].name], cs[0].node) + ChildFilePaths(p, cs[1..])
  }

  /** The paths of the directories in the tree rooted at `p`, `p` included. */
  function DirPaths(p: Path, n: Node): set<Path>
    decreases Size(n), 0
  {
    match n
    case File(_) => {}
    case Dir(cs) => {p} + ChildDirPaths(p, cs)
  }

  function ChildDirPaths(p: Path, cs: seq<Entry>): set<Path>
    decreases SizeSeq(cs), 1
  {
    if |cs| == 0 then {}
    else DirPaths(p + [cs[0].name], cs[0].node) + ChildDirPaths(p, cs[1..])
  }

  /** The removals performed, in order, and the remote digest cache afterwards. */
  datatype Deletion = Deletion(ops: seq<Op>, remoteHashes: map<Path, Digest>)

  /** The local removal `delete_file` starts with when given a local path. */
  function LocalPart(local: Option<Path>): seq<Op>
  {
    if local.Some? then [LocalRemove(local.value)] else []
  }

  /**
   * `delete_file(None, p)` once the client has classified `p` (as a directory
   * or not) and `node` is what the server holds at `p`: the remote cascade,
   * which is what `sync` runs and what the corrected version runs after its
   * one local removal.
   */
  function DeleteNode(p: Path, classifiedDir: bool, node: Node, hashes: map<Path, Digest>): (r: Result<Deletion, Failure>)
    ensures r.Success? ==> classifiedDir == node.Dir?
    ensures r.Success? ==> DelePaths(r.value.ops) == FilePaths(p, node)
    ensures r.Success? ==> RmdPaths(r.value.ops) == DirPaths(p, node)
    ensures r.Success? ==> r.value.remoteHashes == hashes - FilePaths(p, node)
    ensures r.Success? ==> LocalRemovals(r.value.ops) == 0
    ensures r.Success? ==> OpsWithin(r.value.ops, p)
    decreases Size(node), 0
  {
    if !classifiedDir then
      if node.Dir? then Failure(DeleOnDirectory(p))
      else
        OpsAppend([Dele(p)], []);
        assert [Dele(p)] + [] == [Dele(p)];
        Success(Deletion([Dele(p)], hashes - {p}))
    else if node.File? then Failure(NlstOnFile(p))
    else
      var d :- DeleteChildren(p, node.children, hashes);
      CloseDirectory(p, node.children, d.ops);
      Success(Deletion(d.ops + [Rmd(p)], d.remoteHashes))
  }

  /**
   * The loop over `nlst(p)`: each child is deleted with the classification
   * LIST gives for `p` at that moment, that is, among the children not yet
   * deleted.
   */
  function DeleteChildren(p: Path, cs: seq<Entry>, hashes: map<Path, Digest>): (r: Result<Deletion, Failure>)
    ensures r.Success? ==> DelePaths(r.value.ops) == ChildFilePaths(p, cs)
    ensures r.Success? ==> RmdPaths(r.value.ops) == ChildDirPaths(p, cs)
    ensures r.Success? ==> r.value.remoteHashes == hashes - ChildFilePaths(p, cs)
    ensures r.Success? ==> LocalRemovals(r.value.ops) == 0
    ensures r.Success? ==> OpsBelow(r.value.ops, p, Names(cs))
    decreases SizeSeq(cs), 1
  {
    if |cs| == 0 then Success(Deletion([], hashes))
    else
      var child := p + [cs[0].name];
      var first :- DeleteNode(child, cs[0].name in Classify(cs), cs[0].node, hashes);
      var rest :- DeleteChildren(p, cs[1..], first.remoteHashes);
      JoinChildren(p, cs, first.ops, rest.ops);
      assert rest.remoteHashes == hashes - ChildFilePaths(p, cs);
      Success(Deletion(first.ops + rest.ops, rest.remoteHashes))
  }

  /** RMD of `p` after the emptying of its children accounts for the whole directory. */
  lemma CloseDirectory(p: Path, cs: seq<Entry>, inner: seq<Op>)
    requires DelePaths(inner) == ChildFilePaths(p, cs) && RmdPaths(inner) == ChildDirPaths(p, cs)
    requires LocalRemovals(inner) == 0
    requires OpsBelow(inner, p, Names(cs))
    ensures var ops := inner + [Rmd(p)];
      && DelePaths(ops) == FilePaths(p, Dir(cs))
      && RmdPaths(ops) == DirPaths(p, Dir(cs))
      && LocalRemovals(ops) == 0
      && OpsWithin(ops, p)
  {
    OpsAppend(inner, [Rmd(p)]);
    DirOpsUnder(inner, p);
  }

  /** The first child's deletion followed by the rest's accounts for the whole listing. */
  lemma JoinChildren(p: Path, cs: seq<Entry>, first: seq<Op>, rest: seq<Op>)
    requires |cs| > 0
    requires DelePaths(first) == FilePaths(p + [cs[0].name], cs[0].node)
    requires RmdPaths(first) == DirPaths(p + [cs[0].name], cs[0].node)
    requires LocalRemovals(first) == 0
    requires OpsWithin(first, p + [cs[0].name])
    requires DelePaths(rest) == ChildFilePaths(p, cs[1..]) && RmdPaths(rest) == ChildDirPaths(p, cs[1..])
    requires LocalRemovals(rest) == 0
    requires OpsBelow(rest, p, Names(cs[1..]))
    ensures DelePaths(first + rest) == ChildFilePaths(p, cs)
    ensures RmdPaths(first + rest) == ChildDirPaths(p, cs)
    ensures LocalRemovals(first + rest) == 0
    ensures OpsBelow(first + rest, p, Names(cs))
  {
    OpsAppend(first, rest);
    ChildOpsUnder(first, rest, p, cs);
  }

  /** Local removals in front of remote operations inside `p` change none of the remote summaries. */
  lemma LocalFirst(local: Option<Path>, ops: seq<Op>, p: Path)
    requires OpsWithin(ops, p)
    ensures var all := LocalPart(local) + ops;
      && DelePaths(all) == DelePaths(ops) && RmdPaths(all) == RmdPaths(ops)
      && LocalRemovals(all) == LocalRemovals(ops) + (if local.Some? then 1 else 0)
      && OpsWithin(all, p)
      && (local.None? ==> all == ops)
      && (local.Some? ==> |all| > 0 && all[0] == LocalRemove(local.value))
  {
    var pre := LocalPart(local);
    OpsAppend(pre, ops);
    forall i | 0 <= i < |pre + ops| && !(pre + ops)[i].LocalRemove?
      ensures p <= (pre + ops)[i].path
    {
      assert (pre + ops)[i] == ops[i - |pre|];
    }
  }

  /** Every remote op of `ops` lies inside or at `p`. */
  predicate OpsWithin(ops: seq<Op>, p: Path)
  {
    forall i :: 0 <= i < |ops| && !ops[i].LocalRemove? ==> p <= ops[i].path
  }

  /** Every remote op of `ops` lies strictly inside `p`, below one of `names`. */
  predicate OpsBelow(ops: seq<Op>, p: Path, names: seq<string>)
  {
    forall i :: 0 <= i < |ops| && !ops[i].LocalRemove? ==>
      StrictlyUnder(p, ops[i].path) && ops[i].path[|p|] in names
  }

  lemma DirOpsUnder(inner: seq<Op>, p: Path)
    requires forall i :: 0 <= i < |inner| && !inner[i].LocalRemove? ==> StrictlyUnder(p, inner[i].path)
    ensures OpsWithin(inner + [Rmd(p)], p)
  {
    var ops := inner + [Rmd(p)];
    forall i | 0 <= i < |ops| && !ops[i].LocalRemove?
      ensures p <= ops[i].path
    {
      if i < |inner| {
        assert ops[i] == inner[i];
      }
    }
  }

  lemma ChildOpsUnder(first: seq<Op>, rest: seq<Op>, p: Path, cs: seq<Entry>)
    requires |cs| > 0
    requires OpsWithin(first, p + [cs[0].name])
    requires OpsBelow(rest, p, Names(cs[1..]))
    ensures OpsBelow(first + rest, p, Names(cs))
  {
    var ops := first + rest;
    forall i | 0 <= i < |ops| && !ops[i].LocalRemove?
      ensures StrictlyUnder(p, ops[i].path) && ops[i].path[|p|] in Names(cs)
    {
      if i < |first| {
        assert ops[i] == first[i];
        assert ops[i].path[..|p| + 1] == p + [cs[0].name];
        assert ops[i].path[|p|] == (p + [cs[0].name])[|p|];
      } else {
        assert ops[i] == rest[i - |first|];
        var k :| 0 <= k < |cs[1..]| && Names(cs[1..])[k] == ops[i].path[|p|];
        assert Names(cs)[k + 1] == ops[i].path[|p|];
      }
    }
  }

  /**
   * Every RMD comes after every remote op on a path strictly inside the
   * directory it removes.
   */
  predicate PostOrder(ops: seq<Op>)
  {
    forall i, j ::
      (0 <= i < |ops| && 0 <= j < |ops| && ops[i].Rmd? && !ops[j].LocalRemove? &&
       StrictlyUnder(ops[i].path, ops[j].path)) ==> j < i
  }

  lemma PostOrderClose(inner: seq<Op>, p: Path)
    requires PostOrder(inner)
    requires forall i :: 0 <= i < |inner| && !inner[i].LocalRemove? ==> StrictlyUnder(p, inner[i].path)
    ensures PostOrder(inner + [Rmd(p)])
  {
    var ops := inner + [Rmd(p)];
    forall i, j | 0 <= i < |ops| && 0 <= j < |ops| && ops[i].Rmd? && !ops[j].LocalRemove? &&
      StrictlyUnder(ops[i].path, ops[j].path)
      ensures j < i
    {
      if i < |inner| {
        assert ops[i] == inner[i];
        if j < |inner| {
          assert ops[j] == inner[j];
        }
      }
    }
  }

  lemma PostOrderAppend(a: seq<Op>, b: seq<Op>, p: Path, cs: seq<Entry>)
    requires |cs| > 0 && cs[0].name !in Names(cs[1..])
    requires PostOrder(a) && PostOrder(b)
    requires OpsWithin(a, p + [cs[0].name])
    requires OpsBelow(b, p, Names(cs[1..]))
    ensures PostOrder(a + b)
  {
    var ops := a + b;
    forall i, j | 0 <= i < |ops| && 0 <= j < |ops| && ops[i].Rmd? && !ops[j].LocalRemove? &&
      StrictlyUnder(ops[i].path, ops[j].path)
      ensures j < i
    {
      if i < |a| {
        assert ops[i] == a[i];
        if j < |a| {
          assert ops[j] == a[j];
        }
      } else {
        assert ops[i] == b[i - |a|];
        if j >= |a| {
          assert ops[j] == b[j - |a|];
        }
      }
    }
  }

  lemma WellFormedTail(cs: seq<Entry>)
    requires |cs| > 0 && WellFormedEntries(cs)
    ensures WellFormed(cs[0].node) && WellFormedEntries(cs[1..])
    ensures cs[0].name !in Names(cs[1..])
  {
    assert forall i :: 0 <= i < |cs[1..]| ==> cs[1..][i] == cs[i + 1];
  }

  /** In a tree with distinct names the cascade never removes a directory before its contents. */
  lemma {:induction false} DeleteNodePostOrder(p: Path, classifiedDir: bool, node: Node, hashes: map<Path, Digest>)
    requires WellFormed(node)
    ensures DeleteNode(p, classifiedDir, node, hashes).Success? ==>
      PostOrder(DeleteNode(p, classifiedDir, node, hashes).value.ops)
    decreases Size(node), 0
  {
    var r := DeleteNode(p, classifiedDir, node, hashes);
    if r.Success? {
      if node.Dir? {
        var d := DeleteChildren(p, node.children, hashes);
        DeleteChildrenPostOrder(p, node.children, hashes);
        PostOrderClose(d.value.ops, p);
      }
    }
  }

  lemma {:induction false} DeleteChildrenPostOrder(p: Path, cs: seq<Entry>, hashes: map<Path, Digest>)
    requires WellFormedEntries(cs)
    ensures DeleteChildren(p, cs, hashes).Success? ==>
      PostOrder(DeleteChildren(p, cs, hashes).value.ops)
    decreases SizeSeq(cs), 1
  {
    var r := DeleteChildren(p, cs, hashes);
    if r.Success? && |cs| > 0 {
      WellFormedTail(cs);
      var child := p + [cs[0].name];
      var first := DeleteNode(child, cs[0].name in Classify(cs), cs[0].node, hashes);
      DeleteNodePostOrder(child, cs[0].name in Classify(cs), cs[0].node, hashes);
      var rest := DeleteChildren(p, cs[1..], first.value.remoteHashes);
      DeleteChildrenPostOrder(p, cs[1..], first.value.remoteHashes);
      PostOrderAppend(first.value.ops, rest.value.ops, p, cs);
    }
  }

  /** In a well-formed tree the client's classification is right, so the cascade succeeds. */
  lemma {:induction false} DeleteNodeSucceeds(p: Path, node: Node, hashes: map<Path, Digest>)
    requires WellFormed(node)
    ensures DeleteNode(p, node.Dir?, node, hashes).Success?
    decreases Size(node), 0
  {
    if node.Dir? {
      DeleteChildrenSucceeds(p, node.children, hashes);
    }
  }

  lemma {:induction false} DeleteChildrenSucceeds(p: Path, cs: seq<Entry>, hashes: map<Path, Digest>)
    requires WellFormedEntries(cs)
    ensures DeleteChildren(p, cs, hashes).Success?
    decreases SizeSeq(cs), 1
  {
    if |cs| > 0 {
      WellFormedTail(cs);
      ClassifiedAsDir(cs, 0);
      var child := p + [cs[0].name];
      DeleteNodeSucceeds(child, cs[0].node, hashes);
      var first := DeleteNode(child, cs[0].node.Dir?, cs[0].node, hashes);
      DeleteChildrenSucceeds(p, cs[1..], first.value.remoteHashes);
    }
  }

  /** The remote argument of `delete_file`: a name in the listing of its parent. */
  datatype RemoteTarget = RemoteTarget(parent: Path, listing: seq<Entry>, name: string)
  {
    function Path(): Path
    {
      parent + [name]
    }
  }

  /**
   * The remote half of `delete_file`: classify the name by LIST of the parent
   * and remove what the server holds there.
   */
  function DeleteTarget(t: RemoteTarget, hashes: map<Path, Digest>): Result<Deletion, Failure>
  {
    match Lookup(t.listing, t.name)
    case None => Failure(NoSuchEntry(t.Path()))
    case Some(node) => DeleteNode(t.Path(), t.name in Classify(t.listing), node, hashes)
  }

  /**
   * `delete_file(local_path, p)` as written, on what the server holds at `p`.
   * Every call starts with `os.remove(local_path)`; `removed` says an enclosing
   * call already removed that path, so the removal finds nothing and raises.
   */
  function DeleteNodeAsWritten(local: Option<Path>, removed: bool, p: Path, classifiedDir: bool, node: Node,
                               hashes: map<Path, Digest>): Result<Deletion, Failure>
    decreases Size(node), 0
  {
    if local.Some? && removed then Failure(LocalMissing(local.value))
    else
      var pre := LocalPart(local);
      if !classifiedDir then
        if node.Dir? then Failure(DeleOnDirectory(p))
        else Success(Deletion(pre + [Dele(p)], hashes - {p}))
      else if node.File? then Failure(NlstOnFile(p))
      else
        var d :- ChildrenAsWritten(local, p, node.children, hashes);
        Success(Deletion(pre + d.ops + [Rmd(p)], d.remoteHashes))
  }

  /** The loop over `nlst(p)` as written: every child's call is handed the same local path. */
  function ChildrenAsWritten(local: Option<Path>, p: Path, cs: seq<Entry>,
                             hashes: map<Path, Digest>): Result<Deletion, Failure>
    decreases SizeSeq(cs), 1
  {
    if |cs| == 0 then Success(Deletion([], hashes))
    else
      var first :- DeleteNodeAsWritten(local, true, p + [cs[0].name], cs[0].name in Classify(cs), cs[0].node, hashes);
      var rest :- ChildrenAsWritten(local, p, cs[1..], first.remoteHashes);
      Success(Deletion(first.ops + rest.ops, rest.remoteHashes))
  }

  /** `delete_file(local_path, remote_path)` as written. */
  function DeleteFileAsWritten(local: Option<Path>, remote: Option<RemoteTarget>,
                               hashes: map<Path, Digest>): Result<Deletion, Failure>
  {
    match remote
    case None => Success(Deletion(LocalPart(local), hashes))
    case Some(t) =>
      match Lookup(t.listing, t.name)
      case None => Failure(NoSuchEntry(t.Path()))
      case Some(node) => DeleteNodeAsWritten(local, false, t.Path(), t.name in Classify(t.listing), node, hashes)
  }

  /** Without a local path the recursion as written is the remote cascade. */
  lemma {:induction false} AsWrittenWithoutLocal(removed: bool, p: Path, classifiedDir: bool, node: Node,
                                                 hashes: map<Path, Digest>)
    ensures DeleteNodeAsWritten(None, removed, p, classifiedDir, node, hashes) == DeleteNode(p, classifiedDir, node, hashes)
    decreases Size(node), 0
  {
    if classifiedDir && node.Dir? {
      ChildrenWithoutLocal(p, node.children, hashes);
      var d := DeleteChildren(p, node.children, hashes);
      if d.Success? {
        assert LocalPart(None) + d.value.ops == d.value.ops;
      }
    } else if !classifiedDir && node.File? {
      assert LocalPart(None) + [Dele(p)] == [Dele(p)];
    }
  }

  lemma {:induction false} ChildrenWithoutLocal(p: Path, cs: seq<Entry>, hashes: map<Path, Digest>)
    ensures ChildrenAsWritten(None, p, cs, hashes) == DeleteChildren(p, cs, hashes)
    decreases SizeSeq(cs), 1
  {
    if |cs| > 0 {
      AsWrittenWithoutLocal(true, p + [cs[0].name], cs[0].name in Classify(cs), cs[0].node, hashes);
      var first := DeleteNode(p + [cs[0].name], cs[0].name in Classify(cs), cs[0].node, hashes);
      if first.Success? {
        ChildrenWithoutLocal(p, cs[1..], first.value.remoteHashes);
      }
    }
  }

  lemma AsWrittenTarget(t: RemoteTarget, hashes: map<Path, Digest>)
    ensures DeleteFileAsWritten(None, Some(t), hashes) == DeleteTarget(t, hashes)
  {
    match Lookup(t.listing, t.name)
    case None =>
    case Some(node) =>
      AsWrittenWithoutLocal(false, t.Path(), t.name in Classify(t.listing), node, hashes);
  }

  /**
   * `delete_file` as intended: the local file is removed once, then the remote
   * path is removed with the recursion given no local path. Every caller in
   * `sync` passes no local path, where both versions coincide.
   */
  function DeleteFile(local: Option<Path>, remote: Option<RemoteTarget>,
                      hashes: map<Path, Digest>): (r: Result<Deletion, Failure>)
    ensures r.Success? ==> LocalRemovals(r.value.ops) == if local.Some? then 1 else 0
    ensures r.Success? && local.Some? ==> |r.value.ops| > 0 && r.value.ops[0] == LocalRemove(local.value)
    ensures remote.None? ==>
      r.Success? && r.value.remoteHashes == hashes && DelePaths(r.value.ops) == {} && RmdPaths(r.value.ops) == {}
    ensures remote.Some? && r.Success? ==>
      var t := remote.value;
      var node := Lookup(t.listing, t.name);
      && node.Some?
      && DelePaths(r.value.ops) == FilePaths(t.Path(), node.value)
      && RmdPaths(r.value.ops) == DirPaths(t.Path(), node.value)
      && r.value.remoteHashes == hashes - FilePaths(t.Path(), node.value)
      && OpsWithin(r.value.ops, t.Path())
    ensures local.None? ==> r == DeleteFileAsWritten(None, remote, hashes)
  {
    match remote
    case None =>
      OpsAppend(LocalPart(local), []);
      assert LocalPart(local) + [] == LocalPart(local);
      Success(Deletion(LocalPart(local), hashes))
    case Some(t) =>
      AsWrittenTarget(t, hashes);
      var d :- DeleteTarget(t, hashes);
      LocalFirst(local, d.ops, t.Path());
      Success(Deletion(LocalPart(local) + d.ops, d.remoteHashes))
  }

  /**
   * With a local path the code as written does what the corrected version
   * does, except on a remote directory that holds entries: the call for its
   * first entry removes the local path again, which raises before any DELE
   * or RMD.
   */
  lemma AsWrittenWithLocal(x: Path, t: RemoteTarget, hashes: map<Path, Digest>)
    ensures var node := Lookup(t.listing, t.name);
      DeleteFileAsWritten(Some(x), Some(t), hashes) ==
        if node.Some? && t.name in Classify(t.listing) && node.value.Dir? && |node.value.children| > 0
        then Failure(LocalMissing(x))
        else DeleteFile(Some(x), Some(t), hashes)
  {
    match Lookup(t.listing, t.name)
    case None =>
    case Some(node) =>
      AsWrittenNodeWithLocal(x, t.Path(), t.name in Classify(t.listing), node, hashes);
  }

  /** The node-level half: one local removal in front of the remote cascade, unless a child call repeats it. */
  lemma AsWrittenNodeWithLocal(x: Path, p: Path, classifiedDir: bool, node: Node, hashes: map<Path, Digest>)
    ensures var r := DeleteNode(p, classifiedDir, node, hashes);
      DeleteNodeAsWritten(Some(x), false, p, classifiedDir, node, hashes) ==
        if classifiedDir && node.Dir? && |node.children| > 0 then Failure(LocalMissing(x))
        else if r.Success? then Success(Deletion([LocalRemove(x)] + r.value.ops, r.value.remoteHashes))
        else r
  {
    if classifiedDir && node.Dir? {
      var cs := node.children;
      if |cs| > 0 {
        assert DeleteNodeAsWritten(Some(x), true, p + [cs[0].name], cs[0].name in Classify(cs), cs[0].node, hashes)
          == Failure(LocalMissing(x));
      } else {
        assert ChildrenAsWritten(Some(x), p, cs, hashes) == Success(Deletion([], hashes));
        assert DeleteChildren(p, cs, hashes) == Success(Deletion([], hashes));
        assert [LocalRemove(x)] + [] + [Rmd(p)] == [LocalRemove(x)] + ([] + [Rmd(p)]);
      }
    }
  }

  /** Local removals in front of a post-ordered sequence keep it post-ordered. */
  lemma PostOrderLocalPrefix(pre: seq<Op>, ops: seq<Op>)
    requires forall i :: 0 <= i < |pre| ==> pre[i].LocalRemove?
    requires PostOrder(ops)
    ensures PostOrder(pre + ops)
  {
    var all := pre + ops;
    forall i, j | 0 <= i < |all| && 0 <= j < |all| && all[i].Rmd? && !all[j].LocalRemove? &&
      StrictlyUnder(all[i].path, all[j].path)
      ensures j < i
    {
      assert all[i] == ops[i - |pre|];
      assert all[j] == ops[j - |pre|];
    }
  }

  /** The paths removed by the first `k` ops. */
  function RemovedBefore(ops: seq<Op>, k: nat): set<Path>
    requires k <= |ops|
  {
    DelePaths(ops[..k]) + RmdPaths(ops[..k])
  }

  /** Every RMD of a post-ordered sequence comes after the removal of everything inside it. */
  predicate EmptiedBeforeRmd(ops: seq<Op>, contents: set<Path>)
  {
    forall i, q ::
      (0 <= i < |ops| && ops[i].Rmd? && StrictlyUnder(ops[i].path, q) && q in contents) ==>
      q in RemovedBefore(ops, i)
  }

  lemma PostOrderEmptiesFirst(ops: seq<Op>)
    requires PostOrder(ops)
    ensures EmptiedBeforeRmd(ops, DelePaths(ops) + RmdPaths(ops))
  {
    forall i, q | 0 <= i < |ops| && ops[i].Rmd? && StrictlyUnder(ops[i].path, q) &&
      q in DelePaths(ops) + RmdPaths(ops)
      ensures q in RemovedBefore(ops, i)
    {
      if q in DelePaths(ops) {
        DelePathsMember(ops, q);
        var j :| 0 <= j < |ops| && ops[j] == Dele(q);
        assert ops[..i][j] == ops[j];
        DelePathsMember(ops[..i], q);
      } else {
        RmdPathsMember(ops, q);
        var j :| 0 <= j < |ops| && ops[j] == Rmd(q);
        assert ops[..i][j] == ops[j];
        RmdPathsMember(ops[..i], q);
      }
    }
  }

  /**
   * Deleting an entry of a well-formed listing succeeds, and RMD is only ever
   * issued on a directory whose whole contents were already removed.
   */
  lemma RmdOnlyOnEmptied(local: Option<Path>, t: RemoteTarget, hashes: map<Path, Digest>)
    requires WellFormedEntries(t.listing) && t.name in Names(t.listing)
    ensures DeleteFile(local, Some(t), hashes).Success?
    ensures var node := Lookup(t.listing, t.name).value;
      EmptiedBeforeRmd(DeleteFile(local, Some(t), hashes).value.ops,
                       FilePaths(t.Path(), node) + DirPaths(t.Path(), node))
  {
    DeleteFilePostOrder(local, t, hashes);
    PostOrderEmptiesFirst(DeleteFile(local, Some(t), hashes).value.ops);
  }

  /** Removing a listed entry of a well-formed listing succeeds and is post-ordered. */
  lemma DeleteFilePostOrder(local: Option<Path>, t: RemoteTarget, hashes: map<Path, Digest>)
    requires WellFormedEntries(t.listing) && t.name in Names(t.listing)
    ensures DeleteFile(local, Some(t), hashes).Success?
    ensures PostOrder(DeleteFile(local, Some(t), hashes).value.ops)
  {
    TargetPostOrder(t, hashes);
    var d := DeleteTarget(t, hashes).value;
    assert DeleteFile(local, Some(t), hashes).value.ops == LocalPart(local) + d.ops;
    PostOrderLocalPrefix(LocalPart(local), d.ops);
  }

  /** The remote half alone: a listed entry of a well-formed listing is removed in post-order. */
  lemma TargetPostOrder(t: RemoteTarget, hashes: map<Path, Digest>)
    requires WellFormedEntries(t.listing) && t.name in Names(t.listing)
    ensures DeleteTarget(t, hashes).Success?
    ensures PostOrder(DeleteTarget(t, hashes).value.ops)
  {
    var node := Lookup(t.listing, t.name).value;
    var k :| 0 <= k < |t.listing| && t.listing[k] == Entry(t.name, node);
    ClassifiedAsDir(t.listing, k);
    SizeBelow(t.listing, k);
    DeleteNodeSucceeds(t.Path(), node, hashes);
    DeleteNodePostOrder(t.Path(), node.Dir?, node, hashes);
  }

  /**
   * As written, `delete_file(x, d)` for a remote directory `d` holding one file
   * `a` removes `x`, then calls itself for `d/a` with `x` again: the second
   * `os.remove(x)` raises before DELE of `d/a`. The corrected version removes
   * `x` once, DELEs `d/a` and RMDs `d`.
   */
  lemma AsWrittenRemovesLocalTwice(x: Path, parent: Path, d: string, a: string, data: Data,
                                   hashes: map<Path, Digest>)
    requires PlainName(d) && PlainName(a)
    ensures var t := RemoteTarget(parent, [Entry(d, Dir([Entry(a, File(data))]))], d);
      && DeleteFileAsWritten(Some(x), Some(t), hashes) == Failure(LocalMissing(x))
      && DeleteFile(Some(x), Some(t), hashes) ==
        Success(Deletion([LocalRemove(x), Dele(parent + [d, a]), Rmd(parent + [d])], hashes - {parent + [d, a]}))
  {
    var sub := [Entry(a, File(data))];
    var top := [Entry(d, Dir(sub))];
    var t := RemoteTarget(parent, top, d);
    ClassifiedAsDir(top, 0);
    ClassifiedAsDir(sub, 0);
    var p := parent + [d];
    assert t.Path() == p && Lookup(top, d) == Some(Dir(sub));
    assert p + [a] == parent + [d, a];
    assert sub[1..] == [];
    assert DeleteNodeAsWritten(Some(x), true, p + [a], a in Classify(sub), File(data), hashes) == Failure(LocalMissing(x));
    assert ChildrenAsWritten(Some(x), p, sub, hashes) == Failure(LocalMissing(x));
    var leaf := DeleteNode(p + [a], a in Classify(sub), File(data), hashes);
    assert leaf == Success(Deletion([Dele(p + [a])], hashes - {p + [a]}));
    assert DeleteChildren(p, sub[1..], hashes - {p + [a]}) == Success(Deletion([], hashes - {p + [a]}));
    assert [Dele(p + [a])] + [] == [Dele(p + [a])];
    assert DeleteChildren(p, sub, hashes) == Success(Deletion([Dele(p + [a])], hashes - {p + [a]}));
    assert [LocalRemove(x)] + ([Dele(p + [a])] + [Rmd(p)]) == [LocalRemove(x), Dele(p + [a]), Rmd(p)];
  }

  /** Every file path of a tree lies at or below its root path. */
  lemma {:induction false} FilePathsWithin(p: Path, n: Node, q: Path)
    requires q in FilePaths(p, n)
    ensures p <= q
    decreases Size(n), 0
  {
    if n.Dir? {
      ChildFilePathsBelow(p, n.children, q);
    }
  }

  lemma {:induction false} ChildFilePathsBelow(p: Path, cs: seq<Entry>, q: Path)
    requires q in ChildFilePaths(p, cs)
    ensures StrictlyUnder(p, q)
    decreases SizeSeq(cs), 1
  {
    if q in FilePaths(p + [cs[0].name], cs[0].node) {
      FilePathsWithin(p + [cs[0].name], cs[0].node, q);
    } else {
      ChildFilePathsBelow(p, cs[1..], q);
    }
  }
}
