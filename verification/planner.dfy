/**
 * One invocation of `sync`: given what one directory level holds on each side,
 * decide what to download, upload, delete remotely and recurse into, and
 * update the two digest caches. Recursion into a subdirectory is an action of
 * the plan; its own level is planned by another invocation.
 */
module Planner {
  import opened Wrappers
  import opened FileTree
  import opened Server
  import opened Diff
  import opened Ftp
  import opened Cascade

  /** SYNC_SERVER pulls missing remote files; SYNC_CLIENT prunes remote entries missing locally. */
  datatype Mode = SyncServer | SyncClient

  /**
   * One directory level as `sync(local_path, remote_path, mode)` finds it:
   * `local` is `os.listdir` of the working local directory (empty when it does
   * not exist), `remote` is the NLST reply (None when NLST raised `error_perm`),
   * `denied` names the local files whose upload raises `PermissionError`, and
   * `md5` is the digest of file content.
   */
  datatype Level = Level(
    mode: Mode,
    root: Path,
    rel: Path,
    local: seq<Entry>,
    remote: Option<seq<Entry>>,
    denied: set<string>,
    md5: Data -> Digest)
  {
    /** The remote entries: none when the directory had to be created. */
    function RemoteEntries(): seq<Entry>
    {
      remote.GetOr([])
    }

    function LocalNames(): seq<string>
    {
      Names(local)
    }

    function RemoteNames(): seq<string>
    {
      Names(RemoteEntries())
    }

    /** `to_download_list` and `to_upload_list`. */
    function Partitioned(): Candidates
    {
      Partition(LocalNames(), RemoteNames())
    }

    /** `get_directories(remote_path)`: the names LIST shows as directories. */
    function Dirs(): set<string>
    {
      Classify(RemoteEntries())
    }

    /** The sets `sync` computes once, before either loop. */
    function Observed(): Snapshot
    {
      Snapshot(Dirs(), Partitioned().toDownload, Partitioned().toUpload)
    }

    /** `os.path.join(remote_path, item)`, the key of `remote_hashes`. */
    function RemotePath(name: string): Path
    {
      rel + [name]
    }

    /** `os.path.join(local_path, remote_path, item)`, the key of `local_hashes`. */
    function LocalPath(name: string): Path
    {
      root + rel + [name]
    }
  }

  /** `directories`, `to_download_list` and `to_upload_list` as `sync` computes them at the start of a level. */
  datatype Snapshot = Snapshot(dirs: set<string>, toDownload: set<string>, toUpload: set<string>)

  /** The candidate sets of a snapshot are those of the level's two listings. */
  ghost predicate Matches(lv: Level, sn: Snapshot)
  {
    && (forall n :: n in sn.toDownload <==> n in lv.RemoteNames() && n !in lv.LocalNames())
    && (forall n :: n in sn.toUpload <==> n in lv.LocalNames() && n !in lv.RemoteNames())
  }

  /** What the plan of one level does with one entry. */
  datatype Action =
    | Download(name: string)                   // RETR into a new local file
    | RecurseDown(name: string, makeLocal: bool) // sync the subdirectory, creating it locally first if asked
    | Prune(name: string, ops: seq<Op>)        // delete_file(None, ...) of a remote entry
    | Upload(name: string)                     // STOR of a local file
    | UploadSkipped(name: string)              // STOR attempted, PermissionError swallowed
    | RecurseUp(name: string)                  // sync a local subdirectory the server lacks
  {
    predicate InDownloadPass()
    {
      Download? || RecurseDown? || Prune?
    }

    predicate InUploadPass()
    {
      Upload? || UploadSkipped? || RecurseUp?
    }
  }

  /** `remote_hashes` and `local_hashes`, threaded explicitly. */
  datatype Caches = Caches(remote: map<Path, Digest>, local: map<Path, Digest>)

  /** The result of one level: MKD when NLST failed, the two passes, the caches afterwards. */
  datatype Plan = Plan(makeRemoteDir: bool, download: seq<Action>, upload: seq<Action>, caches: Caches)

  /** The names of the remote entries pruned by the actions. */
  function PrunedNames(actions: seq<Action>): set<string>
    decreases |actions|
  {
    if |actions| == 0 then {}
    else (if actions[0].Prune? then {actions[0].name} else {}) + PrunedNames(actions[1..])
  }

  lemma {:induction false} PrunedNamesAppend(a: seq<Action>, b: seq<Action>)
    ensures PrunedNames(a + b) == PrunedNames(a) + PrunedNames(b)
    decreases |a|
  {
    if |a| > 0 {
      PrunedNamesAppend(a[1..], b);
      assert (a + b)[1..] == a[1..] + b;
    } else {
      assert a + b == b;
    }
  }

  /** The listing with every entry of the given name removed. */
  function Without(es: seq<Entry>, name: string): (r: seq<Entry>)
    ensures forall e :: e in r <==> e in es && e.name != name
    decreases |es|
  {
    if |es| == 0 then []
    else (if es[0].name == name then [] else [es[0]]) + Without(es[1..], name)
  }

  lemma NamesCons(es: seq<Entry>)
    requires |es| > 0
    ensures forall n :: n in Names(es) <==> n == es[0].name || n in Names(es[1..])
  {
    forall n | n in Names(es) && n != es[0].name
      ensures n in Names(es[1..])
    {
      var i :| 0 <= i < |es| && Names(es)[i] == n;
      assert Names(es[1..])[i - 1] == n;
    }
    forall n | n in Names(es[1..])
      ensures n in Names(es)
    {
      var i :| 0 <= i < |es[1..]| && Names(es[1..])[i] == n;
      assert Names(es)[i + 1] == n;
    }
  }

  lemma NameListed(es: seq<Entry>, e: Entry)
    requires e in es
    ensures e.name in Names(es)
  {
    var i :| 0 <= i < |es| && es[i] == e;
    assert Names(es)[i] == e.name;
  }

  /**
   * `need_download` for a remote file: true when nothing local has the name,
   * otherwise whether the local size differs from SIZE. For a local directory of
   * that name the source leaves the variable unassigned; it is never read then,
   * because a name listed locally is not a download candidate.
   */
  function NeedDownload(lv: Level, name: string, remoteSize: nat): bool
  {
    match Lookup(lv.local, name)
    case None => true
    case Some(File(data)) => |data| != remoteSize
    case Some(Dir(_)) => false
  }

  /** The download pass so far, and the remote listing as LIST now shows it. */
  datatype DownState = DownState(actions: seq<Action>, hashes: map<Path, Digest>, listing: seq<Entry>)

  /** `delete_file(None, work_remote_path)` for a remote entry missing locally, as a plan step. */
  function PruneEntry(lv: Level, name: string, st: DownState, hashes: map<Path, Digest>): (r: Result<DownState, Failure>)
    ensures r.Success? ==>
      && |r.value.actions| == |st.actions| + 1 && r.value.actions[..|st.actions|] == st.actions
      && r.value.actions[|st.actions|].Prune? && r.value.actions[|st.actions|].name == name
      && r.value.listing == Without(st.listing, name)
      && r.value.hashes.Keys <= hashes.Keys
  {
    var d :- DeleteFile(None, Some(RemoteTarget(lv.rel, st.listing, name)), hashes);
    Success(DownState(st.actions + [Prune(name, d.ops)], d.remoteHashes, Without(st.listing, name)))
  }

  /**
   * One iteration of the download loop over the NLST reply. In SYNC_SERVER
   * mode a remote directory whose name is a local file is not created locally,
   * and the nested `sync` fails at once listing that file as a directory.
   */
  function DownloadItem(lv: Level, sn: Snapshot, e: Entry, st: DownState): (r: Result<DownState, Failure>)
    requires e.name in lv.RemoteNames()
    ensures lv.mode == SyncServer && e.name in sn.dirs ==>
      (r.Failure? <==> Lookup(lv.local, e.name).Some? && Lookup(lv.local, e.name).value.File?)
    ensures r.Success? && e.name !in sn.dirs ==> e.node.File?
    ensures r.Success? ==> st.actions <= r.value.actions
    ensures r.Success? ==> forall i :: |st.actions| <= i < |r.value.actions| ==> r.value.actions[i].InDownloadPass()
  {
    var path := lv.RemotePath(e.name);
    if e.name !in sn.dirs && e.node.Dir? then Failure(RetrOnDirectory(path))
    else
      var hashes := if e.name in sn.dirs then st.hashes else st.hashes[path := lv.md5(e.node.data)];
      match lv.mode
      case SyncServer =>
        if e.name !in sn.dirs then
          var download := e.name in sn.toDownload && NeedDownload(lv, e.name, |e.node.data|);
          var acts := st.actions + (if download then [Download(e.name)] else []);
          Success(DownState(acts, hashes, st.listing))
        else if Lookup(lv.local, e.name).Some? && Lookup(lv.local, e.name).value.File? then
          Failure(ListdirOnFile(lv.LocalPath(e.name)))
        else
          var acts := st.actions + [RecurseDown(e.name, e.name !in lv.LocalNames())];
          Success(DownState(acts, hashes, st.listing))
      case SyncClient =>
        if e.name in sn.toDownload then PruneEntry(lv, e.name, st, hashes)
        else
          Success(DownState(st.actions, hashes, st.listing))
  }

  /**
   * The actions one download step appends: a download exactly for a remote
   * file missing locally and a descent exactly for a remote directory, both in
   * SYNC_SERVER mode only; a prune exactly for a name missing locally in
   * SYNC_CLIENT mode.
   */
  lemma DownloadItemActions(lv: Level, sn: Snapshot, e: Entry, st: DownState)
    requires Matches(lv, sn)
    requires e.name in lv.RemoteNames()
    requires DownloadItem(lv, sn, e, st).Success?
    ensures var acts := DownloadItem(lv, sn, e, st).value.actions;
      && (forall n :: Download(n) in acts <==>
            Download(n) in st.actions ||
            (lv.mode == SyncServer && n == e.name && n !in sn.dirs && n !in lv.LocalNames()))
      && (forall n, b :: RecurseDown(n, b) in acts <==>
            RecurseDown(n, b) in st.actions ||
            (lv.mode == SyncServer && n == e.name && n in sn.dirs && b == (n !in lv.LocalNames())))
      && (forall n :: n in PrunedNames(acts) <==>
            n in PrunedNames(st.actions) || (lv.mode == SyncClient && n == e.name && n !in lv.LocalNames()))
  {
    var acts := DownloadItem(lv, sn, e, st).value.actions;
    var added := acts[|st.actions|..];
    assert acts == st.actions + added;
    PrunedNamesAppend(st.actions, added);
    if lv.mode == SyncServer {
      if e.name !in sn.dirs {
        assert added == if e.name in lv.LocalNames() then [] else [Download(e.name)];
      } else {
        assert added == [RecurseDown(e.name, e.name !in lv.LocalNames())];
      }
      assert PrunedNames(added) == {};
    } else if e.name in sn.toDownload {
      assert |added| == 1 && added[0].Prune? && added[0].name == e.name;
      assert PrunedNames(added) == {e.name};
    } else {
      assert added == [];
    }
  }

  /**
   * What one download step does to `remote_hashes`: an item LIST does not show
   * as a directory is a file and gets a digest (kept in SYNC_CLIENT mode only
   * when listed locally); SYNC_SERVER mode only adds keys; digests of locally
   * listed names survive; a directory never gains one.
   */
  lemma DownloadItemDigests(lv: Level, sn: Snapshot, e: Entry, st: DownState)
    requires Matches(lv, sn)
    requires e.name in lv.RemoteNames()
    requires DownloadItem(lv, sn, e, st).Success?
    ensures var h := DownloadItem(lv, sn, e, st).value.hashes;
      && (e.name !in sn.dirs ==> e.node.File?)
      && (e.name !in sn.dirs && (lv.mode == SyncServer || e.name in lv.LocalNames()) ==> lv.RemotePath(e.name) in h)
      && (lv.mode == SyncServer ==> st.hashes.Keys <= h.Keys)
      && (forall n :: n in lv.LocalNames() && lv.RemotePath(n) in st.hashes ==> lv.RemotePath(n) in h)
      && (forall n :: n in sn.dirs && lv.RemotePath(n) !in st.hashes ==> lv.RemotePath(n) !in h)
  {
    RemotePathsDiffer(lv, e.name);
    if lv.mode == SyncClient && e.name in sn.toDownload {
      var hashes := if e.name in sn.dirs then st.hashes else st.hashes[lv.RemotePath(e.name) := lv.md5(e.node.data)];
      var t := RemoteTarget(lv.rel, st.listing, e.name);
      var d := DeleteFile(None, Some(t), hashes).value;
      PruneKeepsListedDigests(lv, e.name, t, hashes, d.remoteHashes);
    }
  }

  lemma RemotePathsDiffer(lv: Level, x: string)
    ensures forall n :: n != x ==> lv.RemotePath(n) != lv.RemotePath(x)
  {
    forall n | n != x
      ensures lv.RemotePath(n) != lv.RemotePath(x)
    {
      RemotePathInjective(lv, n, x);
    }
  }

  /**
   * In SYNC_CLIENT mode a remote entry missing locally is pruned with the whole
   * cascade of `delete_file(None, path)`: every file below it is deleted and
   * its digest evicted, every directory below it removed, and LIST no longer
   * shows it.
   */
  lemma PruneDeletesSubtree(lv: Level, name: string, st: DownState, hashes: map<Path, Digest>)
    requires PruneEntry(lv, name, st, hashes).Success?
    ensures var r := PruneEntry(lv, name, st, hashes).value;
      var node := Lookup(st.listing, name);
      var act := r.actions[|st.actions|];
      && node.Some? && act.Prune?
      && DelePaths(act.ops) == FilePaths(lv.RemotePath(name), node.value)
      && RmdPaths(act.ops) == DirPaths(lv.RemotePath(name), node.value)
      && r.hashes == hashes - FilePaths(lv.RemotePath(name), node.value)
  {
  }

  /** Pruning a name missing locally evicts no digest of a name listed locally. */
  lemma PruneKeepsListedDigests(lv: Level, x: string, t: RemoteTarget, before: map<Path, Digest>,
                                after: map<Path, Digest>)
    requires x !in lv.LocalNames() && t.parent == lv.rel && t.name == x
    requires Lookup(t.listing, x).Some?
    requires after == before - FilePaths(t.Path(), Lookup(t.listing, x).value)
    ensures forall n :: n in lv.LocalNames() && lv.RemotePath(n) in before ==>
      lv.RemotePath(n) in after && after[lv.RemotePath(n)] == before[lv.RemotePath(n)]
    ensures after.Keys <= before.Keys
  {
    assert t.Path() == lv.RemotePath(x);
    forall n | n in lv.LocalNames() && lv.RemotePath(n) in before
      ensures lv.RemotePath(n) in after
    {
      RemotePathInjective(lv, n, x);
      if lv.RemotePath(n) in FilePaths(t.Path(), Lookup(t.listing, x).value) {
        FilePathsWithin(t.Path(), Lookup(t.listing, x).value, lv.RemotePath(n));
      }
    }
  }

  /** The download loop over the remaining NLST entries `items`. */
  function DownloadPass(lv: Level, sn: Snapshot, items: seq<Entry>, st: DownState): (r: Result<DownState, Failure>)
    requires forall i :: 0 <= i < |items| ==> items[i].name in lv.RemoteNames()
    ensures r.Success? ==> st.actions <= r.value.actions
    ensures r.Success? ==> forall i :: |st.actions| <= i < |r.value.actions| ==> r.value.actions[i].InDownloadPass()
    decreases |items|
  {
    if |items| == 0 then Success(st)
    else
      var next :- DownloadItem(lv, sn, items[0], st);
      DownloadPass(lv, sn, items[1..], next)
  }

  /** Which downloads and descents the pass plans: both only in SYNC_SERVER mode. */
  lemma {:induction false} DownloadPassActions(lv: Level, sn: Snapshot, items: seq<Entry>, st: DownState)
    requires Matches(lv, sn)
    requires forall i :: 0 <= i < |items| ==> items[i].name in lv.RemoteNames()
    requires DownloadPass(lv, sn, items, st).Success?
    ensures forall n :: Download(n) in DownloadPass(lv, sn, items, st).value.actions <==>
      Download(n) in st.actions ||
      (lv.mode == SyncServer && n in Names(items) && n !in sn.dirs && n !in lv.LocalNames())
    ensures forall n, b :: RecurseDown(n, b) in DownloadPass(lv, sn, items, st).value.actions <==>
      RecurseDown(n, b) in st.actions ||
      (lv.mode == SyncServer && n in Names(items) && n in sn.dirs && b == (n !in lv.LocalNames()))
    ensures forall n :: n in PrunedNames(DownloadPass(lv, sn, items, st).value.actions) <==>
      n in PrunedNames(st.actions) || (lv.mode == SyncClient && n in Names(items) && n !in lv.LocalNames())
    decreases |items|
  {
    if |items| > 0 {
      var next := DownloadItem(lv, sn, items[0], st).value;
      DownloadItemActions(lv, sn, items[0], st);
      NamesCons(items);
      DownloadPassActions(lv, sn, items[1..], next);
    }
  }

  /** What the pass keeps in `remote_hashes`. */
  lemma {:induction false} DownloadPassKeeps(lv: Level, sn: Snapshot, items: seq<Entry>, st: DownState)
    requires Matches(lv, sn)
    requires forall i :: 0 <= i < |items| ==> items[i].name in lv.RemoteNames()
    requires DownloadPass(lv, sn, items, st).Success?
    ensures lv.mode == SyncServer ==> st.hashes.Keys <= DownloadPass(lv, sn, items, st).value.hashes.Keys
    ensures forall n :: n in lv.LocalNames() && lv.RemotePath(n) in st.hashes ==>
      lv.RemotePath(n) in DownloadPass(lv, sn, items, st).value.hashes
    ensures forall n :: n in sn.dirs && lv.RemotePath(n) !in st.hashes ==>
      lv.RemotePath(n) !in DownloadPass(lv, sn, items, st).value.hashes
    decreases |items|
  {
    if |items| > 0 {
      var next := DownloadItem(lv, sn, items[0], st).value;
      DownloadItemDigests(lv, sn, items[0], st);
      DownloadPassKeeps(lv, sn, items[1..], next);
    }
  }

  /** Every item LIST does not show as a directory is a file, or the pass fails on RETR. */
  lemma {:induction false} DownloadPassFiles(lv: Level, sn: Snapshot, items: seq<Entry>, st: DownState)
    requires Matches(lv, sn)
    requires forall i :: 0 <= i < |items| ==> items[i].name in lv.RemoteNames()
    requires DownloadPass(lv, sn, items, st).Success?
    ensures forall e :: e in items && e.name !in sn.dirs ==> e.node.File?
    decreases |items|
  {
    if |items| > 0 {
      var next := DownloadItem(lv, sn, items[0], st).value;
      DownloadPassFiles(lv, sn, items[1..], next);
      forall e | e in items && e.name !in sn.dirs
        ensures e.node.File?
      {
        if e != items[0] {
          assert e in items[1..] by {
            assert items == [items[0]] + items[1..];
          }
        }
      }
    }
  }

  /** What the pass adds to `remote_hashes`. */
  lemma {:induction false} DownloadPassDigests(lv: Level, sn: Snapshot, items: seq<Entry>, st: DownState)
    requires Matches(lv, sn)
    requires forall i :: 0 <= i < |items| ==> items[i].name in lv.RemoteNames()
    requires DownloadPass(lv, sn, items, st).Success?
    ensures forall e :: e in items && e.name !in sn.dirs && (lv.mode == SyncServer || e.name in lv.LocalNames()) ==>
      lv.RemotePath(e.name) in DownloadPass(lv, sn, items, st).value.hashes
    decreases |items|
  {
    if |items| > 0 {
      var next := DownloadItem(lv, sn, items[0], st).value;
      var r := DownloadPass(lv, sn, items[1..], next).value;
      assert DownloadPass(lv, sn, items, st).value == r;
      DownloadPassDigests(lv, sn, items[1..], next);
      FirstItemDigest(lv, sn, items, st);
      forall e | e in items && e.name !in sn.dirs && (lv.mode == SyncServer || e.name in lv.LocalNames())
        ensures lv.RemotePath(e.name) in r.hashes
      {
        if e != items[0] {
          assert e in items[1..] by {
            assert items == [items[0]] + items[1..];
          }
        }
      }
    }
  }

  /** The digest the first step records survives the rest of the pass. */
  lemma FirstItemDigest(lv: Level, sn: Snapshot, items: seq<Entry>, st: DownState)
    requires Matches(lv, sn)
    requires |items| > 0
    requires forall i :: 0 <= i < |items| ==> items[i].name in lv.RemoteNames()
    requires DownloadPass(lv, sn, items, st).Success?
    ensures var e := items[0];
      e.name !in sn.dirs && (lv.mode == SyncServer || e.name in lv.LocalNames()) ==>
        lv.RemotePath(e.name) in DownloadPass(lv, sn, items, st).value.hashes
  {
    var next := DownloadItem(lv, sn, items[0], st).value;
    DownloadItemDigests(lv, sn, items[0], st);
    DownloadPassKeeps(lv, sn, items[1..], next);
  }

  /** A local file needs uploading when the server lacks its name or its digests differ. */
  predicate NeedUpload(lv: Level, remoteHashes: map<Path, Digest>, e: Entry)
    requires e.node.File?
    requires e.name in lv.RemoteNames() ==> lv.RemotePath(e.name) in remoteHashes
  {
    e.name !in lv.RemoteNames() || lv.md5(e.node.data) != remoteHashes[lv.RemotePath(e.name)]
  }

  /** Every local file listed remotely has a remote digest to compare with. */
  predicate DigestsFor(lv: Level, remoteHashes: map<Path, Digest>, items: seq<Entry>)
  {
    forall e :: e in items && e.node.File? && e.name in lv.RemoteNames() ==> lv.RemotePath(e.name) in remoteHashes
  }

  /** The local paths of the files among `items`. */
  function LocalFilePaths(lv: Level, items: seq<Entry>): set<Path>
  {
    set e | e in items && e.node.File? :: lv.LocalPath(e.name)
  }

  /** The upload pass so far. */
  datatype UpState = UpState(actions: seq<Action>, hashes: map<Path, Digest>)

  /**
   * One iteration of the upload loop over the local listing. `upload_file`
   * opens the local file before STOR, so a denied file is skipped without
   * reaching the server; STOR fails only onto a remote directory.
   */
  function UploadItem(lv: Level, sn: Snapshot, remoteHashes: map<Path, Digest>, e: Entry, st: UpState): (r: Result<UpState, Failure>)
    requires DigestsFor(lv, remoteHashes, [e])
    ensures r.Failure? <==>
      && e.node.File? && NeedUpload(lv, remoteHashes, e) && e.name !in lv.denied
      && Lookup(lv.RemoteEntries(), e.name).Some? && Lookup(lv.RemoteEntries(), e.name).value.Dir?
    ensures r.Success? ==> st.actions <= r.value.actions
    ensures r.Success? ==> forall i :: |st.actions| <= i < |r.value.actions| ==> r.value.actions[i].InUploadPass()
    ensures r.Success? ==> forall n :: Upload(n) in r.value.actions <==>
      Upload(n) in st.actions ||
      (n == e.name && e.node.File? && NeedUpload(lv, remoteHashes, e) && n !in lv.denied)
    ensures r.Success? ==> forall n :: UploadSkipped(n) in r.value.actions <==>
      UploadSkipped(n) in st.actions ||
      (n == e.name && e.node.File? && NeedUpload(lv, remoteHashes, e) && n in lv.denied)
    ensures r.Success? ==> forall n :: RecurseUp(n) in r.value.actions <==>
      RecurseUp(n) in st.actions || (n == e.name && e.node.Dir? && n in sn.toUpload)
    ensures r.Success? ==> r.value.hashes.Keys == st.hashes.Keys + LocalFilePaths(lv, [e])
    ensures r.Success? && e.node.File? ==> r.value.hashes[lv.LocalPath(e.name)] == lv.md5(e.node.data)
    ensures r.Success? ==> forall k :: k in st.hashes && k !in LocalFilePaths(lv, [e]) ==>
      r.value.hashes[k] == st.hashes[k]
  {
    assert e in [e];
    match e.node
    case File(data) =>
      var hashes := st.hashes[lv.LocalPath(e.name) := lv.md5(data)];
      assert LocalFilePaths(lv, [e]) == {lv.LocalPath(e.name)};
      if !NeedUpload(lv, remoteHashes, e) then Success(UpState(st.actions, hashes))
      else if e.name in lv.denied then Success(UpState(st.actions + [UploadSkipped(e.name)], hashes))
      else if Lookup(lv.RemoteEntries(), e.name).Some? && Lookup(lv.RemoteEntries(), e.name).value.Dir? then
        Failure(StorOnDirectory(lv.RemotePath(e.name)))
      else Success(UpState(st.actions + [Upload(e.name)], hashes))
    case Dir(_) =>
      assert LocalFilePaths(lv, [e]) == {};
      var acts := st.actions + (if e.name in sn.toUpload then [RecurseUp(e.name)] else []);
      Success(UpState(acts, st.hashes))
  }

  /** The upload loop over the remaining local entries `items`. */
  function UploadPass(lv: Level, sn: Snapshot, remoteHashes: map<Path, Digest>, items: seq<Entry>, st: UpState): (r: Result<UpState, Failure>)
    requires DigestsFor(lv, remoteHashes, items)
    ensures r.Success? ==> st.actions <= r.value.actions
    ensures r.Success? ==> forall i :: |st.actions| <= i < |r.value.actions| ==> r.value.actions[i].InUploadPass()
    decreases |items|
  {
    if |items| == 0 then Success(st)
    else
      var next :- UploadItem(lv, sn, remoteHashes, items[0], st);
      UploadPass(lv, sn, remoteHashes, items[1..], next)
  }

  /** Which uploads and ascents the pass plans. */
  lemma {:induction false} UploadPassActions(lv: Level, sn: Snapshot, remoteHashes: map<Path, Digest>, items: seq<Entry>, st: UpState)
    requires DigestsFor(lv, remoteHashes, items)
    requires UploadPass(lv, sn, remoteHashes, items, st).Success?
    ensures forall n :: Upload(n) in UploadPass(lv, sn, remoteHashes, items, st).value.actions <==>
      Upload(n) in st.actions ||
      exists e :: e in items && e.name == n && e.node.File? && NeedUpload(lv, remoteHashes, e) && n !in lv.denied
    ensures forall n :: UploadSkipped(n) in UploadPass(lv, sn, remoteHashes, items, st).value.actions <==>
      UploadSkipped(n) in st.actions ||
      exists e :: e in items && e.name == n && e.node.File? && NeedUpload(lv, remoteHashes, e) && n in lv.denied
    ensures forall n :: RecurseUp(n) in UploadPass(lv, sn, remoteHashes, items, st).value.actions <==>
      RecurseUp(n) in st.actions ||
      ((exists e :: e in items && e.name == n && e.node.Dir?) && n in sn.toUpload)
    decreases |items|
  {
    if |items| > 0 {
      var next := UploadItem(lv, sn, remoteHashes, items[0], st).value;
      UploadPassActions(lv, sn, remoteHashes, items[1..], next);
      assert forall e :: e in items <==> e == items[0] || e in items[1..] by {
        assert items == [items[0]] + items[1..];
      }
    }
  }

  /** What the pass leaves in `local_hashes`: a digest at every local file path, nothing else touched. */
  lemma {:induction false} UploadPassDigests(lv: Level, sn: Snapshot, remoteHashes: map<Path, Digest>, items: seq<Entry>, st: UpState)
    requires DigestsFor(lv, remoteHashes, items)
    requires UploadPass(lv, sn, remoteHashes, items, st).Success?
    ensures UploadPass(lv, sn, remoteHashes, items, st).value.hashes.Keys == st.hashes.Keys + LocalFilePaths(lv, items)
    ensures forall k :: k in st.hashes && k !in LocalFilePaths(lv, items) ==>
      UploadPass(lv, sn, remoteHashes, items, st).value.hashes[k] == st.hashes[k]
    decreases |items|
  {
    if |items| == 0 {
      assert LocalFilePaths(lv, items) == {};
    } else {
      var next := UploadItem(lv, sn, remoteHashes, items[0], st).value;
      UploadPassDigests(lv, sn, remoteHashes, items[1..], next);
      LocalFilePathsCons(lv, items);
    }
  }

  /** With distinct local names, each local file path holds the digest of that file. */
  lemma {:induction false} UploadPassDigestValues(lv: Level, sn: Snapshot, remoteHashes: map<Path, Digest>, items: seq<Entry>, st: UpState)
    requires DigestsFor(lv, remoteHashes, items)
    requires UploadPass(lv, sn, remoteHashes, items, st).Success?
    ensures forall e :: e in items && e.node.File? ==> lv.LocalPath(e.name) in UploadPass(lv, sn, remoteHashes, items, st).value.hashes
    ensures DistinctNames(items) ==> forall e :: e in items && e.node.File? ==>
      UploadPass(lv, sn, remoteHashes, items, st).value.hashes[lv.LocalPath(e.name)] == lv.md5(e.node.data)
    decreases |items|
  {
    UploadPassDigests(lv, sn, remoteHashes, items, st);
    if |items| > 0 && DistinctNames(items) {
      var next := UploadItem(lv, sn, remoteHashes, items[0], st).value;
      var r := UploadPass(lv, sn, remoteHashes, items[1..], next).value;
      DistinctTail(items);
      UploadPassDigestValues(lv, sn, remoteHashes, items[1..], next);
      UploadPassDigests(lv, sn, remoteHashes, items[1..], next);
      if items[0].node.File? {
        var k := lv.LocalPath(items[0].name);
        forall q | q in LocalFilePaths(lv, items[1..])
          ensures q != k
        {
          var f :| f in items[1..] && f.node.File? && q == lv.LocalPath(f.name);
          LocalPathInjective(lv, f.name, items[0].name);
        }
        assert r.hashes[k] == next.hashes[k];
      }
      assert forall e :: e in items <==> e == items[0] || e in items[1..] by {
        assert items == [items[0]] + items[1..];
      }
    }
  }

  lemma LocalFilePathsCons(lv: Level, items: seq<Entry>)
    requires |items| > 0
    ensures LocalFilePaths(lv, items) == LocalFilePaths(lv, [items[0]]) + LocalFilePaths(lv, items[1..])
  {
    assert forall e :: e in items <==> e == items[0] || e in items[1..] by {
      assert items == [items[0]] + items[1..];
    }
  }

  lemma DistinctTail(items: seq<Entry>)
    requires |items| > 0 && DistinctNames(items)
    ensures DistinctNames(items[1..])
    ensures forall e :: e in items[1..] ==> e.name != items[0].name
  {
    forall e | e in items[1..]
      ensures e.name != items[0].name
    {
      var j :| 0 <= j < |items[1..]| && items[1..][j] == e;
      assert items[j + 1] == e;
    }
    assert forall i :: 0 <= i < |items[1..]| ==> items[1..][i] == items[i + 1];
  }

  lemma RemotePathInjective(lv: Level, a: string, b: string)
    ensures lv.RemotePath(a) == lv.RemotePath(b) ==> a == b
  {
    assert lv.RemotePath(a)[|lv.rel|] == a;
    assert lv.RemotePath(b)[|lv.rel|] == b;
  }

  lemma LocalPathInjective(lv: Level, a: string, b: string)
    ensures lv.LocalPath(a) == lv.LocalPath(b) ==> a == b
  {
    assert lv.LocalPath(a)[|lv.root + lv.rel|] == a;
    assert lv.LocalPath(b)[|lv.root + lv.rel|] == b;
  }

  /**
   * The precondition the source relies on: a local file whose name LIST shows
   * as a remote directory finds a digest cached for that path (otherwise the
   * lookup of `remote_hashes` raises `KeyError`).
   */
  predicate DigestAvailable(lv: Level, remoteHashes: map<Path, Digest>)
  {
    forall e :: e in lv.local && e.node.File? && e.name in lv.RemoteNames() && e.name in lv.Dirs() ==>
      lv.RemotePath(e.name) in remoteHashes
  }

  lemma ObservedMatches(lv: Level)
    ensures Matches(lv, lv.Observed())
  {
  }

  /** The download pass over the whole NLST reply. */
  function DownloadPhase(lv: Level, remoteHashes: map<Path, Digest>): Result<DownState, Failure>
  {
    var items := lv.RemoteEntries();
    assert forall i :: 0 <= i < |items| ==> items[i].name in lv.RemoteNames();
    DownloadPass(lv, lv.Observed(), items, DownState([], remoteHashes, items))
  }

  /** `sync` for one level. */
  function SyncLevel(lv: Level, caches: Caches): (r: Result<Plan, Failure>)
    requires DigestAvailable(lv, caches.remote)
    ensures r.Success? ==> r.value.makeRemoteDir == lv.remote.None?
    ensures r.Success? ==> forall i :: 0 <= i < |r.value.download| ==> r.value.download[i].InDownloadPass()
    ensures r.Success? ==> forall i :: 0 <= i < |r.value.upload| ==> r.value.upload[i].InUploadPass()
    ensures r.Success? ==> forall n :: Download(n) in r.value.download <==>
      lv.mode == SyncServer && n in lv.RemoteNames() && n !in lv.Dirs() && n !in lv.LocalNames()
    ensures r.Success? ==> forall n, b :: RecurseDown(n, b) in r.value.download <==>
      lv.mode == SyncServer && n in lv.RemoteNames() && n in lv.Dirs() && b == (n !in lv.LocalNames())
    ensures r.Success? ==> forall n :: n in PrunedNames(r.value.download) <==>
      lv.mode == SyncClient && n in lv.Partitioned().toDownload
    ensures r.Success? ==> DigestsFor(lv, r.value.caches.remote, lv.local)
    ensures r.Success? ==> forall n :: Upload(n) in r.value.upload <==>
      exists e :: e in lv.local && e.name == n && e.node.File? &&
        NeedUpload(lv, r.value.caches.remote, e) && n !in lv.denied
    ensures r.Success? ==> forall n :: UploadSkipped(n) in r.value.upload <==>
      exists e :: e in lv.local && e.name == n && e.node.File? &&
        NeedUpload(lv, r.value.caches.remote, e) && n in lv.denied
    ensures r.Success? ==> forall n :: RecurseUp(n) in r.value.upload <==>
      (exists e :: e in lv.local && e.name == n && e.node.Dir?) && n in lv.Partitioned().toUpload
  {
    var sn := lv.Observed();
    var items := lv.RemoteEntries();
    var down :- DownloadPhase(lv, caches.remote);
    ObservedMatches(lv);
    DownloadPassActions(lv, sn, items, DownState([], caches.remote, items));
    DigestsAfterDownload(lv, caches.remote, down);
    var up :- UploadPass(lv, sn, down.hashes, lv.local, UpState([], caches.local));
    UploadPassActions(lv, sn, down.hashes, lv.local, UpState([], caches.local));
    Success(Plan(lv.remote.None?, down.actions, up.actions, Caches(down.hashes, up.hashes)))
  }

  /**
   * The caches after a planned level: a remote digest for every remote file
   * hashed (all of them in SYNC_SERVER mode, those listed locally in
   * SYNC_CLIENT mode), none gained by a directory, and a local digest for
   * exactly the local files, every other local entry untouched.
   */
  lemma SyncLevelCaches(lv: Level, caches: Caches)
    requires DigestAvailable(lv, caches.remote)
    requires SyncLevel(lv, caches).Success?
    ensures var after := SyncLevel(lv, caches).value.caches;
      && (forall e :: (e in lv.RemoteEntries() && e.name !in lv.Dirs() &&
                       (lv.mode == SyncServer || e.name in lv.LocalNames())) ==>
            lv.RemotePath(e.name) in after.remote)
      && (forall n :: n in lv.Dirs() && lv.RemotePath(n) !in caches.remote ==> lv.RemotePath(n) !in after.remote)
      && after.local.Keys == caches.local.Keys + LocalFilePaths(lv, lv.local)
      && (forall k :: k in caches.local && k !in LocalFilePaths(lv, lv.local) ==> after.local[k] == caches.local[k])
      && (DistinctNames(lv.local) ==> forall e :: e in lv.local && e.node.File? ==>
            lv.LocalPath(e.name) in after.local && after.local[lv.LocalPath(e.name)] == lv.md5(e.node.data))
  {
    var sn := lv.Observed();
    var items := lv.RemoteEntries();
    var down := DownloadPhase(lv, caches.remote).value;
    ObservedMatches(lv);
    DownloadPassFiles(lv, sn, items, DownState([], caches.remote, items));
    DownloadPassDigests(lv, sn, items, DownState([], caches.remote, items));
    DownloadPassKeeps(lv, sn, items, DownState([], caches.remote, items));
    DigestsAfterDownload(lv, caches.remote, down);
    UploadPassDigests(lv, sn, down.hashes, lv.local, UpState([], caches.local));
    UploadPassDigestValues(lv, sn, down.hashes, lv.local, UpState([], caches.local));
  }

  /** After the download pass every local file listed remotely has a remote digest. */
  lemma DigestsAfterDownload(lv: Level, remoteHashes: map<Path, Digest>, down: DownState)
    requires DigestAvailable(lv, remoteHashes)
    requires DownloadPhase(lv, remoteHashes) == Success(down)
    ensures DigestsFor(lv, down.hashes, lv.local)
  {
    var sn := lv.Observed();
    var items := lv.RemoteEntries();
    ObservedMatches(lv);
    DownloadPassDigests(lv, sn, items, DownState([], remoteHashes, items));
    DownloadPassKeeps(lv, sn, items, DownState([], remoteHashes, items));
    forall e | e in lv.local && e.node.File? && e.name in lv.RemoteNames()
      ensures lv.RemotePath(e.name) in down.hashes
    {
      NameListed(lv.local, e);
      if e.name !in lv.Dirs() {
        var i :| 0 <= i < |items| && Names(items)[i] == e.name;
        assert items[i] in items;
      }
    }
  }
}
