/**
 * Properties of `sync` that relate whole levels: when a level is planned
 * without error, and why the upload half does not depend on the mode.
 */
module SyncFacts {
  import opened Wrappers
  import opened FileTree
  import opened Server
  import opened Diff
  import opened Cascade
  import opened Planner

  /** The same level run in the other mode. */
  function InMode(lv: Level, m: Mode): (r: Level)
    ensures r.mode == m && r.local == lv.local && r.remote == lv.remote
    ensures r.RemoteEntries() == lv.RemoteEntries() && r.RemoteNames() == lv.RemoteNames()
    ensures r.LocalNames() == lv.LocalNames() && r.Dirs() == lv.Dirs()
    ensures r.Observed() == lv.Observed()
  {
    lv.(mode := m)
  }

  /** No local file the client may open meets a remote directory of the same name (STOR would be refused). */
  predicate NoFileOverDir(lv: Level)
  {
    forall e :: e in lv.local && e.node.File? && e.name !in lv.denied ==>
      !(Lookup(lv.RemoteEntries(), e.name).Some? && Lookup(lv.RemoteEntries(), e.name).value.Dir?)
  }

  /** In SYNC_SERVER mode no remote directory meets a local file of the same name (the nested `sync` would list a file). */
  predicate NoDirOverFile(lv: Level)
  {
    lv.mode == SyncServer ==> forall e :: e in lv.RemoteEntries() && e.node.Dir? ==>
      !(Lookup(lv.local, e.name).Some? && Lookup(lv.local, e.name).value.File?)
  }

  lemma EntryIndex(es: seq<Entry>, e: Entry) returns (k: nat)
    requires e in es
    ensures k < |es| && es[k] == e
  {
    var i :| 0 <= i < |es| && es[i] == e;
    k := i;
  }

  /** A well-formed listing extended at the front by a fresh, plain, well-formed entry stays well formed. */
  lemma ConsWellFormed(e: Entry, rest: seq<Entry>)
    requires WellFormed(e.node) && PlainName(e.name) && WellFormedEntries(rest)
    requires forall f :: f in rest ==> f.name != e.name
    ensures WellFormedEntries([e] + rest)
  {
    var r := [e] + rest;
    assert forall i :: 0 < i < |r| ==> r[i] == rest[i - 1];
    forall i, j | 0 <= i < j < |r|
      ensures r[i].name != r[j].name
    {
      if i == 0 {
        assert r[j] in rest;
      }
    }
    forall i | 0 <= i < |r|
      ensures WellFormed(r[i].node)
    {
      if i > 0 {
        SizeBelow(rest, i - 1);
      }
    }
  }

  /** Dropping a name from a well-formed listing leaves it well formed. */
  lemma {:induction false} WithoutWellFormed(es: seq<Entry>, x: string)
    requires WellFormedEntries(es)
    ensures WellFormedEntries(Without(es, x))
    decreases |es|
  {
    if |es| > 0 {
      WellFormedTail(es);
      WithoutWellFormed(es[1..], x);
      var rest := Without(es[1..], x);
      if es[0].name != x {
        forall f | f in rest
          ensures f.name != es[0].name
        {
          NameListed(es[1..], f);
        }
        assert PlainName(es[0].name) by {
          assert PlainNames(es);
        }
        ConsWellFormed(es[0], rest);
        assert Without(es, x) == [es[0]] + rest;
      } else {
        assert Without(es, x) == rest;
      }
    } else {
      assert Without(es, x) == [];
    }
  }

  /**
   * The download pass fails only on a kind clash: LIST misreading a name, or in
   * SYNC_SERVER mode a remote directory over a local file. Over a well-formed
   * remote listing without the latter it succeeds in both modes.
   */
  lemma {:induction false} DownloadPassSucceeds(lv: Level, sn: Snapshot, items: seq<Entry>, st: DownState)
    requires sn == lv.Observed()
    requires WellFormedEntries(lv.RemoteEntries()) && NoDirOverFile(lv)
    requires forall i :: 0 <= i < |items| ==> items[i].name in lv.RemoteNames()
    requires forall e :: e in items ==> e in lv.RemoteEntries() && e in st.listing
    requires DistinctNames(items)
    requires WellFormedEntries(st.listing)
    ensures DownloadPass(lv, sn, items, st).Success?
    decreases |items|
  {
    if |items| > 0 {
      var e := items[0];
      assert e in items;
      var k := EntryIndex(lv.RemoteEntries(), e);
      ClassifiedAsDir(lv.RemoteEntries(), k);
      if lv.mode == SyncClient && e.name in sn.toDownload {
        var hashes := if e.name in sn.dirs then st.hashes else st.hashes[lv.RemotePath(e.name) := lv.md5(e.node.data)];
        NameListed(st.listing, e);
        RmdOnlyOnEmptied(None, RemoteTarget(lv.rel, st.listing, e.name), hashes);
      }
      var next := DownloadItem(lv, sn, e, st).value;
      WithoutWellFormed(st.listing, e.name);
      DistinctTail(items);
      DownloadPassSucceeds(lv, sn, items[1..], next);
    }
  }

  /** The upload pass fails only when a local file the client can open meets a remote directory. */
  lemma {:induction false} UploadPassSucceeds(lv: Level, sn: Snapshot, remoteHashes: map<Path, Digest>, items: seq<Entry>, st: UpState)
    requires DigestsFor(lv, remoteHashes, items)
    requires forall e :: e in items && e.node.File? && e.name !in lv.denied ==>
      !(Lookup(lv.RemoteEntries(), e.name).Some? && Lookup(lv.RemoteEntries(), e.name).value.Dir?)
    ensures UploadPass(lv, sn, remoteHashes, items, st).Success?
    decreases |items|
  {
    if |items| > 0 {
      assert items[0] in items;
      var next := UploadItem(lv, sn, remoteHashes, items[0], st).value;
      UploadPassSucceeds(lv, sn, remoteHashes, items[1..], next);
    }
  }

  /** A level whose remote tree is well formed and has no file/directory clash is planned without error. */
  lemma SyncLevelSucceeds(lv: Level, caches: Caches)
    requires DigestAvailable(lv, caches.remote)
    requires WellFormedEntries(lv.RemoteEntries())
    requires NoFileOverDir(lv) && NoDirOverFile(lv)
    ensures SyncLevel(lv, caches).Success?
  {
    var sn := lv.Observed();
    var items := lv.RemoteEntries();
    assert forall i :: 0 <= i < |items| ==> items[i].name in lv.RemoteNames();
    DownloadPassSucceeds(lv, sn, items, DownState([], caches.remote, items));
    var down := DownloadPhase(lv, caches.remote).value;
    DigestsAfterDownload(lv, caches.remote, down);
    UploadPassSucceeds(lv, sn, down.hashes, lv.local, UpState([], caches.local));
  }

  /**
   * When NLST refuses the remote directory, `sync` creates it, plans nothing
   * in the download pass, offers every local file for upload and descends
   * into every local subdirectory.
   */
  lemma MissingRemoteDirectory(lv: Level, caches: Caches)
    requires lv.remote.None?
    requires SyncLevel(lv, caches).Success?
    ensures var p := SyncLevel(lv, caches).value;
      && p.makeRemoteDir && p.download == []
      && (forall n :: Upload(n) in p.upload || UploadSkipped(n) in p.upload <==>
           exists e :: e in lv.local && e.name == n && e.node.File?)
      && (forall n :: RecurseUp(n) in p.upload <==> exists e :: e in lv.local && e.name == n && e.node.Dir?)
  {
    var p := SyncLevel(lv, caches).value;
    assert lv.RemoteNames() == [];
    forall n | exists e :: e in lv.local && e.name == n && e.node.Dir?
      ensures RecurseUp(n) in p.upload
    {
      var e :| e in lv.local && e.name == n && e.node.Dir?;
      NameListed(lv.local, e);
    }
  }

  /** Two remote caches agree at the path of every name listed locally. */
  predicate AgreeOnLocal(lv: Level, h1: map<Path, Digest>, h2: map<Path, Digest>)
  {
    forall n :: n in lv.LocalNames() ==>
      && (lv.RemotePath(n) in h1 <==> lv.RemotePath(n) in h2)
      && (lv.RemotePath(n) in h1 ==> h1[lv.RemotePath(n)] == h2[lv.RemotePath(n)])
  }

  /**
   * At the path of a locally listed name one download step does the same in
   * either mode: it records the digest of that entry when LIST shows a file,
   * and otherwise keeps what was cached.
   */
  lemma DownloadItemLocalDigests(lv: Level, sn: Snapshot, e: Entry, st: DownState)
    requires Matches(lv, sn)
    requires e.name in lv.RemoteNames()
    requires DownloadItem(lv, sn, e, st).Success?
    ensures var h := DownloadItem(lv, sn, e, st).value.hashes;
      forall n :: n in lv.LocalNames() ==>
        if n == e.name && n !in sn.dirs then
          e.node.File? && lv.RemotePath(n) in h && h[lv.RemotePath(n)] == lv.md5(e.node.data)
        else
          && (lv.RemotePath(n) in h <==> lv.RemotePath(n) in st.hashes)
          && (lv.RemotePath(n) in h ==> h[lv.RemotePath(n)] == st.hashes[lv.RemotePath(n)])
  {
    RemotePathsDiffer(lv, e.name);
    if lv.mode == SyncClient && e.name in sn.toDownload {
      var hashes := if e.name in sn.dirs then st.hashes else st.hashes[lv.RemotePath(e.name) := lv.md5(e.node.data)];
      var t := RemoteTarget(lv.rel, st.listing, e.name);
      var d := DeleteFile(None, Some(t), hashes).value;
      PruneKeepsListedDigests(lv, e.name, t, hashes, d.remoteHashes);
    }
  }

  /** One download step in each mode keeps the caches agreeing on locally listed names. */
  lemma DownloadItemAgree(lv: Level, sn: Snapshot, e: Entry, s1: DownState, s2: DownState)
    requires Matches(lv, sn)
    requires e.name in lv.RemoteNames()
    requires AgreeOnLocal(lv, s1.hashes, s2.hashes)
    requires DownloadItem(InMode(lv, SyncServer), sn, e, s1).Success?
    requires DownloadItem(InMode(lv, SyncClient), sn, e, s2).Success?
    ensures AgreeOnLocal(lv, DownloadItem(InMode(lv, SyncServer), sn, e, s1).value.hashes,
                         DownloadItem(InMode(lv, SyncClient), sn, e, s2).value.hashes)
  {
    DownloadItemLocalDigests(InMode(lv, SyncServer), sn, e, s1);
    DownloadItemLocalDigests(InMode(lv, SyncClient), sn, e, s2);
  }

  /** The download pass in each mode leaves caches that agree on locally listed names. */
  lemma {:induction false} DownloadPassAgree(lv: Level, sn: Snapshot, items: seq<Entry>, s1: DownState, s2: DownState)
    requires Matches(lv, sn)
    requires forall i :: 0 <= i < |items| ==> items[i].name in lv.RemoteNames()
    requires AgreeOnLocal(lv, s1.hashes, s2.hashes)
    requires DownloadPass(InMode(lv, SyncServer), sn, items, s1).Success?
    requires DownloadPass(InMode(lv, SyncClient), sn, items, s2).Success?
    ensures AgreeOnLocal(lv, DownloadPass(InMode(lv, SyncServer), sn, items, s1).value.hashes,
                         DownloadPass(InMode(lv, SyncClient), sn, items, s2).value.hashes)
    decreases |items|
  {
    if |items| > 0 {
      DownloadItemAgree(lv, sn, items[0], s1, s2);
      var n1 := DownloadItem(InMode(lv, SyncServer), sn, items[0], s1).value;
      var n2 := DownloadItem(InMode(lv, SyncClient), sn, items[0], s2).value;
      DownloadPassAgree(lv, sn, items[1..], n1, n2);
    }
  }

  /** One upload step reads the remote cache only at the path of a local file listed remotely. */
  lemma UploadItemCongruent(lv1: Level, lv2: Level, sn: Snapshot, h1: map<Path, Digest>, h2: map<Path, Digest>, e: Entry, st: UpState)
    requires lv2 == InMode(lv1, lv2.mode)
    requires DigestsFor(lv1, h1, [e]) && DigestsFor(lv2, h2, [e])
    requires e.node.File? && e.name in lv1.RemoteNames() ==> h1[lv1.RemotePath(e.name)] == h2[lv1.RemotePath(e.name)]
    ensures UploadItem(lv1, sn, h1, e, st) == UploadItem(lv2, sn, h2, e, st)
  {
    assert lv1.RemoteEntries() == lv2.RemoteEntries();
    assert e in [e];
    if e.node.File? {
      assert NeedUpload(lv1, h1, e) == NeedUpload(lv2, h2, e);
    }
  }

  /** The upload pass reads the remote cache only at the paths of the local files listed remotely. */
  lemma {:induction false} UploadPassCongruent(lv1: Level, lv2: Level, sn: Snapshot, h1: map<Path, Digest>, h2: map<Path, Digest>,
                                               items: seq<Entry>, st: UpState)
    requires lv2 == InMode(lv1, lv2.mode)
    requires DigestsFor(lv1, h1, items) && DigestsFor(lv2, h2, items)
    requires forall e :: e in items && e.node.File? && e.name in lv1.RemoteNames() ==>
      h1[lv1.RemotePath(e.name)] == h2[lv1.RemotePath(e.name)]
    ensures UploadPass(lv1, sn, h1, items, st) == UploadPass(lv2, sn, h2, items, st)
    decreases |items|
  {
    if |items| > 0 {
      assert items[0] in items;
      UploadItemCongruent(lv1, lv2, sn, h1, h2, items[0], st);
      var r := UploadItem(lv1, sn, h1, items[0], st);
      if r.Success? {
        UploadPassCongruent(lv1, lv2, sn, h1, h2, items[1..], r.value);
      }
    }
  }

  /** Both modes' download phases succeed with remote caches that agree on every local file listed remotely. */
  lemma DownloadPhaseAgree(lv: Level, remoteHashes: map<Path, Digest>)
    requires DigestAvailable(lv, remoteHashes)
    requires DownloadPhase(InMode(lv, SyncServer), remoteHashes).Success?
    requires DownloadPhase(InMode(lv, SyncClient), remoteHashes).Success?
    ensures var d1 := DownloadPhase(InMode(lv, SyncServer), remoteHashes).value;
      var d2 := DownloadPhase(InMode(lv, SyncClient), remoteHashes).value;
      && DigestsFor(InMode(lv, SyncServer), d1.hashes, lv.local)
      && DigestsFor(InMode(lv, SyncClient), d2.hashes, lv.local)
      && forall e :: e in lv.local && e.node.File? && e.name in lv.RemoteNames() ==>
        d1.hashes[lv.RemotePath(e.name)] == d2.hashes[lv.RemotePath(e.name)]
  {
    var lvS, lvC := InMode(lv, SyncServer), InMode(lv, SyncClient);
    var sn := lv.Observed();
    ObservedMatches(lv);
    var items := lv.RemoteEntries();
    var d1 := DownloadPhase(lvS, remoteHashes).value;
    var d2 := DownloadPhase(lvC, remoteHashes).value;
    DigestsAfterDownload(lvS, remoteHashes, d1);
    DigestsAfterDownload(lvC, remoteHashes, d2);
    assert forall i :: 0 <= i < |items| ==> items[i].name in lv.RemoteNames();
    DownloadPassAgree(lv, sn, items, DownState([], remoteHashes, items), DownState([], remoteHashes, items));
    forall e | e in lv.local && e.node.File? && e.name in lv.RemoteNames()
      ensures d1.hashes[lv.RemotePath(e.name)] == d2.hashes[lv.RemotePath(e.name)]
    {
      NameListed(lv.local, e);
    }
  }

  /** A planned level is its download phase followed by the upload pass over the local listing. */
  lemma SyncLevelParts(lv: Level, caches: Caches)
    requires DigestAvailable(lv, caches.remote)
    requires SyncLevel(lv, caches).Success?
    ensures DownloadPhase(lv, caches.remote).Success?
    ensures var down := DownloadPhase(lv, caches.remote).value;
      && DigestsFor(lv, down.hashes, lv.local)
      && UploadPass(lv, lv.Observed(), down.hashes, lv.local, UpState([], caches.local)).Success?
      && SyncLevel(lv, caches).value.upload ==
        UploadPass(lv, lv.Observed(), down.hashes, lv.local, UpState([], caches.local)).value.actions
      && SyncLevel(lv, caches).value.caches.local ==
        UploadPass(lv, lv.Observed(), down.hashes, lv.local, UpState([], caches.local)).value.hashes
  {
    DigestsAfterDownload(lv, caches.remote, DownloadPhase(lv, caches.remote).value);
  }

  /**
   * The upload half of `sync` is common to both modes: when a level is planned
   * without error in each, the uploads, the skipped uploads, the ascents and
   * the local cache coincide.
   */
  lemma UploadIndependentOfMode(lv: Level, caches: Caches)
    requires DigestAvailable(lv, caches.remote)
    ensures SyncLevel(InMode(lv, SyncServer), caches).Success? && SyncLevel(InMode(lv, SyncClient), caches).Success? ==>
      && SyncLevel(InMode(lv, SyncServer), caches).value.upload ==
         SyncLevel(InMode(lv, SyncClient), caches).value.upload
      && SyncLevel(InMode(lv, SyncServer), caches).value.caches.local ==
         SyncLevel(InMode(lv, SyncClient), caches).value.caches.local
  {
    var lvS, lvC := InMode(lv, SyncServer), InMode(lv, SyncClient);
    assert DigestAvailable(lvS, caches.remote) && DigestAvailable(lvC, caches.remote);
    if SyncLevel(lvS, caches).Success? && SyncLevel(lvC, caches).Success? {
      var sn := lv.Observed();
      SyncLevelParts(lvS, caches);
      SyncLevelParts(lvC, caches);
      DownloadPhaseAgree(lv, caches.remote);
      var d1 := DownloadPhase(lvS, caches.remote).value;
      var d2 := DownloadPhase(lvC, caches.remote).value;
      UploadPassCongruent(lvS, lvC, sn, d1.hashes, d2.hashes, lv.local, UpState([], caches.local));
    }
  }
}
