# ftp-client-python sync logic, modelled in Dafny

`FTPClient` in `connect.py` mirrors a local directory tree and a directory on an FTP
server. `sync(local_path, remote_path, mode)` reads one directory level on each side,
then makes two passes:

- The download pass runs over the server's NLST reply. In SYNC_SERVER mode it fetches
  files missing locally and descends into remote directories. In SYNC_CLIENT mode it
  deletes remote entries missing locally.
- The upload pass runs over the local listing. It STORs files whose MD5 digest differs
  from the server's, and descends into local directories the server lacks.

Which remote names are directories is decided by parsing the text of LIST
(`get_directories`). `delete_file` removes a remote directory by emptying it
recursively. Two class-level dictionaries, `remote_hashes` and `local_hashes`, cache
digests by path.

This project models that logic as pure functions over immutable trees:

- `FileTree`: a tree is `Node = File(data) | Dir(children)`. Paths are sequences of
  names. Both the server and the local disk are such trees.
- `Listing`: `str.split`, `split(":")[-1]`, `[3:]`, `startswith("d")`, and the
  `get_directories` parser built from them.
- `Server`: the LIST text the server prints for a listing, in Unix `ls -l` form with an
  `HH:MM` time column. Parsing that text agrees with the real node kinds.
- `Paths`: the slash normalisation at the start of `sync`.
- `Diff`: the symmetric-difference partition into download and upload candidates.
- `Ftp`: the removal operations (`os.remove`, DELE, RMD) a deletion performs, and the
  transport failures the source does not catch.
- `Cascade`: `delete_file`, both as written and corrected. The remote cascade (`DeleteNode`) is what both run without a local path; the version as written fails when it hands its local path to a child's call.
- `Planner`: one invocation of `sync` as a plan.
  - `Snapshot` holds `directories`, `to_download_list` and `to_upload_list`, computed
    once per level before both loops, as the source does.
  - The plan holds MKD when NLST failed, the download actions, the upload actions and
    both caches afterwards.
  - A recursive `sync` call appears as an action (`RecurseDown`, `RecurseUp`) and is
    planned by another invocation.
  - Those nested calls only write cache keys one level deeper, so they do not affect
    the keys of the level being planned.
- `SyncFacts`: properties that span a whole level.
  - A well-formed level without file/directory clashes is planned without error.
  - When NLST fails, everything local is offered for upload.
  - The upload half of a level is the same in both modes.

External effects are parameters of the model:

- The MD5 digest is a function `md5: Data -> Digest` held by the level.
- The set of local names whose upload raises `PermissionError` is a parameter `denied`.
- Uncaught errors are `Failure` values of a `Result`:
  - RETR of a directory while hashing;
  - STOR over a remote directory;
  - DELE of a directory;
  - NLST of a file;
  - DELE of a missing entry;
  - `os.remove` of a local path already removed (`FileNotFoundError`), which the
    recursion of `delete_file` as written runs into;
  - `os.listdir` of a local file, when in SYNC_SERVER mode a remote directory meets a
    local file of the same name and the nested `sync` lists it (`NotADirectoryError`).
- `upload_file` opens the local file before STOR, so a denied file is skipped before
  the server is asked anything.
- The `KeyError` that `remote_hashes[work_remote_path]` raises at `connect.py:141` is a
  precondition of `Planner.SyncLevel`, named `DigestAvailable`. A local file whose name
  LIST shows as a remote directory must find a digest already cached for that path.
  Every other lookup there is proved to succeed.

## Model

| member | source | states |
|---|---|---|
| Listing.Split | connect.py:39 | `split` yields at least one field, no field contains the separator, and joining the fields with the separator gives back the input |
| Listing.SplitJoin | connect.py:39 | splitting the join of separator-free fields gives back exactly those fields (the round trip in the other direction) |
| Listing.SplitAfterField | connect.py:39 | a separator-free leading field followed by the separator splits off as the first field |
| Listing.SplitPrinted | connect.py:32-39 | the text `dir()` prints, one line per entry plus a final newline, splits back into those lines followed by one empty string |
| Listing.LastFieldIsSuffix | connect.py:44 | `split(":")[-1]` is a separator-free suffix of the line, preceded by a ':' whenever it is shorter than the line |
| Listing.LastFieldAfter | connect.py:44 | `split(":")[-1]` of `a + ":" + b` is `b` when `b` has no ':' |
| Listing.Directories | connect.py:41-45 | a name is collected exactly when some line starts with "d" and its last ':' field minus three characters is that name |
| Listing.OtherLinesIgnored | connect.py:41 | a line not starting with "d" does not change the set of directory names |
| Listing.DirectoryNameOfLsLine | connect.py:42-44 | for an `ls -l` line ending in `HH:MM name`, the parser recovers `name` when the name has no ':' |
| Server.LsLineKind | connect.py:41 | the rendered LIST line of an entry starts with "d" exactly when the entry is a directory |
| Server.Classification | connect.py:21-46 | when names contain no ':' and no newline, `get_directories` of the LIST text holds exactly the names of the directory entries |
| Server.ClassifiedAsDir | connect.py:21-46 | in a listing with distinct, plain names, an entry is classified as a directory exactly when it is one |
| Paths.ReplaceSlashes | connect.py:81-82 | `replace("/", "\\")` keeps the length, leaves no '/', and maps each character pointwise |
| Paths.NormalizeLocal | connect.py:81 | the normalised local path has no '/' and keeps the length |
| Paths.NormalizeRemote | connect.py:82-84 | the normalised remote path has no '/'; it is empty exactly for "", "/" and "\\"; otherwise it keeps the length |
| Paths.NormalizeLocalIdempotent | connect.py:81 | normalising a local path twice equals normalising it once |
| Paths.NormalizeRemoteIdempotent | connect.py:82-84 | normalising a remote path twice equals normalising it once |
| Diff.SymmetricDifference | connect.py:99 | `^` holds the names in exactly one of the two sets |
| Diff.Partition | connect.py:99-101 | download and upload candidates are disjoint and together make up the symmetric difference; a name is a download candidate iff it is remote and not local, an upload candidate iff it is local and not remote |
| Ftp.OpsAppend | connect.py:61-73 | the DELE paths, RMD paths and local-removal count of a concatenation of removal sequences are the unions and the sum of the parts |
| Ftp.DelePathsMember | connect.py:67 | a path is among the DELE paths exactly when some operation is DELE of it |
| Ftp.RmdPathsMember | connect.py:73 | a path is among the RMD paths exactly when some operation is RMD of it |
| Cascade.DeleteNode | connect.py:64-73 | `delete_file(None, p)`: on success the classification matched the node kind; DELE hits exactly the files of the subtree and RMD exactly its directories; exactly their digests are evicted; nothing local is removed; every operation stays inside the subtree |
| Cascade.DeleteChildren | connect.py:71-72 | emptying a directory deletes exactly the files and directories below it, evicts exactly their digests, and removes nothing local |
| Cascade.DeleteNodePostOrder | connect.py:66-73 | in a well-formed tree every RMD comes after every DELE and RMD of a path strictly below it |
| Cascade.DeleteNodeSucceeds | connect.py:64-73 | in a well-formed tree, with classification agreeing with node kinds, the cascade with no local path never fails |
| Cascade.DeleteFile | connect.py:61-73 | the local path, when given, is removed exactly once and first; with no remote path nothing remote changes; with a remote path the entry exists, DELE and RMD hit exactly the paths of its subtree, exactly their digests are evicted, and everything stays inside it; with no local path it coincides with the code as written |
| Cascade.RmdOnlyOnEmptied | connect.py:70-73 | removing a listed entry of a well-formed listing succeeds, and each RMD comes only after everything below that directory was removed |
| Cascade.TargetPostOrder | connect.py:61-73 | removing a listed entry of a well-formed listing with no local path succeeds, and each RMD comes after everything below it |
| Cascade.DeleteFilePostOrder | connect.py:61-73 | the corrected `delete_file` of a listed entry succeeds and keeps that post-order after the local removal |
| Cascade.AsWrittenRemovesLocalTwice | connect.py:61-73 | as written, deleting local `x` together with a remote directory holding one file fails at the second `os.remove(x)`, before any DELE or RMD; the corrected version removes `x` once, DELEs the file and RMDs the directory |
| Cascade.AsWrittenWithoutLocal | connect.py:61-73 | with no local path the recursion as written, `os.remove` included, is exactly the remote cascade |
| Cascade.AsWrittenTarget | connect.py:61-73 | `delete_file(None, path)` as written equals the remote cascade on that entry |
| Cascade.AsWrittenWithLocal | connect.py:61-73 | with a local path, the code as written fails with `FileNotFoundError` exactly when the target is a remote directory classified as one and holding entries; otherwise it equals the corrected `delete_file` |
| Cascade.AsWrittenNodeWithLocal | connect.py:62-73 | at node level, the code as written with a local path is one local removal in front of the remote cascade, unless a child's call repeats the removal and fails |
| Cascade.FilePathsWithin | connect.py:71-72 | every file path of a subtree extends the subtree's root path |
| Planner.PruneEntry | connect.py:125-127 | pruning appends exactly one action, a prune of that name; LIST no longer shows the name; no digest key is gained |
| Planner.DownloadItem | connect.py:106-127 | one remote item only appends download-pass actions; an item LIST does not show as a directory is a file, or RETR fails; in SYNC_SERVER mode a remote directory fails exactly when its name is a local file, whose `os.listdir` in the nested `sync` raises |
| Planner.DownloadItemActions | connect.py:109-127 | one remote item: a download exactly for a non-directory missing locally and a descent exactly for a directory, both only in SYNC_SERVER mode; a prune exactly for a name missing locally in SYNC_CLIENT mode |
| Planner.DownloadItemDigests | connect.py:109-127 | one remote item: a non-directory is a file, or RETR fails; it gets a digest, kept in SYNC_CLIENT mode when listed locally; SYNC_SERVER only adds keys; digests of locally listed names survive; a directory never gains one |
| Planner.PruneDeletesSubtree | connect.py:125-127 | the SYNC_CLIENT prune of a remote entry is a cascade whose DELE and RMD paths are exactly the files and directories of its subtree, evicting exactly the digests of those files |
| Planner.PruneKeepsListedDigests | connect.py:66-69 | pruning a name missing locally keeps the digest, and its value, at the path of every locally listed name |
| Planner.DownloadPass | connect.py:106-127 | the pass only appends download-pass actions |
| Planner.DownloadPassActions | connect.py:106-127 | the pass downloads exactly the remote non-directories missing locally and descends into exactly the remote directories, with a local MKDIR exactly when the name is missing locally, both only in SYNC_SERVER mode; in SYNC_CLIENT it prunes exactly the remote names missing locally |
| Planner.DownloadPassKeeps | connect.py:106-127 | SYNC_SERVER only adds keys to `remote_hashes`; digests at locally listed names survive the pass; a directory's path never gains a digest |
| Planner.DownloadPassFiles | connect.py:109-110 | every item the pass got through that LIST does not show as a directory is a file |
| Planner.DownloadPassDigests | connect.py:109-110 | after the pass every non-directory item has a digest in SYNC_SERVER mode, and in SYNC_CLIENT mode when it is listed locally |
| Planner.FirstItemDigest | connect.py:109-127 | the digest the first step records at a non-directory's path survives the rest of the pass |
| Planner.UploadItem | connect.py:129-153 | one local item: the file's digest is cached at its local path; STOR, or STOR skipped by the swallowed `PermissionError`, is planned exactly when the file is new remotely or its digest differs; a directory is descended into exactly when the server lacks it; the step fails exactly when a file the client can open needs STOR onto a remote directory |
| Planner.UploadPass | connect.py:129-153 | the pass only appends upload-pass actions |
| Planner.UploadPassActions | connect.py:136-153 | uploads and skipped uploads are exactly the local files that need upload, split by whether the upload is denied; ascents are exactly the local directories among the upload candidates |
| Planner.UploadPassDigests | connect.py:132-135 | afterwards `local_hashes` has exactly the old keys plus the local file paths, and every other key keeps its value |
| Planner.UploadPassDigestValues | connect.py:132-135 | every local file path is cached, and with distinct local names it holds the digest of that file's content |
| Planner.SyncLevel | connect.py:75-153 | MKD exactly when NLST failed; the download, descent, prune, upload, skipped-upload and ascent actions are exactly those the level calls for, stated against the listings and the candidate sets; no `KeyError` can occur, since every local file listed remotely has a remote digest |
| Planner.SyncLevelCaches | connect.py:106-135 | after a level the remote cache has a digest for every hashed remote file and none new for a directory; `local_hashes` gains exactly the local file paths, with their digests when local names are distinct, and every other key keeps its value |
| Planner.DigestsAfterDownload | connect.py:138-142 | after the download pass every local file listed remotely finds a remote digest |
| SyncFacts.WithoutWellFormed | connect.py:125-127 | removing an entry from a well-formed remote listing leaves it well formed |
| SyncFacts.DownloadPassSucceeds | connect.py:106-127 | over a well-formed remote listing the download pass never fails, in either mode, unless in SYNC_SERVER mode a remote directory meets a local file |
| SyncFacts.UploadPassSucceeds | connect.py:129-153 | the upload pass never fails when no local file the client can open meets a remote directory of the same name |
| SyncFacts.SyncLevelSucceeds | connect.py:75-153 | a well-formed level without a file/directory clash is planned without error |
| SyncFacts.MissingRemoteDirectory | connect.py:93-97 | when NLST fails, the directory is created, the download pass does nothing, every local file is offered for upload, and every local subdirectory is descended into |
| SyncFacts.DownloadItemLocalDigests | connect.py:109-127 | at the path of a locally listed name, one download step does the same in either mode |
| SyncFacts.DownloadItemAgree | connect.py:106-127 | one download step in each mode keeps two remote caches agreeing at the paths of locally listed names |
| SyncFacts.DownloadPassAgree | connect.py:106-127 | both modes' download passes leave remote caches that agree at the paths of locally listed names |
| SyncFacts.UploadItemCongruent | connect.py:138-142 | one upload step reads the remote cache only at the path of a local file listed remotely, and does not read the mode |
| SyncFacts.UploadPassCongruent | connect.py:138-142 | the upload pass reads the remote cache only at the paths of local files listed remotely |
| SyncFacts.DownloadPhaseAgree | connect.py:106-142 | both modes' download passes leave a digest for every local file listed remotely, and the same digest |
| SyncFacts.SyncLevelParts | connect.py:75-153 | a planned level's upload actions and `local_hashes` are those of the upload pass run after its download pass |
| SyncFacts.UploadIndependentOfMode | connect.py:128-153 | whenever the level succeeds in both modes, the upload actions and the resulting `local_hashes` are identical |

## Left out

- Transport: ftplib commands are not modelled as I/O. NLST, LIST, RETR and SIZE read the remote tree. STOR, DELE, RMD and MKD become plan actions or operations. Connection errors are not modelled.
- `get_directories` stdout redirection: the text `dir()` prints is computed from the listing (`Server.ListText`).
- MD5: the digest is the parameter `md5`. `hashlib` is not modelled.
- `os` calls: `os.listdir`, `os.path.exists`, `os.makedirs`, `os.remove` and `os.path.getsize` are reads of the local tree or plan actions. Windows `os.path.join` separators are not modelled. Paths are sequences of names; `Paths` covers the string normalisation on its own.
- `print(item)`, the constructor and the encoding setting are not modelled.
- The `enum` constants are the datatype `Mode`.
- Recursive `sync` calls are actions of the plan, not executed. `SyncLevel` plans one level.
- Downloads and uploads are planned, not performed. The local tree is not updated after a download.
- `remote_hashes` and `local_hashes` are class attributes shared by all instances. The model threads them explicitly as `Caches`.
- Planner.NeedDownload: for a remote file whose name is a local directory, the source leaves `need_download` as it was. The model returns false. This cannot be observed, because such a name is never a download candidate.
- Planner.UploadItem: the `PermissionError` caught around STOR is the parameter `denied`. An unreadable local file makes the hashing at `connect.py:134` raise first, uncaught. That case is not modelled.
- Server.ListText: LIST output is modelled in the `HH:MM` time form only. For entries older than six months, `ls` prints a year with no ':', which the parser misreads. Names containing ':' or a newline are excluded by `PlainName`, because the parser takes the text after the last ':' and a newline splits the LIST line; names with spaces are handled (`Listing.DirectoryNameOfLsLine`).
- SyncFacts.SyncLevelSucceeds: assumes a well-formed remote listing (distinct, plain names). It does not characterise every failure.
- Failures: a `Failure` reports the error only, not the removals, transfers or cache updates performed before it was raised.
- The local file handed to `delete_file` is assumed to exist for its first `os.remove`.

## Findings

| source | as written | input that shows it | evidently intended | confidence | as-written member | corrected member |
|---|---|---|---|---|---|---|
| connect.py:61-73 | `delete_file(local_path, remote_path)` passes `local_path` on to every recursive call for the children of a remote directory; `sync` only ever passes `None` (connect.py:127), so the defect is reachable only by other callers | `delete_file("x", "d")` where the remote `d` holds one file `a`: `os.remove("x")` runs for `d`, then again in the call for `d/a`, where it raises `FileNotFoundError` before DELE of `d/a` and RMD of `d` | remove the local file once, then empty and remove the remote directory (`None` as the local path of the recursion) | not executed | Cascade.AsWrittenRemovesLocalTwice | Cascade.DeleteFile |
