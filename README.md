# backup-checker, modelled in Dafny

backup-checker is a pair of Python scripts that reconcile directory trees by file
content.

- `main.py` hashes every file of a backup tree and a source tree into a *digest
  map*. A digest map is a dictionary from a SHA-256 hex digest to the list of
  paths with that content. The script can reuse a map cached in the tree's
  `hash.json`. It reports which source files have no copy in the backup (by
  content, never by name). On request, and only after the operator types
  `confirm`, it deletes the source files that do have a copy.
- `remove_duplicates.py` walks one tree. It deletes every file whose name ends
  in a copy number such as `photo (1).jpg` when a sibling without the number
  (`photo.jpg`) exists and hashing both gives the same result.

The model is split into modules that follow those scripts:

- `PosixPath` (posix_path.dfy): the Python helpers the scripts use on POSIX.
  These are `os.path.basename`, `dirname`, `join` and `splitext`, plus
  `str.strip().lower()` for console answers.
- `DigestMaps` (digest_maps.dfy): the map-building loop and the
  missing/backed-up classification loop of `main.py`. A digest map is a
  sequence of `Entry(digest, paths)`, because Python dictionaries keep
  insertion order and the outputs follow it. Each loop is a method proved
  against a specification function. The lemmas state what the map and the
  partition promise.
- `FileTree` (file_tree.dfy): the file system as both scripts see it. This is
  the `FileSystem` class, whose `files` and `caches` (the readable `hash.json`
  contents) change in place, plus a fixed `Environment`. The environment holds
  the directories, the paths that cannot be removed or written, and the hash of
  each file. The module also has the `hash.json` walk filter.
- `BackupChecker` (backup_checker.dfy): `hash_files_in_directory`,
  `find_unbacked_files` and the `confirm`-gated deletion batch.
- `DuplicateRemover` (duplicate_remover.dfy): the copy-number pattern, the
  sibling path, and the deletion loop of `remove_duplicates.py`.

Hashing is the input function `Environment.content : Path -> Option<Digest>`.
`None` stands for a failed read. A hash counts as successful in the Python
sense (`if file_hash:`) when it is `Some` and non-empty. The directory walk is
an input sequence of paths. Console answers are input strings.

## Model

| member | source | states |
|---|---|---|
| PosixPath.BasenameShape | main.py:29 | The basename contains no '/'. It is the suffix of the path that follows the last '/', or the whole path. |
| PosixPath.BasenameOfJoin | main.py:28 | Joining a name without '/' under any directory gives a path whose basename is that name. |
| PosixPath.DirnameOfJoin | remove_duplicates.py:38 | Joining a plain name under any directory that dirname can return gives a path whose dirname is that directory. |
| PosixPath.DirnameShape | remove_duplicates.py:38 | dirname returns the empty string, slashes only, or a path without a trailing '/'. |
| PosixPath.SplitExtParts | remove_duplicates.py:39 | The two parts of splitext concatenate to the input. A non-empty extension starts with '.' and contains no other '.' and no '/'. |
| PosixPath.SplitExtNoDot | remove_duplicates.py:39 | A name without a dot has an empty extension. |
| PosixPath.SplitExtAtDot | remove_duplicates.py:39 | A name without '/' whose last dot follows some non-dot character is split at that last dot. |
| PosixPath.TrimStart | main.py:62-64 | The result is a suffix of the input that starts with a non-space. Every character removed is a Python whitespace character. |
| PosixPath.TrimEnd | main.py:62-64 | The result is a prefix of the input that ends with a non-space. Every character removed is a Python whitespace character. |
| DigestMaps.BuildDigestMap | main.py:36-46 | The hashing loop builds exactly the specification map DigestMapOf. Its keys come in the order their digests are first met in the walk. |
| DigestMaps.RecordStep | main.py:38-43 | One more successfully hashed path is appended to its digest's list, and the key is created the first time that digest is met. A failed hash changes nothing. |
| DigestMaps.BucketsNonEmpty | main.py:40-43 | Every key of the built map has a non-empty list. |
| DigestMaps.DigestOrderDistinct | main.py:40-41 | No digest is a key twice. |
| DigestMaps.DigestOrderMembers | main.py:38-41 | A digest is a key exactly when some walked path hashed successfully to it. |
| DigestMaps.BucketMembers | main.py:38-43 | A path is listed under digest d exactly when it was walked, its hash succeeded, and its digest is d. |
| DigestMaps.FlattenIsHashed | main.py:36-46 | All lists together hold exactly the successfully hashed walked paths, with multiplicity. |
| DigestMaps.EachPathOnce | main.py:36-46 | For a walk without repeats, a successfully hashed path appears exactly once, and only under its own digest. A path whose hash failed appears nowhere. |
| DigestMaps.TotalLength | main.py:37-46 | The total length of all lists equals the number of successful hashes. |
| DigestMaps.BucketKeepsWalkOrder | main.py:36-43 | Two paths with the same digest appear in that digest's list in the order the walk visited them. |
| DigestMaps.Classify | main.py:97-108 | The nested loop outputs MissingOf and BackedUpOf. Together they hold every source path exactly once. |
| DigestMaps.Partition | main.py:101-106 | missing and backed_up together hold exactly the paths of all source lists. Their lengths add up to the total number of source paths. |
| DigestMaps.MissingByDigest | main.py:103-104 | A path is missing iff it is listed under a source digest that is not a key of the backup map. |
| DigestMaps.BackedUpByDigest | main.py:105-106 | A path is backed up iff it is listed under a source digest that is a key of the backup map. |
| DigestMaps.OnlyBackupDigestsMatter | main.py:103 | Two backup maps with the same keys classify every source map identically. Backup paths and names are never compared. |
| DigestMaps.FreshClassification | main.py:101-106 | For a freshly hashed source, a path is missing iff its hash succeeded with a digest the backup lacks. It is backed up iff its hash succeeded with a digest the backup has. It is never both. |
| FileTree.CollectFiles | main.py:26-32 | The collection loop keeps every walked path except those whose basename is `hash.json` (at any depth), in walk order. |
| FileTree.WithoutCacheMembers | remove_duplicates.py:30-34 | A path is collected iff it was walked and its basename is not `hash.json`. |
| FileTree.WithoutCacheDistinct | main.py:26-32 | Collecting a walk without repeats gives a list without repeats. |
| FileTree.CachePathName | main.py:50 | The cache file `join(root, "hash.json")` has basename `hash.json`, so no walk collects it. |
| FileTree.FreshIgnoresCacheFiles | main.py:29-30 | Two states of the tree that differ only in files named `hash.json` give the same digest map for the same walk. |
| FileTree.FileSystem.DeleteFile | main.py:110-116 | The removal succeeds iff the path is an existing, unlocked file. On success only that path (and its cache entry) disappears. On failure nothing changes and nothing is raised. |
| FileTree.FileSystem.LoadCache | main.py:67-68 | Loading returns the stored map unchanged when the cache file can be read back, and None otherwise. |
| FileTree.FileSystem.WriteCache | main.py:50-52 | The write succeeds iff the cache path is neither a directory nor locked. On success the cache file exists and holds the map, and nothing else changes. |
| BackupChecker.HashFilesInDirectory | main.py:18-54 | The result is the fresh digest map of the collected walk (or the write failure). The root's `hash.json` then holds that map, and nothing else changes. |
| BackupChecker.CacheOrRehash | main.py:61-68 | The cache is used verbatim iff `hash.json` exists at the root and the stripped, lower-cased answer is not "y". Otherwise the fresh map is used. A chosen cache that cannot be read is the only failure of this phase. |
| BackupChecker.YesKeepsCache | main.py:62-65 | The answer "yes" keeps the cache, and " Y" followed by a newline rehashes. |
| BackupChecker.SettleRoot | main.py:57-70 | The first phase for one root returns exactly the decision Acquired: the loaded map, "rehash", or the load failure. |
| BackupChecker.ResolveMaps | main.py:87-94 | The second phase rehashes (backup first) only the roots without a map, and stops at the first write failure. Cache files of other paths are kept. When the two roots' cache paths differ, the backup's `hash.json` is rewritten with its fresh map iff it is rehashed and writable, and the source's is rewritten iff it is rehashed and the run succeeds. Otherwise each keeps its presence and content, including a root's whose map was loaded. When the paths coincide, the shared file ends up holding the last map written: the source's if it is rehashed, else the backup's fresh map. |
| BackupChecker.FindUnbackedFiles | main.py:56-108 | The result is the classification of the source map against the backup map that Obtained prescribes, or the first failure. The new state is given exactly. Cache files of other paths are kept. When the two roots' cache paths differ, the backup's `hash.json` is rewritten with its fresh map iff both first phases succeed, it is rehashed and it is writable. The source's is rewritten with the map used iff it is rehashed and the run succeeds. Otherwise each is kept, including a loaded root's. When the paths coincide, the shared file ends up holding the last map written, even when the other root's stale cached map is the one classified. |
| BackupChecker.DeleteBackedUp | main.py:173-184 | Nothing is attempted unless the normalised answer is exactly "confirm". Then every backed-up path is attempted once, in order, and a failed removal does not stop the rest. The tree loses exactly the listed, removable paths. |
| DuplicateRemover.FindCopySuffixSound | remove_duplicates.py:43 | A match is a non-empty run of ASCII digits in " (…)" at the end of the name, or just before a final newline. The pieces spell the name back. |
| DuplicateRemover.FindsEveryCopySuffix | remove_duplicates.py:43-45 | Every name that ends in a copy number is matched at exactly that place. Stripping removes exactly that one suffix. |
| DuplicateRemover.StrippedNameShape | remove_duplicates.py:39-48 | The stripped name plus extension contains no '/' and is shorter than the original name. |
| DuplicateRemover.TargetIsSibling | remove_duplicates.py:38-48 | The compared path is in the same directory and is never the visited file itself. |
| DuplicateRemover.SplitCopyName | remove_duplicates.py:39 | splitext of "base (n).ext" gives the copy-numbered stem and the extension. |
| DuplicateRemover.CopyTargetIn | remove_duplicates.py:45-48 | Within a directory, "base (n).ext" is compared with "base.ext". |
| DuplicateRemover.CopyTarget | remove_duplicates.py:38-48 | Under any directory, `photo (1).jpg` is compared with `photo.jpg` in that same directory. |
| DuplicateRemover.VisitPath | remove_duplicates.py:38-56 | delete_file is called iff the path has a copy number, the target exists now, and the two hash results are equal (CallsDelete). Only the visited file can disappear. |
| DuplicateRemover.SweepPaths | remove_duplicates.py:37-56 | The loop gives exactly the Sweep of the collected paths. Each test sees the earlier deletions, and the caches of deleted files go with them. |
| DuplicateRemover.RemoveDuplicates | remove_duplicates.py:27-56 | The result is the sweep of the walk without `hash.json` files. Every deleted path was walked, is not named `hash.json`, has a copy number, and was attempted. Over a walk without repeats, each path is attempted at most once. |
| DuplicateRemover.SweepDeletesOnlyCopies | remove_duplicates.py:43-56 | A sweep only removes paths that it attempted, that are unlocked, and that have a copy number. Files without one are never deleted. |
| DuplicateRemover.SweepAttemptsOnce | remove_duplicates.py:37-56 | Over paths without repeats, delete_file is called at most once per path. |
| DuplicateRemover.VisitOrderMatters | remove_duplicates.py:37-56 | When a copy's target is itself a deletable copy, visiting the copy first hands it to delete_file and, when it is removable, deletes it. Visiting the target first deletes the target, and the copy is then not attempted. |
| DuplicateRemover.CopyFirst | remove_duplicates.py:49-56 | A copy that passes the test when visited first is attempted. |
| DuplicateRemover.SiblingFirst | remove_duplicates.py:49-56 | Once the target has been deleted, the copy is no longer attempted. |
| DuplicateRemover.FailedHashesMatch | remove_duplicates.py:53 | Consider an unreadable copy whose target is a directory. delete_file is still called on it, although neither hash succeeded. |
| DuplicateRemover.CheckedDeletionKeepsContent | remove_duplicates.py:49-56 | Under the intended test (both hashes succeed and agree), a deleted file's content survives in a different regular file in the same directory. |

## Left out

- SHA-256 and the chunked file reads of `compute_hash` (main.py:6-16, remove_duplicates.py:15-25) are not modelled. Hashing is the input function `Environment.content`, and a path that is not a regular file hashes to None.
- The walk of `os.walk` is an input sequence of paths. Results that need it to be without repeats say so.
- JSON serialisation of `hash.json` is not modelled. A readable cache holds the digest map verbatim, keys in order. A cache file that cannot be read back is a `CacheUnreadable` failure. A file holding JSON `null` would make the script rehash, which the model does not capture.
- The exceptions of `open`/`json.load`/`json.dump` end the Python run. In the model they are the `Failure` results `CacheUnreadable` and `CacheUnwritable`. Write failures come from the `locked` set and directories.
- `print`, `tqdm`, `argparse`, the `--missing`/`--backed` list files (main.py:148-170) and the script entry of remove_duplicates.py (remove_duplicates.py:58-63) are console and file output and are left out. The `--delete_backed` flag is modelled as the decision to call `DeleteBackedUp`.
- `input()` is modelled as answer strings given as parameters.
- `str.lower()` is modelled on ASCII letters only, and `\d` matches ASCII digits only. Answers are only compared with "y" and "confirm", so lower-casing of other letters cannot change those comparisons; other Unicode digits in copy numbers are not recognised.
- When both roots share one `hash.json` (the same root given twice), a cached map loaded for one root is classified while the other root's rehash overwrites that file. The model reproduces this and does not treat it as an error.
- Paths are compared as strings, so spellings that the operating system resolves to the same file are different paths here. Examples: the target `d/` of a file named just ` (n)` (which Python's `exists` resolves to the directory `d`), the target `d/.` of a file named ` (n).`, and a root given as `photos//`: dirname strips the slashes, so the target of `photos//a (1).txt` is spelled `photos/a.txt` while the walk lists the sibling as `photos//a.txt`.
- The file system stays fixed during a run apart from the scripts' own writes and removals. Concurrent changes, symbolic links and permission changes are not modelled.
- DuplicateRemover.VisitPath: computes the compared path with the function `Target` (dirname, splitext, the regex substitution, join) rather than statement by statement.

## Findings

| source | as written | input that shows it | evidently intended | confidence | as-written member | corrected member |
|---|---|---|---|---|---|---|
| remove_duplicates.py:53 | `file_hash == new_hash` is also true when both hashes failed (`None == None`) | an unreadable file `d/a (1)` next to a directory `d/a` (or next to another unreadable `d/a`) is deleted although no content was compared | delete only when both hashes succeeded and agree | medium, not executed | DuplicateRemover.FailedHashesMatch | DuplicateRemover.CheckedDeletionKeepsContent |

`DuplicateRemover.RemoveDuplicates` keeps the behaviour as written (`CallsDelete`).
The corrected test is `CallsDeleteChecked`.
