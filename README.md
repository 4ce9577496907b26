# CrawlerStorage core, modelled in Dafny

CrawlerStorage has two parts.

- **Storage server.** A small Flask service takes a mapping
  comic → episode → page URLs. It turns the mapping into download tasks,
  each naming the file `mnt/comics/<comic>/<episode>/<NNN><ext>`, and hands
  every task to a downloader.
- **FUSE filesystem (Rust).** It shows the comics, episodes, files and tags
  kept in an SQLite database as a directory tree. File contents are stored
  by the SHA-256 digest of their data.

This project models the core of both parts and proves what they promise.

- **`Storage`** (`storage.dfy`) models the `add` handler.
  - The nested comprehension becomes the function `DeriveTasks`.
  - The dispatch loop becomes the class `StorageServer`, whose `Add` appends
    every derived task, in order, to a log of dispatched tasks.
  - Proved: the number of tasks, their order and position, the shape of every
    path, that file names within an episode are distinct, the test fixture,
    and the round trip through `asdict` / `Task(**d)`.
  - Each `/` of the page path is joined as `pathlib` joins: a comic or
    episode name starting with '/' starts the path over outside the mount
    point, and a name "" or "." disappears. Proved: what such names do to a
    page path.
- **`PyPath`** (`py_path.dfy`) models the Python library functions `add`
  relies on: `str(int)`, `str.zfill`, `os.path.splitext`, and `pathlib`
  joining (`splitroot`, dropped "" and "." parts, restart at a root) and
  rendering.
- **`Hex`** (`hex.dfy`) models the `Debug` impl of `Hex<T>`: `"0x"` followed
  by the lower-case hex digits. Proved: the round trip, canonical form and
  injectivity.
- **`Inodes`** (`inodes.dfy`) models the 64-bit inode encoding. Five mark
  bits give the kind, read with a fixed priority; the low bits give the id.
  There are five constructors.
- **`ComicDb`** (`comic_db.dfy`) models the database tables as sequences of
  rows. Each lookup the filesystem performs returns the first matching row.
  Taggings form one table: each row has its own id, the tag, and the target.
  Lemmas cover lookups after an insert and after the `content_hash` update.
- **`ComicFs`** (`comic_fs.dfy`) models `resolve` and `resolve_inode`.
  - Both are loops (`Resolve`, `ResolveInode`) proved equal to recursive
    specifications (`ResolveFrom`, `InodePath`).
  - Proved about the specifications: the path shapes `resolve_inode`
    builds, the depth at which each kind of node is reached, and that the
    two walks invert each other when names are unique.
- **`FuseOps`** (`fuse_ops.dfy`) models `generate_storage_path` and the
  handlers `lookup`, `read`, `write`, `setattr`, `create`, `mkdir` and
  `readlink`.
  - Each handler is a function from the database, and the request, to its
    reply and the new database.
  - Proved: the kind gates in both directions, that stored hashes stay
    "" or a digest, when a handler panics, write-then-read, that what
    `create`/`mkdir` insert is found by `resolve`, and that `lookup` and
    `readlink` agree with the two walks.
  - `read` and the tag branch of `lookup` are modelled both as written and
    corrected (see Findings).
- **`Mount`** (`mount.dfy`) models the `ComicFS` object. The handlers that
  change the database are methods that update its `db` field and keep the
  stored-hash invariant.

A Rust panic (`unwrap`, `unreachable!`, `todo!`, an out-of-range slice) is
modelled as an explicit outcome: `Panicked` for the walks, `Panic` for the
handlers. Three things are parameters:

- `STORAGE_BASE` and the mount point;
- the ids the database assigns to new rows;
- the SHA-256 digest of written data.

## Model

| member | source | states |
|---|---|---|
| Hex.HexDigit | src/hex.rs:8 | each value below 16 becomes a lower-case hex digit, and only 0 becomes '0' |
| Hex.DigitValue | src/hex.rs:8 | reading a hex digit gives a value below 16 that encodes back to the same digit |
| Hex.DigitValueOfHexDigit | src/hex.rs:8 | decoding the digit of a value gives the value back |
| Hex.LowerHex | src/hex.rs:8 | `LowerHex` output is non-empty hex digits; it starts with '0' exactly for zero, which prints as "0" |
| Hex.DebugHex | src/hex.rs:5-10 | the Debug text starts with "0x", continues with hex digits only, and has a leading zero digit exactly for zero |
| Hex.ParseLowerHex | src/hex.rs:8 | reading the lower-hex digits back in base 16 gives the value |
| Hex.DebugHexRoundTrip | src/hex.rs:7-8 | reading the digits after "0x" back in base 16 gives the wrapped value |
| Hex.ParseHexAtLeastLead | src/hex.rs:8 | a hex numeral is worth at least its leading digit, so a non-zero lead means a non-zero value |
| Hex.LowerHexParse | src/hex.rs:8 | every canonical lower-hex string is the `LowerHex` of its value |
| Hex.DebugHexInjective | src/hex.rs:5-10 | two values print the same Debug text exactly when they are equal |
| PyPath.DigitChar | storage-server/__init__.py:31 | a digit below 10 becomes a decimal digit character |
| PyPath.Decimal | storage-server/__init__.py:31 | `str(num)` is non-empty decimal digits, starting with '0' exactly for zero |
| PyPath.ParseDecimalOfDecimal | storage-server/__init__.py:31 | reading `str(num)` back gives `num` |
| PyPath.DecimalWidth | storage-server/__init__.py:31 | `str(n)` has at most k+1 digits exactly when n < 10^(k+1) |
| PyPath.DecimalLength | storage-server/__init__.py:31 | `str(n)` has at most three digits exactly when n < 1000 |
| PyPath.Zeros | storage-server/__init__.py:31 | the padding is k '0' characters |
| PyPath.ParseDecimalLeadingZeros | storage-server/__init__.py:31 | leading zeros do not change a decimal numeral's value |
| PyPath.ZerosParse | storage-server/__init__.py:31 | a run of zeros is worth 0 |
| PyPath.ZFill | storage-server/__init__.py:31 | `zfill(width)` puts `width - len` zeros in front of the string, after a leading '+' or '-' when there is one, and returns a string already `width` long unchanged |
| PyPath.OrdinalProperties | storage-server/__init__.py:31 | `str(num).zfill(3)` has at least 3 digits, is zero-padded below 1000, is plain decimal from 1000 up, and reads back as `num` |
| PyPath.RFind | storage-server/__init__.py:31 | the last index of a character, or -1 when the character is absent |
| PyPath.SplitExt | storage-server/__init__.py:31 | `splitext` splits the string into root + ext; ext is empty or a '.' with no further '.' or '/'; leading dots of the basename do not start an extension |
| PyPath.Render | storage-server/__init__.py:26-32 | `str()` of an absolute path starts with '/' |
| PyPath.Find | storage-server/__init__.py:26-32 | the first index of a character, or -1 when the character is absent |
| PyPath.Split | storage-server/__init__.py:26-32 | splitting on '/' gives at least one part |
| PyPath.SplitJoin | storage-server/__init__.py:26-32 | splitting a '/'-join of slash-free parts gives the parts back |
| PyPath.ComponentsRender | storage-server/__init__.py:26-32 | a rendered path of safe segments splits back into those segments |
| PyPath.RenderInjective | storage-server/__init__.py:26-32 | two paths of safe segments render the same exactly when they are the same |
| PyPath.RelPartsSafe | storage-server/__init__.py:27-31 | a path-safe segment splits into exactly one part, itself |
| PyPath.JoinSafe | storage-server/__init__.py:27-31 | `p / seg` for a path-safe segment appends exactly that one part |
| PyPath.JoinAllSafe | storage-server/__init__.py:27-31 | joining path-safe segments in turn appends them all, in order |
| PyPath.JoinAbsolute | storage-server/__init__.py:27-31 | `p / ("/" + n)` throws `p` away and is the absolute path `/n` |
| PyPath.JoinEmpty | storage-server/__init__.py:27-31 | `p / ""` and `p / "."` are `p` |
| PyPath.StrRoot | storage-server/__init__.py:26-32 | `str()` of an absolute path is '/' followed by its parts joined with '/' |
| PyPath.StrJoinAllSafe | storage-server/__init__.py:26-32 | an absolute path joined with path-safe segments renders as the parts followed by the segments |
| PyPath.StrJoinAllRestart | storage-server/__init__.py:26-32 | after a segment "/" + n only n and the segments after it remain in the rendered path |
| PyPath.StrJoinAllSkip | storage-server/__init__.py:26-32 | a segment "" or "." leaves no trace in the rendered path |
| Storage.ComicTasksCount | storage-server/__init__.py:36-37 | one comic yields one task per page across its episodes |
| Storage.DeriveTasksCount | storage-server/__init__.py:24-38 | the number of tasks is the total number of page URLs |
| Storage.ComicTasksFlatten | storage-server/__init__.py:36-37 | one comic's tasks are its episodes' task lists, concatenated in order |
| Storage.DeriveTasksFlatten | storage-server/__init__.py:35-37 | the tasks are the comics' task lists, concatenated in mapping order |
| Storage.ComicTasksAt | storage-server/__init__.py:36-37 | page `num` of episode `e` is the comic's task at position (pages of earlier episodes) + `num`, with its own path and unchanged URL |
| Storage.DeriveTasksAtComic | storage-server/__init__.py:35-37 | task `k` of comic `c` is the download task at position (pages of earlier comics) + `k` |
| Storage.DeriveTasksAt | storage-server/__init__.py:24-38 | the download task at position (pages of earlier comics) + (pages of earlier episodes) + `num` is page `num` of episode `e` of comic `c`, with path `str(mount_point / "comics" / c / e / NNN.ext)` and the URL unchanged |
| Storage.FileNameSafe | storage-server/__init__.py:31 | a page file name is a valid path segment |
| Storage.DigitPrefix | storage-server/__init__.py:31 | the longest all-digit prefix of a file name |
| Storage.PageIndexOfFileName | storage-server/__init__.py:31 | the file name's digit prefix reads back as the page index |
| Storage.FileNamesDistinct | storage-server/__init__.py:31 | different page indices give different file names, whatever the URLs |
| Storage.PagePathOfSafeNames | storage-server/__init__.py:26-32 | with path-safe comic and episode names, the page path is `mount_point/comics/<comic>/<episode>/<file>` |
| Storage.PagePathOfAbsoluteComic | storage-server/__init__.py:26-32 | a comic named "/" + n puts the page at `/n/<episode>/<file>`, outside the mount point |
| Storage.PagePathOfEmptyComic | storage-server/__init__.py:26-32 | a comic named "" or "." puts the page at `mount_point/comics/<episode>/<file>` |
| Storage.PagePathComponents | storage-server/__init__.py:26-31 | a task path is `mount_point / "comics" / comic / episode / file name`, component by component |
| Storage.ComicTasksShape | storage-server/__init__.py:36-37 | within one comic, with distinct episode names, task paths are distinct and each names one of the comic's episodes |
| Storage.DeriveTasksDistinct | storage-server/__init__.py:24-38 | for a mapping with distinct keys, all task paths are distinct and each names one of the mapping's comics |
| Storage.TwoPageTasks | storage-server/__init__.py:24-38 | one comic with one episode of two pages, under path-safe names, yields exactly the tasks of pages 0 and 1, in that order |
| Storage.FixtureExtension | tests/test_integration.py:4-6 | the fixture URLs have the extension ".jpg" |
| Storage.FixtureFileNames | tests/test_integration.py:26-28 | the fixture pages are named "000.jpg" and "001.jpg" |
| Storage.FixtureTasks | tests/test_integration.py:4-28 | the fixture yields exactly the two tasks for `comics/test-comic/ep1/000.jpg` and `001.jpg`, in order |
| Storage.FromDict | storage-server/tasks.py:18 | `Task(**d)` succeeds exactly for a dict with the keys `path` and `url` |
| Storage.TaskRoundTrip | storage-server/downloader.py:29 | `Task(**asdict(t))` is `t`, and `asdict` of a rebuilt task is the dict it came from |
| Storage.StorageServer.constructor | storage-server/__init__.py:12-13 | the server starts with a resolved mount point and nothing dispatched |
| Storage.StorageServer.Download | storage-server/__init__.py:41 | a download hands over exactly one task |
| Storage.StorageServer.Add | storage-server/__init__.py:39-42 | every derived task is dispatched once, in derivation order, and the answer is ok whatever happens |
| Inodes.KindOfMarks | src/fs.rs:80-118 | `kind()` is decided by the mark bits with priority File > Eposide > Comic > Tag > Tagged, and is Special exactly when no mark bit is set |
| Inodes.IdSplitsInode | src/fs.rs:71-122 | `id()` holds no mark bit, and the inode is its mark bits joined with its id |
| Inodes.MasksComplementary | src/fs.rs:71-78 | `MARK_MASK` is bits 59-63 and `NODE_MASK` is its complement |
| Inodes.ComicInode | src/fs.rs:126-128 | `Inode::comic(id)` has kind Comic and id `id` |
| Inodes.EposideInode | src/fs.rs:130-132 | `Inode::eposide(id)` has kind Eposide and id `id` |
| Inodes.FileInode | src/fs.rs:134-136 | `Inode::file(id)` has kind File and id `id` |
| Inodes.TagInode | src/fs.rs:138-140 | `Inode::tag(id)` has kind Tag and id `id` |
| Inodes.TaggedInode | src/fs.rs:142-144 | `Inode::tagged(id)` has kind Tagged and id `id` |
| Inodes.FixedDirectoriesSpecial | src/fs.rs:266-268 | inodes 1, 2 and 3 (root, comics, tags) are Special |
| ComicDb.First | src/fs.rs:322-326 | a lookup returns a row of the table that matches |
| ComicDb.FirstNone | src/fs.rs:322-326 | a lookup comes back empty exactly when no row matches |
| ComicDb.FindComic | src/fs.rs:381 | `Comic::find` returns a comic with that id, and nothing exactly when no comic has it |
| ComicDb.FindComicByName | src/fs.rs:322 | `Comic::find_by_name` returns a comic with that name, and nothing exactly when no comic has it |
| ComicDb.FindEpisode | src/fs.rs:386 | `Episode::find` returns an episode with that id, and nothing exactly when no episode has it |
| ComicDb.FindEpisodeByComicAndName | src/fs.rs:332-336 | `Episode::find_by_comic_and_name` returns an episode of that comic with that name, and nothing exactly when there is none |
| ComicDb.FindFile | src/fs.rs:391 | `File::find` returns a file with that id, and nothing exactly when no file has it |
| ComicDb.FindFileByEpisodeAndName | src/fs.rs:340-344 | `File::find_by_eposide_and_name` returns a file of that episode with that name, and nothing exactly when there is none |
| ComicDb.FindTag | src/fs.rs:396 | `Tag::find` returns a tag with that id, and nothing exactly when no tag has it |
| ComicDb.FindTagByName | src/fs.rs:326 | `Tag::find_by_name` returns a tag with that name, and nothing exactly when no tag has it |
| ComicDb.FindTaggedByName | src/fs.rs:476-516 | the search of `lookup` in a tag returns a tagging of that tag whose target has the name, and nothing exactly when there is none |
| ComicDb.FindTaggable | src/fs.rs:987 | `Taggable::find_info` returns the tagging with that id, and nothing exactly when there is none |
| ComicDb.FirstUnique | src/fs.rs:381-399 | when exactly one row matches, the lookup returns it |
| ComicDb.FirstOfExtended | src/fs.rs:809-811 | rows appended to a table do not change a lookup that already matched |
| ComicDb.FirstAppend | src/fs.rs:878-883 | a lookup after appending a row finds the old match, else the new row if it matches |
| ComicDb.WithHash | src/fs.rs:970 | updating one row's hash keeps the table's size |
| ComicDb.FindFileAfterUpdate | src/fs.rs:970 | after `update_content_hash`, `File::find` finds the same rows, with the new hash on the updated one only |
| ComicDb.WithHashRows | src/fs.rs:970 | after the update, every row is an old row or the updated one carrying the new hash |
| ComicDb.FindFileOfInserted | src/fs.rs:878-883 | a file inserted under a fresh id is found by `File::find` |
| ComicDb.FindFileByNameOfInserted | src/fs.rs:878-883 | a file inserted under a name new to its episode is found by name there |
| ComicDb.FindComicByNameOfInserted | src/fs.rs:801-817 | a comic inserted under a new name is found by name |
| ComicDb.FindEpisodeByNameOfInserted | src/fs.rs:831-850 | an episode inserted under a name new to its comic is found by name there |
| ComicDb.FindTagByNameOfInserted | src/fs.rs:821-824 | a tag inserted under a new name is found by name |
| ComicFs.Step | src/fs.rs:310-354 | one iteration of `resolve` goes exactly one level further from the root |
| ComicFs.ResolveFrom | src/fs.rs:303-357 | resolving n names below an inode, when it succeeds, ends n levels further from the root |
| ComicFs.Resolve | src/fs.rs:303-357 | the loop of `resolve` returns what `ResolveFrom` describes |
| ComicFs.ResolveFromSnoc | src/fs.rs:305-355 | resolving one more component is one more step after the rest |
| ComicFs.StepKind | src/fs.rs:310-354 | one step of `resolve` goes exactly one level down: root → comics/tags → comic/tag → episode → file |
| ComicFs.ResolvedKind | src/fs.rs:303-357 | "" resolves to inode 1; "comics" to 2 and "tags" to 3; then comic, episode, file by depth, with ids that fit an i32 |
| ComicFs.Link | src/fs.rs:364-401 | each parent link `resolve_inode` follows leads exactly one level closer to the root |
| ComicFs.InodePath | src/fs.rs:359-405 | a path `resolve_inode` builds starts with the mount point and has one component per level |
| ComicFs.ResolveInode | src/fs.rs:359-405 | the loop of `resolve_inode` returns what `InodePath` describes |
| ComicFs.LinkFails | src/fs.rs:380-400 | a lookup that fails along the chain makes the whole path missing (or a panic) |
| ComicFs.ReachRoot | src/fs.rs:366-369 | at the root, the collected components reversed after the mount point are the path |
| ComicFs.FixedDirectoryPaths | src/fs.rs:370-377 | inodes 2 and 3 are `base/comics` and `base/tags` |
| ComicFs.ComicPath | src/fs.rs:380-384 | a comic's path is `base/comics/<comic>` |
| ComicFs.TagPath | src/fs.rs:395-399 | a tag's path is `base/tags/<tag>` |
| ComicFs.EpisodePath | src/fs.rs:385-389 | an episode's path is `base/comics/<comic>/<episode>` |
| ComicFs.FilePath | src/fs.rs:390-394 | a file's path is `base/comics/<comic>/<episode>/<file>` |
| ComicFs.OrphanFileMissing | src/fs.rs:385-394 | a file whose episode row is gone has no path |
| ComicFs.LinkOfSameNode | src/fs.rs:380-399 | `resolve_inode` reads only an inode's kind and id |
| ComicFs.PathOfSameNode | src/fs.rs:359-405 | inodes with the same kind and id have the same path |
| ComicFs.ComicLinksBack | src/fs.rs:380-384 | a comic's parent link is `comics`, under the comic's name |
| ComicFs.EpisodeLinksBack | src/fs.rs:385-389 | an episode's parent link is its comic, under the episode's name |
| ComicFs.FileLinksBack | src/fs.rs:390-394 | a file's parent link is its episode, under the file's name |
| ComicFs.TagLinksBack | src/fs.rs:395-399 | a tag's parent link is `tags`, under the tag's name |
| ComicFs.ComicFoundByName | src/fs.rs:321-324 | with unique names, `resolve` finds each comic by its name under `comics` |
| ComicFs.TagFoundByName | src/fs.rs:325-328 | with unique names, `resolve` finds each tag by its name under `tags` |
| ComicFs.EpisodeFoundByName | src/fs.rs:331-338 | with unique names, `resolve` finds each episode by its name under its comic |
| ComicFs.FileFoundByName | src/fs.rs:339-346 | with unique names, `resolve` finds each file by its name under its episode |
| ComicFs.StepThenLink | src/fs.rs:310-399 | the parent link of what one `resolve` step finds leads back to the same node, under the name resolved |
| ComicFs.LinkThenStep | src/fs.rs:310-399 | with unique names, resolving a node's name under its parent finds the node |
| ComicFs.StepPath | src/fs.rs:310-399 | the path of what a step finds is the parent's path plus the name |
| ComicFs.ResolveFromPath | src/fs.rs:303-405 | resolving names below a node with path p finds a node whose path is p plus the names |
| ComicFs.StepFromPath | src/fs.rs:303-405 | the first step of a resolution extends the path by its first name |
| ComicFs.ResolveThenPath | src/fs.rs:303-405 | `resolve_inode` of what `resolve` finds is the mount point followed by the resolved names |
| ComicFs.PathThenResolve | src/fs.rs:303-405 | with unique names, `resolve` of the components of an inode's path finds that node again |
| FuseOps.StoragePath | src/fs.rs:1131-1136 | `STORAGE_BASE / h[0..2] / h`, defined exactly when the hash has at least two characters |
| FuseOps.StoragePathInjective | src/fs.rs:1131-1136 | distinct hashes are stored at distinct paths |
| FuseOps.StoragePathSharedDirectory | src/fs.rs:1131-1136 | two stored files share a directory exactly when their hashes share the first two characters |
| FuseOps.FileOf | src/fs.rs:297-301 | the file row found has the inode's id, and the lookup panics exactly when the id does not fit an i32 |
| FuseOps.ReadAsWritten | src/fs.rs:750-763 | `read` as written answers EISDIR exactly for non-files; otherwise it opens the storage path of the row's hash |
| FuseOps.Read | src/fs.rs:741-782 | `read` answers EISDIR exactly for non-files, and empty content exactly for a file never written |
| FuseOps.Write | src/fs.rs:953-975 | `write` answers EISDIR exactly for non-files; a refusal changes nothing; a first write creates the file at the digest's path |
| FuseOps.Setattr | src/fs.rs:905-937 | `setattr` answers ENOSYS exactly for non-files, and resizes to the requested size |
| FuseOps.Create | src/fs.rs:872-885 | `create` answers EPERM exactly outside an episode; a refusal changes nothing; a new file gets a File inode with the new id |
| FuseOps.Mkdir | src/fs.rs:784-861 | `mkdir` answers ENOTDIR exactly under a file or a link; a refusal changes nothing; a new directory has the new id, adds one row, is a comic exactly under `comics`, a tag exactly under `tags` and an episode exactly under a comic |
| FuseOps.MkdirGate | src/fs.rs:792-860 | `mkdir` answers EPERM exactly under the root, an episode or a tag, and ENOTDIR exactly under a file or a link; a refusal changes nothing |
| FuseOps.TargetInode | src/fs.rs:995-999 | a link target is a comic, episode or file inode with the target's id |
| FuseOps.Readlink | src/fs.rs:981-1004 | `readlink` answers EINVAL exactly for non-links and ENOENT exactly when no tagging has the link's id; a link text starts with the mount point |
| FuseOps.TagTarget | src/fs.rs:471-524 | the search of `lookup` in a tag answers ENOENT exactly when no tagging of the tag has a target with that name; otherwise it finds such a tagging and its target's path below the mount point |
| FuseOps.TagLookupAsWritten | src/fs.rs:471-527 | as written, the link `lookup` reports in a tag is a Tagged inode numbered by the target's id of a tagging with that name |
| FuseOps.Lookup | src/fs.rs:410-540 | `lookup` answers a file exactly in an episode and a link exactly in a tag; a file is a File inode, a directory never a file or a link, and a link a Tagged inode whose target starts with the mount point |
| FuseOps.ResolvedGates | src/fs.rs:303-357 | on a resolved path, `read`/`write`/`setattr` pass exactly at depth 4, `create` exactly at depth 3, `mkdir` is refused exactly at the root, an episode or a tag, and nothing resolved is a link |
| FuseOps.WriteKeepsStoredHashes | src/fs.rs:965-971 | `write` keeps every stored hash "" or a 64-digit hex digest |
| FuseOps.InsertKeepsStoredHashes | src/fs.rs:878-882 | `create` and `mkdir` keep every stored hash "" or a digest |
| FuseOps.NoPanicOnStoredHashes | src/fs.rs:741-975 | with stored hashes "" or digests, the corrected `read`, `write` and `setattr` panic exactly on a file id that does not fit an i32 |
| FuseOps.ReadAsWrittenPanics | src/fs.rs:756 | `read` as written panics exactly on an oversized id or a file whose hash is still "" |
| FuseOps.CreateThenReadAsWritten | src/fs.rs:863-885 | creating a file and then reading it panics in `read` as written |
| FuseOps.CreateThenRead | src/fs.rs:777-779 | with the correction, a freshly created file reads as empty |
| FuseOps.WriteThenRead | src/fs.rs:965-975 | after a successful write, `read` takes its data from the file the write went to |
| FuseOps.WriteThenWrite | src/fs.rs:972-975 | once written, later writes open the same stored file and leave the database alone |
| FuseOps.MkdirComicThenResolve | src/fs.rs:801-820 | a comic made by `mkdir` under `comics` with a new name resolves at `comics/<name>` |
| FuseOps.MkdirEpisodeThenResolve | src/fs.rs:831-853 | an episode made by `mkdir` in a resolved comic resolves one level below it |
| FuseOps.CreateThenResolve | src/fs.rs:872-885 | a file made by `create` in a resolved episode resolves one level below it |
| FuseOps.ResolveUnchangedByInsert | src/fs.rs:303-357 | inserting rows keeps every path that resolved before |
| FuseOps.StepUnchangedByInsert | src/fs.rs:321-346 | inserting rows keeps every step that found a row before |
| FuseOps.LookupAgreesWithStep | src/fs.rs:410-469 | `lookup` answers the directory a `resolve` step reaches, ENOENT where the step finds no row, and in an episode the file exactly when it can be stat'ed |
| FuseOps.ReadlinkResolves | src/fs.rs:987-1003 | with unique names, a `readlink` text starts with the mount point, and resolving the rest finds the target of the tagging the link names |
| FuseOps.LookupThenReadlink | src/fs.rs:471-527 | with the correction, an entry `lookup` finds in a tag is a link, and `readlink` of it answers the target `lookup` reported |
| FuseOps.LookupThenReadlinkAsWritten | src/fs.rs:525 | as written, `lookup` in tag 3 reports the link `Inode::tagged(7)` for comic 7 tagged by tagging 1, and `readlink` of it answers ENOENT |
| FuseOps.LookupThenReadlinkFixture | src/fs.rs:471-527 | on the same database the corrected `lookup` reports `Inode::tagged(1)`, and `readlink` of it answers the comic's path |
| Mount.ComicFS.constructor | src/fs.rs:270-272 | `ComicFS::new` takes the connection and mount point |
| Mount.ComicFS.Write | src/fs.rs:943-978 | the `write` handler updates the database as `FuseOps.Write` says, keeps the hash invariant, and panics only on an oversized id |
| Mount.ComicFS.Create | src/fs.rs:863-886 | the `create` handler inserts as `FuseOps.Create` says and keeps the hash invariant; reading a file created under a fresh id panics in `read` as written and reads as empty under the corrected `read` |
| Mount.ComicFS.Mkdir | src/fs.rs:784-861 | the `mkdir` handler inserts as `FuseOps.Mkdir` says, keeps the hash invariant, and a refusal leaves the database unchanged |

## Left out

- File contents and attributes:
  - the data of `read`/`write`, the `read_at`/`write_at` offsets and their `unwrap`s, and EIO;
  - `ftruncate` and its `i64::try_from(size)`;
  - `fs::metadata`, `FileAttr` and the size of a link's attributes.
  The handlers name the storage file they would touch instead. For `lookup` in an episode, the set `stored` says which storage files exist.
- SQL and transactions are not modelled.
  - Each lookup returns the first matching row in table order; the real queries are not visible.
  - The ids of new rows are a parameter, so insert failures (`expect`, `unwrap`) are not modelled.
  - `Taggables::taggables` and `Taggable::find_info` read one taggable table. The `Taggables` type is not part of this model. The `id` that `lookup` binds is taken to be the target's id, as its `Inode::comic(id)` uses it.
  - Unique ids and names are stated as assumptions where a lemma needs them.
- SHA-256 and `hex::encode` are a parameter: a digest of 64 lower-case hex digits.
- `getattr`, `readdir`, `link` and `symlink` are not modelled. Nor are `mount`, tracing and the `inode_to_storage`-based attr helpers. These are further handlers and I/O outside the gating and path logic.
- Path components are whole strings:
  - `PathBuf::push` of absolute or '/'-containing names is not modelled;
  - neither is `to_str().unwrap()` on names that are not UTF-8;
  - slicing `h[0..2]` counts characters rather than bytes; the two agree on hex digests.
- `Hex` assumes default formatter flags. Width, fill and the `#` flag are not modelled.
- The `/list` endpoints, the Celery task and the downloaders are not modelled. The Flask routing is not modelled either. These are I/O, a message broker and directory listing. `Task(**d)`/`asdict` is modelled as a dict round trip.
- The working directory behind `Path("mnt").resolve()` is a parameter. `ValidMount` asks for safe segments.
- Concurrency between FUSE requests and between download workers is not modelled.
- Inodes.ComicInode: ids are `RowId` (0 ≤ id < 2^31), so the panic of `u64::try_from` on a negative `i32` is not modelled.
- Inodes.EposideInode: takes a non-negative `RowId`, so the negative-id panic is not modelled.
- Inodes.FileInode: takes a non-negative `RowId`, so the negative-id panic is not modelled.
- Inodes.TagInode: takes a non-negative `RowId`, so the negative-id panic is not modelled.
- Inodes.TaggedInode: takes a non-negative `RowId`, so the negative-id panic is not modelled.
- Storage.DeriveTasksDistinct: assumes names are safe path segments (non-empty, no '/', not '.' or '..'). The server does not check them: a name "" or "." vanishes and a name starting with '/' leaves the mount point (Storage.PagePathOfEmptyComic, Storage.PagePathOfAbsoluteComic), so such requests can map two pages to one file. ".." is kept by `pathlib` and resolved by the operating system.
- FuseOps.LookupThenReadlink: assumes tagging ids are unique, the table's primary key; the taggable schema is not part of this model.
- Mount.ComicFS.constructor: requires every stored hash to be "" or a 64-digit digest, the hashes the filesystem itself writes. A database filled by other means (a one-character hash, say) is outside the class invariant; the handler functions of `FuseOps` still cover it.
- Storage.StorageServer.Add: the `print(task)` log line is not modelled. An exception raised by `downloader.download` is not modelled either: it would end the loop, leave the remaining tasks undispatched, and produce no `{"ok": True}` answer.

## Findings

| source | as written | input that shows it | evidently intended | confidence | as-written member | corrected member |
|---|---|---|---|---|---|---|
| src/fs.rs:756 | `read` calls `inode_to_storage`, which calls `generate_storage_path(&info.content_hash)` and slices `[0..2]`. `create` stores `content_hash` "" (src/fs.rs:881), so the slice is out of range and the handler panics. | Create a file in an episode, then send a READ for it before any write. The FUSE `read` handler runs only when the kernel issues a READ: `cat` of a new file whose reported size is 0 may not, and a read with `O_DIRECT` does. | A file never written reads as empty. `getattr`, `lookup` and `setattr` already special-case "", and `read` itself replies with empty data when the stored file is missing (src/fs.rs:777-779). | not executed | FuseOps.CreateThenReadAsWritten | FuseOps.CreateThenRead |
| src/fs.rs:525 | `lookup` in a tag replies `Inode::tagged(id)`, where `id` is the number it also resolves with `Inode::comic(id)`, `eposide(id)` or `file(id)`: the target's id. `readlink` (src/fs.rs:987) and `getattr` (src/fs.rs:574) look the link's id up with `Taggable::find_info` / `Taggable::find` as the tagging's own id. `readdir` (src/fs.rs:703) numbers entries the same way as `lookup`. | Tag 3 holds comic 7 through tagging 1. `lookup` of the comic's name in tag 3 replies `Inode::tagged(7)`; `readlink` of it finds no tagging 7 (ENOENT), or another tagging's target when one exists. | The link is numbered by the tagging's own id, so that `readlink` follows it to the target `lookup` reported. | medium, not executed: the `Taggables` type is not visible | FuseOps.LookupThenReadlinkAsWritten | FuseOps.LookupThenReadlink |
