/**
 * The FUSE request handlers of the comic filesystem (src/fs.rs, `impl
 * Filesystem for ComicFS`): what each of `lookup`, `read`, `write`,
 * `setattr`, `create`, `mkdir` and `readlink` replies, and how it changes the
 * database. File contents, attributes and the FUSE reply plumbing are I/O; a
 * handler's outcome names the storage file it would touch instead.
 *
 * `STORAGE_BASE`, the directory holding the content-addressed files, is the
 * parameter `storageBase` (its components); the mount point is `base`.
 */
module FuseOps {
  import opened Wrappers
  import opened Inodes
  import opened ComicDb
  import opened ComicFs
  import Hex

  // The errno values of `libc` on Linux.
  const EPERM: nat := 1
  const ENOENT: nat := 2
  const ENOTDIR: nat := 20
  const EISDIR: nat := 21
  const EINVAL: nat := 22
  const ENOSYS: nat := 38

  /** A handler's reply: a value, `reply.error(errno)`, or a panic of the handler. */
  datatype Reply<T> = Ok(value: T) | Err(errno: nat) | Panic

  // ---------------------------------------------------------------------------
  // generate_storage_path

  /**
   * `generate_storage_path`: `STORAGE_BASE / h[0..2] / h`. Slicing a hash
   * shorter than two characters panics (`None` here).
   */
  function StoragePath(storageBase: seq<string>, hash: string): (p: Option<seq<string>>)
    ensures p.Some? <==> |hash| >= 2
    ensures p.Some? ==> |p.value| == |storageBase| + 2 && p.value[..|storageBase|] == storageBase
    ensures p.Some? ==> p.value[|storageBase|] == hash[..2] && p.value[|storageBase| + 1] == hash
  {
    if |hash| < 2 then None else Some(storageBase + [hash[..2], hash])
  }

  /** Distinct hashes are stored at distinct paths. */
  lemma StoragePathInjective(storageBase: seq<string>, h1: string, h2: string)
    requires StoragePath(storageBase, h1).Some? && StoragePath(storageBase, h1) == StoragePath(storageBase, h2)
    ensures h1 == h2
  {
    assert StoragePath(storageBase, h1).value[|storageBase| + 1] == h1;
  }

  /** Two stored files share a directory exactly when their hashes share the first two characters. */
  lemma StoragePathSharedDirectory(storageBase: seq<string>, h1: string, h2: string)
    requires |h1| >= 2 && |h2| >= 2
    ensures StoragePath(storageBase, h1).value[..|storageBase| + 1] == StoragePath(storageBase, h2).value[..|storageBase| + 1]
        <==> h1[..2] == h2[..2]
  {
    var p1, p2 := StoragePath(storageBase, h1).value, StoragePath(storageBase, h2).value;
    assert p1[..|storageBase| + 1] == storageBase + [h1[..2]];
    assert p2[..|storageBase| + 1] == storageBase + [h2[..2]];
    if p1[..|storageBase| + 1] == p2[..|storageBase| + 1] {
      assert p1[..|storageBase| + 1][|storageBase|] == h1[..2];
    }
  }

  /** `hex::encode(Sha256::digest(data))`: 64 lower-case hexadecimal digits. */
  predicate IsDigest(d: string) {
    |d| == 64 && Hex.AllHexDigits(d)
  }

  /**
   * The hashes the filesystem itself stores: "" for a file created but never
   * written, a digest once written.
   */
  predicate StoredHashes(db: Db) {
    forall f :: f in db.files ==> f.contentHash == "" || IsDigest(f.contentHash)
  }

  // ---------------------------------------------------------------------------
  // The handlers, as functions of the database

  /** `File::find(i32::try_from(ino.id()).unwrap())`, with a missing row answered by ENOENT. */
  function FileOf(db: Db, ino: Inode): (r: Reply<FileRow>)
    ensures r.Ok? ==> r.value in db.files && r.value.id == Id(ino)
    ensures r.Panic? <==> !IdFits(ino)
  {
    if !IdFits(ino) then Panic
    else
      match FindFile(db, Id(ino))
      case None => Err(ENOENT)
      case Some(f) => Ok(f)
  }

  /**
   * `read` as written: the storage path it opens. A file whose hash is still
   * "" reaches `generate_storage_path("")`, which panics.
   */
  function ReadAsWritten(db: Db, storageBase: seq<string>, ino: Inode): (r: Reply<seq<string>>)
    ensures r == Err(EISDIR) <==> Kind(ino) != File
    ensures r.Ok? ==> FileOf(db, ino).Ok? && StoragePath(storageBase, FileOf(db, ino).value.contentHash) == Some(r.value)
  {
    if Kind(ino) != File then Err(EISDIR)
    else
      match FileOf(db, ino)
      case Err(e) => Err(e)
      case Panic => Panic
      case Ok(f) =>
        (match StoragePath(storageBase, f.contentHash)
        case None => Panic
        case Some(p) => Ok(p))
  }

  /** Where `read` takes its data from: the stored file, or nothing at all. */
  datatype ReadSource = StoredAt(path: seq<string>) | NoContent

  /**
   * `read` as intended: a file never written has no content and reads as
   * empty, the way `getattr`, `lookup` and `setattr` already treat a "" hash.
   */
  function Read(db: Db, storageBase: seq<string>, ino: Inode): (r: Reply<ReadSource>)
    ensures r == Err(EISDIR) <==> Kind(ino) != File
    ensures r == Ok(NoContent) <==> Kind(ino) == File && FileOf(db, ino).Ok? && FileOf(db, ino).value.contentHash == ""
  {
    if Kind(ino) != File then Err(EISDIR)
    else
      match FileOf(db, ino)
      case Err(e) => Err(e)
      case Panic => Panic
      case Ok(f) =>
        if f.contentHash == "" then Ok(NoContent)
        else
          (match StoragePath(storageBase, f.contentHash)
          case None => Panic
          case Some(p) => Ok(StoredAt(p)))
  }

  /** What `write` does with the storage: create the file for a new digest, or open the stored one. */
  datatype WritePlan = CreateStored(path: seq<string>) | OpenStored(path: seq<string>)

  /**
   * `write`: the first write names the file by the digest of its data and
   * records that digest in the row; later writes go to the stored file.
   */
  function Write(db: Db, storageBase: seq<string>, ino: Inode, digest: string): (r: (Reply<WritePlan>, Db))
    requires IsDigest(digest)
    ensures r.0 == Err(EISDIR) <==> Kind(ino) != File
    ensures !r.0.Ok? ==> r.1 == db
    ensures r.0.Ok? && r.0.value.CreateStored? ==> r.0.value.path == StoragePath(storageBase, digest).value
  {
    if Kind(ino) != File then (Err(EISDIR), db)
    else
      match FileOf(db, ino)
      case Err(e) => (Err(e), db)
      case Panic => (Panic, db)
      case Ok(f) =>
        if f.contentHash == "" then
          (Ok(CreateStored(StoragePath(storageBase, digest).value)), UpdateContentHash(db, f.id, digest))
        else
          (match StoragePath(storageBase, f.contentHash)
          case None => (Panic, db)
          case Some(p) => (Ok(OpenStored(p)), db))
  }

  /** What `setattr` answers with: the default attributes, or those of the stored file after resizing it. */
  datatype AttrPlan = DefaultFileAttr | ResizeStored(path: seq<string>, size: Option<nat>)

  function Setattr(db: Db, storageBase: seq<string>, ino: Inode, size: Option<nat>): (r: Reply<AttrPlan>)
    ensures r == Err(ENOSYS) <==> Kind(ino) != File
    ensures r.Ok? && r.value.ResizeStored? ==> r.value.size == size
  {
    if Kind(ino) != File then Err(ENOSYS)
    else
      match FileOf(db, ino)
      case Err(e) => Err(e)
      case Panic => Panic
      case Ok(f) =>
        if f.contentHash == "" then Ok(DefaultFileAttr)
        else
          (match StoragePath(storageBase, f.contentHash)
          case None => Panic
          case Some(p) => Ok(ResizeStored(p, size)))
  }

  /**
   * `create`: only an episode holds files; the new row, with id `newId` from
   * the database, has no content yet.
   */
  function Create(db: Db, parent: Inode, name: string, newId: RowId): (r: (Reply<Inode>, Db))
    ensures r.0 == Err(EPERM) <==> Kind(parent) != Eposide
    ensures !r.0.Ok? ==> r.1 == db
    ensures r.0.Ok? ==> Kind(r.0.value) == File && Id(r.0.value) == newId
  {
    if Kind(parent) != Eposide then (Err(EPERM), db)
    else if !IdFits(parent) then (Panic, db)
    else (Ok(FileInode(newId)), db.(files := db.files + [FileRow(newId, name, "", Id(parent))]))
  }

  /**
   * `mkdir`: a comic under `comics`, a tag under `tags`, an episode under a
   * comic; the root, episodes and tags refuse, files and links are no
   * directories. `newId` is the id the database gives the new row.
   */
  function Mkdir(db: Db, parent: Inode, name: string, newId: RowId): (r: (Reply<Inode>, Db))
    ensures r.0 == Err(ENOTDIR) <==> Kind(parent) == File || Kind(parent) == Tagged
    ensures !r.0.Ok? ==> r.1 == db
    ensures r.0.Ok? ==> Id(r.0.value) == newId && r.1.files == db.files && r.1.taggables == db.taggables
    ensures r.0.Ok? ==> |r.1.comics| + |r.1.episodes| + |r.1.tags| == |db.comics| + |db.episodes| + |db.tags| + 1
    ensures r.0.Ok? ==> (Kind(r.0.value) == Comic <==> parent.raw == COMIC_ID)
    ensures r.0.Ok? ==> (Kind(r.0.value) == Tag <==> parent.raw == TAGS_ID)
    ensures r.0.Ok? ==> (Kind(r.0.value) == Eposide <==> Kind(parent) == Comic)
  {
    FixedDirectoriesSpecial();
    match Kind(parent)
    case Special =>
      if parent.raw == ROOT_ID then (Err(EPERM), db)
      else if parent.raw == COMIC_ID then (Ok(ComicInode(newId)), db.(comics := db.comics + [ComicRow(newId, name)]))
      else if parent.raw == TAGS_ID then (Ok(TagInode(newId)), db.(tags := db.tags + [TagRow(newId, name)]))
      else (Panic, db)
    case Comic =>
      if !IdFits(parent) then (Panic, db)
      else (Ok(EposideInode(newId)), db.(episodes := db.episodes + [EpisodeRow(newId, name, Id(parent))]))
    case Eposide => (Err(EPERM), db)
    case Tag => (Err(EPERM), db)
    case File => (Err(ENOTDIR), db)
    case Tagged => (Err(ENOTDIR), db)
  }

  /** The inode a tagging points at. */
  function TargetInode(target: (TargetKind, RowId)): (ino: Inode)
    ensures Kind(ino) != Special && Kind(ino) != Tagged && Id(ino) == target.1
  {
    match target.0
    case TargetComic => ComicInode(target.1)
    case TargetEpisode => EposideInode(target.1)
    case TargetFile => FileInode(target.1)
  }

  /**
   * `readlink`: only a tag's entries are links. `Taggable::find_info` looks the
   * inode's id up as a tagging's own id; the link text is the path of that
   * tagging's target under the mount point (the `unwrap` of `resolve_inode`
   * panics when that path cannot be built).
   */
  function Readlink(db: Db, base: string, ino: Inode): (r: Reply<seq<string>>)
    ensures r == Err(EINVAL) <==> Kind(ino) != Tagged
    ensures r == Err(ENOENT) <==> Kind(ino) == Tagged && IdFits(ino) && FindTaggable(db, Id(ino)).None?
    ensures r.Ok? ==> |r.value| >= 2 && r.value[0] == base
  {
    if Kind(ino) != Tagged then Err(EINVAL)
    else if !IdFits(ino) then Panic
    else
      match FindTaggable(db, Id(ino))
      case None => Err(ENOENT)
      case Some(t) =>
        (match InodePath(db, base, TargetInode((t.kind, t.targetId)))
        case Found(p) => Ok(p)
        case Missing => Panic
        case Panicked => Panic)
  }

  /** What `lookup` replies with: a directory, a regular file, or a link with its target path. */
  datatype Entry = DirEntry(ino: Inode) | FileEntry(ino: Inode) | LinkEntry(ino: Inode, target: seq<string>)

  /**
   * The search of `lookup` in the tag `tagId`: the first tagging whose target
   * is named `name`, and the target's path (the `unwrap` of `resolve_inode`
   * panics when it cannot be built).
   */
  function TagTarget(db: Db, base: string, tagId: RowId, name: string): (r: Reply<(TaggableRow, seq<string>)>)
    ensures r == Err(ENOENT) <==> forall t :: t in db.taggables ==> t.tagId != tagId || t.name != name
    ensures r.Ok? ==> r.value.0 in db.taggables && r.value.0.tagId == tagId && r.value.0.name == name
    ensures r.Ok? ==> InodePath(db, base, TargetInode((r.value.0.kind, r.value.0.targetId))) == Found(r.value.1)
    ensures r.Ok? ==> |r.value.1| >= 3 && r.value.1[0] == base
  {
    match FindTaggedByName(db, tagId, name)
    case None => Err(ENOENT)
    case Some(t) =>
      match InodePath(db, base, TargetInode((t.kind, t.targetId)))
      case Found(p) => Ok((t, p))
      case Missing => Panic
      case Panicked => Panic
  }

  /**
   * `lookup` in a tag as written: the link it reports is `Inode::tagged` of
   * the id it also resolves as the target, that is the target's id.
   */
  function TagLookupAsWritten(db: Db, base: string, tagId: RowId, name: string): (r: Reply<Entry>)
    ensures r.Ok? ==> r.value.LinkEntry? && Kind(r.value.ino) == Tagged
    ensures r.Ok? ==> exists t :: t in db.taggables && t.tagId == tagId && t.name == name && Id(r.value.ino) == t.targetId
  {
    match TagTarget(db, base, tagId, name)
    case Ok((t, p)) => Ok(LinkEntry(TaggedInode(t.targetId), p))
    case Err(e) => Err(e)
    case Panic => Panic
  }

  /**
   * `lookup` of `name` under the inode numbered `parent`. `stored` is the set
   * of storage paths that exist on disk, which decides whether `fs::metadata`
   * finds a written file. In a tag, the link is numbered by the tagging's own
   * id, the id `readlink` and `getattr` look up (corrected; see
   * `TagLookupAsWritten`).
   */
  function Lookup(db: Db, storageBase: seq<string>, stored: set<seq<string>>, base: string, parent: bv64, name: string): (r: Reply<Entry>)
    ensures r.Ok? && r.value.DirEntry? ==> Kind(r.value.ino) != File && Kind(r.value.ino) != Tagged
    ensures r.Ok? && r.value.FileEntry? <==> r.Ok? && Kind(Inode(parent)) == Eposide
    ensures r.Ok? && r.value.FileEntry? ==> Kind(r.value.ino) == File
    ensures r.Ok? && r.value.LinkEntry? <==> r.Ok? && Kind(Inode(parent)) == Tag
    ensures r.Ok? && r.value.LinkEntry? ==> Kind(r.value.ino) == Tagged && |r.value.target| >= 3 && r.value.target[0] == base
  {
    FixedDirectoriesSpecial();
    if parent == ROOT_ID then
      if name == "comics" then Ok(DirEntry(Inode(COMIC_ID)))
      else if name == "tags" then Ok(DirEntry(Inode(TAGS_ID)))
      else Err(ENOENT)
    else if parent == COMIC_ID then
      (match FindComicByName(db, name)
      case Some(c) => Ok(DirEntry(ComicInode(c.id)))
      case None => Err(ENOENT))
    else if parent == TAGS_ID then
      (match FindTagByName(db, name)
      case Some(t) => Ok(DirEntry(TagInode(t.id)))
      case None => Err(ENOENT))
    else
      var ino := Inode(parent);
      match Kind(ino)
      case Comic =>
        if !IdFits(ino) then Panic
        else
          (match FindEpisodeByComicAndName(db, Id(ino), name)
          case Some(e) => Ok(DirEntry(EposideInode(e.id)))
          case None => Err(ENOENT))
      case Eposide =>
        if !IdFits(ino) then Panic
        else
          (match FindFileByEpisodeAndName(db, Id(ino), name)
          case None => Err(ENOENT)
          case Some(f) =>
            if f.contentHash == "" then Ok(FileEntry(FileInode(f.id)))
            else
              (match StoragePath(storageBase, f.contentHash)
              case None => Panic
              case Some(p) => if p in stored then Ok(FileEntry(FileInode(f.id))) else Err(ENOENT)))
      case Tag =>
        if !IdFits(ino) then Panic
        else
          (match TagTarget(db, base, Id(ino), name)
          case Ok((t, p)) => Ok(LinkEntry(TaggedInode(t.id), p))
          case Err(e) => Err(e)
          case Panic => Panic)
      case Special => Panic
      case File => Panic
      case Tagged => Panic
  }

  // ---------------------------------------------------------------------------
  // Kind gating: each handler refuses by the inode's kind before touching anything

  /**
   * `mkdir` answers EPERM exactly under the root, an episode or a tag, and
   * ENOTDIR exactly under a file or a link; a refusal changes nothing.
   */
  lemma MkdirGate(db: Db, parent: Inode, name: string, newId: RowId)
    ensures Mkdir(db, parent, name, newId).0 == Err(EPERM)
        <==> parent.raw == ROOT_ID || Kind(parent) == Eposide || Kind(parent) == Tag
    ensures Mkdir(db, parent, name, newId).0 == Err(ENOTDIR) <==> Kind(parent) == File || Kind(parent) == Tagged
    ensures !Mkdir(db, parent, name, newId).0.Ok? ==> Mkdir(db, parent, name, newId).1 == db
  {
    FixedDirectoriesSpecial();
    if parent.raw == ROOT_ID {
      assert parent == Inode(ROOT_ID);
    }
  }

  /**
   * On an inode that `resolve` reached, the gates follow the depth of the path:
   * only `comics/<comic>/<episode>/<file>` passes `read`, `write` and
   * `setattr`; only `comics/<comic>/<episode>` accepts `create`; `mkdir` is
   * refused at the root, in an episode and in a tag, and nothing resolved is
   * a link.
   */
  lemma ResolvedGates(db: Db, names: seq<string>, x: Inode)
    requires ResolveFrom(db, Inode(ROOT_ID), names) == Found(x)
    ensures Kind(x) == File <==> |names| == 4
    ensures Kind(x) == Eposide <==> |names| == 3
    ensures Kind(x) != Tagged
    ensures x.raw == ROOT_ID || Kind(x) == Eposide || Kind(x) == Tag
        <==> |names| == 0 || |names| == 3 || (|names| == 2 && names[0] == "tags")
    ensures IdFits(x)
  {
    ResolvedKind(db, names, x);
    FixedDirectoriesSpecial();
    if |names| == 1 {
      assert x.raw != ROOT_ID;
    } else if |names| >= 2 {
      NotRoot(x);
    }
  }

  // ---------------------------------------------------------------------------
  // The hashes the filesystem stores

  /** `write` keeps every stored hash "" or a digest. */
  lemma WriteKeepsStoredHashes(db: Db, storageBase: seq<string>, ino: Inode, digest: string)
    requires StoredHashes(db) && IsDigest(digest)
    ensures StoredHashes(Write(db, storageBase, ino, digest).1)
  {
    if Kind(ino) == File && FileOf(db, ino).Ok? && FileOf(db, ino).value.contentHash == "" {
      var f := FileOf(db, ino).value;
      forall x | x in WithHash(db.files, f.id, digest) ensures x.contentHash == "" || IsDigest(x.contentHash) {
        WithHashRows(db.files, f.id, digest, x);
      }
    }
  }

  /** `create` and `mkdir` keep every stored hash "" or a digest: a new file has none yet. */
  lemma InsertKeepsStoredHashes(db: Db, parent: Inode, name: string, newId: RowId)
    requires StoredHashes(db)
    ensures StoredHashes(Create(db, parent, name, newId).1)
    ensures StoredHashes(Mkdir(db, parent, name, newId).1)
  {
  }

  /**
   * With the hashes the filesystem stores, the corrected `read`, `write` and
   * `setattr` panic only on an id that does not fit an `i32`.
   */
  lemma NoPanicOnStoredHashes(db: Db, storageBase: seq<string>, ino: Inode, digest: string, size: Option<nat>)
    requires StoredHashes(db) && IsDigest(digest)
    ensures Read(db, storageBase, ino) == Panic <==> Kind(ino) == File && !IdFits(ino)
    ensures Write(db, storageBase, ino, digest).0 == Panic <==> Kind(ino) == File && !IdFits(ino)
    ensures Setattr(db, storageBase, ino, size) == Panic <==> Kind(ino) == File && !IdFits(ino)
  {
    if Kind(ino) == File && FileOf(db, ino).Ok? {
      assert FileOf(db, ino).value in db.files;
    }
  }

  /**
   * `read` as written panics, on the hashes the filesystem stores, exactly
   * when it reaches a file that was never written (or an id that does not fit).
   */
  lemma ReadAsWrittenPanics(db: Db, storageBase: seq<string>, ino: Inode)
    requires StoredHashes(db)
    ensures ReadAsWritten(db, storageBase, ino) == Panic
        <==> Kind(ino) == File && (!IdFits(ino) || (FileOf(db, ino).Ok? && FileOf(db, ino).value.contentHash == ""))
  {
    if Kind(ino) == File && FileOf(db, ino).Ok? {
      assert FileOf(db, ino).value in db.files;
    }
  }

  /**
   * The input that shows the panic: create a file in an episode, then read it
   * before anything was written.
   */
  lemma CreateThenReadAsWritten(db: Db, storageBase: seq<string>, parent: Inode, name: string, newId: RowId)
    requires Kind(parent) == Eposide && IdFits(parent)
    requires forall f :: f in db.files ==> f.id != newId
    ensures Create(db, parent, name, newId).0 == Ok(FileInode(newId))
    ensures ReadAsWritten(Create(db, parent, name, newId).1, storageBase, FileInode(newId)) == Panic
  {
    FindFileOfInserted(db, FileRow(newId, name, "", Id(parent)));
  }

  /** With the correction, the new file reads as empty. */
  lemma CreateThenRead(db: Db, storageBase: seq<string>, parent: Inode, name: string, newId: RowId)
    requires Kind(parent) == Eposide && IdFits(parent)
    requires forall f :: f in db.files ==> f.id != newId
    ensures Read(Create(db, parent, name, newId).1, storageBase, FileInode(newId)) == Ok(NoContent)
  {
    FindFileOfInserted(db, FileRow(newId, name, "", Id(parent)));
  }

  // ---------------------------------------------------------------------------
  // Writing and reading back

  /** After a successful write, `read` takes its data from the file the write went to. */
  lemma WriteThenRead(db: Db, storageBase: seq<string>, ino: Inode, digest: string)
    requires IsDigest(digest)
    requires Write(db, storageBase, ino, digest).0.Ok?
    ensures Read(Write(db, storageBase, ino, digest).1, storageBase, ino)
         == Ok(StoredAt(Write(db, storageBase, ino, digest).0.value.path))
  {
    var f := FileOf(db, ino).value;
    if f.contentHash == "" {
      FindFileAfterUpdate(db, f.id, digest, Id(ino));
    }
  }

  /**
   * A file is named by the digest of its first write only: once written, any
   * later write goes to the same stored file and leaves the database alone.
   */
  lemma WriteThenWrite(db: Db, storageBase: seq<string>, ino: Inode, d1: string, d2: string)
    requires IsDigest(d1) && IsDigest(d2)
    requires Write(db, storageBase, ino, d1).0.Ok?
    ensures var db' := Write(db, storageBase, ino, d1).1;
      Write(db', storageBase, ino, d2) == (Ok(OpenStored(Write(db, storageBase, ino, d1).0.value.path)), db')
  {
    var f := FileOf(db, ino).value;
    if f.contentHash == "" {
      FindFileAfterUpdate(db, f.id, d1, Id(ino));
    }
  }

  // ---------------------------------------------------------------------------
  // What the handlers create is found by resolve

  /** A comic made by `mkdir` under `comics`, with a name not taken, resolves at `comics/<name>`. */
  lemma MkdirComicThenResolve(db: Db, name: string, newId: RowId)
    requires forall c :: c in db.comics ==> c.name != name
    ensures Mkdir(db, Inode(COMIC_ID), name, newId).0 == Ok(ComicInode(newId))
    ensures ResolveFrom(Mkdir(db, Inode(COMIC_ID), name, newId).1, Inode(ROOT_ID), ["comics", name])
         == Found(ComicInode(newId))
  {
    FixedDirectoriesSpecial();
    var db' := Mkdir(db, Inode(COMIC_ID), name, newId).1;
    FindComicByNameOfInserted(db, ComicRow(newId, name));
    assert Step(db', Inode(ROOT_ID), "comics") == Found(Inode(COMIC_ID));
    assert Step(db', Inode(COMIC_ID), name) == Found(ComicInode(newId));
    assert ["comics", name][1..] == [name] && [name][1..] == [];
    assert ResolveFrom(db', Inode(COMIC_ID), [name]) == Found(ComicInode(newId));
  }

  /** An episode made by `mkdir` in a resolved comic, with a name not taken there, resolves one level below. */
  lemma MkdirEpisodeThenResolve(db: Db, names: seq<string>, comic: Inode, name: string, newId: RowId)
    requires ResolveFrom(db, Inode(ROOT_ID), names) == Found(comic) && Kind(comic) == Comic
    requires forall e :: e in db.episodes && e.comicId == Id(comic) ==> e.name != name
    ensures Mkdir(db, comic, name, newId).0 == Ok(EposideInode(newId))
    ensures ResolveFrom(Mkdir(db, comic, name, newId).1, Inode(ROOT_ID), names + [name]) == Found(EposideInode(newId))
  {
    ResolvedGates(db, names, comic);
    var db' := Mkdir(db, comic, name, newId).1;
    FindEpisodeByNameOfInserted(db, EpisodeRow(newId, name, Id(comic)));
    ResolveUnchangedByInsert(db, db', names, comic);
    ResolveFromSnoc(db', Inode(ROOT_ID), names, name);
  }

  /** A file made by `create` in a resolved episode, with a name not taken there, resolves one level below. */
  lemma CreateThenResolve(db: Db, names: seq<string>, episode: Inode, name: string, newId: RowId)
    requires ResolveFrom(db, Inode(ROOT_ID), names) == Found(episode) && Kind(episode) == Eposide
    requires forall f :: f in db.files && f.episodeId == Id(episode) ==> f.name != name
    ensures Create(db, episode, name, newId).0 == Ok(FileInode(newId))
    ensures ResolveFrom(Create(db, episode, name, newId).1, Inode(ROOT_ID), names + [name]) == Found(FileInode(newId))
  {
    ResolvedGates(db, names, episode);
    var db' := Create(db, episode, name, newId).1;
    FindFileByNameOfInserted(db, FileRow(newId, name, "", Id(episode)));
    ResolveUnchangedByInsert(db, db', names, episode);
    ResolveFromSnoc(db', Inode(ROOT_ID), names, name);
  }

  /** Inserting rows at the end of the tables keeps every path that resolved before. */
  lemma {:induction false} ResolveUnchangedByInsert(db: Db, db': Db, names: seq<string>, x: Inode)
    requires Extends(db, db')
    requires ResolveFrom(db, Inode(ROOT_ID), names) == Found(x)
    ensures ResolveFrom(db', Inode(ROOT_ID), names) == Found(x)
    decreases |names|
  {
    if names != [] {
      var init := names[..|names| - 1];
      var last := names[|names| - 1];
      assert names == init + [last];
      ResolveFromSnoc(db, Inode(ROOT_ID), init, last);
      ResolveFromSnoc(db', Inode(ROOT_ID), init, last);
      var y := ResolveFrom(db, Inode(ROOT_ID), init).value;
      ResolveUnchangedByInsert(db, db', init, y);
      StepUnchangedByInsert(db, db', y, last);
    }
  }

  /** `db'` is `db` with rows appended to some of its tables. */
  predicate Extends(db: Db, db': Db) {
    && db.comics <= db'.comics && db.episodes <= db'.episodes && db.files <= db'.files
    && db.tags <= db'.tags && db.taggables <= db'.taggables
  }

  lemma StepUnchangedByInsert(db: Db, db': Db, y: Inode, name: string)
    requires Extends(db, db')
    requires Step(db, y, name).Found?
    ensures Step(db', y, name) == Step(db, y, name)
  {
    match Kind(y) {
      case Special =>
        if y.raw == COMIC_ID {
          FirstOfExtended(db.comics, db'.comics, (r: ComicRow) => r.name == name);
        } else if y.raw == TAGS_ID {
          FirstOfExtended(db.tags, db'.tags, (r: TagRow) => r.name == name);
        }
      case Comic =>
        FirstOfExtended(db.episodes, db'.episodes, (r: EpisodeRow) => r.comicId == Id(y) && r.name == name);
      case Eposide =>
        FirstOfExtended(db.files, db'.files, (r: FileRow) => r.episodeId == Id(y) && r.name == name);
    }
  }

  // ---------------------------------------------------------------------------
  // `lookup`, `readlink` and the paths `resolve` walks

  /** A file `lookup` can stat: never written, or its stored file exists. */
  predicate FileStored(storageBase: seq<string>, stored: set<seq<string>>, f: FileRow) {
    f.contentHash == "" || (StoragePath(storageBase, f.contentHash).Some? && StoragePath(storageBase, f.contentHash).value in stored)
  }

  /**
   * `lookup` answers like one step of `resolve` below the same inode: the
   * directory `resolve` reaches, ENOENT where `resolve` finds no row, and in
   * an episode the file `resolve` reaches exactly when it can be stat'ed.
   */
  lemma LookupAgreesWithStep(db: Db, storageBase: seq<string>, stored: set<seq<string>>, base: string, y: Inode, name: string)
    ensures Step(db, y, name) == Missing ==> Lookup(db, storageBase, stored, base, y.raw, name) == Err(ENOENT)
    ensures Step(db, y, name).Found? && Kind(y) != Eposide
        ==> Lookup(db, storageBase, stored, base, y.raw, name) == Ok(DirEntry(Step(db, y, name).value))
    ensures Step(db, y, name).Found? && Kind(y) == Eposide
        ==> (Lookup(db, storageBase, stored, base, y.raw, name) == Ok(FileEntry(Step(db, y, name).value))
             <==> FileStored(storageBase, stored, FindFileByEpisodeAndName(db, Id(y), name).value))
  {
    FixedDirectoriesSpecial();
    assert y == Inode(y.raw);
  }

  /**
   * The target `readlink` answers lies below the mount point, and, with names
   * unique, `resolve` of its components below the mount point leads to the
   * tagged item itself.
   */
  lemma ReadlinkResolves(db: Db, base: string, ino: Inode, p: seq<string>)
    requires NamesUnique(db)
    requires Readlink(db, base, ino) == Ok(p)
    ensures p[0] == base
    ensures FindTaggable(db, Id(ino)).Some?
    ensures ResolveFrom(db, Inode(ROOT_ID), p[1..]).Found?
    ensures var t := FindTaggable(db, Id(ino)).value;
      SameNode(ResolveFrom(db, Inode(ROOT_ID), p[1..]).value, TargetInode((t.kind, t.targetId)))
  {
    var t := FindTaggable(db, Id(ino)).value;
    PathThenResolve(db, base, TargetInode((t.kind, t.targetId)), p);
  }

  /**
   * With the correction, an entry `lookup` finds in a tag is a link, and
   * `readlink` of it answers the very target `lookup` reported.
   */
  lemma LookupThenReadlink(db: Db, storageBase: seq<string>, stored: set<seq<string>>, base: string, tag: Inode, name: string)
    requires TaggableIdsUnique(db) && Kind(tag) == Tag
    requires Lookup(db, storageBase, stored, base, tag.raw, name).Ok?
    ensures Lookup(db, storageBase, stored, base, tag.raw, name).value.LinkEntry?
    ensures Readlink(db, base, Lookup(db, storageBase, stored, base, tag.raw, name).value.ino)
         == Ok(Lookup(db, storageBase, stored, base, tag.raw, name).value.target)
  {
    FixedDirectoriesSpecial();
    assert tag == Inode(tag.raw);
    var t := TagTarget(db, base, Id(tag), name).value.0;
    FirstUnique(db.taggables, (t': TaggableRow) => t'.id == t.id, t);
  }

  /** Tag 3 holds comic 7 through the tagging 1. */
  function TaggedComicFixture(): Db {
    Db([ComicRow(7, "c")], [], [], [TagRow(3, "t")], [TaggableRow(1, 3, TargetComic, 7, "c")])
  }

  /**
   * The input that shows the mismatch as written: `lookup` of the comic's
   * name in tag 3 reports the link `Inode::tagged(7)`, and `readlink` of that
   * link looks for a tagging 7, which does not exist.
   */
  lemma LookupThenReadlinkAsWritten(base: string)
    ensures TagLookupAsWritten(TaggedComicFixture(), base, 3, "c") == Ok(LinkEntry(TaggedInode(7), [base, "comics", "c"]))
    ensures Readlink(TaggedComicFixture(), base, TaggedInode(7)) == Err(ENOENT)
  {
    var db := TaggedComicFixture();
    var t := TaggableRow(1, 3, TargetComic, 7, "c");
    ComicPath(db, base, ComicRow(7, "c"));
    assert FindTaggedByName(db, 3, "c") == Some(t);
    assert FindTaggable(db, 7) == None;
  }

  /**
   * On the same input, the corrected `lookup` reports `Inode::tagged(1)`,
   * which `readlink` follows to the comic.
   */
  lemma LookupThenReadlinkFixture(base: string)
    ensures Lookup(TaggedComicFixture(), [], {}, base, TagInode(3).raw, "c") == Ok(LinkEntry(TaggedInode(1), [base, "comics", "c"]))
    ensures Readlink(TaggedComicFixture(), base, TaggedInode(1)) == Ok([base, "comics", "c"])
  {
    var db := TaggedComicFixture();
    var t := TaggableRow(1, 3, TargetComic, 7, "c");
    ComicPath(db, base, ComicRow(7, "c"));
    assert FindTaggedByName(db, 3, "c") == Some(t);
    assert FindTaggable(db, 1) == Some(t);
    assert TagInode(3) == Inode(TagInode(3).raw);
  }
}
