/**
 * The SQLite tables the comic filesystem reads (src/schema.rs, src/models.rs),
 * as sequences of rows, and the lookups src/fs.rs calls on them
 * (`Comic::find`, `Comic::find_by_name`, `Episode::find`,
 * `Episode::find_by_comic_and_name`, `File::find`, `File::find_by_eposide_and_name`,
 * `Tag::find`, `Tag::find_by_name`, `Taggables::taggables`, `Taggable::find_info`).
 * The queries themselves are not visible; each lookup is taken to return the
 * first row, in table order, that matches.
 */
module ComicDb {
  import opened Wrappers
  import opened Inodes

  datatype ComicRow = ComicRow(id: RowId, name: string)
  datatype EpisodeRow = EpisodeRow(id: RowId, name: string, comicId: RowId)
  /** `content_hash` is "" until the first write stores the file's content. */
  datatype FileRow = FileRow(id: RowId, name: string, contentHash: string, episodeId: RowId)
  datatype TagRow = TagRow(id: RowId, name: string)

  /** What a tag can point at. */
  datatype TargetKind = TargetComic | TargetEpisode | TargetFile
  /**
   * A row of the taggable table: the tagging `id` attaches the tag `tagId` to
   * the comic, episode or file `targetId`, whose name is `name` (the name
   * `Taggables::taggables` reports for it).
   */
  datatype TaggableRow = TaggableRow(id: RowId, tagId: RowId, kind: TargetKind, targetId: RowId, name: string)

  datatype Db = Db(
    comics: seq<ComicRow>,
    episodes: seq<EpisodeRow>,
    files: seq<FileRow>,
    tags: seq<TagRow>,
    taggables: seq<TaggableRow>)

  /** The first row satisfying `p`, if any. */
  function First<T>(rows: seq<T>, p: T -> bool): (r: Option<T>)
    ensures r.Some? ==> r.value in rows && p(r.value)
  {
    if rows == [] then None
    else if p(rows[0]) then Some(rows[0])
    else First(rows[1..], p)
  }

  /** The lookup comes back empty exactly when no row satisfies `p`. */
  lemma {:induction false} FirstNone<T>(rows: seq<T>, p: T -> bool)
    ensures First(rows, p).None? <==> forall x :: x in rows ==> !p(x)
  {
    if rows != [] {
      assert rows[0] in rows;
      FirstNone(rows[1..], p);
      assert forall x :: x in rows[1..] ==> x in rows;
      assert forall x :: x in rows && x != rows[0] ==> x in rows[1..];
    }
  }

  /** When exactly one row satisfies `p`, the lookup returns it. */
  lemma {:induction false} FirstUnique<T>(rows: seq<T>, p: T -> bool, x: T)
    requires x in rows && p(x)
    requires forall y :: y in rows && p(y) ==> y == x
    ensures First(rows, p) == Some(x)
  {
    if !p(rows[0]) {
      assert rows[0] != x;
      assert x in rows[1..];
      FirstUnique(rows[1..], p, x);
    }
  }

  /** Rows appended after a match do not change what the lookup returns. */
  lemma {:induction false} FirstOfExtended<T>(rows: seq<T>, rows': seq<T>, p: T -> bool)
    requires rows <= rows'
    requires First(rows, p).Some?
    ensures First(rows', p) == First(rows, p)
  {
    assert rows'[0] == rows[0];
    if !p(rows[0]) {
      assert rows[1..] <= rows'[1..];
      FirstOfExtended(rows[1..], rows'[1..], p);
    }
  }

  // Each lookup finds a row of its table that matches, and comes back empty
  // exactly when no row matches.

  function FindComic(db: Db, id: RowId): (r: Option<ComicRow>)
    ensures r.Some? ==> r.value in db.comics && r.value.id == id
    ensures r.None? <==> forall x :: x in db.comics ==> x.id != id
  {
    FirstNone(db.comics, (r: ComicRow) => r.id == id);
    First(db.comics, (r: ComicRow) => r.id == id)
  }

  function FindComicByName(db: Db, name: string): (r: Option<ComicRow>)
    ensures r.Some? ==> r.value in db.comics && r.value.name == name
    ensures r.None? <==> forall x :: x in db.comics ==> x.name != name
  {
    FirstNone(db.comics, (r: ComicRow) => r.name == name);
    First(db.comics, (r: ComicRow) => r.name == name)
  }

  function FindEpisode(db: Db, id: RowId): (r: Option<EpisodeRow>)
    ensures r.Some? ==> r.value in db.episodes && r.value.id == id
    ensures r.None? <==> forall x :: x in db.episodes ==> x.id != id
  {
    FirstNone(db.episodes, (r: EpisodeRow) => r.id == id);
    First(db.episodes, (r: EpisodeRow) => r.id == id)
  }

  function FindEpisodeByComicAndName(db: Db, comicId: RowId, name: string): (r: Option<EpisodeRow>)
    ensures r.Some? ==> r.value in db.episodes && r.value.comicId == comicId && r.value.name == name
    ensures r.None? <==> forall x :: x in db.episodes ==> x.comicId != comicId || x.name != name
  {
    FirstNone(db.episodes, (r: EpisodeRow) => r.comicId == comicId && r.name == name);
    First(db.episodes, (r: EpisodeRow) => r.comicId == comicId && r.name == name)
  }

  function FindFile(db: Db, id: RowId): (r: Option<FileRow>)
    ensures r.Some? ==> r.value in db.files && r.value.id == id
    ensures r.None? <==> forall x :: x in db.files ==> x.id != id
  {
    FirstNone(db.files, (r: FileRow) => r.id == id);
    First(db.files, (r: FileRow) => r.id == id)
  }

  function FindFileByEpisodeAndName(db: Db, episodeId: RowId, name: string): (r: Option<FileRow>)
    ensures r.Some? ==> r.value in db.files && r.value.episodeId == episodeId && r.value.name == name
    ensures r.None? <==> forall x :: x in db.files ==> x.episodeId != episodeId || x.name != name
  {
    FirstNone(db.files, (r: FileRow) => r.episodeId == episodeId && r.name == name);
    First(db.files, (r: FileRow) => r.episodeId == episodeId && r.name == name)
  }

  function FindTag(db: Db, id: RowId): (r: Option<TagRow>)
    ensures r.Some? ==> r.value in db.tags && r.value.id == id
    ensures r.None? <==> forall x :: x in db.tags ==> x.id != id
  {
    FirstNone(db.tags, (r: TagRow) => r.id == id);
    First(db.tags, (r: TagRow) => r.id == id)
  }

  function FindTagByName(db: Db, name: string): (r: Option<TagRow>)
    ensures r.Some? ==> r.value in db.tags && r.value.name == name
    ensures r.None? <==> forall x :: x in db.tags ==> x.name != name
  {
    FirstNone(db.tags, (r: TagRow) => r.name == name);
    First(db.tags, (r: TagRow) => r.name == name)
  }

  /** The first tagging of `tagId` whose target is named `name` (the `find_map` of `lookup`). */
  function FindTaggedByName(db: Db, tagId: RowId, name: string): (r: Option<TaggableRow>)
    ensures r.Some? ==> r.value in db.taggables && r.value.tagId == tagId && r.value.name == name
    ensures r.None? <==> forall x :: x in db.taggables ==> x.tagId != tagId || x.name != name
  {
    FirstNone(db.taggables, (t: TaggableRow) => t.tagId == tagId && t.name == name);
    First(db.taggables, (t: TaggableRow) => t.tagId == tagId && t.name == name)
  }

  /** `Taggable::find_info(id)`: the tagging whose own id is `id`. */
  function FindTaggable(db: Db, id: RowId): (r: Option<TaggableRow>)
    ensures r.Some? ==> r.value in db.taggables && r.value.id == id
    ensures r.None? <==> forall x :: x in db.taggables ==> x.id != id
  {
    FirstNone(db.taggables, (t: TaggableRow) => t.id == id);
    First(db.taggables, (t: TaggableRow) => t.id == id)
  }

  /** Every table's `id` is its primary key. */
  predicate IdsUnique(db: Db) {
    && (forall x, y :: x in db.comics && y in db.comics && x.id == y.id ==> x == y)
    && (forall x, y :: x in db.episodes && y in db.episodes && x.id == y.id ==> x == y)
    && (forall x, y :: x in db.files && y in db.files && x.id == y.id ==> x == y)
    && (forall x, y :: x in db.tags && y in db.tags && x.id == y.id ==> x == y)
  }

  /** The taggable table's `id` is its primary key. */
  predicate TaggableIdsUnique(db: Db) {
    forall x, y :: x in db.taggables && y in db.taggables && x.id == y.id ==> x == y
  }

  /**
   * Names are unique where a path looks them up: comics and tags by name,
   * episodes by name within a comic, files by name within an episode.
   */
  predicate NamesUnique(db: Db) {
    && (forall x, y :: x in db.comics && y in db.comics && x.name == y.name ==> x == y)
    && (forall x, y :: x in db.episodes && y in db.episodes && x.comicId == y.comicId && x.name == y.name ==> x == y)
    && (forall x, y :: x in db.files && y in db.files && x.episodeId == y.episodeId && x.name == y.name ==> x == y)
    && (forall x, y :: x in db.tags && y in db.tags && x.name == y.name ==> x == y)
  }

  /** `File::update_content_hash`: every file row with id `id` gets the hash `hash`. */
  function UpdateContentHash(db: Db, id: RowId, hash: string): Db {
    db.(files := WithHash(db.files, id, hash))
  }

  function WithHash(files: seq<FileRow>, id: RowId, hash: string): (r: seq<FileRow>)
    ensures |r| == |files|
  {
    if files == [] then []
    else [if files[0].id == id then files[0].(contentHash := hash) else files[0]] + WithHash(files[1..], id, hash)
  }

  /**
   * After the update, looking a file up by id finds the same row as before,
   * carrying the new hash when it is the updated one.
   */
  lemma {:induction false} FindFileAfterUpdate(db: Db, id: RowId, hash: string, k: RowId)
    ensures FindFile(UpdateContentHash(db, id, hash), k)
         == match FindFile(db, k)
            case None => None
            case Some(f) => Some(if k == id then f.(contentHash := hash) else f)
    decreases |db.files|
  {
    if db.files != [] {
      var rest := db.(files := db.files[1..]);
      var u, u' := UpdateContentHash(db, id, hash), UpdateContentHash(rest, id, hash);
      var f0 := db.files[0];
      assert u.files[0].id == f0.id;
      assert u.files[1..] == u'.files;
      if f0.id != k {
        FindFileAfterUpdate(rest, id, hash, k);
        assert FindFile(u, k) == FindFile(u', k);
        assert FindFile(db, k) == FindFile(rest, k);
      }
    }
  }

  /** Every row after the update is a row from before, with its hash replaced only when its id is `id`. */
  lemma {:induction false} WithHashRows(files: seq<FileRow>, id: RowId, hash: string, x: FileRow)
    requires x in WithHash(files, id, hash)
    ensures x in files || (x.id == id && x.contentHash == hash)
    decreases |files|
  {
    if x != WithHash(files, id, hash)[0] {
      WithHashRows(files[1..], id, hash, x);
    }
  }

  /** Appending a row changes a lookup only when nothing earlier matched. */
  lemma {:induction false} FirstAppend<T>(rows: seq<T>, p: T -> bool, x: T)
    ensures First(rows + [x], p)
         == if First(rows, p).Some? then First(rows, p) else if p(x) then Some(x) else None
    decreases |rows|
  {
    if rows == [] {
      assert [] + [x] == [x];
    } else {
      assert (rows + [x])[1..] == rows[1..] + [x];
      FirstAppend(rows[1..], p, x);
    }
  }

  // A row inserted with an id (or, where the lookup is by name, a name) that no
  // row has yet is what the lookup finds afterwards.

  lemma FindFileOfInserted(db: Db, row: FileRow)
    requires forall f :: f in db.files ==> f.id != row.id
    ensures FindFile(db.(files := db.files + [row]), row.id) == Some(row)
  {
    FirstAppend(db.files, (r: FileRow) => r.id == row.id, row);
    FirstNone(db.files, (r: FileRow) => r.id == row.id);
  }

  lemma FindFileByNameOfInserted(db: Db, row: FileRow)
    requires forall f :: f in db.files && f.episodeId == row.episodeId ==> f.name != row.name
    ensures FindFileByEpisodeAndName(db.(files := db.files + [row]), row.episodeId, row.name) == Some(row)
  {
    FirstAppend(db.files, (r: FileRow) => r.episodeId == row.episodeId && r.name == row.name, row);
    FirstNone(db.files, (r: FileRow) => r.episodeId == row.episodeId && r.name == row.name);
  }

  lemma FindComicByNameOfInserted(db: Db, row: ComicRow)
    requires forall c :: c in db.comics ==> c.name != row.name
    ensures FindComicByName(db.(comics := db.comics + [row]), row.name) == Some(row)
  {
    FirstAppend(db.comics, (r: ComicRow) => r.name == row.name, row);
    FirstNone(db.comics, (r: ComicRow) => r.name == row.name);
  }

  lemma FindEpisodeByNameOfInserted(db: Db, row: EpisodeRow)
    requires forall e :: e in db.episodes && e.comicId == row.comicId ==> e.name != row.name
    ensures FindEpisodeByComicAndName(db.(episodes := db.episodes + [row]), row.comicId, row.name) == Some(row)
  {
    FirstAppend(db.episodes, (r: EpisodeRow) => r.comicId == row.comicId && r.name == row.name, row);
    FirstNone(db.episodes, (r: EpisodeRow) => r.comicId == row.comicId && r.name == row.name);
  }

  lemma FindTagByNameOfInserted(db: Db, row: TagRow)
    requires forall t :: t in db.tags ==> t.name != row.name
    ensures FindTagByName(db.(tags := db.tags + [row]), row.name) == Some(row)
  {
    FirstAppend(db.tags, (r: TagRow) => r.name == row.name, row);
    FirstNone(db.tags, (r: TagRow) => r.name == row.name);
  }
}
