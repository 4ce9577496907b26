/**
 * Path resolution of the comic filesystem (src/fs.rs, `ComicFS::resolve` and
 * `ComicFS::resolve_inode`). The mount is laid out as
 *
 *   <base>/comics/<comic>/<episode>/<file>
 *   <base>/tags/<tag>
 *
 * `resolve` walks a relative path down from the root inode; `resolve_inode`
 * walks parent links up from an inode and reverses what it collected. Both read
 * the database and change nothing, so the database and the mount point `base`
 * are parameters here.
 */
module ComicFs {
  import opened Wrappers
  import opened Inodes
  import opened ComicDb

  /**
   * The outcome of a walk: a value, `None` from a lookup that found no row
   * (the `?` in the source), or a panic (`unreachable!`, `todo!`, or an
   * `unwrap` of an id that does not fit an `i32`).
   */
  datatype Walk<T> = Found(value: T) | Missing | Panicked

  /** `i32::try_from(ino.id())` succeeds. */
  predicate IdFits(ino: Inode) {
    Id(ino) < 0x8000_0000
  }

  // ---------------------------------------------------------------------------
  // resolve

  /**
   * One iteration of the loop in `resolve`: the child named `name` of the inode
   * with kind `kind`, id `id` and number `raw`.
   */
  function Child(db: Db, kind: InodeKind, id: bv64, raw: bv64, name: string): Walk<Inode> {
    match kind
    case Special =>
      if raw == ROOT_ID then
        if name == "comics" then Found(Inode(COMIC_ID))
        else if name == "tags" then Found(Inode(TAGS_ID))
        else Panicked
      else if raw == COMIC_ID then
        (match FindComicByName(db, name)
        case Some(c) => Found(ComicInode(c.id))
        case None => Missing)
      else if raw == TAGS_ID then
        (match FindTagByName(db, name)
        case Some(t) => Found(TagInode(t.id))
        case None => Missing)
      else Panicked
    case Comic =>
      if id >= 0x8000_0000 then Panicked
      else
        (match FindEpisodeByComicAndName(db, id, name)
        case Some(e) => Found(EposideInode(e.id))
        case None => Missing)
    case Eposide =>
      if id >= 0x8000_0000 then Panicked
      else
        (match FindFileByEpisodeAndName(db, id, name)
        case Some(f) => Found(FileInode(f.id))
        case None => Missing)
    case Tag => Panicked
    case File => Panicked
    case Tagged => Panicked
  }

  /** One step of `resolve` goes exactly one level further from the root. */
  function Step(db: Db, parent: Inode, name: string): (w: Walk<Inode>)
    ensures w.Found? ==> Rank(w.value) == Rank(parent) + 1
  {
    FixedDirectoriesSpecial();
    Child(db, Kind(parent), Id(parent), parent.raw, name)
  }

  /** Resolution of `names` below `parent`, stopping at the first missing row or panic. */
  function ResolveFrom(db: Db, parent: Inode, names: seq<string>): (w: Walk<Inode>)
    ensures w.Found? ==> Rank(w.value) == Rank(parent) + |names|
    decreases |names|
  {
    if names == [] then Found(parent)
    else
      match Step(db, parent, names[0])
      case Found(next) => ResolveFrom(db, next, names[1..])
      case Missing => Missing
      case Panicked => Panicked
  }

  /**
   * `ComicFS::resolve`: the loop over the path's components, starting at the
   * root inode; each iteration is the lookup `Step` describes.
   */
  method Resolve(db: Db, names: seq<string>) returns (r: Walk<Inode>)
    ensures r == ResolveFrom(db, Inode(ROOT_ID), names)
  {
    var parent := Inode(ROOT_ID);
    for i := 0 to |names|
      invariant ResolveFrom(db, Inode(ROOT_ID), names) == ResolveFrom(db, parent, names[i..])
    {
      assert names[i..][0] == names[i] && names[i..][1..] == names[i + 1..];
      var w := Step(db, parent, names[i]);
      if !w.Found? {
        return w;
      }
      parent := w.value;
    }
    return Found(parent);
  }

  // ---------------------------------------------------------------------------
  // resolve_inode

  /** How many parent links separate an inode from the root. */
  function Rank(ino: Inode): nat {
    match Kind(ino)
    case File => 4
    case Eposide => 3
    case Comic => 2
    case Tag => 2
    case Tagged => 0
    case Special => if ino.raw == ROOT_ID then 0 else 1
  }

  function Append(w: Walk<seq<string>>, name: string): Walk<seq<string>> {
    match w
    case Found(p) => Found(p + [name])
    case Missing => Missing
    case Panicked => Panicked
  }

  /**
   * One iteration of the loop in `resolve_inode` below the root: the parent
   * link it follows from the inode with kind `kind`, id `id` and number `raw`,
   * and the name it pushes.
   */
  function ParentLink(db: Db, kind: InodeKind, id: bv64, raw: bv64): Walk<(Inode, string)> {
    match kind
    case Special =>
      if raw == COMIC_ID then Found((Inode(ROOT_ID), "comics"))
      else if raw == TAGS_ID then Found((Inode(ROOT_ID), "tags"))
      else Panicked
    case Comic =>
      if id >= 0x8000_0000 then Panicked
      else
        (match FindComic(db, id)
        case None => Missing
        case Some(c) => Found((Inode(COMIC_ID), c.name)))
    case Eposide =>
      if id >= 0x8000_0000 then Panicked
      else
        (match FindEpisode(db, id)
        case None => Missing
        case Some(e) => Found((ComicInode(e.comicId), e.name)))
    case File =>
      if id >= 0x8000_0000 then Panicked
      else
        (match FindFile(db, id)
        case None => Missing
        case Some(f) => Found((EposideInode(f.episodeId), f.name)))
    case Tag =>
      if id >= 0x8000_0000 then Panicked
      else
        (match FindTag(db, id)
        case None => Missing
        case Some(t) => Found((Inode(TAGS_ID), t.name)))
    case Tagged => Panicked
  }

  function Link(db: Db, ino: Inode): (l: Walk<(Inode, string)>)
    requires ino.raw != ROOT_ID
    ensures l.Found? ==> Rank(l.value.0) + 1 == Rank(ino)
  {
    FixedDirectoriesSpecial();
    ParentLink(db, Kind(ino), Id(ino), ino.raw)
  }

  /**
   * The path of `ino` as components, the mount point first: the root is `base`,
   * the fixed directories sit below it, a comic below `comics`, a tag below
   * `tags`, an episode below its comic and a file below its episode.
   */
  function InodePath(db: Db, base: string, ino: Inode): (w: Walk<seq<string>>)
    decreases Rank(ino)
    ensures w.Found? ==> |w.value| == Rank(ino) + 1 && w.value[0] == base
  {
    if ino.raw == ROOT_ID then
      FixedDirectoriesSpecial();
      assert ino == Inode(ROOT_ID);
      Found([base])
    else
      match Link(db, ino)
      case Found((parent, name)) => Append(InodePath(db, base, parent), name)
      case Missing => Missing
      case Panicked => Panicked
  }

  /** `s` back to front. */
  function Reverse(s: seq<string>): (r: seq<string>)
    ensures |r| == |s|
  {
    if s == [] then [] else [s[|s| - 1]] + Reverse(s[..|s| - 1])
  }

  /** Appends `suffix` to a found path. */
  function Extend(w: Walk<seq<string>>, suffix: seq<string>): Walk<seq<string>> {
    match w
    case Found(p) => Found(p + suffix)
    case Missing => Missing
    case Panicked => Panicked
  }

  /** Pushing one more component extends the reversed path at its front. */
  lemma ExtendAppend(w: Walk<seq<string>>, name: string, components: seq<string>)
    ensures Extend(Append(w, name), Reverse(components)) == Extend(w, Reverse(components + [name]))
  {
    assert (components + [name])[..|components|] == components;
    if w.Found? {
      assert w.value + [name] + Reverse(components) == w.value + ([name] + Reverse(components));
    }
  }

  /** Only a fixed directory can be the root. */
  lemma NotRoot(ino: Inode)
    requires Kind(ino) != Special
    ensures ino.raw != ROOT_ID
  {
  }

  // The loop of `resolve_inode` keeps `InodePath(ino)` equal to the path of the
  // inode it is at, extended by the reversed names pushed so far.

  lemma FollowLink(db: Db, base: string, ino: Inode, cur: Inode, components: seq<string>)
    requires cur.raw != ROOT_ID && Link(db, cur).Found?
    requires InodePath(db, base, ino) == Extend(InodePath(db, base, cur), Reverse(components))
    ensures InodePath(db, base, ino)
      == Extend(InodePath(db, base, Link(db, cur).value.0), Reverse(components + [Link(db, cur).value.1]))
  {
    ExtendAppend(InodePath(db, base, Link(db, cur).value.0), Link(db, cur).value.1, components);
  }

  lemma LinkFails(db: Db, base: string, ino: Inode, cur: Inode, components: seq<string>)
    requires cur.raw != ROOT_ID && !Link(db, cur).Found?
    requires InodePath(db, base, ino) == Extend(InodePath(db, base, cur), Reverse(components))
    ensures InodePath(db, base, ino) == if Link(db, cur).Missing? then Missing else Panicked
  {
  }

  lemma ReachRoot(db: Db, base: string, ino: Inode, cur: Inode, components: seq<string>)
    requires cur.raw == ROOT_ID
    requires InodePath(db, base, ino) == Extend(InodePath(db, base, cur), Reverse(components))
    ensures InodePath(db, base, ino) == Found(Reverse(components + [base]))
  {
    ExtendAppend(Found([]), base, components);
    assert [] + [base] == [base];
  }

  lemma ExtendNothing(w: Walk<seq<string>>)
    ensures Extend(w, Reverse([])) == w
  {
    if w.Found? {
      assert w.value + [] == w.value;
    }
  }

  /**
   * `ComicFS::resolve_inode`: collects names from the inode up to the root, then
   * reverses them.
   */
  method ResolveInode(db: Db, base: string, ino: Inode) returns (r: Walk<seq<string>>)
    ensures r == InodePath(db, base, ino)
  {
    var next: Option<Inode> := Some(ino);
    var components: seq<string> := [];
    ExtendNothing(InodePath(db, base, ino));
    while next.Some?
      invariant next.Some? ==> InodePath(db, base, ino) == Extend(InodePath(db, base, next.value), Reverse(components))
      invariant next.None? ==> InodePath(db, base, ino) == Found(Reverse(components))
      decreases if next.Some? then Rank(next.value) + 1 else 0
    {
      var cur := next.value;
      if cur.raw == ROOT_ID {
        ReachRoot(db, base, ino, cur, components);
        components := components + [base];
        next := None;
      } else {
        var link := Link(db, cur);
        if !link.Found? {
          LinkFails(db, base, ino, cur, components);
          return if link.Missing? then Missing else Panicked;
        }
        FollowLink(db, base, ino, cur, components);
        components := components + [link.value.1];
        next := Some(link.value.0);
      }
    }
    r := Found(Reverse(components));
  }

  // ---------------------------------------------------------------------------
  // How the two walks relate

  /** Continues a walk by one more component. */
  function Then(db: Db, w: Walk<Inode>, name: string): Walk<Inode> {
    match w
    case Found(x) => Step(db, x, name)
    case Missing => Missing
    case Panicked => Panicked
  }

  /** Resolving one more component is one more step from where the shorter path ends. */
  lemma {:induction false} ResolveFromSnoc(db: Db, parent: Inode, names: seq<string>, name: string)
    ensures ResolveFrom(db, parent, names + [name]) == Then(db, ResolveFrom(db, parent, names), name)
    decreases |names|
  {
    if names == [] {
      assert ([] + [name])[1..] == [];
    } else {
      assert (names + [name])[0] == names[0];
      assert (names + [name])[1..] == names[1..] + [name];
      match Step(db, parent, names[0]) {
        case Found(next) =>
          ResolveFromSnoc(db, next, names[1..], name);
        case Missing =>
        case Panicked =>
      }
    }
  }

  /** Two inodes name the same node: the same fixed directory, or the same kind and row id. */
  predicate SameNode(a: Inode, b: Inode) {
    Kind(a) == Kind(b) && if Kind(a) == Special then a == b else Id(a) == Id(b)
  }

  /** `resolve_inode` reads only the kind and the id of a database-backed inode. */
  lemma LinkOfSameNode(db: Db, a: Inode, b: Inode)
    requires a.raw != ROOT_ID && b.raw != ROOT_ID
    requires Kind(a) == Kind(b) && Kind(a) != Special && Id(a) == Id(b)
    ensures Link(db, a) == Link(db, b)
  {
  }

  lemma PathOfSameNode(db: Db, base: string, a: Inode, b: Inode)
    requires SameNode(a, b)
    ensures InodePath(db, base, a) == InodePath(db, base, b)
  {
    if Kind(a) != Special {
      NotRoot(a);
      NotRoot(b);
      LinkOfSameNode(db, a, b);
    }
  }

  // Each kind of row links back to the directory it is listed in, under its own
  // name, and is found again by that name in that directory.

  lemma ComicLinksBack(db: Db, c: ComicRow)
    requires IdsUnique(db) && c in db.comics
    ensures ComicInode(c.id).raw != ROOT_ID
    ensures Link(db, ComicInode(c.id)) == Found((Inode(COMIC_ID), c.name))
  {
    NotRoot(ComicInode(c.id));
    FirstUnique(db.comics, (r: ComicRow) => r.id == c.id, c);
  }

  lemma EpisodeLinksBack(db: Db, e: EpisodeRow)
    requires IdsUnique(db) && e in db.episodes
    ensures EposideInode(e.id).raw != ROOT_ID
    ensures Link(db, EposideInode(e.id)) == Found((ComicInode(e.comicId), e.name))
  {
    NotRoot(EposideInode(e.id));
    FirstUnique(db.episodes, (r: EpisodeRow) => r.id == e.id, e);
  }

  lemma FileLinksBack(db: Db, f: FileRow)
    requires IdsUnique(db) && f in db.files
    ensures FileInode(f.id).raw != ROOT_ID
    ensures Link(db, FileInode(f.id)) == Found((EposideInode(f.episodeId), f.name))
  {
    NotRoot(FileInode(f.id));
    FirstUnique(db.files, (r: FileRow) => r.id == f.id, f);
  }

  lemma TagLinksBack(db: Db, t: TagRow)
    requires IdsUnique(db) && t in db.tags
    ensures TagInode(t.id).raw != ROOT_ID
    ensures Link(db, TagInode(t.id)) == Found((Inode(TAGS_ID), t.name))
  {
    NotRoot(TagInode(t.id));
    FirstUnique(db.tags, (r: TagRow) => r.id == t.id, t);
  }

  lemma ComicFoundByName(db: Db, c: ComicRow, y: Inode)
    requires NamesUnique(db) && c in db.comics && y == Inode(COMIC_ID)
    ensures Step(db, y, c.name) == Found(ComicInode(c.id))
  {
    FixedDirectoriesSpecial();
    FirstUnique(db.comics, (r: ComicRow) => r.name == c.name, c);
  }

  lemma TagFoundByName(db: Db, t: TagRow, y: Inode)
    requires NamesUnique(db) && t in db.tags && y == Inode(TAGS_ID)
    ensures Step(db, y, t.name) == Found(TagInode(t.id))
  {
    FixedDirectoriesSpecial();
    FirstUnique(db.tags, (r: TagRow) => r.name == t.name, t);
  }

  lemma EpisodeFoundByName(db: Db, e: EpisodeRow, y: Inode)
    requires NamesUnique(db) && e in db.episodes && Kind(y) == Comic && Id(y) == e.comicId
    ensures Step(db, y, e.name) == Found(EposideInode(e.id))
  {
    FirstUnique(db.episodes, (r: EpisodeRow) => r.comicId == e.comicId && r.name == e.name, e);
  }

  lemma FileFoundByName(db: Db, f: FileRow, y: Inode)
    requires NamesUnique(db) && f in db.files && Kind(y) == Eposide && Id(y) == f.episodeId
    ensures Step(db, y, f.name) == Found(FileInode(f.id))
  {
    FirstUnique(db.files, (r: FileRow) => r.episodeId == f.episodeId && r.name == f.name, f);
  }

  /**
   * A step of `resolve` is undone by the parent link of `resolve_inode`: when
   * ids are unique, the child found under `parent` by `name` links back to
   * `parent` under that name.
   */
  lemma StepThenLink(db: Db, parent: Inode, name: string, next: Inode)
    requires IdsUnique(db)
    requires Step(db, parent, name) == Found(next)
    ensures next.raw != ROOT_ID
    ensures Link(db, next).Found? && Link(db, next).value.1 == name
    ensures SameNode(Link(db, next).value.0, parent)
  {
    FixedDirectoriesSpecial();
    match Kind(parent) {
      case Special =>
        if parent.raw == COMIC_ID {
          ComicLinksBack(db, FindComicByName(db, name).value);
        } else if parent.raw == TAGS_ID {
          TagLinksBack(db, FindTagByName(db, name).value);
        }
        assert parent == Inode(parent.raw);
      case Comic =>
        EpisodeLinksBack(db, FindEpisodeByComicAndName(db, Id(parent), name).value);
      case Eposide =>
        FileLinksBack(db, FindFileByEpisodeAndName(db, Id(parent), name).value);
    }
  }

  /**
   * A parent link of `resolve_inode` is undone by a step of `resolve`: when names
   * are unique, looking the pushed name up under the parent finds the node again.
   */
  lemma LinkThenStep(db: Db, ino: Inode, parent: Inode, name: string, y: Inode)
    requires NamesUnique(db)
    requires ino.raw != ROOT_ID && Link(db, ino) == Found((parent, name))
    requires SameNode(y, parent)
    ensures Step(db, y, name).Found? && SameNode(Step(db, y, name).value, ino)
  {
    FixedDirectoriesSpecial();
    match Kind(ino) {
      case Special =>
        assert ino == Inode(ino.raw);
      case Comic =>
        ComicFoundByName(db, FindComic(db, Id(ino)).value, y);
      case Eposide =>
        EpisodeFoundByName(db, FindEpisode(db, Id(ino)).value, y);
      case File =>
        FileFoundByName(db, FindFile(db, Id(ino)).value, y);
      case Tag =>
        TagFoundByName(db, FindTag(db, Id(ino)).value, y);
    }
  }

  /** A step taken by `resolve` from an inode with a path adds the step's name to that path. */
  lemma StepPath(db: Db, base: string, parent: Inode, name: string, next: Inode)
    requires IdsUnique(db)
    requires Step(db, parent, name) == Found(next)
    ensures InodePath(db, base, next) == Append(InodePath(db, base, parent), name)
  {
    StepThenLink(db, parent, name, next);
    PathOfSameNode(db, base, Link(db, next).value.0, parent);
  }

  /** Resolving `names` below an inode with path `p` gives an inode with path `p + names`. */
  lemma {:induction false} ResolveFromPath(db: Db, base: string, parent: Inode, p: seq<string>, names: seq<string>, ino: Inode)
    requires IdsUnique(db)
    requires InodePath(db, base, parent) == Found(p)
    requires ResolveFrom(db, parent, names) == Found(ino)
    ensures InodePath(db, base, ino) == Found(p + names)
    decreases |names|
  {
    if names == [] {
      assert p + names == p;
    } else {
      var next := StepFromPath(db, base, parent, p, names, ino);
      ResolveFromPath(db, base, next, p + [names[0]], names[1..], ino);
      ConcatCons(p, names);
    }
  }

  lemma ConcatCons(p: seq<string>, names: seq<string>)
    requires names != []
    ensures p + [names[0]] + names[1..] == p + names
  {
  }

  /** The first step of a resolution, with the path of the inode it reaches. */
  lemma StepFromPath(db: Db, base: string, parent: Inode, p: seq<string>, names: seq<string>, ino: Inode) returns (next: Inode)
    requires IdsUnique(db)
    requires InodePath(db, base, parent) == Found(p)
    requires names != [] && ResolveFrom(db, parent, names) == Found(ino)
    ensures InodePath(db, base, next) == Found(p + [names[0]])
    ensures ResolveFrom(db, next, names[1..]) == Found(ino)
  {
    next := Step(db, parent, names[0]).value;
    StepPath(db, base, parent, names[0], next);
  }

  /**
   * `resolve_inode` undoes `resolve`: when every table's ids are unique, the
   * inode a relative path resolves to has that path below the mount point.
   */
  lemma ResolveThenPath(db: Db, base: string, names: seq<string>, ino: Inode)
    requires IdsUnique(db)
    requires ResolveFrom(db, Inode(ROOT_ID), names) == Found(ino)
    ensures InodePath(db, base, ino) == Found([base] + names)
  {
    ResolveFromPath(db, base, Inode(ROOT_ID), [base], names, ino);
  }

  /** One step of `resolve_inode` up from an inode that has a parent link. */
  lemma PathOfLink(db: Db, base: string, ino: Inode)
    requires ino.raw != ROOT_ID && Link(db, ino).Found?
    ensures InodePath(db, base, ino) == Append(InodePath(db, base, Link(db, ino).value.0), Link(db, ino).value.1)
  {
  }

  /** The paths of the two fixed directories: `base/comics` and `base/tags`. */
  lemma FixedDirectoryPaths(db: Db, base: string)
    ensures InodePath(db, base, Inode(COMIC_ID)) == Found([base, "comics"])
    ensures InodePath(db, base, Inode(TAGS_ID)) == Found([base, "tags"])
  {
    FixedDirectoriesSpecial();
    assert InodePath(db, base, Inode(ROOT_ID)) == Found([base]);
    assert Link(db, Inode(COMIC_ID)) == Found((Inode(ROOT_ID), "comics"));
    PathOfLink(db, base, Inode(COMIC_ID));
    assert [base] + ["comics"] == [base, "comics"];
    assert Link(db, Inode(TAGS_ID)) == Found((Inode(ROOT_ID), "tags"));
    PathOfLink(db, base, Inode(TAGS_ID));
    assert [base] + ["tags"] == [base, "tags"];
  }

  /** The path `resolve_inode` builds for a comic: `base/comics/<comic>`. */
  lemma ComicPath(db: Db, base: string, c: ComicRow)
    requires IdsUnique(db) && c in db.comics
    ensures InodePath(db, base, ComicInode(c.id)) == Found([base, "comics", c.name])
  {
    ComicLinksBack(db, c);
    FixedDirectoryPaths(db, base);
    PathOfLink(db, base, ComicInode(c.id));
    assert [base, "comics"] + [c.name] == [base, "comics", c.name];
  }

  /** The path of a tag: `base/tags/<tag>`. */
  lemma TagPath(db: Db, base: string, t: TagRow)
    requires IdsUnique(db) && t in db.tags
    ensures InodePath(db, base, TagInode(t.id)) == Found([base, "tags", t.name])
  {
    TagLinksBack(db, t);
    FixedDirectoryPaths(db, base);
    PathOfLink(db, base, TagInode(t.id));
    assert [base, "tags"] + [t.name] == [base, "tags", t.name];
  }

  /** The path of an episode: `base/comics/<comic>/<episode>`. */
  lemma EpisodePath(db: Db, base: string, e: EpisodeRow, c: ComicRow)
    requires IdsUnique(db) && e in db.episodes && c in db.comics && e.comicId == c.id
    ensures InodePath(db, base, EposideInode(e.id)) == Found([base, "comics", c.name, e.name])
  {
    EpisodeLinksBack(db, e);
    ComicPath(db, base, c);
    PathOfLink(db, base, EposideInode(e.id));
    assert [base, "comics", c.name] + [e.name] == [base, "comics", c.name, e.name];
  }

  /** The path of a file: `base/comics/<comic>/<episode>/<file>`. */
  lemma FilePath(db: Db, base: string, f: FileRow, e: EpisodeRow, c: ComicRow)
    requires IdsUnique(db) && f in db.files && e in db.episodes && c in db.comics
    requires f.episodeId == e.id && e.comicId == c.id
    ensures InodePath(db, base, FileInode(f.id)) == Found([base, "comics", c.name, e.name, f.name])
  {
    FileLinksBack(db, f);
    EpisodePath(db, base, e, c);
    PathOfLink(db, base, FileInode(f.id));
    assert [base, "comics", c.name, e.name] + [f.name] == [base, "comics", c.name, e.name, f.name];
  }

  /** A file whose episode row is gone has no path: the lookup on the way up fails. */
  lemma OrphanFileMissing(db: Db, base: string, f: FileRow)
    requires IdsUnique(db) && f in db.files
    requires forall e :: e in db.episodes ==> e.id != f.episodeId
    ensures InodePath(db, base, FileInode(f.id)) == Missing
  {
    FileLinksBack(db, f);
    PathOfLink(db, base, FileInode(f.id));
    FirstNone(db.episodes, (r: EpisodeRow) => r.id == f.episodeId);
    assert EposideInode(f.episodeId).raw != ROOT_ID && Link(db, EposideInode(f.episodeId)) == Missing;
  }

  /**
   * `resolve` undoes `resolve_inode`: when names are unique where paths look
   * them up, resolving the components of an inode's path below the mount point
   * leads back to that node.
   */
  lemma {:induction false} PathThenResolve(db: Db, base: string, ino: Inode, p: seq<string>)
    requires NamesUnique(db)
    requires InodePath(db, base, ino) == Found(p)
    ensures ResolveFrom(db, Inode(ROOT_ID), p[1..]).Found?
    ensures SameNode(ResolveFrom(db, Inode(ROOT_ID), p[1..]).value, ino)
    decreases Rank(ino)
  {
    var root := Inode(ROOT_ID);
    if ino.raw == ROOT_ID {
      assert ino == root && p[1..] == [];
    } else {
      var (parent, name) := Link(db, ino).value;
      var q := InodePath(db, base, parent).value;
      assert p[1..] == q[1..] + [name];
      PathThenResolve(db, base, parent, q);
      ResolveFromSnoc(db, root, q[1..], name);
      LinkThenStep(db, ino, parent, name, ResolveFrom(db, root, q[1..]).value);
    }
  }

  /**
   * Where a resolved path of `depth` components, the first being `top`, can end:
   * the root; one of the two fixed directories; a comic or a tag; an episode;
   * a file. Nothing lies deeper.
   */
  predicate AtDepth(depth: nat, top: string, x: Inode) {
    if depth == 0 then x == Inode(ROOT_ID)
    else if depth == 1 then (top == "comics" && x == Inode(COMIC_ID)) || (top == "tags" && x == Inode(TAGS_ID))
    else if depth == 2 then (top == "comics" && Kind(x) == Comic) || (top == "tags" && Kind(x) == Tag)
    else if depth == 3 then top == "comics" && Kind(x) == Eposide
    else depth == 4 && top == "comics" && Kind(x) == File
  }

  /** One step of `resolve` goes one level down. */
  lemma StepKind(db: Db, depth: nat, top: string, y: Inode, name: string, x: Inode)
    requires AtDepth(depth, top, y) && (depth == 0 ==> top == name)
    requires Step(db, y, name) == Found(x)
    ensures AtDepth(depth + 1, top, x) && IdFits(x)
  {
    FixedDirectoriesSpecial();
    if depth == 1 {
      assert y.raw == COMIC_ID || y.raw == TAGS_ID;
    }
  }

  /** What a resolved path can lead to, and that its id fits an `i32`. */
  lemma {:induction false} ResolvedKind(db: Db, names: seq<string>, x: Inode)
    requires ResolveFrom(db, Inode(ROOT_ID), names) == Found(x)
    ensures AtDepth(|names|, if names == [] then "" else names[0], x)
    ensures IdFits(x)
    decreases |names|
  {
    if names == [] {
      FixedDirectoriesSpecial();
    } else {
      var init := names[..|names| - 1];
      assert names == init + [names[|names| - 1]];
      ResolveFromSnoc(db, Inode(ROOT_ID), init, names[|names| - 1]);
      var y := ResolveFrom(db, Inode(ROOT_ID), init).value;
      ResolvedKind(db, init, y);
      StepKind(db, |init|, names[0], y, names[|names| - 1], x);
    }
  }
}
