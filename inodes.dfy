/**
 * Inode numbers of the comic filesystem (src/fs.rs): a `u64` whose five top bits
 * (63 down to 59) mark what the inode stands for and whose remaining bits carry
 * the database row id. An inode with no mark bit is one of the fixed directories.
 */
module Inodes {

  /** `Inode(u64)`. */
  datatype Inode = Inode(raw: bv64)

  /** What an inode stands for, as `Inode::kind` reports it. */
  datatype InodeKind = File | Eposide | Comic | Tag | Tagged | Special

  const IS_FILE: bv64 := 1 << 63
  const IS_EPOSIDE: bv64 := 1 << 62
  const IS_COMIC: bv64 := 1 << 61
  const IS_TAG: bv64 := 1 << 60
  const IS_TAGGED: bv64 := 1 << 59
  const MARK_MASK: bv64 := IS_COMIC | IS_EPOSIDE | IS_FILE | IS_TAG | IS_TAGGED
  const NODE_MASK: bv64 := !MARK_MASK

  /** The fixed directories: the mount root, `comics` and `tags`. */
  const ROOT_ID: bv64 := 1
  const COMIC_ID: bv64 := 2
  const TAGS_ID: bv64 := 3

  /**
   * A database row id as the constructors accept it: an `i32` that
   * `u64::try_from` converts without panicking (a non-negative one), held at
   * the width it is or-ed into.
   */
  type RowId = x: bv64 | x < 0x8000_0000

  predicate IsFile(ino: Inode) { ino.raw & IS_FILE != 0 }
  predicate IsEposide(ino: Inode) { ino.raw & IS_EPOSIDE != 0 }
  predicate IsComic(ino: Inode) { ino.raw & IS_COMIC != 0 }
  predicate IsTag(ino: Inode) { ino.raw & IS_TAG != 0 }
  predicate IsTagged(ino: Inode) { ino.raw & IS_TAGGED != 0 }
  predicate IsSpecial(ino: Inode) { ino.raw & MARK_MASK == 0 }

  /**
   * `Inode::kind`: when several mark bits are set, the first of
   * File, Eposide, Comic, Tag, Tagged wins; with none set the inode is Special.
   */
  function Kind(ino: Inode): InodeKind {
    if IsFile(ino) then File
    else if IsEposide(ino) then Eposide
    else if IsComic(ino) then Comic
    else if IsTag(ino) then Tag
    else if IsTagged(ino) then Tagged
    else Special
  }

  /** Each kind in terms of the mark bits alone. */
  lemma KindOfMarks(ino: Inode)
    ensures Kind(ino) == File <==> IsFile(ino)
    ensures Kind(ino) == Eposide <==> !IsFile(ino) && IsEposide(ino)
    ensures Kind(ino) == Comic <==> !IsFile(ino) && !IsEposide(ino) && IsComic(ino)
    ensures Kind(ino) == Tag <==> !IsFile(ino) && !IsEposide(ino) && !IsComic(ino) && IsTag(ino)
    ensures Kind(ino) == Tagged <==> !IsFile(ino) && !IsEposide(ino) && !IsComic(ino) && !IsTag(ino) && IsTagged(ino)
    ensures Kind(ino) == Special <==> IsSpecial(ino)
  {
  }

  /** `Inode::id`: the bits below the marks. */
  function Id(ino: Inode): bv64 {
    ino.raw & NODE_MASK
  }

  /** The id never holds a mark bit, and the marks and the id together make up the inode. */
  lemma IdSplitsInode(ino: Inode)
    ensures Id(ino) & MARK_MASK == 0
    ensures Id(ino) < 0x800_0000_0000_0000
    ensures ino.raw == (ino.raw & MARK_MASK) | Id(ino)
  {
  }

  /** The two masks split the 64 bits between them. */
  lemma MasksComplementary()
    ensures MARK_MASK & NODE_MASK == 0
    ensures MARK_MASK | NODE_MASK == 0xFFFF_FFFF_FFFF_FFFF
    ensures MARK_MASK == 0xF800_0000_0000_0000
  {
  }

  // `Inode::comic`, `eposide`, `file`, `tag`, `tagged`: the kind's mark bit or-ed
  // with the id. Each result has that kind and gives the id back.

  function ComicInode(id: RowId): (ino: Inode)
    ensures Kind(ino) == Comic && Id(ino) == id
  {
    Inode(IS_COMIC | id)
  }

  function EposideInode(id: RowId): (ino: Inode)
    ensures Kind(ino) == Eposide && Id(ino) == id
  {
    Inode(IS_EPOSIDE | id)
  }

  function FileInode(id: RowId): (ino: Inode)
    ensures Kind(ino) == File && Id(ino) == id
  {
    Inode(IS_FILE | id)
  }

  function TagInode(id: RowId): (ino: Inode)
    ensures Kind(ino) == Tag && Id(ino) == id
  {
    Inode(IS_TAG | id)
  }

  function TaggedInode(id: RowId): (ino: Inode)
    ensures Kind(ino) == Tagged && Id(ino) == id
  {
    Inode(IS_TAGGED | id)
  }

  /** The three fixed directories are Special, as the unit test checks for the root. */
  lemma FixedDirectoriesSpecial()
    ensures Kind(Inode(ROOT_ID)) == Special && IsSpecial(Inode(ROOT_ID))
    ensures Kind(Inode(COMIC_ID)) == Special && Kind(Inode(TAGS_ID)) == Special
  {
  }
}
