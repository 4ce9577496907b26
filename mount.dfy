/**
 * The mounted filesystem object of src/fs.rs (`struct ComicFS`): the mount
 * point and the database connection it owns. The handlers that insert into or
 * update the database are methods that change `db`; each does what the
 * matching handler function of `FuseOps` describes, and together they keep
 * the hashes in the `file` table either "" or a digest.
 */
module Mount {
  import opened Wrappers
  import opened Inodes
  import opened ComicDb
  import opened ComicFs
  import FuseOps

  class ComicFS {
    /** The tables behind `conn`. */
    var db: Db
    /** The mount point, `base`. */
    const base: string
    /** `STORAGE_BASE`, by components. */
    const storageBase: seq<string>

    /** The invariant the handlers keep: every stored hash is "" or a digest. */
    ghost predicate Valid()
      reads this
    {
      FuseOps.StoredHashes(db)
    }

    /** `ComicFS::new(conn, base)`. */
    constructor (db: Db, base: string, storageBase: seq<string>)
      requires FuseOps.StoredHashes(db)
      ensures Valid()
      ensures this.db == db && this.base == base && this.storageBase == storageBase
    {
      this.db := db;
      this.base := base;
      this.storageBase := storageBase;
    }

    /**
     * `write` of data whose SHA-256 digest is `digest`: the first write to a
     * file records the digest; a file that fits an `i32` never panics.
     */
    method Write(ino: bv64, digest: string) returns (r: FuseOps.Reply<FuseOps.WritePlan>)
      requires Valid() && FuseOps.IsDigest(digest)
      modifies this
      ensures Valid()
      ensures (r, db) == FuseOps.Write(old(db), storageBase, Inode(ino), digest)
      ensures r.Panic? <==> Kind(Inode(ino)) == File && !IdFits(Inode(ino))
    {
      FuseOps.WriteKeepsStoredHashes(db, storageBase, Inode(ino), digest);
      FuseOps.NoPanicOnStoredHashes(db, storageBase, Inode(ino), digest, None);
      var (reply, db') := FuseOps.Write(db, storageBase, Inode(ino), digest);
      r := reply;
      db := db';
    }

    /**
     * `create` of `name` in the directory `parent`, the new row getting the
     * id `newId` from the database. Reading a file created under a fresh id
     * panics in `read` as written; with the corrected `read` it reads as empty.
     */
    method Create(parent: bv64, name: string, newId: RowId) returns (r: FuseOps.Reply<Inode>)
      requires Valid()
      modifies this
      ensures Valid()
      ensures (r, db) == FuseOps.Create(old(db), Inode(parent), name, newId)
      ensures r.Ok? && (forall f :: f in old(db).files ==> f.id != newId)
          ==> FuseOps.ReadAsWritten(db, storageBase, r.value) == FuseOps.Panic
      ensures r.Ok? && (forall f :: f in old(db).files ==> f.id != newId)
          ==> FuseOps.Read(db, storageBase, r.value) == FuseOps.Ok(FuseOps.NoContent)
    {
      FuseOps.InsertKeepsStoredHashes(db, Inode(parent), name, newId);
      if Kind(Inode(parent)) == Eposide && IdFits(Inode(parent)) && forall f :: f in db.files ==> f.id != newId {
        FuseOps.CreateThenReadAsWritten(db, storageBase, Inode(parent), name, newId);
        FuseOps.CreateThenRead(db, storageBase, Inode(parent), name, newId);
      }
      var (reply, db') := FuseOps.Create(db, Inode(parent), name, newId);
      r := reply;
      db := db';
    }

    /** `mkdir` of `name` in the directory `parent`, the new row getting the id `newId`. */
    method Mkdir(parent: bv64, name: string, newId: RowId) returns (r: FuseOps.Reply<Inode>)
      requires Valid()
      modifies this
      ensures Valid()
      ensures (r, db) == FuseOps.Mkdir(old(db), Inode(parent), name, newId)
      ensures !r.Ok? ==> db == old(db)
    {
      FuseOps.InsertKeepsStoredHashes(db, Inode(parent), name, newId);
      FuseOps.MkdirGate(db, Inode(parent), name, newId);
      var (reply, db') := FuseOps.Mkdir(db, Inode(parent), name, newId);
      r := reply;
      db := db';
    }
  }
}
