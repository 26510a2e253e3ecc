/**
 * The `files` table: one row per known path, `id INTEGER PRIMARY KEY` and
 * `path TEXT NOT NULL UNIQUE`. The table is a map from id to path that is
 * one-to-one, because the UNIQUE constraint refuses a second row for a path.
 */
module Files {
  import opened Common

  /** No two ids carry the same path. */
  ghost predicate Injective(paths: map<FileId, Path>)
  {
    forall a, b :: a in paths && b in paths && paths[a] == paths[b] ==> a == b
  }

  /** Every non-empty set of ids has a largest element. */
  lemma {:induction false} MaxExists(ids: set<FileId>)
    requires ids != {}
    ensures exists m :: m in ids && forall x :: x in ids ==> x <= m
  {
    var m := MaxWitness(ids);
  }

  /** A largest element, found by removing one element at a time. */
  lemma {:induction false} MaxWitness(ids: set<FileId>) returns (m: FileId)
    requires ids != {}
    ensures m in ids && forall y :: y in ids ==> y <= m
    decreases |ids|
  {
    var x :| x in ids;
    if ids == {x} {
      m := x;
    } else {
      var top := MaxWitness(ids - {x});
      m := if x <= top then top else x;
      forall y | y in ids ensures y <= m {
        if y != x {
          assert y in ids - {x};
        }
      }
    }
  }

  /** The largest id in a non-empty set. */
  function MaxId(ids: set<FileId>): (m: FileId)
    requires ids != {}
    ensures m in ids && forall x :: x in ids ==> x <= m
  {
    MaxExists(ids);
    var m :| m in ids && forall x :: x in ids ==> x <= m;
    m
  }

  /**
   * The rowid SQLite gives a row inserted without an explicit id: one more
   * than the largest id in the table, or 1 in an empty table.
   */
  function NextRowId(paths: map<FileId, Path>): (id: FileId)
    ensures id >= 1
    ensures id !in paths
    ensures forall other :: other in paths ==> other < id
  {
    if paths == map[] then 1 else MaxId(paths.Keys) + 1
  }

  /**
   * Inserting a new path keeps the table one-to-one; afterwards the new id
   * maps to the path, the path maps back to that id and to no other, and no
   * other path changes its id.
   */
  lemma InsertRoundTrip(paths: map<FileId, Path>, path: Path)
    requires Injective(paths)
    requires path !in paths.Values
    ensures var id := NextRowId(paths);
            var after := paths[id := path];
            && Injective(after)
            && after[id] == path
            && (forall other :: other in after && after[other] == path ==> other == id)
            && (forall other :: other in paths ==> other in after && after[other] == paths[other])
  {
    var id := NextRowId(paths);
    var after := paths[id := path];
    forall a, b | a in after && b in after && after[a] == after[b] ensures a == b {
      if a != id && b != id {
        assert paths[a] == paths[b];
      }
    }
  }

  /** Deleting a row keeps the table one-to-one. */
  lemma DeleteKeepsInjective(paths: map<FileId, Path>, id: FileId)
    requires Injective(paths)
    ensures Injective(paths - {id})
    ensures id !in paths - {id}
  {
  }

  class FilesTable {
    var paths: map<FileId, Path>

    ghost predicate Valid()
      reads this
    {
      Injective(paths)
    }

    /** Opens the table as persisted by earlier runs (CREATE TABLE IF NOT EXISTS keeps it). */
    constructor(persisted: map<FileId, Path>)
      requires Injective(persisted)
      ensures Valid() && paths == persisted
    {
      paths := persisted;
    }

    /**
     * INSERT INTO files (path): a fresh rowid for a new path; the UNIQUE
     * constraint refuses a path that is already present.
     */
    method Insert(path: Path) returns (r: Result<FileId>)
      requires Valid()
      modifies this
      ensures Valid()
      ensures path in old(paths).Values ==> r == Err(ConstraintViolated) && paths == old(paths)
      ensures path !in old(paths).Values ==>
                && r == Ok(NextRowId(old(paths)))
                && r.value !in old(paths)
                && paths == old(paths)[r.value := path]
    {
      if path in paths.Values {
        return Err(ConstraintViolated);
      }
      InsertRoundTrip(paths, path);
      var id := NextRowId(paths);
      paths := paths[id := path];
      r := Ok(id);
    }

    /** SELECT path WHERE id = ?: the path of an id, none for an absent id. */
    method FindPath(id: FileId) returns (r: Option<Path>)
      ensures r.Some? <==> id in paths
      ensures r.Some? ==> r.value == paths[id]
    {
      r := if id in paths then Some(paths[id]) else None;
    }

    /** SELECT id WHERE path = ?: the id carrying a path, none for an absent path. */
    method FindFileId(path: Path) returns (r: Option<FileId>)
      ensures r.Some? <==> path in paths.Values
      ensures r.Some? ==> r.value in paths && paths[r.value] == path
    {
      if path in paths.Values {
        var id :| id in paths && paths[id] == path;
        r := Some(id);
      } else {
        r := None;
      }
    }

    /** DELETE WHERE id = ?: removes that row only. */
    method Delete(id: FileId)
      requires Valid()
      modifies this
      ensures Valid()
      ensures paths == old(paths) - {id}
    {
      paths := paths - {id};
    }
  }
}
