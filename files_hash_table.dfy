/**
 * The `files_hash` table: `id INTEGER PRIMARY KEY` and `hash INTEGER NOT NULL
 * UNIQUE`, a one-to-one map from file id to content checksum. The foreign key
 * to `files` is declared but SQLite does not enforce it unless asked to, so
 * nothing ties this table's ids to the `files` table.
 */
module FilesHash {
  import opened Common

  /** No two ids carry the same hash: the UNIQUE constraint. */
  ghost predicate UniqueHashes(hashes: map<FileId, Hash>)
  {
    forall a, b :: a in hashes && b in hashes && hashes[a] == hashes[b] ==> a == b
  }

  /** A hash carried by an id other than `id`. */
  predicate TakenByOther(hashes: map<FileId, Hash>, id: FileId, hash: Hash)
  {
    hash in (hashes - {id}).Values
  }

  /**
   * Giving `id` a hash no other id carries (a new row, or an update of an
   * existing one) keeps hashes unique; afterwards GetHash(id) yields that hash
   * and FindByHash(hash) can only yield `id`, while every other id keeps its
   * hash.
   */
  lemma {:induction false} SetHashRoundTrip(hashes: map<FileId, Hash>, id: FileId, hash: Hash)
    requires UniqueHashes(hashes)
    requires !TakenByOther(hashes, id, hash)
    ensures var after := hashes[id := hash];
            && UniqueHashes(after)
            && after[id] == hash
            && (forall other :: other in after && after[other] == hash ==> other == id)
            && (forall other :: other in hashes && other != id ==> after[other] == hashes[other])
  {
    var after := hashes[id := hash];
    forall a | a in hashes && a != id ensures hashes[a] != hash {
      assert hashes[a] in (hashes - {id}).Values by {
        assert a in hashes - {id};
      }
    }
    forall a, b | a in after && b in after && after[a] == after[b] ensures a == b {
      if a != id && b != id {
        assert hashes[a] == hashes[b];
      }
    }
  }

  class FilesHashTable {
    var hashes: map<FileId, Hash>

    ghost predicate Valid()
      reads this
    {
      UniqueHashes(hashes)
    }

    /** Opens the table as persisted by earlier runs. */
    constructor(persisted: map<FileId, Hash>)
      requires UniqueHashes(persisted)
      ensures Valid() && hashes == persisted
    {
      hashes := persisted;
    }

    /**
     * UPDATE SET hash = ? WHERE id = ?: no row for `id` means nothing to
     * update; a hash another id carries violates UNIQUE.
     */
    method UpdateHash(id: FileId, hash: Hash) returns (o: Outcome)
      requires Valid()
      modifies this
      ensures Valid()
      ensures id !in old(hashes) ==> o == Done && hashes == old(hashes)
      ensures id in old(hashes) && TakenByOther(old(hashes), id, hash) ==>
                o == Failed(ConstraintViolated) && hashes == old(hashes)
      ensures id in old(hashes) && !TakenByOther(old(hashes), id, hash) ==>
                o == Done && hashes == old(hashes)[id := hash]
    {
      if id !in hashes {
        return Done;
      }
      if TakenByOther(hashes, id, hash) {
        return Failed(ConstraintViolated);
      }
      SetHashRoundTrip(hashes, id, hash);
      hashes := hashes[id := hash];
      o := Done;
    }

    /** INSERT (id, hash): refused when the id has a row (PRIMARY KEY) or the hash is taken (UNIQUE). */
    method Insert(id: FileId, hash: Hash) returns (o: Outcome)
      requires Valid()
      modifies this
      ensures Valid()
      ensures (id in old(hashes) || hash in old(hashes).Values) ==>
                o == Failed(ConstraintViolated) && hashes == old(hashes)
      ensures !(id in old(hashes) || hash in old(hashes).Values) ==>
                o == Done && hashes == old(hashes)[id := hash]
    {
      if id in hashes || hash in hashes.Values {
        return Failed(ConstraintViolated);
      }
      assert hashes - {id} == hashes;
      SetHashRoundTrip(hashes, id, hash);
      hashes := hashes[id := hash];
      o := Done;
    }

    /** SELECT hash WHERE id = ?. */
    method GetHash(id: FileId) returns (r: Option<Hash>)
      ensures r.Some? <==> id in hashes
      ensures r.Some? ==> r.value == hashes[id]
    {
      r := if id in hashes then Some(hashes[id]) else None;
    }

    /** SELECT id WHERE hash = ?: the one id carrying the hash, if any. */
    method FindByHash(hash: Hash) returns (r: Option<FileId>)
      ensures r.Some? <==> hash in hashes.Values
      ensures r.Some? ==> r.value in hashes && hashes[r.value] == hash
    {
      if hash in hashes.Values {
        var id :| id in hashes && hashes[id] == hash;
        r := Some(id);
      } else {
        r := None;
      }
    }

    /**
     * Runs the SELECT-by-id statement where the DELETE was meant, so the row
     * stays: the table is left exactly as it was.
     */
    method Delete(id: FileId)
      ensures hashes == old(hashes)
    {
      var found := GetHash(id);
    }
  }
}
