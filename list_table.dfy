/**
 * The white and black list tables: one generic table of file ids
 * (`id INTEGER PRIMARY KEY`); the two instances differ only in their name.
 */
module Lists {
  import opened Common

  datatype Tier = White | Black

  /** The smallest id in a non-empty set (uniquely determined). */
  function MinId(ids: set<FileId>): (m: FileId)
    requires ids != {}
    ensures m in ids && forall x :: x in ids ==> m <= x
  {
    MinExists(ids);
    var m :| m in ids && forall x :: x in ids ==> m <= x;
    m
  }

  lemma {:induction false} MinExists(ids: set<FileId>)
    requires ids != {}
    ensures exists m :: m in ids && forall x :: x in ids ==> m <= x
  {
    var m := MinWitness(ids);
  }

  /** A smallest element, found by removing one element at a time. */
  lemma {:induction false} MinWitness(ids: set<FileId>) returns (m: FileId)
    requires ids != {}
    ensures m in ids && forall y :: y in ids ==> m <= y
    decreases |ids|
  {
    var x :| x in ids;
    if ids == {x} {
      m := x;
    } else {
      var low := MinWitness(ids - {x});
      m := if x <= low then x else low;
      forall y | y in ids ensures m <= y {
        if y != x {
          assert y in ids - {x};
        }
      }
    }
  }

  /**
   * SELECT id FROM list: the ids in rowid order, i.e. ascending, each once,
   * and exactly the ids in the table.
   */
  function Ascending(ids: set<FileId>): (r: seq<FileId>)
    ensures |r| == |ids|
    ensures forall x :: x in r <==> x in ids
    ensures forall i, j :: 0 <= i < j < |r| ==> r[i] < r[j]
    decreases |ids|
  {
    if ids == {} then []
    else
      var m := MinId(ids);
      [m] + Ascending(ids - {m})
  }

  class ListTable {
    const tier: Tier
    var ids: set<FileId>

    /** Opens the table as persisted by earlier runs. */
    constructor(tier: Tier, persisted: set<FileId>)
      ensures this.tier == tier && ids == persisted
    {
      this.tier := tier;
      ids := persisted;
    }

    /** INSERT (id): refused by the primary key when the id is already listed. */
    method Insert(id: FileId) returns (o: Outcome)
      modifies this
      ensures id in old(ids) ==> o == Failed(ConstraintViolated) && ids == old(ids)
      ensures id !in old(ids) ==> o == Done && ids == old(ids) + {id}
    {
      if id in ids {
        return Failed(ConstraintViolated);
      }
      ids := ids + {id};
      o := Done;
    }

    /** The listed ids, ascending, each exactly once. */
    method List() returns (r: seq<FileId>)
      ensures r == Ascending(ids)
      ensures forall x :: x in r <==> x in ids
    {
      r := Ascending(ids);
    }

    /** SELECT count(*) WHERE id = ?, compared with zero. */
    method Find(id: FileId) returns (found: bool)
      ensures found <==> id in ids
    {
      found := id in ids;
    }

    /** DELETE WHERE id = ?: a no-op for an absent id. */
    method Delete(id: FileId)
      modifies this
      ensures ids == old(ids) - {id}
    {
      ids := ids - {id};
    }
  }
}
