/**
 * The `files_content` table: `id INTEGER PRIMARY KEY` and `content TEXT NOT
 * NULL`, the snapshot of a file saved before a process was allowed to write
 * it. The lookup that should return the snapshot runs the row-count
 * statement instead, so what it yields is the decimal text of that count.
 */
module FilesContent {
  import opened Common

  /** The decimal text SQLite gives an integer column read as text. */
  function DecimalText(n: nat): (t: Bytes)
    ensures 1 <= |t|
    ensures forall i :: 0 <= i < |t| ==> 48 <= t[i] <= 57
    decreases n
  {
    if n < 10 then [(48 + n) as byte] else DecimalText(n / 10) + [(48 + n % 10) as byte]
  }

  /** The number of rows with a given id: 0 or 1, id being the primary key. */
  function RowCount(contents: map<FileId, Bytes>, id: FileId): (n: nat)
    ensures n <= 1
    ensures n == 1 <==> id in contents
  {
    if id in contents then 1 else 0
  }

  /**
   * What GetContent yields: always a value, the text "1" for a saved id and
   * "0" otherwise; it never depends on the stored bytes, so a snapshot other
   * than the single byte "1" is never read back.
   */
  lemma GetContentIsCountText(contents: map<FileId, Bytes>, id: FileId, snapshot: Bytes)
    ensures DecimalText(RowCount(contents, id)) == (if id in contents then [49] else [48])
    ensures DecimalText(RowCount(contents[id := snapshot], id)) == [49]
    ensures snapshot != [49] ==> DecimalText(RowCount(contents[id := snapshot], id)) != snapshot
  {
  }

  class FilesContentTable {
    var contents: map<FileId, Bytes>

    /** Opens the table as persisted by earlier runs. */
    constructor(persisted: map<FileId, Bytes>)
      ensures contents == persisted
    {
      contents := persisted;
    }

    /** UPDATE SET content = ? WHERE id = ?: replaces the snapshot of a saved id, else nothing. */
    method UpdateContent(id: FileId, content: Bytes)
      modifies this
      ensures id in old(contents) ==> contents == old(contents)[id := content]
      ensures id !in old(contents) ==> contents == old(contents)
    {
      if id in contents {
        contents := contents[id := content];
      }
    }

    /** INSERT (id, content): refused by the primary key when the id already has a row. */
    method Insert(id: FileId, content: Bytes) returns (o: Outcome)
      modifies this
      ensures id in old(contents) ==> o == Failed(ConstraintViolated) && contents == old(contents)
      ensures id !in old(contents) ==> o == Done && contents == old(contents)[id := content]
    {
      if id in contents {
        return Failed(ConstraintViolated);
      }
      contents := contents[id := content];
      o := Done;
    }

    /** SELECT count(*) WHERE id = ?, compared with zero. */
    method ContentWasSaved(id: FileId) returns (saved: bool)
      ensures saved <==> id in contents
    {
      saved := RowCount(contents, id) > 0;
    }

    /** Runs the count statement and returns its one row as text. */
    method GetContent(id: FileId) returns (r: Option<Bytes>)
      ensures r.Some?
      ensures r.value == (if id in contents then [49] else [48])
    {
      GetContentIsCountText(contents, id, []);
      r := Some(DecimalText(RowCount(contents, id)));
    }

    /** DELETE WHERE id = ?. */
    method Delete(id: FileId)
      modifies this
      ensures contents == old(contents) - {id}
      ensures id !in contents
    {
      contents := contents - {id};
    }
  }
}
