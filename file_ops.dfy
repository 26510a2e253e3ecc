/**
 * The File handle's own operations: its content (the stored snapshot if the
 * database yields one, else the bytes on disk), its hash (the stored one,
 * else the checksum of that content) and the restoration of its content.
 * Because the content lookup yields the count text "1" or "0" and never
 * nothing, the disk is never read by these operations and a restored file
 * receives that text.
 */
module FileOps {
  import opened Common
  import opened Db
  import Checksum

  /** The text the content lookup yields for an id: "1" if a snapshot row exists, "0" otherwise. */
  function CountText(contents: map<FileId, Bytes>, id: FileId): (t: Bytes)
    ensures |t| == 1
    ensures t[0] == 49 <==> id in contents
  {
    if id in contents then [49] else [48]
  }

  /** The hash File::GetHash yields for an id. */
  function StoredOrCountHash(hashes: map<FileId, Hash>, contents: map<FileId, Bytes>, id: FileId): (h: Hash)
    ensures id in hashes ==> h == hashes[id]
    ensures id !in hashes ==> h == Checksum.CalculateHash(CountText(contents, id))
  {
    if id in hashes then hashes[id] else Checksum.CalculateHash(CountText(contents, id))
  }

  /** File::GetContent: the looked-up content, falling back to the disk when there is none. */
  method GetContent(db: Database, disk: Disk, f: File) returns (r: Result<Bytes>)
    ensures r == Ok(CountText(db.contents.contents, f.id))
  {
    var stored := db.GetContent(f);
    match stored {
      case Some(content) =>
        return Ok(content);
      case None =>
        r := ReadContent(db, f, disk);
    }
  }

  /** File::GetHash: the stored hash, or the checksum of GetContent. */
  method GetHash(db: Database, disk: Disk, f: File) returns (r: Result<Hash>)
    ensures r == Ok(StoredOrCountHash(db.hashes.hashes, db.contents.contents, f.id))
  {
    var stored := db.GetFileHash(f);
    match stored {
      case Some(h) =>
        return Ok(h);
      case None =>
        var content := GetContent(db, disk, f);
        match content {
          case Ok(bytes) => r := Ok(Checksum.CalculateHash(bytes));
          case Err(e) => r := Err(e);
        }
    }
  }

  /**
   * File::RestoreContent: writes GetContent over the file at the id's path;
   * an id without a path has nothing to write to.
   */
  method RestoreContent(db: Database, disk: Disk, f: File) returns (o: Outcome)
    modifies disk
    ensures f.id !in db.files.paths ==> o == Failed(PathMissing) && disk.files == old(disk.files)
    ensures f.id in db.files.paths ==>
              o == Done && disk.files == old(disk.files)[db.files.paths[f.id] := CountText(db.contents.contents, f.id)]
  {
    var path := db.GetFilePath(f);
    match path {
      case None =>
        return Failed(PathMissing);
      case Some(p) =>
        var content := GetContent(db, disk, f);
        match content {
          case Ok(bytes) =>
            disk.Write(p, bytes);
            o := Done;
          case Err(e) =>
            o := Failed(e);
        }
    }
  }

  /**
   * What a restoration leaves in a file: "1" when a snapshot was saved
   * (whatever the snapshot was), "0" otherwise; so a restored file equals
   * its snapshot only when the snapshot was the single byte "1".
   */
  lemma RestoredContentIsNotSnapshot(contents: map<FileId, Bytes>, id: FileId, snapshot: Bytes)
    ensures CountText(contents[id := snapshot], id) == [49]
    ensures CountText(contents[id := snapshot], id) == snapshot <==> snapshot == [49]
    ensures CountText(contents - {id}, id) == [48]
  {
  }
}
