/**
 * utils::BanProcessAndRestoreFiles: ban the process's binary, "kill" it,
 * collect every file it ever wrote (the cutoff is the zero time point),
 * forget its actions, then restore each collected file, one restore per
 * collected row.
 */
module Quarantine {
  import opened Common
  import opened Actions
  import opened Files
  import opened Db
  import opened FileOps
  import opened Processes

  /**
   * The restore loop over `corrupted`, from the front: each file's path gets
   * the looked-up content; a file without a path stops the loop with an
   * error. Yields the outcome and the filesystem afterwards.
   */
  function RestoreAll(disk: map<Path, Bytes>, corrupted: seq<File>, paths: map<FileId, Path>,
                      contents: map<FileId, Bytes>): (Outcome, map<Path, Bytes>)
    decreases |corrupted|
  {
    if corrupted == [] then (Done, disk)
    else if corrupted[0].id !in paths then (Failed(PathMissing), disk)
    else
      var f := corrupted[0];
      RestoreAll(disk[paths[f.id] := CountText(contents, f.id)], corrupted[1..], paths, contents)
  }

  /**
   * What the restore loop achieves: it succeeds exactly when every collected
   * file has a path; then each of those paths holds the looked-up content of
   * its file, and every other path is untouched.
   */
  lemma {:induction false} RestoreAllMeaning(disk: map<Path, Bytes>, corrupted: seq<File>, paths: map<FileId, Path>,
                                             contents: map<FileId, Bytes>)
    requires Injective(paths)
    ensures var (o, after) := RestoreAll(disk, corrupted, paths, contents);
            && (o == Done <==> forall i :: 0 <= i < |corrupted| ==> corrupted[i].id in paths)
            && (o != Done ==> o == Failed(PathMissing))
            && (o == Done ==>
                  && (forall i :: 0 <= i < |corrupted| ==>
                        paths[corrupted[i].id] in after && after[paths[corrupted[i].id]] == CountText(contents, corrupted[i].id))
                  && (forall q :: q !in RestoredPaths(corrupted, paths) ==> (q in after <==> q in disk) && (q in disk ==> after[q] == disk[q])))
    decreases |corrupted|
  {
    if corrupted != [] && corrupted[0].id in paths {
      var f := corrupted[0];
      var next := disk[paths[f.id] := CountText(contents, f.id)];
      RestoreAllMeaning(next, corrupted[1..], paths, contents);
      var (o, after) := RestoreAll(next, corrupted[1..], paths, contents);
      if o == Done {
        forall i | 0 <= i < |corrupted|
          ensures paths[corrupted[i].id] in after && after[paths[corrupted[i].id]] == CountText(contents, corrupted[i].id)
        {
          if i > 0 {
            assert corrupted[i] == corrupted[1..][i - 1];
          } else if paths[f.id] !in RestoredPaths(corrupted[1..], paths) {
          } else {
            var j :| 0 <= j < |corrupted[1..]| && corrupted[1..][j].id in paths && paths[corrupted[1..][j].id] == paths[f.id];
          }
        }
        forall q | q !in RestoredPaths(corrupted, paths)
          ensures (q in after <==> q in disk) && (q in disk ==> after[q] == disk[q])
        {
          assert q != paths[f.id] by {
            assert paths[corrupted[0].id] in RestoredPaths(corrupted, paths);
          }
          assert q !in RestoredPaths(corrupted[1..], paths);
        }
      } else {
        var j :| 0 <= j < |corrupted[1..]| && corrupted[1..][j].id !in paths;
        assert corrupted[j + 1] == corrupted[1..][j];
      }
    }
  }

  /** The paths the restore loop writes. */
  ghost function RestoredPaths(corrupted: seq<File>, paths: map<FileId, Path>): set<Path>
  {
    set i | 0 <= i < |corrupted| && corrupted[i].id in paths :: paths[corrupted[i].id]
  }

  /**
   * Bans the process's binary and restores what it wrote: a whitelisted
   * binary is refused at the ban and nothing else happens; otherwise the
   * binary is blacklisted, all its action rows are removed, and each file of
   * its rows (every timestamp counts, the cutoff being zero) is restored in
   * row order.
   */
  method BanProcessAndRestoreFiles(db: Database, disk: Disk, p: Process) returns (o: Outcome)
    requires db.Valid()
    modifies db.files, db.actions, db.blacklist.table, disk
    ensures db.Valid()
    ensures db.files.paths == BinaryUpsert(old(db.files.paths), p)
    ensures p.exe.None? ==>
              && o == Failed(ResolutionFailed)
              && db.blacklist.table.ids == old(db.blacklist.table.ids)
              && db.actions.rows == old(db.actions.rows)
              && disk.files == old(disk.files)
    ensures p.exe.Some? && UpsertId(old(db.files.paths), p.exe.value) in db.whitelist.table.ids ==>
              && o == Failed(WhitelistedBinary)
              && db.blacklist.table.ids == old(db.blacklist.table.ids)
              && db.actions.rows == old(db.actions.rows)
              && disk.files == old(disk.files)
    ensures p.exe.Some? && UpsertId(old(db.files.paths), p.exe.value) !in db.whitelist.table.ids ==>
              var bin := UpsertId(old(db.files.paths), p.exe.value);
              var corrupted := AsFiles(Targets(Select(old(db.actions.rows), BinSince(bin, 0))));
              && db.blacklist.table.ids == old(db.blacklist.table.ids) + {bin}
              && db.actions.rows == Select(old(db.actions.rows), OtherBin(bin))
              && (o, disk.files) == RestoreAll(old(disk.files), corrupted, db.files.paths, db.contents.contents)
  {
    var banned := Ban(db, p);
    match banned {
      case Failed(e) =>
        return Failed(e);
      case Done =>
    }
    UpsertSpec(old(db.files.paths), p.exe.value);
    var killed := Kill(db, p);
    match killed {
      case Failed(e) =>
        return Failed(e);
      case Done =>
    }
    var found := db.FindActions(p, 0);
    var corrupted: seq<File>;
    match found {
      case Err(e) =>
        return Failed(e);
      case Ok(files) =>
        corrupted := files;
    }
    var deleted := db.DeleteActions(p);
    match deleted {
      case Failed(e) =>
        return Failed(e);
      case Done =>
    }
    o := RestoreFiles(db, disk, corrupted);
  }

  /** The restore loop: writes each file's looked-up content back to its path, in order. */
  method RestoreFiles(db: Database, disk: Disk, corrupted: seq<File>) returns (o: Outcome)
    modifies disk
    ensures (o, disk.files) == RestoreAll(old(disk.files), corrupted, db.files.paths, db.contents.contents)
  {
    var i := 0;
    while i < |corrupted|
      invariant 0 <= i <= |corrupted|
      invariant RestoreAll(disk.files, corrupted[i..], db.files.paths, db.contents.contents)
             == RestoreAll(old(disk.files), corrupted, db.files.paths, db.contents.contents)
    {
      assert corrupted[i..][0] == corrupted[i];
      var restored := RestoreContent(db, disk, corrupted[i]);
      match restored {
        case Failed(e) =>
          return Failed(e);
        case Done =>
      }
      assert corrupted[i..][1..] == corrupted[i + 1..];
      i := i + 1;
    }
    o := Done;
  }
}
