/**
 * The Process handle's decisions: whether its binary may write (decided by
 * the white and black lists through the binary's hash, else by a burst
 * rule over the last 100 ms of its actions), whether it may open the
 * agent's own database (a hard-coded hash), and the Ban and Kill steps of
 * the remediation, both refused for a whitelisted binary.
 */
module Processes {
  import opened Common
  import opened Actions
  import opened Files
  import opened FilesHash
  import opened Db
  import opened FileOps
  import Checksum

  /** The look-back window of the burst rule, in milliseconds. */
  const BurstWindow: int := 100

  /** A binary with this many action rows in one directory within the window writes in a burst. */
  const BurstRows: nat := 3

  /** The only binary hash allowed to open the agent's database. */
  const DbAccessHash: Hash := 123456789

  /**
   * What the lists decide about a binary: no file carries the binary's hash
   * means no access; the owner of the hash on the white list means access,
   * on the black list no access; otherwise the lists do not decide (None).
   */
  ghost function ListVerdict(hashes: map<FileId, Hash>, contents: map<FileId, Bytes>,
                             white: set<FileId>, black: set<FileId>, bin: FileId): Option<bool>
  {
    var h := StoredOrCountHash(hashes, contents, bin);
    if h !in hashes.Values then Some(false)
    else
      var owner := IdOf(hashes, h);
      if owner in white then Some(true) else if owner in black then Some(false) else None
  }

  /**
   * The burst rule over a table: the binary's rows since `since`, counted
   * per directory path; access unless some directory reaches BurstRows. A
   * directory id without a path makes the lookup fail.
   */
  ghost function BurstVerdict(rows: Rows, paths: map<FileId, Path>, bin: FileId, since: Time): Result<bool>
    requires Injective(paths)
  {
    match DirCounts(GroupByDir(Select(rows, BinSince(bin, since))), paths)
    case Err(e) => Err(e)
    case Ok(counts) => Ok(forall q :: q in counts ==> counts[q] < BurstRows)
  }

  /**
   * The burst rule in terms of rows: it yields a verdict exactly when every
   * directory the binary wrote in since `since` has a path, and the verdict
   * is "no access" exactly when one of those directories holds BurstRows or
   * more of those rows.
   */
  lemma BurstVerdictMeaning(rows: Rows, paths: map<FileId, Path>, bin: FileId, since: Time)
    requires Injective(paths)
    ensures var recent := Select(rows, BinSince(bin, since));
            BurstVerdict(rows, paths, bin, since).Ok? <==> Dirs(recent) <= paths.Keys
    ensures var recent := Select(rows, BinSince(bin, since));
            BurstVerdict(rows, paths, bin, since) == Ok(false) <==>
              Dirs(recent) <= paths.Keys && exists d :: d in Dirs(recent) && |Select(recent, InDirs({d}))| >= BurstRows
  {
    var recent := Select(rows, BinSince(bin, since));
    DirCountsMeaning(recent, paths);
    if Dirs(recent) <= paths.Keys {
      var counts := DirCounts(GroupByDir(recent), paths).value;
      if exists d :: d in Dirs(recent) && |Select(recent, InDirs({d}))| >= BurstRows {
        var d :| d in Dirs(recent) && |Select(recent, InDirs({d}))| >= BurstRows;
        assert counts[paths[d]] >= BurstRows;
      } else {
        forall q | q in counts ensures counts[q] < BurstRows {
          var d :| d in Dirs(recent) && paths[d] == q;
        }
      }
    }
  }

  /**
   * The rule counts rows, not distinct files: one file rewritten three
   * times within the window is a burst.
   */
  lemma RewritingOneFileThriceIsBurst(paths: map<FileId, Path>, row: ActionRow)
    requires Injective(paths)
    requires row.targetDir in paths
    ensures BurstVerdict([row, row, row], paths, row.bin, row.timepoint) == Ok(false)
  {
    var rows := [row, row, row];
    SelectEverything(rows, BinSince(row.bin, row.timepoint));
    SelectEverything(rows, InDirs({row.targetDir}));
    assert Dirs(rows) == {row.targetDir};
    assert |Select(rows, InDirs({row.targetDir}))| >= BurstRows;
    BurstVerdictMeaning(rows, paths, row.bin, row.timepoint);
  }

  /** Whether some directory count reaches BurstRows (the loop over the counts). */
  method AnyBurst(counts: map<Path, nat>) returns (burst: bool)
    ensures burst <==> exists q :: q in counts && counts[q] >= BurstRows
    ensures !burst <==> forall q :: q in counts ==> counts[q] < BurstRows
  {
    var todo := counts.Keys;
    while todo != {}
      invariant todo <= counts.Keys
      invariant forall q :: q in counts && q !in todo ==> counts[q] < BurstRows
      decreases |todo|
    {
      var q :| q in todo;
      if counts[q] >= BurstRows {
        return true;
      }
      todo := todo - {q};
    }
    burst := false;
  }

  /**
   * The `files` table the burst part of HasWriteAccess leaves: the binary is
   * looked up, the ids that pruning reclaims go, and the binary is looked up
   * again.
   */
  ghost function BurstPaths(paths: map<FileId, Path>, rows: Rows, white: set<FileId>, black: set<FileId>,
                            exe: Path, now: Time): (after: map<FileId, Path>)
    requires Injective(paths)
    ensures Injective(after) && exe in after.Values
  {
    var kept := Upsert(paths, exe) - Pruned(rows, now - BurstWindow, white, black);
    UpsertSpec(paths, exe);
    assert Injective(kept) by {
      forall a, b | a in kept && b in kept && kept[a] == kept[b] ensures a == b {
        assert a in Upsert(paths, exe) && b in Upsert(paths, exe);
      }
    }
    UpsertIdIsIdOf(kept, exe);
    Upsert(kept, exe)
  }

  /**
   * HasWriteAccess's answer as a function of the tables it starts from: the
   * list verdict about the binary when the lists decide, otherwise the burst
   * rule on the rows not older than now - 100 and the pruned `files` table.
   */
  ghost function WriteAccess(paths: map<FileId, Path>, rows: Rows, hashes: map<FileId, Hash>, contents: map<FileId, Bytes>,
                             white: set<FileId>, black: set<FileId>, exe: Path, now: Time): Result<bool>
    requires Injective(paths)
  {
    var verdict := ListVerdict(hashes, contents, white, black, UpsertId(paths, exe));
    if verdict.Some? then Ok(verdict.value)
    else
      var after := BurstPaths(paths, rows, white, black, exe, now);
      BurstVerdict(Select(rows, NotOlderThan(now - BurstWindow)), after, IdOf(after, exe), now - BurstWindow)
  }

  /**
   * What decides write access: the lists when they can; otherwise access is
   * refused exactly when every directory the binary wrote in since now - 100
   * still has a path and one of them holds BurstRows or more of those rows,
   * and the answer is an error when one of them has no path.
   */
  lemma WriteAccessMeaning(paths: map<FileId, Path>, rows: Rows, hashes: map<FileId, Hash>, contents: map<FileId, Bytes>,
                           white: set<FileId>, black: set<FileId>, exe: Path, now: Time)
    requires Injective(paths)
    ensures var verdict := ListVerdict(hashes, contents, white, black, UpsertId(paths, exe));
            verdict.Some? ==> WriteAccess(paths, rows, hashes, contents, white, black, exe, now) == Ok(verdict.value)
    ensures var verdict := ListVerdict(hashes, contents, white, black, UpsertId(paths, exe));
            var after := BurstPaths(paths, rows, white, black, exe, now);
            var recent := Select(Select(rows, NotOlderThan(now - BurstWindow)), BinSince(IdOf(after, exe), now - BurstWindow));
            verdict.None? ==>
              && (WriteAccess(paths, rows, hashes, contents, white, black, exe, now).Ok? <==> Dirs(recent) <= after.Keys)
              && (WriteAccess(paths, rows, hashes, contents, white, black, exe, now) == Ok(false) <==>
                    Dirs(recent) <= after.Keys && exists d :: d in Dirs(recent) && |Select(recent, InDirs({d}))| >= BurstRows)
  {
    var after := BurstPaths(paths, rows, white, black, exe, now);
    BurstVerdictMeaning(Select(rows, NotOlderThan(now - BurstWindow)), after, IdOf(after, exe), now - BurstWindow);
  }

  /**
   * Process::HasWriteAccess at time `now`: the binary is resolved and its
   * hash looked up; if the lists decide, that is the answer and nothing else
   * changes; otherwise the rows older than now - 100 are pruned and the burst
   * rule decides on what remains.
   */
  method HasWriteAccess(db: Database, disk: Disk, p: Process, now: Time) returns (r: Result<bool>)
    requires db.Valid()
    modifies db.files, db.actions, db.contents
    ensures db.Valid()
    ensures p.exe.None? ==>
              && r == Err(ResolutionFailed)
              && db.files.paths == old(db.files.paths)
              && db.actions.rows == old(db.actions.rows)
              && db.contents.contents == old(db.contents.contents)
    ensures p.exe.Some? ==> p.exe.value in db.files.paths.Values
    ensures db.actions.rows == old(db.actions.rows) || db.actions.rows == Select(old(db.actions.rows), NotOlderThan(now - BurstWindow))
    ensures db.contents.contents.Keys <= old(db.contents.contents).Keys
    ensures p.exe.Some? ==>
              var bin := UpsertId(old(db.files.paths), p.exe.value);
              var verdict := ListVerdict(db.hashes.hashes, old(db.contents.contents),
                                         db.whitelist.table.ids, db.blacklist.table.ids, bin);
              verdict.Some? ==>
                && r == Ok(verdict.value)
                && db.files.paths == Upsert(old(db.files.paths), p.exe.value)
                && db.actions.rows == old(db.actions.rows)
                && db.contents.contents == old(db.contents.contents)
    ensures p.exe.Some? ==>
              var bin := UpsertId(old(db.files.paths), p.exe.value);
              var verdict := ListVerdict(db.hashes.hashes, old(db.contents.contents),
                                         db.whitelist.table.ids, db.blacklist.table.ids, bin);
              var gone := Pruned(old(db.actions.rows), now - BurstWindow, db.whitelist.table.ids, db.blacklist.table.ids);
              verdict.None? ==>
                && db.actions.rows == Select(old(db.actions.rows), NotOlderThan(now - BurstWindow))
                && db.contents.contents == old(db.contents.contents) - gone
                && db.files.paths == Upsert(Upsert(old(db.files.paths), p.exe.value) - gone, p.exe.value)
                && r == BurstVerdict(db.actions.rows, db.files.paths, IdOf(db.files.paths, p.exe.value), now - BurstWindow)
    ensures p.exe.Some? ==>
              r == WriteAccess(old(db.files.paths), old(db.actions.rows), db.hashes.hashes, old(db.contents.contents),
                               db.whitelist.table.ids, db.blacklist.table.ids, p.exe.value, now)
  {
    var listed := ListStage(db, disk, p);
    match listed {
      case Err(e) =>
        return Err(e);
      case Ok(verdict) =>
        if verdict.Some? {
          return Ok(verdict.value);
        }
    }
    r := BurstStage(db, p, now);
  }

  /**
   * The list part of HasWriteAccess: the binary's hash, the file carrying
   * it, then the white list before the black list.
   */
  method ListStage(db: Database, disk: Disk, p: Process) returns (r: Result<Option<bool>>)
    requires db.Valid()
    modifies db.files
    ensures db.Valid()
    ensures db.files.paths == BinaryUpsert(old(db.files.paths), p)
    ensures p.exe.None? ==> r == Err(ResolutionFailed)
    ensures p.exe.Some? ==>
              p.exe.value in db.files.paths.Values
              && r == Ok(ListVerdict(db.hashes.hashes, db.contents.contents, db.whitelist.table.ids, db.blacklist.table.ids,
                                     UpsertId(old(db.files.paths), p.exe.value)))
  {
    var bin := db.GetBinary(p);
    match bin {
      case Err(e) =>
        return Err(e);
      case Ok(b) =>
        UpsertSpec(old(db.files.paths), p.exe.value);
        var hash := GetHash(db, disk, b);
        match hash {
          case Err(e) =>
            return Err(e);
          case Ok(h) =>
            var owner := db.FindFileByHash(h);
            match owner {
              case None =>
                return Ok(Some(false));
              case Some(o) =>
                assert o.id == IdOf(db.hashes.hashes, h);
                var white := db.whitelist.Find(o);
                if white {
                  return Ok(Some(true));
                }
                var black := db.blacklist.Find(o);
                if black {
                  return Ok(Some(false));
                }
                r := Ok(None);
            }
        }
    }
  }

  /**
   * The burst part of HasWriteAccess: prune the rows older than
   * now - 100, then count the binary's remaining rows per directory.
   */
  method BurstStage(db: Database, p: Process, now: Time) returns (r: Result<bool>)
    requires db.Valid()
    requires p.exe.Some? && p.exe.value in db.files.paths.Values
    modifies db.files, db.actions, db.contents
    ensures db.Valid()
    ensures p.exe.value in db.files.paths.Values
    ensures var gone := Pruned(old(db.actions.rows), now - BurstWindow, db.whitelist.table.ids, db.blacklist.table.ids);
            && db.actions.rows == Select(old(db.actions.rows), NotOlderThan(now - BurstWindow))
            && db.contents.contents == old(db.contents.contents) - gone
            && db.files.paths == Upsert(old(db.files.paths) - gone, p.exe.value)
            && r == BurstVerdict(db.actions.rows, db.files.paths, IdOf(db.files.paths, p.exe.value), now - BurstWindow)
  {
    var since := now - BurstWindow;
    db.DeleteOld(since);
    r := CountBurst(db, p, since);
  }

  /** The counting half of the burst part: the burst rule on the current rows. */
  method CountBurst(db: Database, p: Process, since: Time) returns (r: Result<bool>)
    requires db.Valid()
    requires p.exe.Some?
    modifies db.files
    ensures db.Valid()
    ensures db.files.paths == Upsert(old(db.files.paths), p.exe.value)
    ensures p.exe.value in db.files.paths.Values
    ensures r == BurstVerdict(db.actions.rows, db.files.paths, IdOf(db.files.paths, p.exe.value), since)
  {
    UpsertIdIsIdOf(db.files.paths, p.exe.value);
    var counts := db.FindActionsOnDirs(p, since);
    ghost var bin := IdOf(db.files.paths, p.exe.value);
    assert bin == UpsertId(old(db.files.paths), p.exe.value);
    assert counts == DirCounts(GroupByDir(Select(db.actions.rows, BinSince(bin, since))), db.files.paths);
    match counts {
      case Err(e) =>
        r := Err(e);
      case Ok(c) =>
        var burst := AnyBurst(c);
        r := Ok(!burst);
    }
  }

  /** Process::HasAccessToDb: the binary's hash equals the hard-coded one. */
  method HasAccessToDb(db: Database, disk: Disk, p: Process) returns (r: Result<bool>)
    requires db.Valid()
    modifies db.files
    ensures db.Valid()
    ensures db.files.paths == BinaryUpsert(old(db.files.paths), p)
    ensures p.exe.None? ==> r == Err(ResolutionFailed)
    ensures p.exe.Some? ==>
              r == Ok(StoredOrCountHash(db.hashes.hashes, db.contents.contents, UpsertId(old(db.files.paths), p.exe.value)) == DbAccessHash)
  {
    var bin := db.GetBinary(p);
    match bin {
      case Err(e) =>
        return Err(e);
      case Ok(b) =>
        var hash := GetHash(db, disk, b);
        match hash {
          case Err(e) =>
            return Err(e);
          case Ok(h) =>
            r := Ok(h == DbAccessHash);
        }
    }
  }

  /**
   * A binary without a stored hash never opens the agent's database: its
   * hash is the checksum of "0" or "1", neither of which is the hard-coded one.
   */
  lemma UnhashedBinaryIsDeniedDb(hashes: map<FileId, Hash>, contents: map<FileId, Bytes>, bin: FileId)
    requires bin !in hashes
    ensures StoredOrCountHash(hashes, contents, bin) != DbAccessHash
  {
    Checksum.ChecksumOfZeroText();
    Checksum.ChecksumOfOneText();
  }

  /** Process::Ban: refused for a whitelisted binary, otherwise the binary joins the black list. */
  method Ban(db: Database, p: Process) returns (o: Outcome)
    requires db.Valid()
    modifies db.files, db.blacklist.table
    ensures db.Valid()
    ensures db.files.paths == BinaryUpsert(old(db.files.paths), p)
    ensures p.exe.None? ==> o == Failed(ResolutionFailed) && db.blacklist.table.ids == old(db.blacklist.table.ids)
    ensures p.exe.Some? ==>
              var bin := UpsertId(old(db.files.paths), p.exe.value);
              if bin in db.whitelist.table.ids
              then o == Failed(WhitelistedBinary) && db.blacklist.table.ids == old(db.blacklist.table.ids)
              else o == Done && db.blacklist.table.ids == old(db.blacklist.table.ids) + {bin}
  {
    var bin := db.GetBinary(p);
    match bin {
      case Err(e) =>
        return Failed(e);
      case Ok(b) =>
        var white := db.whitelist.Find(b);
        if white {
          return Failed(WhitelistedBinary);
        }
        UpsertSpec(old(db.files.paths), p.exe.value);
        var again := db.GetBinary(p);
        match again {
          case Err(e) =>
            return Failed(e);
          case Ok(b2) =>
            db.blacklist.Add(b2);
            o := Done;
        }
    }
  }

  /**
   * Process::Kill: refused for a whitelisted binary; otherwise it only
   * announces the pid and the binary's path (nothing is signalled).
   */
  method Kill(db: Database, p: Process) returns (o: Outcome)
    requires db.Valid()
    modifies db.files
    ensures db.Valid()
    ensures db.files.paths == BinaryUpsert(old(db.files.paths), p)
    ensures p.exe.None? ==> o == Failed(ResolutionFailed)
    ensures p.exe.Some? ==>
              o == (if UpsertId(old(db.files.paths), p.exe.value) in db.whitelist.table.ids then Failed(WhitelistedBinary) else Done)
  {
    var bin := db.GetBinary(p);
    match bin {
      case Err(e) =>
        return Failed(e);
      case Ok(b) =>
        var white := db.whitelist.Find(b);
        if white {
          return Failed(WhitelistedBinary);
        }
        UpsertSpec(old(db.files.paths), p.exe.value);
        var again := db.GetBinary(p);
        match again {
          case Err(e) =>
            return Failed(e);
          case Ok(b2) =>
            var path := db.GetFilePath(b2);
            o := Done;
        }
    }
  }
}
