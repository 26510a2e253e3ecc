/**
 * The event handlers of the database-backed agent: a close-write event
 * records the write and, if the writer is not trusted, quarantines it; an
 * open-permission event is answered ALLOW or DENY (the agent's own database
 * by a hash check, any other file by the write-trust rule, with a snapshot
 * taken on the first trusted open). The kernel interface is left out: an
 * event arrives already decoded, with its target path and the writer's
 * binary path resolved (or not), and with the time it is handled at.
 */
module Agent {
  import opened Common
  import opened Actions
  import opened Files
  import opened Db
  import opened FileOps
  import opened Processes
  import opened Quarantine

  datatype Reply = Allow | Deny

  /**
   * One decoded event: its descriptor, the pid and its resolved binary, the
   * resolved path behind the descriptor, which of the close-write and
   * open-permission (or open-exec-permission) bits it carries, and the time.
   */
  datatype Event = Event(fd: int, pid: int, exe: Option<Path>, target: Option<Path>,
                         closeWrite: bool, openPerm: bool, now: Time)

  /** A reply written back for a descriptor. */
  datatype Response = Response(fd: int, reply: Reply)

  /** The binary at `exe` is on the black list and has no action row left. */
  ghost predicate Quarantined(paths: map<FileId, Path>, black: set<FileId>, rows: Rows, exe: Path)
    requires exe in paths.Values
  {
    var bin := IdOf(paths, exe);
    bin in black && forall row :: row in rows ==> row.bin != bin
  }

  /** The agent's tables and the filesystem, as values. */
  datatype Store = Store(paths: map<FileId, Path>, rows: Rows, hashes: map<FileId, Hash>, contents: map<FileId, Bytes>,
                         white: set<FileId>, black: set<FileId>, disk: map<Path, Bytes>)

  ghost function StoreOf(db: Database, disk: Disk): Store
    reads db.files, db.actions, db.hashes, db.contents, db.whitelist.table, db.blacklist.table, disk
  {
    Store(db.files.paths, db.actions.rows, db.hashes.hashes, db.contents.contents,
          db.whitelist.table.ids, db.blacklist.table.ids, disk.files)
  }

  /** HasWriteAccess's answer for the binary at `exe` on the store `s`. */
  ghost function Trust(s: Store, exe: Path, now: Time): Result<bool>
    requires Injective(s.paths)
  {
    WriteAccess(s.paths, s.rows, s.hashes, s.contents, s.white, s.black, exe, now)
  }

  /**
   * The store HasWriteAccess leaves for the binary at `exe`: the binary is
   * looked up; when the lists do not decide, the rows older than now - 100
   * are also pruned, with the `files` rows and snapshots they reclaim, and
   * the binary is looked up again.
   */
  ghost function Assessed(s: Store, exe: Path, now: Time): (u: Store)
    requires Injective(s.paths)
    ensures Injective(u.paths) && exe in u.paths.Values
    ensures u.hashes == s.hashes && u.white == s.white && u.black == s.black && u.disk == s.disk
  {
    var verdict := ListVerdict(s.hashes, s.contents, s.white, s.black, UpsertId(s.paths, exe));
    UpsertSpec(s.paths, exe);
    if verdict.Some? then s.(paths := Upsert(s.paths, exe))
    else
      s.(paths := BurstPaths(s.paths, s.rows, s.white, s.black, exe, now),
         rows := Select(s.rows, NotOlderThan(now - BurstWindow)),
         contents := s.contents - Pruned(s.rows, now - BurstWindow, s.white, s.black))
  }

  /**
   * BanProcessAndRestoreFiles on the store `u` for the binary at `exe`: a
   * whitelisted binary is refused and nothing changes; otherwise the binary
   * joins the black list, its rows (of any age) are deleted, and the files
   * they name are restored in row order, the restore's outcome being the
   * outcome.
   */
  ghost function Banished(u: Store, exe: Path): (Outcome, Store)
    requires exe in u.paths.Values
  {
    var bin := IdOf(u.paths, exe);
    if bin in u.white then (Failed(WhitelistedBinary), u)
    else
      var corrupted := AsFiles(Targets(Select(u.rows, BinSince(bin, 0))));
      var restored := RestoreAll(u.disk, corrupted, u.paths, u.contents);
      (restored.0, u.(black := u.black + {bin}, rows := Select(u.rows, OtherBin(bin)), disk := restored.1))
  }

  /**
   * A ban that is not refused quarantines the binary, whatever the restore
   * does; only the binary joins the black list, only its rows go, and only
   * the disk changes besides.
   */
  lemma BanishedQuarantines(u: Store, exe: Path)
    requires Injective(u.paths) && exe in u.paths.Values
    ensures var bin := IdOf(u.paths, exe);
            var (o, q) := Banished(u, exe);
            && (bin in u.white <==> o == Failed(WhitelistedBinary) && q == u)
            && (bin !in u.white ==>
                  && Quarantined(q.paths, q.black, q.rows, exe)
                  && q.black == u.black + {bin}
                  && (forall row :: row in u.rows && row.bin != bin ==> row in q.rows)
                  && q == u.(black := q.black, rows := q.rows, disk := q.disk))
  {
    var bin := IdOf(u.paths, exe);
    if bin !in u.white {
      RestoreAllMeaning(u.disk, AsFiles(Targets(Select(u.rows, BinSince(bin, 0)))), u.paths, u.contents);
      var (o, q) := Banished(u, exe);
      assert q.rows == Select(u.rows, OtherBin(bin));
      forall row | row in q.rows ensures row.bin != bin {
        SelectMembers(u.rows, OtherBin(bin), row);
      }
      forall row | row in u.rows && row.bin != bin ensures row in q.rows {
        SelectMembers(u.rows, OtherBin(bin), row);
      }
    }
  }

  /** The snapshots of `t` are some of those of `s`, unchanged. */
  ghost predicate SnapshotsKept(s: Store, t: Store)
  {
    forall k :: k in t.contents ==> k in s.contents && t.contents[k] == s.contents[k]
  }

  /** The row HandleWrite appends: the binary, the written file and its directory, looked up in that order. */
  ghost function WriteRow(paths: map<FileId, Path>, target: Path, exe: Path, now: Time): ActionRow
  {
    var withTarget := Upsert(paths, target);
    var withBin := Upsert(withTarget, exe);
    ActionRow(UpsertId(withTarget, exe), UpsertId(paths, target), UpsertId(withBin, ParentPath(target)), now)
  }

  /**
   * The store HandleWrite judges the writer on: the written file, the binary
   * and the file's directory looked up (or added), and the row appended.
   */
  ghost function Recorded(s: Store, target: Path, exe: Path, now: Time): (t: Store)
    requires Injective(s.paths)
    ensures Injective(t.paths)
    ensures t.rows == s.rows + [WriteRow(s.paths, target, exe, now)]
    ensures t.hashes == s.hashes && t.contents == s.contents && t.white == s.white && t.black == s.black && t.disk == s.disk
  {
    var withTarget := Upsert(s.paths, target);
    var withBin := Upsert(withTarget, exe);
    UpsertSpec(s.paths, target);
    UpsertSpec(withTarget, exe);
    UpsertSpec(withBin, ParentPath(target));
    s.(paths := Upsert(withBin, ParentPath(target)), rows := s.rows + [WriteRow(s.paths, target, exe, now)])
  }

  /**
   * What HandleWrite does to the store `s`, leaving `t` and the outcome `o`:
   * an unresolved target or binary stops it; otherwise the write is recorded
   * and the answer of HasWriteAccess on the recorded store decides. Trusted:
   * the row stays and the lists and the disk are untouched; untrusted: the
   * writer is banned and its files restored, the outcome being the ban's
   * and restore's; an error of HasWriteAccess is the outcome. The store
   * afterwards is the one HasWriteAccess leaves on the recorded store, after
   * the ban and restore when untrusted. Snapshots are only ever reclaimed.
   */
  ghost predicate Wrote(s: Store, t: Store, ev: Event, o: Outcome)
  {
    && Injective(s.paths) && Injective(t.paths)
    && t.hashes == s.hashes && t.white == s.white
    && SnapshotsKept(s, t)
    && (ev.target.None? ==> o == Failed(ResolutionFailed) && t == s)
    && (ev.target.Some? && ev.exe.None? ==>
          o == Failed(ResolutionFailed) && t == s.(paths := Upsert(s.paths, ev.target.value)))
    && (ev.target.Some? && ev.exe.Some? ==>
          var w := Trust(Recorded(s, ev.target.value, ev.exe.value, ev.now), ev.exe.value, ev.now);
          && ev.exe.value in t.paths.Values
          && (w.Err? ==> o == Failed(w.error))
          && (w == Ok(true) ==>
                && o == Done && t.black == s.black && t.disk == s.disk
                && WriteRow(s.paths, ev.target.value, ev.exe.value, ev.now) in t.rows)
          && (w == Ok(false) && o == Done ==> Quarantined(t.paths, t.black, t.rows, ev.exe.value))
          && var u := Assessed(Recorded(s, ev.target.value, ev.exe.value, ev.now), ev.exe.value, ev.now);
          && (w != Ok(false) ==> t == u)
          && (w == Ok(false) ==> var (b, q) := Banished(u, ev.exe.value); t == q && o == b))
  }

  /** The store after the lookup (or insert) of the opened file. */
  ghost function Looked(s: Store, target: Path): (t: Store)
    requires Injective(s.paths)
    ensures Injective(t.paths)
    ensures t == s.(paths := Upsert(s.paths, target))
  {
    UpsertSpec(s.paths, target);
    s.(paths := Upsert(s.paths, target))
  }

  /**
   * How the agent's own database is answered, from the store `s` after the
   * lookup of the opened file: the binary is looked up and its hash alone
   * decides; nothing else changes.
   */
  ghost predicate DatabaseAnswer(s: Store, t: Store, p: Process, r: Result<Reply>)
  {
    && t == s.(paths := BinaryUpsert(s.paths, p))
    && (p.exe.None? ==> r == Err(ResolutionFailed))
    && (p.exe.Some? ==>
          var h := StoredOrCountHash(s.hashes, s.contents, UpsertId(s.paths, p.exe.value));
          r == Ok(if h == DbAccessHash then Allow else Deny))
  }

  /**
   * How any other file `id` is answered, from the store `s` after its lookup:
   * by HasWriteAccess. Trusted means Allow (or the error of a snapshot whose
   * file lost its row to the pruning), with a snapshot taken when there is
   * none; untrusted means Deny after the quarantine (or the quarantine's
   * error). Only the opened file can gain a snapshot, and a snapshot that
   * the pruning does not reclaim is kept. The store afterwards is the one
   * HasWriteAccess leaves, with the new snapshot when trusted and after
   * the ban and restore when not.
   */
  ghost predicate FileAnswer(s: Store, t: Store, p: Process, id: FileId, now: Time, r: Result<Reply>)
    requires Injective(s.paths)
  {
    && (forall k :: k in t.contents && k != id ==> k in s.contents && t.contents[k] == s.contents[k])
    && (forall k :: k in s.contents && k !in Pruned(s.rows, now - BurstWindow, s.white, s.black) ==>
          k in t.contents && t.contents[k] == s.contents[k])
    && (p.exe.None? ==> r == Err(ResolutionFailed))
    && (p.exe.Some? ==>
          var w := Trust(s, p.exe.value, now);
          && p.exe.value in t.paths.Values
          && (w.Err? ==> r == Err(w.error))
          && (w == Ok(true) ==> r == Ok(Allow) || r == Err(PathMissing))
          && (w == Ok(false) ==> r == Ok(Deny) || r.Err?)
          && (r == Ok(Allow) ==>
                && t.black == s.black && t.disk == s.disk && id in t.contents
                && (id !in s.contents ==> id in t.paths && t.contents[id] == FileBytes(t.disk, t.paths[id])))
          && (r == Ok(Deny) ==> Quarantined(t.paths, t.black, t.rows, p.exe.value))
          && var u := Assessed(s, p.exe.value, now);
          && (w.Err? ==> t == u)
          && (w == Ok(true) ==>
                && t == u.(contents := t.contents)
                && (id in u.contents ==> r == Ok(Allow) && t.contents == u.contents)
                && (id !in u.contents && id in u.paths ==>
                      r == Ok(Allow) && t.contents == u.contents[id := FileBytes(u.disk, u.paths[id])])
                && (id !in u.contents && id !in u.paths ==> r == Err(PathMissing) && t.contents == u.contents))
          && (w == Ok(false) ==>
                var (b, q) := Banished(u, p.exe.value);
                t == q && r == (if b == Done then Ok(Deny) else Err(b.error))))
  }

  /**
   * What HandleOpen does to the store `s`, leaving `t` and the answer `r`:
   * the opened file is looked up (or added); the agent's database (id 0) is
   * answered by the hash check and any other file by the trust rule.
   */
  ghost predicate Opened(s: Store, t: Store, ev: Event, r: Result<Reply>)
  {
    && Injective(s.paths) && Injective(t.paths)
    && t.hashes == s.hashes && t.white == s.white
    && (ev.target.None? ==> r == Err(ResolutionFailed) && t == s)
    && (ev.target.Some? ==>
          var looked := Looked(s, ev.target.value);
          var id := UpsertId(s.paths, ev.target.value);
          && (id == 0 ==> DatabaseAnswer(looked, t, Process(ev.pid, ev.exe), r))
          && (id != 0 ==> FileAnswer(looked, t, Process(ev.pid, ev.exe), id, ev.now, r)))
  }

  /**
   * The trust step shared by both handlers: HasWriteAccess, and for an
   * untrusted binary the quarantine. The answer is HasWriteAccess's, except
   * that a failing quarantine of an untrusted binary is an error. The store
   * is the one HasWriteAccess leaves (`Assessed`), and for an untrusted
   * binary that store after the ban and restore (`Banished`). Ok(true):
   * the lists and the disk untouched and every recent row kept; Ok(false):
   * quarantined. Snapshots are only reclaimed by the pruning.
   */
  method Judge(db: Database, disk: Disk, p: Process, now: Time) returns (r: Result<bool>)
    requires db.Valid()
    modifies db.files, db.actions, db.contents, db.blacklist.table, disk
    ensures db.Valid()
    ensures p.exe.None? ==> r == Err(ResolutionFailed) && StoreOf(db, disk) == old(StoreOf(db, disk))
    ensures p.exe.Some? ==>
              var w := Trust(old(StoreOf(db, disk)), p.exe.value, now);
              r == w || (w == Ok(false) && r.Err?)
    ensures p.exe.Some? ==> p.exe.value in db.files.paths.Values
    ensures SnapshotsKept(old(StoreOf(db, disk)), StoreOf(db, disk))
    ensures forall k :: k in old(db.contents.contents)
                        && k !in Pruned(old(db.actions.rows), now - BurstWindow, old(db.whitelist.table.ids), old(db.blacklist.table.ids)) ==>
              k in db.contents.contents && db.contents.contents[k] == old(db.contents.contents)[k]
    ensures r == Ok(true) ==>
              && db.blacklist.table.ids == old(db.blacklist.table.ids) && disk.files == old(disk.files)
              && forall row :: row in old(db.actions.rows) && row.timepoint >= now - BurstWindow ==> row in db.actions.rows
    ensures r == Ok(false) ==> Quarantined(db.files.paths, db.blacklist.table.ids, db.actions.rows, p.exe.value)
    ensures p.exe.Some? ==>
              var s := old(StoreOf(db, disk));
              var u := Assessed(s, p.exe.value, now);
              if Trust(s, p.exe.value, now) == Ok(false) then
                var (o, q) := Banished(u, p.exe.value);
                StoreOf(db, disk) == q && r == (if o == Done then Ok(false) else Err(o.error))
              else StoreOf(db, disk) == u
  {
    ghost var rows0 := db.actions.rows;
    ghost var s := StoreOf(db, disk);
    var access := HasWriteAccess(db, disk, p, now);
    assert p.exe.Some? ==> StoreOf(db, disk) == Assessed(s, p.exe.value, now);
    match access {
      case Err(e) =>
        return Err(e);
      case Ok(trusted) =>
        if trusted {
          RecentRowsKept(rows0, now - BurstWindow);
          return Ok(true);
        }
    }
    r := QuarantineUntrusted(db, disk, p);
  }

  /**
   * The untrusted branch of Judge: BanProcessAndRestoreFiles, whose effect
   * on the store is `Banished`; a completed one leaves the binary
   * quarantined.
   */
  method QuarantineUntrusted(db: Database, disk: Disk, p: Process) returns (r: Result<bool>)
    requires db.Valid()
    requires p.exe.Some? && p.exe.value in db.files.paths.Values
    modifies db.files, db.actions, db.blacklist.table, disk
    ensures db.Valid()
    ensures p.exe.value in db.files.paths.Values
    ensures r.Err? || r == Ok(false)
    ensures r.Ok? ==> Quarantined(db.files.paths, db.blacklist.table.ids, db.actions.rows, p.exe.value)
    ensures var (o, q) := Banished(old(StoreOf(db, disk)), p.exe.value);
            StoreOf(db, disk) == q && r == (if o == Done then Ok(false) else Err(o.error))
  {
    UpsertIdIsIdOf(db.files.paths, p.exe.value);
    UpsertSpec(db.files.paths, p.exe.value);
    ghost var beforeBan := db.actions.rows;
    var quarantined := BanProcessAndRestoreFiles(db, disk, p);
    match quarantined {
      case Failed(e) =>
        return Err(e);
      case Done =>
    }
    var bin := IdOf(db.files.paths, p.exe.value);
    forall row | row in db.actions.rows ensures row.bin != bin {
      SelectMembers(beforeBan, OtherBin(bin), row);
    }
    r := Ok(false);
  }

  /**
   * main.cpp's HandleWrite: the written file is looked up (or added), the
   * write is recorded, and then trust is evaluated; a trusted writer leaves
   * its row in the table, an untrusted one is banned and its files restored.
   */
  method HandleWrite(db: Database, disk: Disk, ev: Event) returns (o: Outcome)
    requires db.Valid()
    modifies db.files, db.actions, db.contents, db.blacklist.table, disk
    ensures db.Valid()
    ensures Wrote(old(StoreOf(db, disk)), StoreOf(db, disk), ev, o)
  {
    match ev.target {
      case None =>
        return Failed(ResolutionFailed);
      case Some(path) =>
        ghost var before := StoreOf(db, disk);
        var target := db.GetFileByPath(path);
        var p := Process(ev.pid, ev.exe);
        var added := db.AddAction(p, target, ev.now);
        match added {
          case Failed(e) =>
            return Failed(e);
          case Done =>
        }
        assert StoreOf(db, disk) == Recorded(before, path, ev.exe.value, ev.now);
        ghost var row := WriteRow(before.paths, path, ev.exe.value, ev.now);
        assert row in db.actions.rows && row.timepoint >= ev.now - BurstWindow;
        var judged := Judge(db, disk, p, ev.now);
        match judged {
          case Err(e) =>
            return Failed(e);
          case Ok(_) =>
            return Done;
        }
    }
  }

  /**
   * main.cpp's HandleOpen: at most one reply (none when something throws on
   * the way). The agent's database is opened only by the binary with the
   * hard-coded hash, and write trust is not consulted for it; another file
   * is allowed to a trusted binary after its first snapshot is taken, and
   * denied to an untrusted one, which is then quarantined.
   */
  method HandleOpen(db: Database, disk: Disk, ev: Event) returns (r: Result<Reply>)
    requires db.Valid()
    modifies db.files, db.actions, db.contents, db.blacklist.table, disk
    ensures db.Valid()
    ensures Opened(old(StoreOf(db, disk)), StoreOf(db, disk), ev, r)
  {
    match ev.target {
      case None =>
        return Err(ResolutionFailed);
      case Some(path) =>
        ghost var before := StoreOf(db, disk);
        var target := db.GetFileByPath(path);
        var p := Process(ev.pid, ev.exe);
        assert StoreOf(db, disk) == Looked(before, path);
        if target.IsAntivirusDb() {
          r := AnswerDatabase(db, disk, p);
        } else {
          r := AnswerFile(db, disk, p, target, ev.now);
        }
    }
  }

  /** The database branch of HandleOpen: the hash check on the opening binary. */
  method AnswerDatabase(db: Database, disk: Disk, p: Process) returns (r: Result<Reply>)
    requires db.Valid()
    modifies db.files
    ensures db.Valid()
    ensures DatabaseAnswer(old(StoreOf(db, disk)), StoreOf(db, disk), p, r)
  {
    var access := HasAccessToDb(db, disk, p);
    match access {
      case Err(e) =>
        return Err(e);
      case Ok(allowed) =>
        r := Ok(if allowed then Allow else Deny);
    }
  }

  /** The branch of HandleOpen for any other file: the trust rule, then the first snapshot. */
  method AnswerFile(db: Database, disk: Disk, p: Process, target: File, now: Time) returns (r: Result<Reply>)
    requires db.Valid()
    modifies db.files, db.actions, db.contents, db.blacklist.table, disk
    ensures db.Valid()
    ensures Injective(db.files.paths)
    ensures FileAnswer(old(StoreOf(db, disk)), StoreOf(db, disk), p, target.id, now, r)
  {
    var judged := Judge(db, disk, p, now);
    match judged {
      case Err(e) =>
        return Err(e);
      case Ok(trusted) =>
        if !trusted {
          return Ok(Deny);
        }
    }
    var saved := db.FileWasSaved(target);
    if !saved {
      var stored := db.SaveFileContent(target, disk);
      match stored {
        case Failed(e) =>
          return Err(e);
        case Done =>
      }
    }
    r := Ok(Allow);
  }

  /**
   * One event handled from the store `s`, leaving `t`, with `mid` the store
   * between the write and the open and `wrote` the write's outcome: a
   * close-write event (with a descriptor) goes through HandleWrite; a failed
   * write ends the event with no reply; otherwise a permission event is
   * answered by HandleOpen on `mid`, the reply being its answer, and a
   * failed open sends no reply; any other event changes nothing more.
   */
  ghost predicate Handled(s: Store, mid: Store, t: Store, ev: Event, wrote: Outcome, o: Outcome, reply: Option<Reply>)
  {
    && (ev.fd >= 0 && ev.closeWrite ==> Wrote(s, mid, ev, wrote))
    && (!(ev.fd >= 0 && ev.closeWrite) ==> wrote == Done && mid == s)
    && (wrote.Failed? ==> o == wrote && reply == None && t == mid)
    && (wrote == Done && ev.fd >= 0 && ev.openPerm ==>
          && (reply.Some? <==> o == Done)
          && (reply.Some? ==> Opened(mid, t, ev, Ok(reply.value)))
          && (o.Failed? ==> Opened(mid, t, ev, Err(o.error))))
    && (wrote == Done && !(ev.fd >= 0 && ev.openPerm) ==> o == Done && reply == None && t == mid)
    && (reply.Some? <==> o == Done && ev.fd >= 0 && ev.openPerm)
  }

  /**
   * The per-event dispatch of HandleEvents: an event with a valid descriptor
   * is handled as a write first (close-write bit), then as an open (either
   * permission bit) on the store the write left; a failure stops the
   * handling, so no reply is sent. `mid` is the store between the two steps
   * and `wrote` the write's outcome.
   */
  method HandleEvent(db: Database, disk: Disk, ev: Event) returns (o: Outcome, reply: Option<Reply>, ghost mid: Store, ghost wrote: Outcome)
    requires db.Valid()
    modifies db.files, db.actions, db.contents, db.blacklist.table, disk
    ensures db.Valid()
    ensures Handled(old(StoreOf(db, disk)), mid, StoreOf(db, disk), ev, wrote, o, reply)
  {
    mid, wrote := StoreOf(db, disk), Done;
    if ev.fd < 0 {
      return Done, None, mid, wrote;
    }
    if ev.closeWrite {
      var written := HandleWrite(db, disk, ev);
      mid, wrote := StoreOf(db, disk), written;
      if written != Done {
        return written, None, mid, wrote;
      }
    }
    if ev.openPerm {
      var answered := HandleOpen(db, disk, ev);
      match answered {
        case Err(e) =>
          return Failed(e), None, mid, wrote;
        case Ok(rep) =>
          return Done, Some(rep), mid, wrote;
      }
    }
    o, reply := Done, None;
  }

  /** The requests are exactly the events with a descriptor and a permission bit. */
  lemma {:induction false} PermissionRequestsMeaning(events: seq<Event>)
    ensures forall j :: 0 <= j < |PermissionRequests(events)| ==>
              var ev := PermissionRequests(events)[j];
              ev in events && ev.fd >= 0 && ev.openPerm
    ensures forall ev :: ev in events && ev.fd >= 0 && ev.openPerm ==> ev in PermissionRequests(events)
    decreases |events|
  {
    if events != [] {
      var init := events[..|events| - 1];
      PermissionRequestsMeaning(init);
      assert events == init + [events[|events| - 1]];
    }
  }

  /**
   * One step of HandleEvents: dispatches the event and appends its reply,
   * if it gets one; the reply is the answer `Handled` gives the event.
   */
  method Respond(db: Database, disk: Disk, ev: Event, responses: seq<Response>)
    returns (o: Outcome, more: seq<Response>, ghost mid: Store, ghost wrote: Outcome, ghost answer: Option<Reply>)
    requires db.Valid()
    modifies db.files, db.actions, db.contents, db.blacklist.table, disk
    ensures db.Valid()
    ensures Handled(old(StoreOf(db, disk)), mid, StoreOf(db, disk), ev, wrote, o, answer)
    ensures more == responses + (if answer.Some? then [Response(ev.fd, answer.value)] else [])
    ensures o == Done && ev.fd >= 0 && ev.openPerm ==>
              |more| == |responses| + 1 && more[..|responses|] == responses && more[|responses|].fd == ev.fd
    ensures o == Done && !(ev.fd >= 0 && ev.openPerm) ==> more == responses
  {
    var handled, reply;
    handled, reply, mid, wrote := HandleEvent(db, disk, ev);
    o, more, answer := handled, responses, reply;
    if reply.Some? {
      more := responses + [Response(ev.fd, reply.value)];
    }
  }

  /** The events that ask for a permission reply, in order. */
  function PermissionRequests(events: seq<Event>): (r: seq<Event>)
    ensures |r| <= |events|
  {
    if events == [] then []
    else
      var ev := events[|events| - 1];
      PermissionRequests(events[..|events| - 1]) + (if ev.fd >= 0 && ev.openPerm then [ev] else [])
  }

  /** The replies written for handled events, given each one's answer: one per answered event, for its descriptor, in order. */
  function Replies(events: seq<Event>, answers: seq<Option<Reply>>): seq<Response>
    requires |events| == |answers|
    decreases |events|
  {
    if events == [] then []
    else
      Replies(events[..|events| - 1], answers[..|answers| - 1])
      + (if answers[|answers| - 1].Some? then [Response(events[|events| - 1].fd, answers[|answers| - 1].value)] else [])
  }

  /**
   * The first |answers| events of a batch handled one after another:
   * `trace` holds the store before each and after the last, each step is
   * `Handled` with its intermediate store, write outcome and answer, and
   * every step but the last has outcome Done, the last `last`.
   */
  ghost predicate Traced(events: seq<Event>, trace: seq<Store>, mids: seq<Store>, wrotes: seq<Outcome>,
                         answers: seq<Option<Reply>>, last: Outcome)
  {
    && |answers| <= |events| && |trace| == |answers| + 1 && |mids| == |answers| && |wrotes| == |answers|
    && forall k :: 0 <= k < |answers| ==> StepTraced(events, trace, mids, wrotes, answers, last, k)
  }

  /** Step `k` of a trace: `Handled`, with outcome Done unless it is the last step. */
  ghost predicate StepTraced(events: seq<Event>, trace: seq<Store>, mids: seq<Store>, wrotes: seq<Outcome>,
                             answers: seq<Option<Reply>>, last: Outcome, k: nat)
  {
    && k < |answers| <= |events| && |trace| == |answers| + 1 && |mids| == |answers| && |wrotes| == |answers|
    && Handled(trace[k], mids[k], trace[k + 1], events[k], wrotes[k], if k + 1 < |answers| then Done else last, answers[k])
  }

  /** A trace ending in success extends by the next event's step. */
  lemma TracedStep(events: seq<Event>, trace: seq<Store>, mids: seq<Store>, wrotes: seq<Outcome>,
                   answers: seq<Option<Reply>>, t: Store, mid: Store, wrote: Outcome, o: Outcome, answer: Option<Reply>)
    requires Traced(events, trace, mids, wrotes, answers, Done)
    requires |answers| < |events|
    requires Handled(trace[|answers|], mid, t, events[|answers|], wrote, o, answer)
    ensures Traced(events, trace + [t], mids + [mid], wrotes + [wrote], answers + [answer], o)
  {
    var n := |answers|;
    forall k | 0 <= k < n + 1
      ensures StepTraced(events, trace + [t], mids + [mid], wrotes + [wrote], answers + [answer], o, k)
    {
      if k < n {
        assert StepTraced(events, trace, mids, wrotes, answers, Done, k);
        assert (trace + [t])[k + 1] == trace[k + 1];
      }
    }
  }

  /**
   * One iteration of HandleEvents: event `i` is handled on the store the
   * trace ends in, its step is added to the trace, and its reply (if any)
   * to the replies.
   */
  method Advance(db: Database, disk: Disk, events: seq<Event>, i: nat, responses: seq<Response>,
                 ghost trace: seq<Store>, ghost mids: seq<Store>, ghost wrotes: seq<Outcome>, ghost answers: seq<Option<Reply>>)
    returns (o: Outcome, more: seq<Response>,
             ghost trace': seq<Store>, ghost mids': seq<Store>, ghost wrotes': seq<Outcome>, ghost answers': seq<Option<Reply>>)
    requires db.Valid()
    requires i < |events| && |answers| == i && Traced(events, trace, mids, wrotes, answers, Done)
    requires trace[i] == StoreOf(db, disk)
    requires responses == Replies(events[..i], answers)
    modifies db.files, db.actions, db.contents, db.blacklist.table, disk
    ensures db.Valid()
    ensures |answers'| == i + 1 && Traced(events, trace', mids', wrotes', answers', o)
    ensures trace'[0] == trace[0] && trace'[i + 1] == StoreOf(db, disk)
    ensures more == Replies(events[..i + 1], answers')
    ensures o == Done && events[i].fd >= 0 && events[i].openPerm ==>
              |more| == |responses| + 1 && more[..|responses|] == responses && more[|responses|].fd == events[i].fd
    ensures !(o == Done && events[i].fd >= 0 && events[i].openPerm) ==> more == responses
  {
    ghost var mid, wrote, answer;
    o, more, mid, wrote, answer := Respond(db, disk, events[i], responses);
    assert events[..i + 1][..i] == events[..i];
    assert (answers + [answer])[..i] == answers;
    TracedStep(events, trace, mids, wrotes, answers, StoreOf(db, disk), mid, wrote, o, answer);
    trace', mids', wrotes', answers' := trace + [StoreOf(db, disk)], mids + [mid], wrotes + [wrote], answers + [answer];
  }

  /**
   * Handles a batch in order, stopping at the first failure (which ends the
   * agent). The replies sent go to the permission requests in order, one
   * each, for their own descriptors; when all succeed, every request is
   * answered. `trace` holds the store before each handled event and after
   * the last; each step is `Handled` with its intermediate store, write
   * outcome and answer, every step but the last succeeds, and the replies
   * are exactly the answers, in order.
   */
  method HandleEvents(db: Database, disk: Disk, events: seq<Event>)
    returns (o: Outcome, responses: seq<Response>,
             ghost trace: seq<Store>, ghost mids: seq<Store>, ghost wrotes: seq<Outcome>, ghost answers: seq<Option<Reply>>)
    requires db.Valid()
    modifies db.files, db.actions, db.contents, db.blacklist.table, disk
    ensures db.Valid()
    ensures |responses| <= |PermissionRequests(events)|
    ensures forall i :: 0 <= i < |responses| ==> responses[i].fd == PermissionRequests(events)[i].fd
    ensures o == Done ==> |responses| == |PermissionRequests(events)|
    ensures Traced(events, trace, mids, wrotes, answers, o)
    ensures trace[0] == old(StoreOf(db, disk)) && trace[|answers|] == StoreOf(db, disk)
    ensures o == Done ==> |answers| == |events|
    ensures o != Done ==> |answers| > 0
    ensures responses == Replies(events[..|answers|], answers)
  {
    responses := [];
    trace, mids, wrotes, answers := [StoreOf(db, disk)], [], [], [];
    var i := 0;
    while i < |events|
      invariant 0 <= i <= |events|
      invariant db.Valid()
      invariant |responses| == |PermissionRequests(events[..i])|
      invariant forall j :: 0 <= j < |responses| ==> responses[j].fd == PermissionRequests(events[..i])[j].fd
      invariant |answers| == i && Traced(events, trace, mids, wrotes, answers, Done)
      invariant trace[0] == old(StoreOf(db, disk)) && trace[i] == StoreOf(db, disk)
      invariant responses == Replies(events[..i], answers)
    {
      RequestsStep(events, i);
      var handled, more;
      handled, more, trace, mids, wrotes, answers := Advance(db, disk, events, i, responses, trace, mids, wrotes, answers);
      if handled != Done {
        RequestsPrefix(events, i);
        return handled, more, trace, mids, wrotes, answers;
      }
      responses := more;
      i := i + 1;
    }
    assert events[..i] == events;
    o := Done;
  }

  lemma RequestsStep(events: seq<Event>, i: nat)
    requires i < |events|
    ensures PermissionRequests(events[..i + 1])
         == PermissionRequests(events[..i]) + (if events[i].fd >= 0 && events[i].openPerm then [events[i]] else [])
  {
    assert events[..i + 1][..i] == events[..i];
  }

  /** The requests of a prefix of a batch are a prefix of the batch's requests. */
  lemma {:induction false} RequestsPrefix(events: seq<Event>, i: nat)
    requires i <= |events|
    ensures PermissionRequests(events[..i]) <= PermissionRequests(events)
    decreases |events|
  {
    if i < |events| {
      var init := events[..|events| - 1];
      RequestsPrefix(init, i);
      assert init[..i] == events[..i];
    } else {
      assert events[..i] == events;
    }
  }
}
