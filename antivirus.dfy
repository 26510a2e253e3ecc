/**
 * The first version of the agent (antivirus.cpp): an in-memory burst detector
 * keyed by process id. For every pid it remembers, per directory and per file
 * name, the time of the last completed write; a pid with more than three
 * distinct files written in one directory is banned for good, and every later
 * open by it is denied.
 */
module Antivirus {
  import opened Common

  /** ActionStorage::MAX_ACTIONS_IN_SAME_DIR */
  const MaxActionsInSameDir := 3

  /** ActionStorage::CHECKING_INTERVAL, in milliseconds */
  const CheckingInterval := 1000

  /** file name -> time of its last write */
  type FilesUsages = map<string, Time>

  /** directory -> its written files */
  type DirsUsages = map<string, FilesUsages>

  /** pid -> its directories */
  type PidsActions = map<int, DirsUsages>

  /** What `actions[pid]` yields, an empty map when the pid is unknown (operator[]). */
  function DirsOf(actions: PidsActions, pid: int): DirsUsages
  {
    if pid in actions then actions[pid] else map[]
  }

  /** What `dirs[dir]` yields, an empty map when the directory is unknown (operator[]). */
  function FilesOf(dirs: DirsUsages, dir: string): FilesUsages
  {
    if dir in dirs then dirs[dir] else map[]
  }

  /**
   * The effect of `pids_actions_[pid][dir][name] = now`: one timestamp per
   * (pid, directory, file name), overwritten by a later write of the same file.
   */
  function Recorded(actions: PidsActions, pid: int, dir: string, name: string, now: Time): (r: PidsActions)
    ensures r.Keys == actions.Keys + {pid}
    ensures forall q :: q in actions && q != pid ==> r[q] == actions[q]
    ensures r[pid].Keys == DirsOf(actions, pid).Keys + {dir}
    ensures forall d :: d in DirsOf(actions, pid) && d != dir ==> r[pid][d] == DirsOf(actions, pid)[d]
    ensures r[pid][dir].Keys == FilesOf(DirsOf(actions, pid), dir).Keys + {name}
    ensures r[pid][dir][name] == now
    ensures forall n :: n in FilesOf(DirsOf(actions, pid), dir) && n != name ==>
              r[pid][dir][n] == FilesOf(DirsOf(actions, pid), dir)[n]
  {
    var dirs := DirsOf(actions, pid);
    actions[pid := dirs[dir := FilesOf(dirs, dir)[name := now]]]
  }

  /** A write at `t` is outside the checking interval seen from `tp`. */
  predicate Stale(tp: Time, t: Time)
  {
    tp - t > CheckingInterval
  }

  /** The entries of `usages` that are not stale seen from `tp`. */
  function Fresh(usages: FilesUsages, tp: Time): (r: FilesUsages)
    ensures forall n :: n in r <==> n in usages && !Stale(tp, usages[n])
    ensures forall n :: n in r ==> r[n] == usages[n]
  {
    map n | n in usages && !Stale(tp, usages[n]) :: usages[n]
  }

  /**
   * The effect of TruncateTimeQueue(pid, path, tp). The stale entries are erased
   * from a COPY of `actions[pid][path]`, keyed by the full path of the written
   * file rather than by its directory, so the stored maps only lose the
   * directory key `path`, and only when that copy ends up empty; the pid is
   * dropped when it is left without directories.
   */
  function Truncated(actions: PidsActions, pid: int, path: string, tp: Time): PidsActions
  {
    var dirs := DirsOf(actions, pid);
    var kept := if Fresh(FilesOf(dirs, path), tp) == map[] then dirs - {path} else dirs;
    if kept == map[] then actions - {pid} else actions[pid := kept]
  }

  /** Some directory of the pid holds more than MaxActionsInSameDir distinct files. */
  predicate Crowded(dirs: DirsUsages)
  {
    exists d :: d in dirs && |dirs[d]| > MaxActionsInSameDir
  }

  /** The answer of Check: not banned, and (if known) no crowded directory. */
  predicate Verdict(actions: PidsActions, banned: set<int>, pid: int)
  {
    pid !in banned && !(pid in actions && Crowded(actions[pid]))
  }

  /**
   * The maps Check leaves: a pid that is not yet banned and fails the check
   * is banned and all its actions are erased; otherwise nothing changes.
   */
  function AfterCheck(actions: PidsActions, banned: set<int>, pid: int): (PidsActions, set<int>)
  {
    if pid !in banned && !Verdict(actions, banned, pid) then (actions - {pid}, banned + {pid})
    else (actions, banned)
  }

  /**
   * A check bans at most the checked pid, and exactly when it fails; other
   * pids keep their actions; the answer does not change on a second check,
   * which changes nothing (a ban is for good).
   */
  lemma CheckSettles(actions: PidsActions, banned: set<int>, pid: int)
    ensures var (a, b) := AfterCheck(actions, banned, pid);
            && b == (if Verdict(actions, banned, pid) then banned else banned + {pid})
            && (forall q :: q != pid ==> (q in a <==> q in actions) && (q in a ==> a[q] == actions[q]))
            && Verdict(a, b, pid) == Verdict(actions, banned, pid)
            && AfterCheck(a, b, pid) == (a, b)
  {
  }

  /** The maps handle_write leaves: the write recorded and truncated, then the check. */
  function Written(actions: PidsActions, banned: set<int>, pid: int, path: Path, now: Time): (PidsActions, set<int>)
  {
    AfterCheck(Truncated(Recorded(actions, pid, ParentPath(path), FileName(path), now), pid, path, now), banned, pid)
  }

  /**
   * The truncation that follows a recorded write never touches the directory
   * just written, and it changes nothing at all unless the full path of the
   * file is itself a directory key whose files are all stale. (Stated for any
   * directory and name; Add passes ParentPath(path) and FileName(path).)
   */
  lemma {:induction false} TruncationAfterRecord(actions: PidsActions, pid: int, dir: string, name: string,
                                                 path: string, now: Time)
    ensures var written := Recorded(actions, pid, dir, name, now);
            var r := Truncated(written, pid, path, now);
            && pid in r && dir in r[pid]
            && r[pid][dir] == written[pid][dir]
            && (forall d :: d in r[pid] ==> d in written[pid] && r[pid][d] == written[pid][d])
            && (r == written <==> !(path in written[pid] && Fresh(written[pid][path], now) == map[]))
  {
    var written := Recorded(actions, pid, dir, name, now);
    var dirs := written[pid];
    assert name in Fresh(dirs[dir], now);
    if path in dirs && Fresh(dirs[path], now) == map[] {
      assert path != dir;
      assert dir in dirs - {path};
      assert Truncated(written, pid, path, now) == written[pid := dirs - {path}];
      assert path !in Truncated(written, pid, path, now)[pid];
    } else {
      assert DirsOf(written, pid) == dirs;
      if path !in dirs {
        assert dirs - {path} == dirs;
      }
      assert Truncated(written, pid, path, now) == written[pid := dirs];
      assert written[pid := dirs] == written;
    }
  }

  /**
   * Per-directory sizes count distinct file names: rewriting a recorded file
   * keeps the size, a new name adds one; a directory holding three files is
   * therefore pushed over the limit by a fourth distinct name, and not by a
   * rewrite of one of its three.
   */
  lemma {:induction false} FourthDistinctFileTrips(actions: PidsActions, pid: int, dir: string, name: string,
                                                   path: string, now: Time)
    requires pid in actions && dir in actions[pid]
    requires |actions[pid][dir]| == MaxActionsInSameDir
    requires !Crowded(actions[pid])
    ensures var r := Truncated(Recorded(actions, pid, dir, name, now), pid, path, now);
            pid in r && (Crowded(r[pid]) <==> name !in actions[pid][dir])
  {
    var written := Recorded(actions, pid, dir, name, now);
    TruncationAfterRecord(actions, pid, dir, name, path, now);
    var r := Truncated(written, pid, path, now);
    var oldFiles := actions[pid][dir];
    if name in oldFiles {
      assert oldFiles[name := now].Keys == oldFiles.Keys;
      forall d | d in written[pid] ensures |written[pid][d]| <= MaxActionsInSameDir {
        if d != dir {
          assert written[pid][d] == actions[pid][d];
        }
      }
      CalmSubDirs(written[pid], r[pid]);
    } else {
      assert |oldFiles[name := now]| == MaxActionsInSameDir + 1;
      assert |r[pid][dir]| > MaxActionsInSameDir;
    }
  }

  /** Dropping directories cannot make a pid crowded. */
  lemma CalmSubDirs(dirs: DirsUsages, sub: DirsUsages)
    requires !Crowded(dirs)
    requires forall d :: d in sub ==> d in dirs && sub[d] == dirs[d]
    ensures !Crowded(sub)
  {
  }

  /** A reply to a permission event: the event's fd and FAN_ALLOW / FAN_DENY. */
  datatype Response = Allow | Deny
  datatype Reply = Reply(fd: int, response: Response)

  class ActionStorage {
    var pidsActions: PidsActions
    var bannedPids: set<int>

    constructor()
      ensures pidsActions == map[] && bannedPids == {}
    {
      pidsActions := map[];
      bannedPids := {};
    }

    /** ActionStorage::Add: record the write of `path` at `now`, then truncate. */
    method Add(pid: int, path: Path, now: Time)
      modifies this
      ensures pidsActions ==
        Truncated(Recorded(old(pidsActions), pid, ParentPath(path), FileName(path), now), pid, path, now)
      ensures bannedPids == old(bannedPids)
    {
      pidsActions := Recorded(pidsActions, pid, ParentPath(path), FileName(path), now);
      TruncateTimeQueue(pid, path, now);
    }

    /**
     * ActionStorage::Check: false for a banned pid; otherwise, on the first
     * directory found with more than three files, ban the pid and erase all its
     * actions. A true answer leaves both maps as they were.
     */
    method Check(pid: int) returns (ok: bool)
      modifies this
      ensures ok == Verdict(old(pidsActions), old(bannedPids), pid)
      ensures old(bannedPids) <= bannedPids
      ensures pid in old(bannedPids) ==> pidsActions == old(pidsActions) && bannedPids == old(bannedPids)
      ensures ok ==> pidsActions == old(pidsActions) && bannedPids == old(bannedPids)
      ensures !ok && pid !in old(bannedPids) ==>
                pidsActions == old(pidsActions) - {pid} && bannedPids == old(bannedPids) + {pid}
      ensures (pidsActions, bannedPids) == AfterCheck(old(pidsActions), old(bannedPids), pid)
    {
      if pid in bannedPids {
        return false;
      }
      if pid !in pidsActions {
        return true;
      }
      ok := true;
      var dirs := pidsActions[pid];
      var unseen := dirs.Keys;
      while unseen != {}
        invariant unseen <= dirs.Keys
        invariant forall d :: d in dirs && d !in unseen ==> |dirs[d]| <= MaxActionsInSameDir
        invariant ok && pidsActions == old(pidsActions) && bannedPids == old(bannedPids)
        decreases unseen
      {
        var d :| d in unseen;
        if |dirs[d]| > MaxActionsInSameDir {
          bannedPids := bannedPids + {pid};
          ok := false;
          break;
        }
        unseen := unseen - {d};
      }
      if !ok {
        pidsActions := pidsActions - {pid};
      }
    }

    /**
     * ActionStorage::TruncateTimeQueue: copies `pidsActions[pid][path]`
     * (creating missing levels), erases the stale entries of the copy, then
     * drops the key `path` if the copy is empty and the pid if it has no
     * directory left.
     */
    method TruncateTimeQueue(pid: int, path: string, tp: Time)
      modifies this
      ensures pidsActions == Truncated(old(pidsActions), pid, path, tp)
      ensures bannedPids == old(bannedPids)
    {
      var dirs := DirsOf(pidsActions, pid);
      var usages := FilesOf(dirs, path);
      pidsActions := pidsActions[pid := dirs[path := usages]];
      var fileUsages := usages;
      var unseen := usages.Keys;
      while unseen != {}
        invariant unseen <= usages.Keys
        invariant forall n :: n in fileUsages <==> n in usages && (n in unseen || !Stale(tp, usages[n]))
        invariant forall n :: n in fileUsages ==> fileUsages[n] == usages[n]
        decreases unseen
      {
        var n :| n in unseen;
        if Stale(tp, usages[n]) {
          fileUsages := fileUsages - {n};
        }
        unseen := unseen - {n};
      }
      assert fileUsages == Fresh(usages, tp);
      if fileUsages == map[] {
        pidsActions := pidsActions[pid := pidsActions[pid] - {path}];
        assert pidsActions[pid] == dirs - {path};
      } else {
        assert path in dirs && dirs[path := usages] == dirs;
      }
      if pidsActions[pid] == map[] {
        pidsActions := pidsActions - {pid};
      }
    }
  }

  /** handle_write: record the write first, then check; a false check is only logged. */
  method HandleWrite(storage: ActionStorage, pid: int, path: Path, now: Time) returns (dangerous: bool)
    modifies storage
    ensures var written :=
              Truncated(Recorded(old(storage.pidsActions), pid, ParentPath(path), FileName(path), now), pid, path, now);
            && dangerous == !Verdict(written, old(storage.bannedPids), pid)
            && (dangerous <==> pid in storage.bannedPids)
            && (!dangerous ==> storage.pidsActions == written)
            && (dangerous && pid !in old(storage.bannedPids) ==>
                  storage.pidsActions == written - {pid} && storage.bannedPids == old(storage.bannedPids) + {pid})
            && (pid in old(storage.bannedPids) ==>
                  storage.pidsActions == written && storage.bannedPids == old(storage.bannedPids))
    ensures old(storage.bannedPids) <= storage.bannedPids
    ensures (storage.pidsActions, storage.bannedPids) == Written(old(storage.pidsActions), old(storage.bannedPids), pid, path, now)
  {
    storage.Add(pid, path, now);
    var ok := storage.Check(pid);
    dangerous := !ok;
  }

  /** handle_open: the reply is FAN_ALLOW exactly when Check(pid) holds. */
  method HandleOpen(storage: ActionStorage, fd: int, pid: int) returns (reply: Reply)
    modifies storage
    ensures reply.fd == fd
    ensures reply.response == Allow <==> Verdict(old(storage.pidsActions), old(storage.bannedPids), pid)
    ensures reply.response == Allow <==> pid !in storage.bannedPids
    ensures old(storage.bannedPids) <= storage.bannedPids
    ensures reply.response == Allow ==> storage.pidsActions == old(storage.pidsActions)
    ensures reply.response == Deny && pid !in old(storage.bannedPids) ==>
              storage.pidsActions == old(storage.pidsActions) - {pid} && storage.bannedPids == old(storage.bannedPids) + {pid}
    ensures pid in old(storage.bannedPids) ==>
              storage.pidsActions == old(storage.pidsActions) && storage.bannedPids == old(storage.bannedPids)
    ensures (storage.pidsActions, storage.bannedPids) == AfterCheck(old(storage.pidsActions), old(storage.bannedPids), pid)
  {
    var ok := storage.Check(pid);
    reply := Reply(fd, if ok then Allow else Deny);
  }

  /**
   * One fanotify event as the loop sees it: its fd (negative on queue
   * overflow), the writer's pid, the path behind the fd as read_symlink
   * resolves it (None when that throws), the mask bits the agent listens
   * to, and the clock reading of its handling.
   */
  datatype Event = Event(fd: int, pid: int, path: Option<Path>,
                         closeWrite: bool, openPerm: bool, openExecPerm: bool, now: Time)
  {
    predicate NeedsReply() { fd >= 0 && (openPerm || openExecPerm) }
  }

  /** The permission events of a batch, in order: those that must be answered. */
  function PermissionEvents(events: seq<Event>): (r: seq<Event>)
    ensures |r| <= |events|
    ensures forall e :: e in r ==> e in events && e.NeedsReply()
  {
    if events == [] then []
    else PermissionEvents(events[..|events| - 1])
         + (if events[|events| - 1].NeedsReply() then [events[|events| - 1]] else [])
  }

  /** Every event of a batch that needs a reply is among its permission events. */
  lemma {:induction false} PermissionEventsMeaning(events: seq<Event>)
    ensures forall e :: e in events && e.NeedsReply() ==> e in PermissionEvents(events)
    decreases |events|
  {
    if events != [] {
      var init := events[..|events| - 1];
      PermissionEventsMeaning(init);
      assert events == init + [events[|events| - 1]];
    }
  }

  /** The permission events of a prefix of a batch are a prefix of the batch's. */
  lemma {:induction false} PermissionEventsPrefix(events: seq<Event>, i: nat)
    requires i <= |events|
    ensures PermissionEvents(events[..i]) <= PermissionEvents(events)
    decreases |events|
  {
    if i < |events| {
      var init := events[..|events| - 1];
      PermissionEventsPrefix(init, i);
      assert init[..i] == events[..i];
    } else {
      assert events[..i] == events;
    }
  }

  /**
   * The maps after one event, with the failure that ends the agent: an
   * event without an fd changes nothing; a close-write whose fd link does
   * not resolve throws before anything is recorded; otherwise the write is
   * handled first and the open permission checked on the maps it left.
   */
  function Stepped(actions: PidsActions, banned: set<int>, ev: Event): (Outcome, PidsActions, set<int>)
  {
    if ev.fd < 0 then (Done, actions, banned)
    else if ev.closeWrite && ev.path.None? then (Failed(ResolutionFailed), actions, banned)
    else
      var written := if ev.closeWrite then Written(actions, banned, ev.pid, ev.path.value, ev.now) else (actions, banned);
      var checked := if ev.openPerm || ev.openExecPerm then AfterCheck(written.0, written.1, ev.pid) else written;
      (Done, checked.0, checked.1)
  }

  /**
   * One event never lifts a ban and bans at most its own pid; a pid banned
   * before the event is denied, and only its actions can change.
   */
  lemma SteppedBansForGood(actions: PidsActions, banned: set<int>, ev: Event)
    ensures var (o, a, b) := Stepped(actions, banned, ev);
            && banned <= b && b <= banned + {ev.pid}
            && (ev.pid in banned ==> b == banned && !Verdict(a, b, ev.pid))
            && (forall q :: q != ev.pid ==> (q in a <==> q in actions) && (q in a ==> a[q] == actions[q]))
  {
    if ev.fd >= 0 && !(ev.closeWrite && ev.path.None?) {
      var written := if ev.closeWrite then Written(actions, banned, ev.pid, ev.path.value, ev.now) else (actions, banned);
      if ev.closeWrite {
        var path := ev.path.value;
        var truncated := Truncated(Recorded(actions, ev.pid, ParentPath(path), FileName(path), ev.now), ev.pid, path, ev.now);
        assert forall q :: q != ev.pid ==> (q in truncated <==> q in actions) && (q in truncated ==> truncated[q] == actions[q]);
        CheckSettles(truncated, banned, ev.pid);
      }
      CheckSettles(written.0, written.1, ev.pid);
    }
  }

  /**
   * The reply handle_open writes for one event, on the maps the event's
   * write (if any) left: none for an event without an fd or permission
   * bit, or whose close-write throws; otherwise ALLOW exactly when the
   * check passes.
   */
  function Answered(actions: PidsActions, banned: set<int>, ev: Event): seq<Reply>
  {
    if !ev.NeedsReply() || (ev.closeWrite && ev.path.None?) then []
    else
      var written := if ev.closeWrite then Written(actions, banned, ev.pid, ev.path.value, ev.now) else (actions, banned);
      [Reply(ev.fd, if Verdict(written.0, written.1, ev.pid) then Allow else Deny)]
  }

  /**
   * handle_events over a batch from the given maps: the events in order,
   * each on the maps the previous one left, up to and including the first
   * that throws; yields the outcome, the replies written and the final maps.
   */
  function Run(actions: PidsActions, banned: set<int>, events: seq<Event>): (Outcome, seq<Reply>, PidsActions, set<int>)
    decreases |events|
  {
    if events == [] then (Done, [], actions, banned)
    else
      var before := Run(actions, banned, events[..|events| - 1]);
      if before.0 != Done then before
      else
        var ev := events[|events| - 1];
        var after := Stepped(before.2, before.3, ev);
        (after.0, before.1 + Answered(before.2, before.3, ev), after.1, after.2)
  }

  /** One more event of a batch not yet stopped: it is handled on the maps the prefix left. */
  lemma RunStep(actions: PidsActions, banned: set<int>, events: seq<Event>, i: nat)
    requires i < |events|
    requires Run(actions, banned, events[..i]).0 == Done
    ensures var before := Run(actions, banned, events[..i]);
            var after := Stepped(before.2, before.3, events[i]);
            Run(actions, banned, events[..i + 1])
              == (after.0, before.1 + Answered(before.2, before.3, events[i]), after.1, after.2)
  {
    assert events[..i + 1][..i] == events[..i];
    assert events[..i + 1][i] == events[i];
  }

  /**
   * The replies of a batch go to its permission events in order, one each,
   * for their own fds; every permission event is answered unless an event
   * throws.
   */
  lemma {:induction false} RunAnswersPermissionEvents(actions: PidsActions, banned: set<int>, events: seq<Event>)
    ensures var r := Run(actions, banned, events);
            && |r.1| <= |PermissionEvents(events)|
            && (forall j :: 0 <= j < |r.1| ==> r.1[j].fd == PermissionEvents(events)[j].fd)
            && (r.0 == Done ==> |r.1| == |PermissionEvents(events)|)
    decreases |events|
  {
    if events != [] {
      var init := events[..|events| - 1];
      RunAnswersPermissionEvents(actions, banned, init);
      assert PermissionEvents(init) <= PermissionEvents(events);
    }
  }

  /** Once an event of a batch throws, the later events change nothing. */
  lemma {:induction false} RunStopsAtFailure(actions: PidsActions, banned: set<int>, events: seq<Event>, i: nat)
    requires i <= |events|
    requires Run(actions, banned, events[..i]).0 != Done
    ensures Run(actions, banned, events) == Run(actions, banned, events[..i])
    decreases |events|
  {
    if i < |events| {
      var init := events[..|events| - 1];
      assert init[..i] == events[..i];
      RunStopsAtFailure(actions, banned, init, i);
    } else {
      assert events[..i] == events;
    }
  }

  /**
   * A batch never lifts a ban, and the pids it bans are pids of its
   * events; every other pid's actions are kept.
   */
  lemma {:induction false} RunBansForGood(actions: PidsActions, banned: set<int>, events: seq<Event>)
    ensures var r := Run(actions, banned, events);
            && banned <= r.3 && r.3 <= banned + (set ev | ev in events :: ev.pid)
            && (forall q :: q !in (set ev | ev in events :: ev.pid) ==>
                  (q in r.2 <==> q in actions) && (q in r.2 ==> r.2[q] == actions[q]))
    decreases |events|
  {
    if events != [] {
      var init := events[..|events| - 1];
      var ev := events[|events| - 1];
      RunBansForGood(actions, banned, init);
      assert (set e | e in init :: e.pid) <= (set e | e in events :: e.pid);
      var before := Run(actions, banned, init);
      if before.0 == Done {
        SteppedBansForGood(before.2, before.3, ev);
        assert ev.pid in (set e | e in events :: e.pid);
      }
    }
  }

  /**
   * The dispatch of one event by handle_events: a close-write is handled
   * before an open permission carried by the same event; an event without an
   * fd is skipped; a close-write whose fd link does not resolve throws, so
   * nothing more is done and no reply is written.
   */
  method HandleEvent(storage: ActionStorage, event: Event) returns (o: Outcome, replies: seq<Reply>)
    modifies storage
    ensures var (done, actions, banned) := Stepped(old(storage.pidsActions), old(storage.bannedPids), event);
            o == done && storage.pidsActions == actions && storage.bannedPids == banned
    ensures replies == Answered(old(storage.pidsActions), old(storage.bannedPids), event)
    ensures o == Done && event.NeedsReply() ==> |replies| == 1 && replies[0].fd == event.fd
    ensures !(o == Done && event.NeedsReply()) ==> replies == []
    ensures event.fd < 0 ==>
              o == Done && storage.pidsActions == old(storage.pidsActions) && storage.bannedPids == old(storage.bannedPids)
    ensures o == Done && event.NeedsReply() ==> (replies[0].response == Allow <==> event.pid !in storage.bannedPids)
    ensures event.fd >= 0 && event.closeWrite && event.path.Some? && event.pid !in storage.bannedPids ==>
              storage.pidsActions == Truncated(Recorded(old(storage.pidsActions), event.pid,
                ParentPath(event.path.value), FileName(event.path.value), event.now), event.pid, event.path.value, event.now)
  {
    o, replies := Done, [];
    if event.fd >= 0 {
      if event.closeWrite {
        match event.path {
          case None =>
            return Failed(ResolutionFailed), [];
          case Some(path) =>
            var _ := HandleWrite(storage, event.pid, path, event.now);
        }
      }
      if event.openPerm || event.openExecPerm {
        var reply := HandleOpen(storage, event.fd, event.pid);
        replies := [reply];
      }
    }
  }

  /**
   * A drained batch of events, handled in order until one throws (which
   * ends the agent): the replies go to the permission events in order, one
   * each, for their own fds, and every one is answered when none throws.
   */
  method HandleEvents(storage: ActionStorage, events: seq<Event>) returns (o: Outcome, replies: seq<Reply>)
    modifies storage
    ensures |replies| <= |PermissionEvents(events)|
    ensures forall i :: 0 <= i < |replies| ==> replies[i].fd == PermissionEvents(events)[i].fd
    ensures o == Done ==> |replies| == |PermissionEvents(events)|
    ensures (o, replies, storage.pidsActions, storage.bannedPids)
         == Run(old(storage.pidsActions), old(storage.bannedPids), events)
  {
    replies := [];
    var i := 0;
    while i < |events|
      invariant 0 <= i <= |events|
      invariant (Done, replies, storage.pidsActions, storage.bannedPids)
             == Run(old(storage.pidsActions), old(storage.bannedPids), events[..i])
    {
      RunStep(old(storage.pidsActions), old(storage.bannedPids), events, i);
      var handled, more := HandleEvent(storage, events[i]);
      if handled != Done {
        assert more == [] && replies + more == replies;
        RunStopsAtFailure(old(storage.pidsActions), old(storage.bannedPids), events, i + 1);
        RunAnswersPermissionEvents(old(storage.pidsActions), old(storage.bannedPids), events);
        return handled, replies;
      }
      replies := replies + more;
      i := i + 1;
    }
    assert events[..i] == events;
    RunAnswersPermissionEvents(old(storage.pidsActions), old(storage.bannedPids), events);
    o := Done;
  }
}
