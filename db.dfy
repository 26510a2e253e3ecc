/**
 * The Database facade over the five tables, the FileList wrapper around a
 * list table, and the two handles the rest of the agent passes around: a
 * File (a row id of `files`) and a Process (a pid whose exe link resolves,
 * or not, to a path). The exe resolution and the filesystem are inputs.
 */
module Db {
  import opened Common
  import opened Actions
  import opened Files
  import opened FilesHash
  import opened FilesContent
  import opened Lists
  import Checksum

  /** A file known to the database, by its row id in `files`. */
  datatype File = File(id: FileId)
  {
    /**
     * The agent's own database file is the one with row id 0, an id no insert
     * by the agent hands out.
     */
    predicate IsAntivirusDb()
      ensures IsAntivirusDb() ==> forall paths :: NextRowId(paths) != id
    {
      id == 0
    }
  }

  /** A process: its pid, and what its exe link resolves to (None: the link could not be read). */
  datatype Process = Process(pid: int, exe: Option<Path>)

  /** The id carrying `v` in a table keyed by id (unique in a one-to-one table). */
  ghost function IdOf<V>(table: map<FileId, V>, v: V): (id: FileId)
    requires v in table.Values
    ensures id in table && table[id] == v
  {
    var id :| id in table && table[id] == v;
    id
  }

  /** The id GetFileByPath yields: the existing one, or the rowid of a new row. */
  ghost function UpsertId(paths: map<FileId, Path>, path: Path): FileId
  {
    if path in paths.Values then IdOf(paths, path) else NextRowId(paths)
  }

  /** The `files` table after GetFileByPath. */
  ghost function Upsert(paths: map<FileId, Path>, path: Path): map<FileId, Path>
  {
    if path in paths.Values then paths else paths[NextRowId(paths) := path]
  }

  /** The `files` table after resolving a process's binary (nothing happens when the link is unreadable). */
  ghost function BinaryUpsert(paths: map<FileId, Path>, p: Process): map<FileId, Path>
  {
    if p.exe.Some? then Upsert(paths, p.exe.value) else paths
  }

  /**
   * GetFileByPath is an upsert: the path ends up carried by exactly one id,
   * every existing row is kept, a known path changes nothing, and a second
   * call with the same path returns the same id and changes nothing.
   */
  lemma UpsertSpec(paths: map<FileId, Path>, path: Path)
    requires Injective(paths)
    ensures var after, id := Upsert(paths, path), UpsertId(paths, path);
            && Injective(after)
            && id in after && after[id] == path
            && (forall other :: other in after && after[other] == path ==> other == id)
            && (forall other :: other in paths ==> other in after && after[other] == paths[other])
            && (path in paths.Values <==> after == paths)
            && Upsert(after, path) == after
            && UpsertId(after, path) == id
  {
    if path !in paths.Values {
      InsertRoundTrip(paths, path);
      assert path in Upsert(paths, path).Values;
    }
  }

  /** After an upsert the path is known, and its id is the one the upsert yielded. */
  lemma UpsertIdIsIdOf(paths: map<FileId, Path>, path: Path)
    requires Injective(paths)
    ensures Injective(Upsert(paths, path))
    ensures path in Upsert(paths, path).Values
    ensures IdOf(Upsert(paths, path), path) == UpsertId(paths, path)
  {
    UpsertSpec(paths, path);
  }

  /**
   * A file can only be taken for the agent's database when a persisted row
   * already had id 0: rowids handed out by an insert start at 1.
   */
  lemma OnlyPersistedRowIsDatabase(paths: map<FileId, Path>, path: Path)
    requires Injective(paths)
    requires File(UpsertId(paths, path)).IsAntivirusDb()
    ensures 0 in paths && paths[0] == path
  {
  }

  /** File ids for a list of row ids, in the same order. */
  function AsFiles(ids: seq<FileId>): (r: seq<File>)
    ensures |r| == |ids|
    ensures forall i :: 0 <= i < |ids| ==> r[i].id == ids[i]
  {
    if ids == [] then [] else AsFiles(ids[..|ids| - 1]) + [File(ids[|ids| - 1])]
  }

  /**
   * The paths of a list of ids, in the same order; dereferencing the empty
   * path of an id the `files` table lacks is undefined in the source and is
   * an error here.
   */
  function PathsOf(ids: seq<FileId>, paths: map<FileId, Path>): (r: Result<seq<Path>>)
    ensures r.Ok? <==> forall i :: 0 <= i < |ids| ==> ids[i] in paths
    ensures r.Ok? ==> |r.value| == |ids| && forall i :: 0 <= i < |ids| ==> r.value[i] == paths[ids[i]]
    ensures r.Err? ==> r.error == PathMissing
  {
    if ids == [] then Ok([])
    else
      var last := ids[|ids| - 1];
      match PathsOf(ids[..|ids| - 1], paths)
      case Err(e) => Err(e)
      case Ok(init) => if last in paths then Ok(init + [paths[last]]) else Err(PathMissing)
  }

  lemma PathsOfPrefix(ids: seq<FileId>, i: nat, paths: map<FileId, Path>)
    requires i < |ids| && PathsOf(ids[..i], paths).Ok? && ids[i] in paths
    ensures PathsOf(ids[..i + 1], paths) == Ok(PathsOf(ids[..i], paths).value + [paths[ids[i]]])
  {
    assert ids[..i + 1][..i] == ids[..i];
  }

  lemma PathsOfMissing(ids: seq<FileId>, i: nat, paths: map<FileId, Path>)
    requires i < |ids| && ids[i] !in paths
    ensures PathsOf(ids, paths) == Err(PathMissing)
  {
  }

  /** The per-directory-path counts of the directories `dirs`. */
  ghost function CountsOf(groups: map<FileId, seq<FileId>>, paths: map<FileId, Path>, dirs: set<FileId>): map<Path, nat>
    requires Injective(paths)
    requires dirs <= groups.Keys && dirs <= paths.Keys
  {
    map d | d in dirs :: paths[d] := |groups[d]|
  }

  lemma CountsOfAdd(groups: map<FileId, seq<FileId>>, paths: map<FileId, Path>, dirs: set<FileId>, d: FileId)
    requires Injective(paths)
    requires dirs <= groups.Keys && dirs <= paths.Keys
    requires d in groups && d in paths && d !in dirs
    ensures paths[d] !in CountsOf(groups, paths, dirs)
    ensures CountsOf(groups, paths, dirs + {d}) == CountsOf(groups, paths, dirs)[paths[d] := |groups[d]|]
  {
  }

  /**
   * What Database::FindActionsOnDirs builds from the grouped rows: each
   * directory's path with the length of its list; a directory id without a
   * `files` row makes value() throw.
   */
  ghost function DirCounts(groups: map<FileId, seq<FileId>>, paths: map<FileId, Path>): Result<map<Path, nat>>
    requires Injective(paths)
  {
    if groups.Keys <= paths.Keys then Ok(CountsOf(groups, paths, groups.Keys)) else Err(PathMissing)
  }

  /**
   * The per-directory counts count ROWS: for the rows of a process since a
   * time, each directory's path is mapped to the number of those rows in that
   * directory (a file rewritten three times counts three), and nothing else
   * is mapped; the lookup fails exactly when some directory has no path.
   */
  lemma DirCountsMeaning(rows: Rows, paths: map<FileId, Path>)
    requires Injective(paths)
    ensures DirCounts(GroupByDir(rows), paths).Ok? <==> Dirs(rows) <= paths.Keys
    ensures var r := DirCounts(GroupByDir(rows), paths);
            r.Ok? ==>
              && (forall d :: d in Dirs(rows) ==> paths[d] in r.value && r.value[paths[d]] == |Select(rows, InDirs({d}))|)
              && (forall q :: q in r.value ==> exists d :: d in Dirs(rows) && paths[d] == q)
  {
    GroupByDirIsGrouping(rows);
    var g := GroupByDir(rows);
    if Dirs(rows) <= paths.Keys {
      var counts := CountsOf(g, paths, g.Keys);
      forall d | d in Dirs(rows) ensures paths[d] in counts && counts[paths[d]] == |Select(rows, InDirs({d}))| {
        assert |g[d]| == |Targets(Select(rows, InDirs({d})))|;
      }
    }
  }

  /** The white or black list: a list table plus the `files` table to turn ids into paths. */
  class FileList {
    const table: ListTable
    const files: FilesTable

    constructor(table: ListTable, files: FilesTable)
      ensures this.table == table && this.files == files
    {
      this.table := table;
      this.files := files;
    }

    /** Looks the id up first, so adding a listed file changes nothing and never fails. */
    method Add(f: File)
      modifies table
      ensures table.ids == old(table.ids) + {f.id}
    {
      var found := table.Find(f.id);
      if found {
        return;
      }
      var inserted := table.Insert(f.id);
    }

    method Find(f: File) returns (found: bool)
      ensures found <==> f.id in table.ids
    {
      found := table.Find(f.id);
    }

    method Delete(f: File)
      modifies table
      ensures table.ids == old(table.ids) - {f.id}
    {
      table.Delete(f.id);
    }

    /** One path per listed id, in the list's order (ascending ids). */
    method ListFiles() returns (r: Result<seq<Path>>)
      ensures r == PathsOf(Ascending(table.ids), files.paths)
    {
      var list := table.List();
      var result: seq<Path> := [];
      var i := 0;
      while i < |list|
        invariant 0 <= i <= |list|
        invariant PathsOf(list[..i], files.paths) == Ok(result)
      {
        var path := files.FindPath(list[i]);
        match path {
          case None =>
            PathsOfMissing(list, i, files.paths);
            return Err(PathMissing);
          case Some(found) =>
            PathsOfPrefix(list, i, files.paths);
            result := result + [found];
        }
        i := i + 1;
      }
      assert list[..i] == list;
      r := Ok(result);
    }
  }

  class Database {
    const actions: ActionsTable
    const files: FilesTable
    const hashes: FilesHashTable
    const contents: FilesContentTable
    const blacklist: FileList
    const whitelist: FileList

    ghost predicate Valid()
      reads files, hashes
    {
      && files.Valid() && hashes.Valid()
      && blacklist.files == files && whitelist.files == files
      && blacklist.table.tier == Black && whitelist.table.tier == White
      && blacklist.table != whitelist.table
    }

    /**
     * Opens the database: the persisted tables are kept, the `actions` table
     * is dropped and re-created empty.
     */
    constructor(persistedFiles: map<FileId, Path>, persistedHashes: map<FileId, Hash>,
                persistedContents: map<FileId, Bytes>, persistedBlack: set<FileId>, persistedWhite: set<FileId>)
      requires Injective(persistedFiles) && UniqueHashes(persistedHashes)
      ensures Valid()
      ensures actions.rows == [] && files.paths == persistedFiles && hashes.hashes == persistedHashes
      ensures contents.contents == persistedContents
      ensures blacklist.table.ids == persistedBlack && whitelist.table.ids == persistedWhite
    {
      actions := new ActionsTable();
      contents := new FilesContentTable(persistedContents);
      hashes := new FilesHashTable(persistedHashes);
      var filesTable := new FilesTable(persistedFiles);
      files := filesTable;
      var black := new ListTable(Black, persistedBlack);
      var white := new ListTable(White, persistedWhite);
      blacklist := new FileList(black, filesTable);
      whitelist := new FileList(white, filesTable);
    }

    /** The id of a path, inserting a row for a path not yet known. */
    method GetFileByPath(path: Path) returns (f: File)
      requires Valid()
      modifies files
      ensures Valid()
      ensures f.id == UpsertId(old(files.paths), path) && files.paths == Upsert(old(files.paths), path)
      ensures f.id in files.paths && files.paths[f.id] == path
    {
      UpsertSpec(files.paths, path);
      var found := files.FindFileId(path);
      match found {
        case Some(id) =>
          f := File(id);
        case None =>
          var inserted := files.Insert(path);
          match inserted {
            case Ok(id) => f := File(id);
            case Err(_) => assert false;
          }
      }
    }

    /** The process's binary: the file its exe link resolves to, upserted. */
    method GetBinary(p: Process) returns (r: Result<File>)
      requires Valid()
      modifies files
      ensures Valid()
      ensures files.paths == BinaryUpsert(old(files.paths), p)
      ensures p.exe.None? ==> r == Err(ResolutionFailed)
      ensures p.exe.Some? ==> r == Ok(File(UpsertId(old(files.paths), p.exe.value)))
    {
      match p.exe {
        case None =>
          return Err(ResolutionFailed);
        case Some(path) =>
          var bin := GetFileByPath(path);
          r := Ok(bin);
      }
    }

    /**
     * Records that the process wrote `f`: the binary is resolved first, then
     * the directory of `f` is upserted, then one row (binary, file,
     * directory, now) is appended.
     */
    method AddAction(p: Process, f: File, now: Time) returns (o: Outcome)
      requires Valid()
      modifies files, actions
      ensures Valid()
      ensures p.exe.None? ==>
                o == Failed(ResolutionFailed) && files.paths == old(files.paths) && actions.rows == old(actions.rows)
      ensures p.exe.Some? && f.id !in Upsert(old(files.paths), p.exe.value) ==>
                && o == Failed(PathMissing)
                && files.paths == Upsert(old(files.paths), p.exe.value)
                && actions.rows == old(actions.rows)
      ensures p.exe.Some? && f.id in Upsert(old(files.paths), p.exe.value) ==>
                var withBin := Upsert(old(files.paths), p.exe.value);
                var dir := ParentPath(withBin[f.id]);
                && o == Done
                && files.paths == Upsert(withBin, dir)
                && actions.rows == old(actions.rows) + [ActionRow(UpsertId(old(files.paths), p.exe.value), f.id, UpsertId(withBin, dir), now)]
    {
      var bin := GetBinary(p);
      match bin {
        case Err(e) =>
          return Failed(e);
        case Ok(b) =>
          var target := files.FindPath(f.id);
          match target {
            case None =>
              return Failed(PathMissing);
            case Some(path) =>
              var dir := GetFileByPath(ParentPath(path));
              actions.AddAction(b.id, f.id, dir.id, now);
              o := Done;
          }
      }
    }

    /** The files the process's binary wrote since `t`, one per row. */
    method FindActions(p: Process, t: Time) returns (r: Result<seq<File>>)
      requires Valid()
      modifies files
      ensures Valid()
      ensures files.paths == BinaryUpsert(old(files.paths), p)
      ensures p.exe.None? ==> r == Err(ResolutionFailed)
      ensures p.exe.Some? ==>
                r == Ok(AsFiles(Targets(Select(actions.rows, BinSince(UpsertId(old(files.paths), p.exe.value), t)))))
    {
      var bin := GetBinary(p);
      match bin {
        case Err(e) =>
          return Err(e);
        case Ok(b) =>
          var ids := actions.FindActions(b.id, t);
          var result: seq<File> := [];
          for i := 0 to |ids|
            invariant result == AsFiles(ids[..i])
          {
            assert ids[..i + 1][..i] == ids[..i];
            result := result + [File(ids[i])];
          }
          assert ids[..|ids|] == ids;
          r := Ok(result);
      }
    }

    /** Turns grouped directory ids into directory paths with their row counts. */
    method CountsByPath(groups: map<FileId, seq<FileId>>) returns (r: Result<map<Path, nat>>)
      requires Valid()
      ensures r == DirCounts(groups, files.paths)
    {
      var todo := groups.Keys;
      var result: map<Path, nat> := map[];
      while todo != {}
        invariant todo <= groups.Keys
        invariant groups.Keys - todo <= files.paths.Keys
        invariant result == CountsOf(groups, files.paths, groups.Keys - todo)
        decreases |todo|
      {
        var d :| d in todo;
        var path := files.FindPath(d);
        match path {
          case None =>
            assert d in groups.Keys && d !in files.paths;
            return Err(PathMissing);
          case Some(dirPath) =>
            CountsOfAdd(groups, files.paths, groups.Keys - todo, d);
            assert groups.Keys - (todo - {d}) == (groups.Keys - todo) + {d};
            result := result[dirPath := |groups[d]|];
            todo := todo - {d};
        }
      }
      assert groups.Keys - todo == groups.Keys;
      r := Ok(result);
    }

    /** The process's per-directory row counts since `t`, keyed by directory path. */
    method FindActionsOnDirs(p: Process, t: Time) returns (r: Result<map<Path, nat>>)
      requires Valid()
      modifies files
      ensures Valid()
      ensures files.paths == BinaryUpsert(old(files.paths), p)
      ensures p.exe.None? ==> r == Err(ResolutionFailed)
      ensures p.exe.Some? ==>
                r == DirCounts(GroupByDir(Select(actions.rows, BinSince(UpsertId(old(files.paths), p.exe.value), t))), files.paths)
    {
      var bin := GetBinary(p);
      match bin {
        case Err(e) =>
          return Err(e);
        case Ok(b) =>
          var groups := actions.FindActionsOnDirs(b.id, t);
          r := CountsByPath(groups);
      }
    }

    /** Removes every action row of the process's binary. */
    method DeleteActions(p: Process) returns (o: Outcome)
      requires Valid()
      modifies files, actions
      ensures Valid()
      ensures files.paths == BinaryUpsert(old(files.paths), p)
      ensures p.exe.None? ==> o == Failed(ResolutionFailed) && actions.rows == old(actions.rows)
      ensures p.exe.Some? ==>
                o == Done && actions.rows == Select(old(actions.rows), OtherBin(UpsertId(old(files.paths), p.exe.value)))
    {
      var bin := GetBinary(p);
      match bin {
        case Err(e) =>
          return Failed(e);
        case Ok(b) =>
          actions.DeleteActions(b.id);
          o := Done;
      }
    }

    method GetFilePath(f: File) returns (r: Option<Path>)
      ensures r.Some? <==> f.id in files.paths
      ensures r.Some? ==> r.value == files.paths[f.id]
    {
      r := files.FindPath(f.id);
    }

    /** What the content lookup yields: the count text, never the snapshot. */
    method GetContent(f: File) returns (r: Option<Bytes>)
      ensures r == Some(if f.id in contents.contents then [49] else [48])
    {
      r := contents.GetContent(f.id);
    }

    method FileWasSaved(f: File) returns (saved: bool)
      ensures saved <==> f.id in contents.contents
    {
      saved := contents.ContentWasSaved(f.id);
    }

    /** Stores the file's current content as its snapshot, by update or by insert. */
    method SaveFileContent(f: File, disk: Disk) returns (o: Outcome)
      modifies contents
      ensures f.id !in files.paths ==> o == Failed(PathMissing) && contents.contents == old(contents.contents)
      ensures f.id in files.paths ==>
                o == Done && contents.contents == old(contents.contents)[f.id := FileBytes(disk.files, files.paths[f.id])]
    {
      var content := ReadContent(this, f, disk);
      match content {
        case Err(e) =>
          return Failed(e);
        case Ok(bytes) =>
          var saved := FileWasSaved(f);
          if saved {
            contents.UpdateContent(f.id, bytes);
            o := Done;
          } else {
            o := contents.Insert(f.id, bytes);
          }
      }
    }

    /** Stores the checksum of the file's current content, by update or by insert. */
    method SaveFileHash(f: File, disk: Disk) returns (o: Outcome)
      requires Valid()
      modifies hashes
      ensures Valid()
      ensures f.id !in files.paths ==> o == Failed(PathMissing) && hashes.hashes == old(hashes.hashes)
      ensures f.id in files.paths ==>
                var h := Checksum.CalculateHash(FileBytes(disk.files, files.paths[f.id]));
                if TakenByOther(old(hashes.hashes), f.id, h)
                then o == Failed(ConstraintViolated) && hashes.hashes == old(hashes.hashes)
                else o == Done && hashes.hashes == old(hashes.hashes)[f.id := h]
    {
      var content := ReadContent(this, f, disk);
      match content {
        case Err(e) =>
          return Failed(e);
        case Ok(bytes) =>
          var hash := Checksum.CalculateHash(bytes);
          var stored := GetFileHash(f);
          if stored.Some? {
            o := hashes.UpdateHash(f.id, hash);
          } else {
            assert hashes.hashes - {f.id} == hashes.hashes;
            o := hashes.Insert(f.id, hash);
          }
      }
    }

    method GetFileHash(f: File) returns (r: Option<Hash>)
      ensures r.Some? <==> f.id in hashes.hashes
      ensures r.Some? ==> r.value == hashes.hashes[f.id]
    {
      r := hashes.GetHash(f.id);
    }

    /** The file carrying a checksum, if any (there is at most one). */
    method FindFileByHash(h: Hash) returns (r: Option<File>)
      ensures r.Some? <==> h in hashes.hashes.Values
      ensures r.Some? ==> r.value.id in hashes.hashes && hashes.hashes[r.value.id] == h
    {
      var id := hashes.FindByHash(h);
      r := if id.Some? then Some(File(id.value)) else None;
    }

    /**
     * Prunes the action rows older than `t` and reclaims each pruned target
     * that has no action as a binary since `t` and is on neither list: its
     * snapshot and its `files` row go (its hash row stays, see
     * FilesHashTable.Delete).
     */
    method DeleteOld(t: Time)
      requires Valid()
      modifies actions, files, contents
      ensures Valid()
      ensures actions.rows == Select(old(actions.rows), NotOlderThan(t))
      ensures var gone := Pruned(old(actions.rows), t, whitelist.table.ids, blacklist.table.ids);
              && files.paths == old(files.paths) - gone
              && contents.contents == old(contents.contents) - gone
    {
      var deleted := actions.DeleteOld(t);
      ghost var rows, white, black := actions.rows, whitelist.table.ids, blacklist.table.ids;
      ghost var gone: set<FileId> := {};
      var i := 0;
      while i < |deleted|
        invariant 0 <= i <= |deleted|
        invariant Valid()
        invariant actions.rows == rows
        invariant gone == Reclaimable(deleted[..i], rows, t, white, black)
        invariant files.paths == old(files.paths) - gone
        invariant contents.contents == old(contents.contents) - gone
      {
        var id := deleted[i];
        ReclaimableAppend(deleted[..i], id, rows, t, white, black);
        assert deleted[..i + 1] == deleted[..i] + [id];
        ghost var reclaim := Select(rows, BinSince(id, t)) == [] && id !in white && id !in black;
        RemoveOneMore(old(files.paths), gone, id, reclaim);
        RemoveOneMore(old(contents.contents), gone, id, reclaim);
        ReclaimIfUnused(id, t);
        gone := gone + (if reclaim then {id} else {});
        i := i + 1;
      }
      assert deleted[..i] == deleted;
    }

    /** One step of DeleteOld: drops the snapshot and the `files` row of an id no longer in use. */
    method ReclaimIfUnused(id: FileId, t: Time)
      requires Valid()
      modifies files, contents
      ensures Valid()
      ensures var unused := Select(actions.rows, BinSince(id, t)) == [] && id !in whitelist.table.ids && id !in blacklist.table.ids;
              && files.paths == (if unused then old(files.paths) - {id} else old(files.paths))
              && contents.contents == (if unused then old(contents.contents) - {id} else old(contents.contents))
    {
      var recent := actions.FindActions(id, t);
      if recent != [] {
        return;
      }
      var white := whitelist.table.Find(id);
      if white {
        return;
      }
      var black := blacklist.table.Find(id);
      if black {
        return;
      }
      contents.Delete(id);
      hashes.Delete(id);
      files.Delete(id);
    }
  }

  /** File::ReadContent: the whole current content of the file at the id's path. */
  method ReadContent(db: Database, f: File, disk: Disk) returns (r: Result<Bytes>)
    ensures f.id !in db.files.paths ==> r == Err(PathMissing)
    ensures f.id in db.files.paths ==> r == Ok(FileBytes(disk.files, db.files.paths[f.id]))
  {
    var path := db.GetFilePath(f);
    match path {
      case None =>
        return Err(PathMissing);
      case Some(p) =>
        var content := disk.Read(p);
        r := Ok(content);
    }
  }

  /**
   * The ids DeleteOld reclaims among `ids`: no action row of theirs as a
   * binary since `t`, and on neither list.
   */
  ghost function Reclaimable(ids: seq<FileId>, rows: Rows, t: Time, white: set<FileId>, black: set<FileId>): set<FileId>
  {
    set id | id in ids && Select(rows, BinSince(id, t)) == [] && id !in white && id !in black
  }

  /** The ids DeleteOld(t) reclaims from a table holding `rows`. */
  ghost function Pruned(rows: Rows, t: Time, white: set<FileId>, black: set<FileId>): set<FileId>
  {
    Reclaimable(Targets(Select(rows, OlderThan(t))), Select(rows, NotOlderThan(t)), t, white, black)
  }

  lemma RemoveOneMore<V>(m: map<FileId, V>, gone: set<FileId>, id: FileId, more: bool)
    ensures m - (gone + (if more then {id} else {})) == if more then (m - gone) - {id} else m - gone
  {
  }

  lemma ReclaimableAppend(ids: seq<FileId>, id: FileId, rows: Rows, t: Time, white: set<FileId>, black: set<FileId>)
    ensures Reclaimable(ids + [id], rows, t, white, black)
         == Reclaimable(ids, rows, t, white, black)
            + (if Select(rows, BinSince(id, t)) == [] && id !in white && id !in black then {id} else {})
  {
  }

  /**
   * Which ids DeleteOld(t) reclaims: exactly the targets of the deleted rows
   * that are on neither list and have no row from t on as a binary, whether
   * or not a kept row names them as a target.
   */
  lemma PrunedMeaning(rows: Rows, t: Time, white: set<FileId>, black: set<FileId>, id: FileId)
    ensures id in Pruned(rows, t, white, black) <==>
              && (exists row :: row in rows && row.timepoint < t && row.target == id)
              && id !in white && id !in black
              && (forall row :: row in rows && row.bin == id ==> row.timepoint < t)
  {
    var older := Select(rows, OlderThan(t));
    var kept := Select(rows, NotOlderThan(t));
    var recent := Select(kept, BinSince(id, t));
    if id in Targets(older) {
      var i :| 0 <= i < |older| && Targets(older)[i] == id;
      SelectMembers(rows, OlderThan(t), older[i]);
    }
    if exists row :: row in rows && row.timepoint < t && row.target == id {
      var row :| row in rows && row.timepoint < t && row.target == id;
      SelectMembers(rows, OlderThan(t), row);
      var i :| 0 <= i < |older| && older[i] == row;
      assert Targets(older)[i] == id;
    }
    if recent != [] {
      SelectMembers(kept, BinSince(id, t), recent[0]);
      SelectMembers(rows, NotOlderThan(t), recent[0]);
    }
    if exists row :: row in rows && row.bin == id && row.timepoint >= t {
      var row :| row in rows && row.bin == id && row.timepoint >= t;
      SelectMembers(rows, NotOlderThan(t), row);
      SelectMembers(kept, BinSince(id, t), row);
    }
  }

  /**
   * Reclaiming looks only at the binary role: a file that an old row and a
   * recent row both name as target, and that never ran as a binary, loses its
   * `files` row and snapshot although it was written after the cutoff.
   */
  lemma RecentlyWrittenTargetIsReclaimed()
    ensures 2 in Pruned([ActionRow(1, 2, 3, 0), ActionRow(1, 2, 3, 200)], 100, {}, {})
  {
  }
}
