/**
 * The list-management command: choose the black or the white list (the
 * other one becomes the opposite list), then either print the chosen list
 * or apply the additions (each added file leaves the opposite list) and
 * then the removals (which touch the chosen list only). Option parsing is
 * left out: the command receives what was given.
 */
module ListsCli {
  import opened Common
  import opened Files
  import opened Lists
  import opened Db

  /** What the command prints, or that it changed the lists. */
  datatype CliOutput = Help | UnknownType(listType: string) | Listed(paths: seq<Path>) | Updated

  /** The chosen tier and its opposite for a list name; None for an unknown name. */
  function SelectLists(listType: string): (r: Option<(Tier, Tier)>)
    ensures r.Some? <==> listType in {"black", "b", "white", "w"}
    ensures r.Some? ==> r.value.0 != r.value.1
    ensures r.Some? ==> (r.value.0 == Black <==> listType in {"black", "b"})
  {
    if listType == "black" || listType == "b" then Some((Black, White))
    else if listType == "white" || listType == "w" then Some((White, Black))
    else None
  }

  /** The database's list of a tier. */
  function ListOf(db: Database, tier: Tier): FileList
  {
    if tier == Black then db.blacklist else db.whitelist
  }

  /** The `files` table after looking up (or adding) each path in turn. */
  ghost function UpsertAll(paths: map<FileId, Path>, ps: seq<Path>): map<FileId, Path>
  {
    if ps == [] then paths else Upsert(UpsertAll(paths, ps[..|ps| - 1]), ps[|ps| - 1])
  }

  /** The ids of some known paths. */
  ghost function IdsOf(paths: map<FileId, Path>, ps: seq<Path>): set<FileId>
    requires forall i :: 0 <= i < |ps| ==> ps[i] in paths.Values
  {
    set i | 0 <= i < |ps| :: IdOf(paths, ps[i])
  }

  /**
   * Looking paths up one after another keeps the table one-to-one, makes
   * every one of them known, and keeps every existing row.
   */
  lemma {:induction false} UpsertAllSpec(paths: map<FileId, Path>, ps: seq<Path>)
    requires Injective(paths)
    ensures Injective(UpsertAll(paths, ps))
    ensures forall i :: 0 <= i < |ps| ==> ps[i] in UpsertAll(paths, ps).Values
    ensures forall id :: id in paths ==> id in UpsertAll(paths, ps) && UpsertAll(paths, ps)[id] == paths[id]
    decreases |ps|
  {
    if ps != [] {
      var init := ps[..|ps| - 1];
      UpsertAllSpec(paths, init);
      UpsertSpec(UpsertAll(paths, init), ps[|ps| - 1]);
      forall i | 0 <= i < |ps| ensures ps[i] in UpsertAll(paths, ps).Values {
        if i < |ps| - 1 {
          assert ps[i] == init[i];
          var id :| id in UpsertAll(paths, init) && UpsertAll(paths, init)[id] == ps[i];
          assert UpsertAll(paths, ps)[id] == ps[i];
        }
      }
    }
  }

  /** Looking up one more path does not change the ids of paths already known. */
  lemma IdsOfStable(paths: map<FileId, Path>, ps: seq<Path>, q: Path)
    requires Injective(paths)
    requires forall i :: 0 <= i < |ps| ==> ps[i] in paths.Values
    ensures forall i :: 0 <= i < |ps| ==> ps[i] in Upsert(paths, q).Values
    ensures IdsOf(Upsert(paths, q), ps) == IdsOf(paths, ps)
  {
    UpsertSpec(paths, q);
    forall i | 0 <= i < |ps| ensures ps[i] in Upsert(paths, q).Values && IdOf(Upsert(paths, q), ps[i]) == IdOf(paths, ps[i]) {
      var id := IdOf(paths, ps[i]);
      assert Upsert(paths, q)[id] == ps[i];
    }
  }

  /** Looking up the next path adds exactly its id to the ids of the paths so far. */
  lemma IdsOfStep(paths: map<FileId, Path>, ps: seq<Path>, q: Path)
    requires Injective(paths)
    requires forall i :: 0 <= i < |ps| ==> ps[i] in paths.Values
    ensures forall i :: 0 <= i < |ps + [q]| ==> (ps + [q])[i] in Upsert(paths, q).Values
    ensures IdsOf(Upsert(paths, q), ps + [q]) == IdsOf(paths, ps) + {UpsertId(paths, q)}
  {
    UpsertSpec(paths, q);
    IdsOfStable(paths, ps, q);
    assert forall i :: 0 <= i < |ps| ==> (ps + [q])[i] == ps[i];
    assert (ps + [q])[|ps|] == q;
    assert IdOf(Upsert(paths, q), q) == UpsertId(paths, q);
  }

  /**
   * Runs the command on the opened database. Help, or no list given: the
   * help text. An unknown list name: a message, the lists and `files` do not
   * change. Neither additions nor removals: the
   * chosen list's paths. Otherwise each added path's file joins the chosen
   * list and leaves the opposite one, then each removed path's file leaves
   * the chosen list; so a path both added and removed ends on neither.
   */
  method RunLists(db: Database, help: bool, listType: Option<string>, adds: Option<seq<Path>>,
                  removes: Option<seq<Path>>) returns (r: Result<CliOutput>)
    requires db.Valid()
    modifies db.files, db.blacklist.table, db.whitelist.table
    ensures db.Valid()
    ensures help || listType.None? || SelectLists(listType.value).None? || (adds.None? && removes.None?) ==>
              && db.files.paths == old(db.files.paths)
              && db.blacklist.table.ids == old(db.blacklist.table.ids)
              && db.whitelist.table.ids == old(db.whitelist.table.ids)
    ensures help || listType.None? ==> r == Ok(Help)
    ensures !help && listType.Some? && SelectLists(listType.value).None? ==> r == Ok(UnknownType(listType.value))
    ensures !help && listType.Some? && SelectLists(listType.value).Some? && adds.None? && removes.None? ==>
              var chosen := ListOf(db, SelectLists(listType.value).value.0);
              r == (match PathsOf(Ascending(chosen.table.ids), db.files.paths)
                    case Ok(paths) => Ok(Listed(paths))
                    case Err(e) => Err(e))
    ensures !help && listType.Some? && SelectLists(listType.value).Some? && (adds.Some? || removes.Some?) ==>
              var (tier, other) := SelectLists(listType.value).value;
              var added := if adds.Some? then adds.value else [];
              var removed := if removes.Some? then removes.value else [];
              && r == Ok(Updated)
              && db.files.paths == UpsertAll(UpsertAll(old(db.files.paths), added), removed)
              && (forall i :: 0 <= i < |added| ==> added[i] in db.files.paths.Values)
              && (forall i :: 0 <= i < |removed| ==> removed[i] in db.files.paths.Values)
              && ListOf(db, tier).table.ids
                   == (old(ListOf(db, tier).table.ids) + IdsOf(db.files.paths, added)) - IdsOf(db.files.paths, removed)
              && ListOf(db, other).table.ids == old(ListOf(db, other).table.ids) - IdsOf(db.files.paths, added)
  {
    if help || listType.None? {
      return Ok(Help);
    }
    var selected := SelectLists(listType.value);
    if selected.None? {
      return Ok(UnknownType(listType.value));
    }
    var (tier, other) := selected.value;
    var list := ListOf(db, tier);
    var opposite := ListOf(db, other);
    if adds.None? && removes.None? {
      var listed := list.ListFiles();
      match listed {
        case Ok(paths) => return Ok(Listed(paths));
        case Err(e) => return Err(e);
      }
    }
    var added := if adds.Some? then adds.value else [];
    var removed := if removes.Some? then removes.value else [];
    ApplyAdds(db, list, opposite, added);
    ApplyRemoves(db, list, added, removed);
    r := Ok(Updated);
  }

  /** The additions: each path's file joins `list` and leaves `opposite`, in order. */
  method ApplyAdds(db: Database, list: FileList, opposite: FileList, added: seq<Path>)
    requires db.Valid()
    requires list.table != opposite.table
    modifies db.files, list.table, opposite.table
    ensures db.Valid()
    ensures db.files.paths == UpsertAll(old(db.files.paths), added)
    ensures forall k :: 0 <= k < |added| ==> added[k] in db.files.paths.Values
    ensures list.table.ids == old(list.table.ids) + IdsOf(db.files.paths, added)
    ensures opposite.table.ids == old(opposite.table.ids) - IdsOf(db.files.paths, added)
  {
    var i := 0;
    while i < |added|
      invariant 0 <= i <= |added|
      invariant db.Valid()
      invariant db.files.paths == UpsertAll(old(db.files.paths), added[..i])
      invariant forall k :: 0 <= k < i ==> added[..i][k] in db.files.paths.Values
      invariant list.table.ids == old(list.table.ids) + IdsOf(db.files.paths, added[..i])
      invariant opposite.table.ids == old(opposite.table.ids) - IdsOf(db.files.paths, added[..i])
    {
      IdsOfStep(db.files.paths, added[..i], added[i]);
      assert added[..i + 1] == added[..i] + [added[i]];
      var f := db.GetFileByPath(added[i]);
      list.Add(f);
      opposite.Delete(f);
      i := i + 1;
    }
    assert added[..i] == added;
  }

  /** The removals: each path's file leaves `list`, in order; the ids of the added paths stay as they were. */
  method ApplyRemoves(db: Database, list: FileList, added: seq<Path>, removed: seq<Path>)
    requires db.Valid()
    requires forall k :: 0 <= k < |added| ==> added[k] in db.files.paths.Values
    modifies db.files, list.table
    ensures db.Valid()
    ensures db.files.paths == UpsertAll(old(db.files.paths), removed)
    ensures forall k :: 0 <= k < |added| ==> added[k] in db.files.paths.Values
    ensures forall k :: 0 <= k < |removed| ==> removed[k] in db.files.paths.Values
    ensures IdsOf(db.files.paths, added) == IdsOf(old(db.files.paths), added)
    ensures list.table.ids == old(list.table.ids) - IdsOf(db.files.paths, removed)
  {
    var j := 0;
    while j < |removed|
      invariant 0 <= j <= |removed|
      invariant db.Valid()
      invariant db.files.paths == UpsertAll(old(db.files.paths), removed[..j])
      invariant forall k :: 0 <= k < |added| ==> added[k] in db.files.paths.Values
      invariant IdsOf(db.files.paths, added) == IdsOf(old(db.files.paths), added)
      invariant forall k :: 0 <= k < j ==> removed[..j][k] in db.files.paths.Values
      invariant list.table.ids == old(list.table.ids) - IdsOf(db.files.paths, removed[..j])
    {
      IdsOfStable(db.files.paths, added, removed[j]);
      IdsOfStep(db.files.paths, removed[..j], removed[j]);
      assert removed[..j + 1] == removed[..j] + [removed[j]];
      var f := db.GetFileByPath(removed[j]);
      list.Delete(f);
      j := j + 1;
    }
    assert removed[..j] == removed;
  }
}
