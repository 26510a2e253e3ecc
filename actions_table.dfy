/**
 * The `actions` table: a bag of rows (bin, target, target_dir, timepoint),
 * each a write of `target` (in directory `target_dir`) by the process whose
 * executable is `bin`, at `timepoint` milliseconds. Rows are kept in
 * insertion (rowid) order; each SQL statement bound by ActionsTable is a
 * filter over that sequence. The statements have no ORDER BY, so SQLite
 * leaves their result order open; the model fixes rowid order.
 */
module Actions {
  import opened Common

  datatype ActionRow = ActionRow(bin: FileId, target: FileId, targetDir: FileId, timepoint: Time)

  type Rows = seq<ActionRow>

  /** The WHERE clauses of the statements ActionsTable binds. */
  datatype Query =
    | BinSince(bin: FileId, since: Time)   // WHERE bin = ? AND timepoint >= ?
    | OlderThan(before: Time)              // WHERE timepoint < ?
    | NotOlderThan(from: Time)             // the rows DELETE ... WHERE timepoint < ? keeps
    | OtherBin(deleted: FileId)            // the rows DELETE ... WHERE bin = ? keeps
    | InDirs(dirs: set<FileId>)            // grouping helper: WHERE target_dir IN dirs

  predicate Selects(q: Query, row: ActionRow)
  {
    match q
    case BinSince(bin, since) => row.bin == bin && row.timepoint >= since
    case OlderThan(before) => row.timepoint < before
    case NotOlderThan(from) => row.timepoint >= from
    case OtherBin(deleted) => row.bin != deleted
    case InDirs(dirs) => row.targetDir in dirs
  }

  /** The rows `q` selects, in table order. */
  function Select(rows: Rows, q: Query): (r: Rows)
    ensures |r| <= |rows|
  {
    if rows == [] then []
    else
      var last := rows[|rows| - 1];
      Select(rows[..|rows| - 1], q) + (if Selects(q, last) then [last] else [])
  }

  /** The `target` column of `rows`, one entry per row. */
  function Targets(rows: Rows): (r: seq<FileId>)
    ensures |r| == |rows|
    ensures forall i :: 0 <= i < |rows| ==> r[i] == rows[i].target
  {
    if rows == [] then [] else Targets(rows[..|rows| - 1]) + [rows[|rows| - 1].target]
  }

  /** The directories that occur in `rows`. */
  function Dirs(rows: Rows): set<FileId>
  {
    set row | row in rows :: row.targetDir
  }

  /**
   * The map FindActionsOnDirs builds: result[dir].push_back(file) for every
   * row, in row order.
   */
  function GroupByDir(rows: Rows): map<FileId, seq<FileId>>
  {
    if rows == [] then map[] else Push(GroupByDir(rows[..|rows| - 1]), rows[|rows| - 1])
  }

  /** result[dir].push_back(file) for one row. */
  function Push(g: map<FileId, seq<FileId>>, row: ActionRow): map<FileId, seq<FileId>>
  {
    g[row.targetDir := (if row.targetDir in g then g[row.targetDir] else []) + [row.target]]
  }

  /** The elements of a key listing. */
  function KeySet(keys: seq<FileId>): set<FileId>
  {
    set k | k in keys
  }

  /** Sum of the lengths of the groups listed in `keys`. */
  function SumSizes(g: map<FileId, seq<FileId>>, keys: seq<FileId>): nat
    requires forall k :: k in keys ==> k in g
  {
    if keys == [] then 0 else |g[keys[0]]| + SumSizes(g, keys[1..])
  }

  /** Appending a row adds it to exactly the queries that select it. */
  lemma SelectAppend(rows: Rows, row: ActionRow, q: Query)
    ensures Select(rows + [row], q) == Select(rows, q) + (if Selects(q, row) then [row] else [])
  {
    assert (rows + [row])[..|rows|] == rows;
  }

  /** A query returns exactly the rows of the table it selects. */
  lemma {:induction false} SelectMembers(rows: Rows, q: Query, row: ActionRow)
    ensures row in Select(rows, q) <==> row in rows && Selects(q, row)
  {
    if rows != [] {
      var init := rows[..|rows| - 1];
      SelectMembers(init, q, row);
      assert rows == init + [rows[|rows| - 1]];
    }
  }

  /** A query that matches every row returns the whole table. */
  lemma {:induction false} SelectEverything(rows: Rows, q: Query)
    requires forall i :: 0 <= i < |rows| ==> Selects(q, rows[i])
    ensures Select(rows, q) == rows
  {
    if rows != [] {
      var init := rows[..|rows| - 1];
      SelectEverything(init, q);
      assert rows == init + [rows[|rows| - 1]];
    }
  }

  /** Querying the result of a wider query is the same as querying the table. */
  lemma {:induction false} SelectNarrowing(rows: Rows, wide: Query, narrow: Query)
    requires forall row :: Selects(narrow, row) ==> Selects(wide, row)
    ensures Select(Select(rows, wide), narrow) == Select(rows, narrow)
  {
    if rows != [] {
      var init, last := rows[..|rows| - 1], rows[|rows| - 1];
      SelectNarrowing(init, wide, narrow);
      if Selects(wide, last) {
        assert Select(rows, wide) == Select(init, wide) + [last];
        SelectAppend(Select(init, wide), last, narrow);
      } else {
        assert !Selects(narrow, last);
        assert Select(rows, wide) == Select(init, wide);
      }
    }
  }

  /** Querying the result of a disjoint query finds nothing. */
  lemma {:induction false} SelectDisjoint(rows: Rows, first: Query, second: Query)
    requires forall row :: Selects(first, row) ==> !Selects(second, row)
    ensures Select(Select(rows, first), second) == []
  {
    if rows != [] {
      var init, last := rows[..|rows| - 1], rows[|rows| - 1];
      SelectDisjoint(init, first, second);
      if Selects(first, last) {
        assert Select(rows, first) == Select(init, first) + [last];
        SelectAppend(Select(init, first), last, second);
      } else {
        assert Select(rows, first) == Select(init, first);
      }
    }
  }

  /** DeleteOld splits the rows: the returned ones and the kept ones are together all of them. */
  lemma {:induction false} OlderNotOlderPartition(rows: Rows, t: Time)
    ensures multiset(Select(rows, OlderThan(t))) + multiset(Select(rows, NotOlderThan(t))) == multiset(rows)
    ensures |Select(rows, OlderThan(t))| + |Select(rows, NotOlderThan(t))| == |rows|
  {
    if rows != [] {
      var init, last := rows[..|rows| - 1], rows[|rows| - 1];
      OlderNotOlderPartition(init, t);
      assert rows == init + [last];
      var older, kept := Select(init, OlderThan(t)), Select(init, NotOlderThan(t));
      if last.timepoint < t {
        assert Select(rows, OlderThan(t)) == older + [last];
        assert Select(rows, NotOlderThan(t)) == kept;
      } else {
        assert Select(rows, OlderThan(t)) == older;
        assert Select(rows, NotOlderThan(t)) == kept + [last];
      }
    }
  }

  /** Pruning before `t0` does not change what a process is found to have written since `t >= t0`. */
  lemma PruneKeepsRecent(rows: Rows, t0: Time, bin: FileId, t: Time)
    requires t0 <= t
    ensures Select(Select(rows, NotOlderThan(t0)), BinSince(bin, t)) == Select(rows, BinSince(bin, t))
  {
    SelectNarrowing(rows, NotOlderThan(t0), BinSince(bin, t));
  }

  /** DeleteOld(t) keeps every row from `t` on. */
  lemma RecentRowsKept(rows: Rows, t: Time)
    ensures forall row :: row in rows && row.timepoint >= t ==> row in Select(rows, NotOlderThan(t))
  {
    forall row | row in rows && row.timepoint >= t ensures row in Select(rows, NotOlderThan(t)) {
      SelectMembers(rows, NotOlderThan(t), row);
    }
  }

  /** A second DeleteOld with the same time finds nothing and keeps everything. */
  lemma PruneIdempotent(rows: Rows, t: Time)
    ensures Select(Select(rows, NotOlderThan(t)), OlderThan(t)) == []
    ensures Select(Select(rows, NotOlderThan(t)), NotOlderThan(t)) == Select(rows, NotOlderThan(t))
  {
    SelectDisjoint(rows, NotOlderThan(t), OlderThan(t));
    SelectNarrowing(rows, NotOlderThan(t), NotOlderThan(t));
  }

  /** After DeleteActions(bin) no row of `bin` is found; other binaries' rows are all still found. */
  lemma DeleteByBinSelective(rows: Rows, bin: FileId, other: FileId, t: Time)
    ensures Select(Select(rows, OtherBin(bin)), BinSince(bin, t)) == []
    ensures other != bin ==> Select(Select(rows, OtherBin(bin)), BinSince(other, t)) == Select(rows, BinSince(other, t))
  {
    SelectDisjoint(rows, OtherBin(bin), BinSince(bin, t));
    if other != bin {
      SelectNarrowing(rows, OtherBin(bin), BinSince(other, t));
    }
  }

  /**
   * FindActionsOnDirs groups exactly the rows: its keys are the directories
   * that occur, and each directory's list is the targets of that directory's
   * rows, one per row, in row order.
   */
  lemma {:induction false} GroupByDirIsGrouping(rows: Rows)
    ensures GroupByDir(rows).Keys == Dirs(rows)
    ensures forall d :: d in GroupByDir(rows) ==> GroupByDir(rows)[d] == Targets(Select(rows, InDirs({d})))
  {
    if rows != [] {
      var init, last := rows[..|rows| - 1], rows[|rows| - 1];
      assert rows == init + [last];
      GroupByDirIsGrouping(init);
      var g := GroupByDir(init);
      var d := last.targetDir;
      assert Dirs(rows) == Dirs(init) + {d};
      forall k | k in GroupByDir(rows) ensures GroupByDir(rows)[k] == Targets(Select(rows, InDirs({k}))) {
        var before := Select(init, InDirs({k}));
        if k == d {
          assert Select(rows, InDirs({k})) == before + [last];
          TargetsAppend(before, last);
          if d !in g {
            NoRowsOutsideDirs(init, d);
          }
        } else {
          assert Select(rows, InDirs({k})) == before;
        }
      }
    }
  }

  lemma TargetsAppend(rows: Rows, row: ActionRow)
    ensures Targets(rows + [row]) == Targets(rows) + [row.target]
  {
    assert (rows + [row])[..|rows|] == rows;
  }

  /** A directory that does not occur selects no rows. */
  lemma NoRowsOutsideDirs(rows: Rows, d: FileId)
    requires d !in Dirs(rows)
    ensures Select(rows, InDirs({d})) == []
  {
    if Select(rows, InDirs({d})) != [] {
      var row := Select(rows, InDirs({d}))[0];
      SelectMembers(rows, InDirs({d}), row);
    }
  }

  /** Splitting on a fresh directory: the rows of `dirs + {d}` are those of `d` plus those of `dirs`. */
  lemma {:induction false} InDirsSplit(rows: Rows, dirs: set<FileId>, d: FileId)
    requires d !in dirs
    ensures |Select(rows, InDirs(dirs + {d}))| == |Select(rows, InDirs({d}))| + |Select(rows, InDirs(dirs))|
  {
    if rows != [] {
      InDirsSplit(rows[..|rows| - 1], dirs, d);
    }
  }

  /** Selecting every directory that occurs keeps every row. */
  lemma {:induction false} InAllDirs(rows: Rows, dirs: set<FileId>)
    requires Dirs(rows) <= dirs
    ensures Select(rows, InDirs(dirs)) == rows
  {
    if rows != [] {
      var init, last := rows[..|rows| - 1], rows[|rows| - 1];
      assert rows == init + [last];
      assert Dirs(init) <= Dirs(rows);
      InAllDirs(init, dirs);
    }
  }

  lemma NoRowsInNoDirs(rows: Rows)
    ensures Select(rows, InDirs({})) == []
  {
    if Select(rows, InDirs({})) != [] {
      SelectMembers(rows, InDirs({}), Select(rows, InDirs({}))[0]);
    }
  }

  lemma GroupAppend(rows: Rows, row: ActionRow)
    ensures GroupByDir(rows + [row]) == Push(GroupByDir(rows), row)
  {
    assert (rows + [row])[..|rows|] == rows;
  }

  lemma {:induction false} SumSizesOfGroups(rows: Rows, keys: seq<FileId>)
    requires forall i, j :: 0 <= i < j < |keys| ==> keys[i] != keys[j]
    requires forall k :: k in keys ==> k in GroupByDir(rows)
    ensures SumSizes(GroupByDir(rows), keys) == |Select(rows, InDirs(KeySet(keys)))|
  {
    if keys == [] {
      assert KeySet(keys) == {};
      NoRowsInNoDirs(rows);
    } else {
      var rest := keys[1..];
      var dirs := KeySet(rest);
      assert forall i, j :: 0 <= i < j < |rest| ==> rest[i] != rest[j] by {
        forall i, j | 0 <= i < j < |rest| ensures rest[i] != rest[j] {
          assert rest[i] == keys[i + 1] && rest[j] == keys[j + 1];
        }
      }
      SumSizesOfGroups(rows, rest);
      assert keys[0] !in dirs;
      assert KeySet(keys) == dirs + {keys[0]} by {
        assert keys == [keys[0]] + rest;
      }
      InDirsSplit(rows, dirs, keys[0]);
      var g := GroupByDir(rows);
      assert |g[keys[0]]| == |Select(rows, InDirs({keys[0]}))| by {
        GroupByDirIsGrouping(rows);
      }
      assert SumSizes(g, keys) == |g[keys[0]]| + SumSizes(g, rest);
    }
  }

  /**
   * The group sizes of FindActionsOnDirs add up to the number of rows it was
   * given: every row lands in exactly one group.
   */
  lemma GroupSizesTotal(rows: Rows, keys: seq<FileId>)
    requires forall i, j :: 0 <= i < j < |keys| ==> keys[i] != keys[j]
    requires KeySet(keys) == GroupByDir(rows).Keys
    ensures SumSizes(GroupByDir(rows), keys) == |rows|
  {
    GroupByDirIsGrouping(rows);
    SumSizesOfGroups(rows, keys);
    InAllDirs(rows, KeySet(keys));
  }

  class ActionsTable {
    var rows: Rows

    /** The table is dropped and re-created, so it starts empty. */
    constructor()
      ensures rows == []
    {
      rows := [];
    }

    method AddAction(bin: FileId, file: FileId, dir: FileId, t: Time)
      modifies this
      ensures rows == old(rows) + [ActionRow(bin, file, dir, t)]
    {
      rows := rows + [ActionRow(bin, file, dir, t)];
    }

    /** The target of every row of `bin` since `t`, one entry per row, duplicates kept. */
    method FindActions(bin: FileId, t: Time) returns (targets: seq<FileId>)
      ensures targets == Targets(Select(rows, BinSince(bin, t)))
    {
      targets := Targets(Select(rows, BinSince(bin, t)));
    }

    /** The rows of `bin` since `t`, grouped by directory. */
    method FindActionsOnDirs(bin: FileId, t: Time) returns (groups: map<FileId, seq<FileId>>)
      ensures groups == GroupByDir(Select(rows, BinSince(bin, t)))
      ensures groups.Keys == Dirs(Select(rows, BinSince(bin, t)))
      ensures forall d :: d in groups ==> groups[d] == Targets(Select(Select(rows, BinSince(bin, t)), InDirs({d})))
    {
      groups := map[];
      var i := 0;
      while i < |rows|
        invariant 0 <= i <= |rows|
        invariant groups == GroupByDir(Select(rows[..i], BinSince(bin, t)))
      {
        var row := rows[i];
        SelectAppend(rows[..i], row, BinSince(bin, t));
        assert rows[..i + 1] == rows[..i] + [row];
        if row.bin == bin && row.timepoint >= t {
          GroupAppend(Select(rows[..i], BinSince(bin, t)), row);
          var prev := if row.targetDir in groups then groups[row.targetDir] else [];
          groups := groups[row.targetDir := prev + [row.target]];
        } else {
          assert Select(rows[..i + 1], BinSince(bin, t)) == Select(rows[..i], BinSince(bin, t));
        }
        i := i + 1;
      }
      assert rows[..i] == rows;
      GroupByDirIsGrouping(Select(rows, BinSince(bin, t)));
    }

    method DeleteActions(bin: FileId)
      modifies this
      ensures rows == Select(old(rows), OtherBin(bin))
    {
      rows := Select(rows, OtherBin(bin));
    }

    /** Returns the targets of the rows older than `t`, one per row, and removes those rows. */
    method DeleteOld(t: Time) returns (deleted: seq<FileId>)
      modifies this
      ensures deleted == Targets(Select(old(rows), OlderThan(t)))
      ensures rows == Select(old(rows), NotOlderThan(t))
    {
      deleted := Targets(Select(rows, OlderThan(t)));
      rows := Select(rows, NotOlderThan(t));
    }
  }
}
