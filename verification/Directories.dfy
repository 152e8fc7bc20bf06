/** The directory manager: both metadata tables, and the operations that touch many
    rows of them. */
module Directories {
  import opened Dialects
  import opened Paths
  import opened Tables
  import opened DirectoryRename

  const BATCH_SIZE := 500

  datatype DeleteResult = Deleted | NoSuchDirectory | NotEmpty | DeleteFailed

  datatype RenameResult = Success | Unsupported | NotFound | TargetExists | DbError

  class Manager<F> {
    const d: Dialect
    const renameSupported: bool
    var files: Table<F>
    var dirs: Table<()>

    ghost predicate Valid()
      reads this
    {
      Unique(files) && Unique(dirs)
    }

    constructor (d: Dialect, renameSupported: bool)
      ensures Valid() && files == map[] && dirs == map[]
      ensures this.d == d && this.renameSupported == renameSupported
    {
      this.d, this.renameSupported := d, renameSupported;
      files, dirs := map[], map[];
    }

    /** Deletes a directory: alone if it must be empty, or with all its contents.
        `filesFault` and `dirsFault` are the batches at which the database fails,
        `removeOk` whether the last update succeeds. */
    method DeleteDirectory(path: string, recursive: bool, now: int, filesFault: nat, dirsFault: nat, removeOk: bool)
      returns (r: DeleteResult)
      requires Valid()
      modifies this
      ensures Valid()
      ensures var dir := Normal(path);
        var fs, ds := Selected(d, old(files), dir), Selected(d, old(dirs), dir);
        && (r.NoSuchDirectory? <==> !ExistsLive(old(dirs), dir))
        && (r.NotEmpty? <==> ExistsLive(old(dirs), dir) && !recursive && (fs != {} || ds != {}))
        && (ExistsLive(old(dirs), dir) && recursive ==>
              (r.Deleted? <==> Batches(|fs|) <= filesFault && Batches(|ds|) <= dirsFault && removeOk))
        && (r.NoSuchDirectory? || r.NotEmpty? ==> files == old(files) && dirs == old(dirs))
        && (r.DeleteFailed? ==> PartlyDeleted(old(files), old(dirs), files, dirs, fs, ds, now, filesFault, dirsFault))
        && (r.Deleted? ==>
              && files == Flag(old(files), fs, now)
              && dirs == Flag(old(dirs), Chosen(d, old(dirs), dir), now)
              && (files == Flag(old(files), Inside(old(files), dir), now) <==> Exact(d, old(files), dir))
              && (dirs == Flag(old(dirs), Subtree(old(dirs), dir), now) <==> Exact(d, old(dirs), dir)))
    {
      var dir := NormalizePath(path);
      var own := GetByPath(dirs, dir);
      if own.None? { return NoSuchDirectory; }
      if !recursive {
        if Selected(d, files, dir) != {} || Selected(d, dirs, dir) != {} { return NotEmpty; }
        r := DeleteEmpty(dir, own.value, now, removeOk, filesFault, dirsFault);
        return;
      }
      r := DeleteAll(dir, own.value, now, filesFault, dirsFault, removeOk);
    }

    method DeleteEmpty(dir: string, own: string, now: int, removeOk: bool, ghost filesFault: nat, ghost dirsFault: nat)
      returns (r: DeleteResult)
      requires Valid() && LiveAt(dirs, own, dir)
      requires Selected(d, files, dir) == {} && Selected(d, dirs, dir) == {}
      modifies this
      ensures Valid() && r == (if removeOk then Deleted else DeleteFailed)
      ensures r.DeleteFailed? ==> PartlyDeleted(old(files), old(dirs), files, dirs, {}, {}, now, filesFault, dirsFault)
      ensures r.Deleted? ==>
        && files == Flag(old(files), Selected(d, old(files), dir), now)
        && dirs == Flag(old(dirs), Chosen(d, old(dirs), dir), now)
        && (files == Flag(old(files), Inside(old(files), dir), now) <==> Exact(d, old(files), dir))
        && (dirs == Flag(old(dirs), Subtree(old(dirs), dir), now) <==> Exact(d, old(dirs), dir))
    {
      FlagNothing(files, now);
      FlagNothing(dirs, now);
      if !removeOk {
        assert Committed({}, {}, filesFault) && Committed({}, {}, dirsFault);
        return DeleteFailed;
      }
      OwnRow(d, dirs, dir, own);
      FlagUnique(dirs, {own}, now);
      dirs := Flag(dirs, {own}, now);
      assert Selected(d, old(dirs), dir) + {own} == {own};
      WholeSubtree(d, old(files), old(dirs), dir, now);
      return Deleted;
    }

    method DeleteAll(dir: string, own: string, now: int, filesFault: nat, dirsFault: nat, removeOk: bool)
      returns (r: DeleteResult)
      requires Valid() && LiveAt(dirs, own, dir)
      modifies this
      ensures Valid() && (r.Deleted? || r.DeleteFailed?)
      ensures r.Deleted? <==>
        && Batches(|Selected(d, old(files), dir)|) <= filesFault
        && Batches(|Selected(d, old(dirs), dir)|) <= dirsFault
        && removeOk
      ensures r.DeleteFailed? ==>
        PartlyDeleted(old(files), old(dirs), files, dirs,
                      Selected(d, old(files), dir), Selected(d, old(dirs), dir), now, filesFault, dirsFault)
      ensures r.Deleted? ==>
        && files == Flag(old(files), Selected(d, old(files), dir), now)
        && dirs == Flag(old(dirs), Chosen(d, old(dirs), dir), now)
        && (files == Flag(old(files), Inside(old(files), dir), now) <==> Exact(d, old(files), dir))
        && (dirs == Flag(old(dirs), Subtree(old(dirs), dir), now) <==> Exact(d, old(dirs), dir))
    {
      FlagNothing(dirs, now);
      var ok, fs, ff, _ := DeleteContents(d, files, dir, now, filesFault);
      FlagUnique(files, ff, now);
      files := fs;
      if !ok {
        assert Committed(Selected(d, dirs, dir), {}, 0);
        return DeleteFailed;
      }
      var ok', ds, df, _ := DeleteContents(d, dirs, dir, now, dirsFault);
      FlagUnique(dirs, df, now);
      dirs := ds;
      if !ok' || !removeOk { return DeleteFailed; }
      FlagTwice(old(dirs), df, {own}, now);
      FlagUnique(dirs, {own}, now);
      dirs := Flag(dirs, {own}, now);
      OwnRow(d, old(dirs), dir, own);
      WholeSubtree(d, old(files), old(dirs), dir, now);
      return Deleted;
    }

    /** Renames a directory within its parent. `commitOk` is whether the database
        accepts the transaction. The request layer has checked path and name. */
    method RenameDirectory(path: string, newName: string, now: int, commitOk: bool) returns (r: RenameResult)
      requires Valid() && IsValidFilePath(path) && IsValidFileName(newName)
      modifies this
      ensures Valid()
      ensures var src := Normal(path);
        var dst := Renamed(src, newName);
        RenameSpec(d, old(files), old(dirs), files, dirs, src, dst, now, renameSupported && commitOk, r.Success?)
    {
      var src := NormalizePath(path);
      if !renameSupported {
        ChosenLong(d, files, src);
        ChosenLong(d, dirs, src);
        return Unsupported;
      }
      var dst := NormalizePath(Dir(src) + "/" + newName);
      RenameTarget(path, newName);
      r := RenamePaths(src, dst, now, commitOk);
    }

    method RenamePaths(src: string, dst: string, now: int, commitOk: bool) returns (r: RenameResult)
      requires Valid() && (src == dst || Siblings(src, dst))
      modifies this
      ensures Valid()
      ensures RenameSpec(d, old(files), old(dirs), files, dirs, src, dst, now, commitOk, r.Success?)
    {
      ChosenLong(d, files, src);
      ChosenLong(d, dirs, src);
      var meta := GetByPath(dirs, src);
      if meta.None? { return NotFound; }
      var taken := GetByPath(dirs, dst);
      if taken.Some? { return TargetExists; }
      assert src != dst;
      ChosenAligned(d, files, src, dst);
      ChosenAligned(d, dirs, src, dst);
      OwnRow(d, dirs, src, meta.value);
      var f := UpdatePaths(d, files, Selected(d, files, src), src, dst, now);
      if f.None? { return DbError; }
      var e := UpdatePaths(d, dirs, Selected(d, dirs, src) + {meta.value}, src, dst, now);
      if e.None? || !commitOk { return DbError; }
      files, dirs := f.value, e.value;
      return Success;
    }
  }

  /** A rename goes through if and only if the tables allow it and the commit does; then
      exactly the rows the queries select and the directory's own row have moved, and
      otherwise nothing has. */
  ghost predicate RenameSpec<F>(d: Dialect, files: Table<F>, dirs: Table<()>, files': Table<F>, dirs': Table<()>,
                                src: string, dst: string, now: int, accepted: bool, success: bool)
  {
    && (success <==> accepted && CanRename(d, files, dirs, src, dst))
    && (!success ==> files' == files && dirs' == dirs)
    && (success ==>
          && files' == MoveRows(files, Selected(d, files, src), src, dst, now)
          && dirs' == MoveRows(dirs, Chosen(d, dirs, src), src, dst, now))
  }

  /** What a rename that went through did is a move of exactly the subtree, if and only
      if no row was selected for its case alone. */
  lemma RenamedIffExact<F>(d: Dialect, files: Table<F>, dirs: Table<()>, src: string, dst: string)
    requires Unique(files) && Unique(dirs) && Siblings(src, dst)
    ensures Exact(d, files, src) <==> Selected(d, files, src) == Inside(files, src)
    ensures Exact(d, dirs, src) <==> Chosen(d, dirs, src) == Subtree(dirs, src)
    ensures Exact(d, files, src) && Exact(d, dirs, src) ==>
      && Long(files, Inside(files, src), src) && Long(dirs, Subtree(dirs, src), src)
      && (CanRename(d, files, dirs, src, dst) <==>
            && ExistsLive(dirs, src) && !ExistsLive(dirs, dst)
            && !Blocked(files, Inside(files, src), src, dst) && !Blocked(dirs, Subtree(dirs, src), src, dst))
  {
    SelectedIsInside(d, files, src);
    ChosenIsSubtree(d, dirs, src);
    ChosenLong(d, files, src);
    ChosenLong(d, dirs, src);
    if Exact(d, files, src) { OnlyStayersBlock(files, Inside(files, src), src, dst); }
    if Exact(d, dirs, src) { OnlyStayersBlock(dirs, Subtree(dirs, src), src, dst); }
  }

  /** On SQLite a rename of one directory moves a file of another. */
  lemma RenameMovesTwin<F>(row: Row<F>, own: Row<()>, now: int)
    requires row.path == "DOCS/a" && !row.deleted && own.path == "docs" && !own.deleted
    ensures var files, dirs := map["f" := row], map["d" := own];
      && CanRename(SQLite, files, dirs, "docs", "papers")
      && MoveRows(files, Selected(SQLite, files, "docs"), "docs", "papers", now)["f"].path == "papers/a"
  {
    var files, dirs := map["f" := row], map["d" := own];
    SQLiteNotExact(row);
    ChosenLong(SQLite, files, "docs");
    ChosenLong(SQLite, dirs, "docs");
    assert LiveAt(dirs, "d", "docs");
    assert "DOCS/a"[4..] == "/a" && "papers" + "/a" == "papers/a";
    assert Chosen(SQLite, dirs, "docs") <= {"d"};
  }

  /** On SQLite a recursive delete of one directory deletes a file of another. */
  lemma DeleteFlagsTwin<F>(row: Row<F>, now: int)
    requires row.path == "DOCS/a" && !row.deleted
    ensures var files := map["f" := row];
      Flag(files, Selected(SQLite, files, "docs"), now)["f"].deleted && Inside(files, "docs") == {}
  {
    SQLiteNotExact(row);
  }

  // ------------------------------------------------------ batched delete

  /** The table with the given rows soft-deleted. */
  function Flag<T>(t: Table<T>, ids: set<string>, now: int): Table<T> {
    map id | id in t :: if id in ids then t[id].(deleted := true, updatedAt := now) else t[id]
  }

  /** A committed batch takes exactly its rows out of what is left to delete. */
  lemma FlagSelected<T>(d: Dialect, t: Table<T>, dir: string, ids: set<string>, now: int)
    requires ids <= Selected(d, t, dir)
    ensures Selected(d, Flag(t, ids, now), dir) == Selected(d, t, dir) - ids
    ensures |Selected(d, Flag(t, ids, now), dir)| == |Selected(d, t, dir)| - |ids|
  {
    assert Selected(d, Flag(t, ids, now), dir) == Selected(d, t, dir) - ids;
    assert Selected(d, t, dir) == (Selected(d, t, dir) - ids) + ids;
  }

  /** What the batches before a fault have committed: all rows if there was none, and
      that many full batches otherwise. */
  predicate Committed(sel: set<string>, flagged: set<string>, faultAt: nat) {
    flagged <= sel && (if Batches(|sel|) <= faultAt then flagged == sel else |flagged| == BATCH_SIZE * faultAt)
  }

  /** A recursive delete that failed: some batches of files, and if those were all, some
      batches of directories. The directory itself is still there. */
  ghost predicate PartlyDeleted<F>(files: Table<F>, dirs: Table<()>, files': Table<F>, dirs': Table<()>,
                                   fs: set<string>, ds: set<string>, now: int, filesFault: nat, dirsFault: nat)
  {
    exists ff, df ::
      && Committed(fs, ff, filesFault) && files' == Flag(files, ff, now)
      && Committed(ds, df, if ff == fs then dirsFault else 0) && dirs' == Flag(dirs, df, now)
  }

  /** No row was deleted exactly when the first batch failed already or there was none. */
  lemma NothingCommitted(sel: set<string>, flagged: set<string>, faultAt: nat)
    requires Committed(sel, flagged, faultAt)
    ensures flagged == {} <==> sel == {} || faultAt == 0
  {
    if faultAt == 0 && sel != {} { assert |sel| > 0; }
  }

  lemma FlagTwice<T>(t: Table<T>, a: set<string>, b: set<string>, now: int)
    ensures Flag(Flag(t, a, now), b, now) == Flag(t, a + b, now)
  {
  }

  lemma FlagNothing<T>(t: Table<T>, now: int)
    ensures Flag(t, {}, now) == t
  {
  }

  lemma FlagUnique<T>(t: Table<T>, ids: set<string>, now: int)
    requires Unique(t)
    ensures Unique(Flag(t, ids, now))
  {
  }

  /** The first rows a LIMIT query returns, in any order. */
  method TakeBatch(ids: set<string>) returns (batch: set<string>)
    ensures batch <= ids && |batch| == if |ids| < 500 then |ids| else 500
  {
    batch := {};
    var rest := ids;
    while rest != {} && |batch| < BATCH_SIZE
      invariant batch + rest == ids && batch !! rest && |batch| <= BATCH_SIZE
      decreases rest
    {
      var id :| id in rest;
      batch, rest := batch + {id}, rest - {id};
    }
    assert |batch + rest| == |batch| + |rest|;
  }

  /** How many batches it takes to work through n rows. */
  function Batches(n: nat): nat {
    if n == 0 then 0 else 1 + Batches(if n < BATCH_SIZE then 0 else n - BATCH_SIZE)
  }

  lemma {:induction false} BatchesIsCeiling(n: nat)
    ensures Batches(n) == (n + BATCH_SIZE - 1) / BATCH_SIZE
  {
    if n >= BATCH_SIZE {
      BatchesIsCeiling(n - BATCH_SIZE);
    }
  }

  /** One committed batch: the live contents shrink by exactly that batch. */
  method DeleteBatch<T>(d: Dialect, t: Table<T>, dir: string, now: int) returns (batch: set<string>, r: Table<T>)
    ensures batch <= Selected(d, t, dir) && r == Flag(t, batch, now)
    ensures batch == {} <==> Selected(d, t, dir) == {}
    ensures Selected(d, r, dir) == Selected(d, t, dir) - batch
    ensures |Selected(d, r, dir)| == |Selected(d, t, dir)| - |batch|
    ensures batch != {} ==> Batches(|Selected(d, t, dir)|) == 1 + Batches(|Selected(d, r, dir)|)
    ensures Selected(d, r, dir) != {} ==> |batch| == BATCH_SIZE
  {
    batch := TakeBatch(Selected(d, t, dir));
    FlagSelected(d, t, dir, batch, now);
    r := Flag(t, batch, now);
  }

  /** Soft-deletes the contents of a directory batch by batch. The database fails at
      batch number `faultAt`, if there is one; earlier batches stay committed. */
  method DeleteContents<T>(d: Dialect, t: Table<T>, dir: string, now: int, faultAt: nat)
    returns (ok: bool, r: Table<T>, flagged: set<string>, batches: nat)
    ensures flagged <= Selected(d, t, dir) && r == Flag(t, flagged, now)
    ensures ok <==> flagged == Selected(d, t, dir)
    ensures ok <==> Batches(|Selected(d, t, dir)|) <= faultAt
    ensures ok ==> batches == Batches(|Selected(d, t, dir)|)
    ensures Committed(Selected(d, t, dir), flagged, faultAt)
  {
    r, flagged, batches := t, {}, 0;
    ok := false;
    ghost var left := Selected(d, t, dir);
    FlagNothing(t, now);
    while !ok
      invariant Progress(d, t, dir, now, r, flagged, left) && Tally(|Selected(d, t, dir)|, flagged, left, batches)
      invariant batches <= faultAt && (ok ==> left == {})
      decreases !ok, |left|
    {
      var batch, next := DeleteBatch(d, r, dir, now);
      if batch == {} {
        ok := true;
      } else if batches == faultAt {
        Stopped(Selected(d, t, dir), flagged, left, batches);
        return;
      } else {
        Advance(d, t, dir, now, r, flagged, left, batch);
        OneMoreBatch(|Selected(d, t, dir)|, flagged, left, batch, batches);
        left := left - batch;
        r, flagged, batches := next, flagged + batch, batches + 1;
      }
    }
  }

  /** Mid-way: the rows flagged so far, and the live contents still left. */
  ghost predicate Progress<T>(d: Dialect, t: Table<T>, dir: string, now: int,
                              r: Table<T>, flagged: set<string>, left: set<string>)
  {
    && r == Flag(t, flagged, now) && left == Selected(d, r, dir)
    && flagged + left == Selected(d, t, dir) && flagged !! left
  }

  /** The batches done and to do add up, and as long as rows are left, every batch so far
      was a full one. */
  ghost predicate Tally(total: nat, flagged: set<string>, left: set<string>, batches: nat) {
    batches + Batches(|left|) == Batches(total) && (left != {} ==> |flagged| == BATCH_SIZE * batches)
  }

  lemma OneMoreBatch(total: nat, flagged: set<string>, left: set<string>, batch: set<string>, batches: nat)
    requires Tally(total, flagged, left, batches) && flagged !! left && batch <= left
    requires Batches(|left|) == 1 + Batches(|left - batch|) && (left - batch != {} ==> |batch| == BATCH_SIZE)
    ensures Tally(total, flagged + batch, left - batch, batches + 1)
  {
    assert |flagged + batch| == |flagged| + |batch|;
  }

  lemma Stopped(sel: set<string>, flagged: set<string>, left: set<string>, batches: nat)
    requires Tally(|sel|, flagged, left, batches) && left != {} && flagged + left == sel && flagged !! left
    ensures batches < Batches(|sel|) && flagged != sel && Committed(sel, flagged, batches)
  {
    assert |left| > 0;
    var x :| x in left;
    assert x !in flagged;
  }

  lemma Advance<T>(d: Dialect, t: Table<T>, dir: string, now: int,
                   r: Table<T>, flagged: set<string>, left: set<string>, batch: set<string>)
    requires Progress(d, t, dir, now, r, flagged, left) && batch <= left
    ensures Progress(d, t, dir, now, Flag(r, batch, now), flagged + batch, left - batch)
  {
    FlagTwice(t, flagged, batch, now);
    FlagSelected(d, r, dir, batch, now);
  }

  /** What a checked request renames to is another entry of the same directory, or the
      directory itself. */
  lemma RenameTarget(path: string, newName: string)
    requires IsValidFilePath(path) && IsValidFileName(newName)
    ensures var src := Normal(path);
      var dst := Renamed(src, newName);
      && Normal(src) == src && Normal(dst) == dst && Base(dst) == newName
      && (src == dst || Siblings(src, dst))
  {
    var cs := ValidPathComponents(path);
    ValidNameIsName(newName);
    RenamedIsSibling(cs, newName);
    CleanCanonical(cs[..|cs| - 1] + [newName]);
    BaseOfCanonical(cs[..|cs| - 1] + [newName]);
    if cs[|cs| - 1] == newName {
      assert cs[..|cs| - 1] + [newName] == cs;
    } else {
      RenamedApart(cs, newName);
    }
  }

  lemma FlagSame<T>(t: Table<T>, a: set<string>, b: set<string>, now: int)
    requires a <= t.Keys && b <= t.Keys && forall id :: id in a + b ==> !t[id].deleted
    ensures Flag(t, a, now) == Flag(t, b, now) <==> a == b
  {
    if Flag(t, a, now) == Flag(t, b, now) {
      forall id | id in t ensures id in a <==> id in b {
        assert Flag(t, a, now)[id] == Flag(t, b, now)[id];
      }
    }
  }

  /** What was deleted is the subtree if and only if no row was selected for its case. */
  lemma WholeSubtree<F, D>(d: Dialect, files: Table<F>, dirs: Table<D>, dir: string, now: int)
    ensures Flag(files, Selected(d, files, dir), now) == Flag(files, Inside(files, dir), now) <==> Exact(d, files, dir)
    ensures Flag(dirs, Chosen(d, dirs, dir), now) == Flag(dirs, Subtree(dirs, dir), now) <==> Exact(d, dirs, dir)
  {
    SelectedIsInside(d, files, dir);
    ChosenIsSubtree(d, dirs, dir);
    FlagSame(files, Selected(d, files, dir), Inside(files, dir), now);
    FlagSame(dirs, Chosen(d, dirs, dir), Subtree(dirs, dir), now);
  }

  /** The chosen rows are the selected ones and the one row at the directory. */
  lemma OwnRow<T>(d: Dialect, t: Table<T>, dir: string, id: string)
    requires Unique(t) && LiveAt(t, id, dir)
    ensures Chosen(d, t, dir) == Selected(d, t, dir) + {id}
  {
  }
}
