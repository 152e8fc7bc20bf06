/** Renaming a directory: one transaction that rewrites the path prefix of every row
    it selects, row by row, under the UNIQUE constraint. */
module DirectoryRename {
  import opened Dialects
  import opened Like
  import opened Paths
  import opened Tables

  /** Live rows that the LIKE query for a directory's contents selects. */
  function Selected<T>(d: Dialect, t: Table<T>, dir: string): set<string> {
    set id | id in t && !t[id].deleted && Matches(d, Escape(dir + "/") + "%", t[id].path)
  }

  /** The selected rows and the directory's own row. */
  function Chosen<T>(d: Dialect, t: Table<T>, dir: string): set<string> {
    Selected(d, t, dir) + set id | id in t && LiveAt(t, id, dir)
  }

  /** Live rows strictly under a directory. */
  function Inside<T>(t: Table<T>, dir: string): set<string> {
    set id | id in t && !t[id].deleted && Under(dir, t[id].path)
  }

  /** Live rows at a directory or under it. */
  function Subtree<T>(t: Table<T>, dir: string): set<string> {
    set id | id in t && !t[id].deleted && AtOrUnder(dir, t[id].path)
  }

  /** No live row is selected for its case alone. */
  predicate Exact<T>(d: Dialect, t: Table<T>, dir: string) {
    forall id :: id in t && !t[id].deleted && StartsWith(d, dir + "/", t[id].path) ==> Under(dir, t[id].path)
  }

  /** A path the query for a directory takes in, or the directory's own. */
  predicate Covers(d: Dialect, dir: string, path: string) {
    path == dir || StartsWith(d, dir + "/", path)
  }

  lemma SelectedStarts<T>(d: Dialect, t: Table<T>, dir: string)
    ensures forall id :: id in t && !t[id].deleted ==>
      (id in Selected(d, t, dir) <==> StartsWith(d, dir + "/", t[id].path))
    ensures forall id :: id in Selected(d, t, dir) ==> |dir| < |t[id].path|
  {
    forall id | id in t
      ensures Matches(d, Escape(dir + "/") + "%", t[id].path) <==> StartsWith(d, dir + "/", t[id].path)
    {
      PrefixPattern(d, dir + "/", t[id].path);
    }
  }

  lemma LiteralPrefix(d: Dialect, dir: string, path: string)
    requires Under(dir, path)
    ensures StartsWith(d, dir + "/", path)
  {
  }

  /** The query selects at least the contents, and exactly them if and only if no row
      is selected for its case alone. */
  lemma SelectedIsInside<T>(d: Dialect, t: Table<T>, dir: string)
    ensures Inside(t, dir) <= Selected(d, t, dir)
    ensures Selected(d, t, dir) == Inside(t, dir) <==> Exact(d, t, dir)
    ensures forall id :: id in Selected(d, t, dir) ==> |dir| < |t[id].path|
  {
    SelectedStarts(d, t, dir);
    if Selected(d, t, dir) == Inside(t, dir) {
      forall id | id in t && !t[id].deleted && StartsWith(d, dir + "/", t[id].path) ensures Under(dir, t[id].path) {
        assert id in Selected(d, t, dir);
      }
    }
  }

  /** With the directory's own row the query takes in the subtree, on the same condition. */
  lemma ChosenIsSubtree<T>(d: Dialect, t: Table<T>, dir: string)
    ensures Subtree(t, dir) <= Chosen(d, t, dir)
    ensures Chosen(d, t, dir) == Subtree(t, dir) <==> Exact(d, t, dir)
  {
    SelectedStarts(d, t, dir);
    if Chosen(d, t, dir) == Subtree(t, dir) {
      forall id | id in t && !t[id].deleted && StartsWith(d, dir + "/", t[id].path) ensures Under(dir, t[id].path) {
        assert id in Subtree(t, dir);
      }
    }
  }

  lemma PostgresExact<T>(t: Table<T>, dir: string)
    ensures Exact(PostgreSQL, t, dir)
  {
    forall id | id in t && StartsWith(PostgreSQL, dir + "/", t[id].path) ensures Under(dir, t[id].path) {
      PostgresPrefix(dir + "/", t[id].path);
    }
  }

  /** A table of one live row: the query selects it if the pattern matches. */
  lemma OneSelected<T>(d: Dialect, t: Table<T>, dir: string)
    requires t.Keys == {"f"} && !t["f"].deleted
    requires Matches(d, Escape(dir + "/") + "%", t["f"].path) && !Under(dir, t["f"].path)
    ensures Selected(d, t, dir) == {"f"} && Inside(t, dir) == {}
  {
  }

  /** On SQLite a row of a differently cased directory is selected as well. */
  lemma SQLiteNotExact<T>(row: Row<T>)
    requires row.path == "DOCS/a" && !row.deleted
    ensures var t := map["f" := row];
      !Exact(SQLite, t, "docs") && Selected(SQLite, t, "docs") == {"f"} && Inside(t, "docs") == {}
  {
    var t, dir := map["f" := row], "docs";
    assert dir + "/" == "docs/";
    SQLiteMatchesCaseTwin();
    OneSelected(SQLite, t, dir);
    SelectedIsInside(SQLite, t, dir);
  }

  // -------------------------------------------------- moving a set of rows

  function Target(path: string, src: string, dst: string): string
    requires |src| <= |path|
  {
    dst + path[|src|..]
  }

  function Moved<T>(row: Row<T>, src: string, dst: string, now: int): Row<T>
    requires |src| <= |row.path|
  {
    var target := Target(row.path, src, dst);
    row.(path := target, name := Base(target), updatedAt := now)
  }

  predicate Long<T>(t: Table<T>, sel: set<string>, src: string) {
    forall id :: id in sel ==> id in t && |src| <= |t[id].path|
  }

  /** The table with the selected rows moved. */
  function MoveRows<T>(t: Table<T>, sel: set<string>, src: string, dst: string, now: int): Table<T>
    requires Long(t, sel, src)
  {
    map id | id in t :: if id in sel then Moved(t[id], src, dst, now) else t[id]
  }

  /** No two rows would share a path after the move. */
  predicate Fits<T>(t: Table<T>, sel: set<string>, src: string, dst: string)
    requires Long(t, sel, src)
  {
    && (forall i, j :: i in sel && j in sel && Target(t[i].path, src, dst) == Target(t[j].path, src, dst) ==> i == j)
    && (forall i, j :: i in sel && j in t && j !in sel ==> Target(t[i].path, src, dst) != t[j].path)
  }

  lemma FitsIsUnique<T>(t: Table<T>, sel: set<string>, src: string, dst: string, now: int)
    requires Unique(t) && Long(t, sel, src)
    ensures Unique(MoveRows(t, sel, src, dst, now)) <==> Fits(t, sel, src, dst)
  {
    var t' := MoveRows(t, sel, src, dst, now);
    if Unique(t') {
      forall i, j | i in sel && j in sel && Target(t[i].path, src, dst) == Target(t[j].path, src, dst) ensures i == j {
        assert t'[i].path == t'[j].path;
      }
      forall i, j | i in sel && j in t && j !in sel ensures Target(t[i].path, src, dst) != t[j].path {
        assert t'[i].path != t'[j].path;
      }
    }
  }

  /** All selected rows are taken in by the query for the old path, and the new path is
      a sibling of it. */
  predicate Aligned<T>(d: Dialect, t: Table<T>, sel: set<string>, src: string, dst: string) {
    Siblings(src, dst) && forall id :: id in sel ==> id in t && Covers(d, src, t[id].path)
  }

  lemma ChosenAligned<T>(d: Dialect, t: Table<T>, src: string, dst: string)
    requires Siblings(src, dst)
    ensures Long(t, Selected(d, t, src), src) && Aligned(d, t, Selected(d, t, src), src, dst)
    ensures Long(t, Chosen(d, t, src), src) && Aligned(d, t, Chosen(d, t, src), src, dst)
  {
    SelectedStarts(d, t, src);
  }

  lemma ChosenLong<T>(d: Dialect, t: Table<T>, src: string)
    ensures Long(t, Selected(d, t, src), src) && Long(t, Chosen(d, t, src), src)
  {
    SelectedStarts(d, t, src);
  }

  /** Where the component that starts at k ends. */
  function ComponentEnd(s: string, k: nat): nat
    requires k <= |s|
    decreases |s| - k
  {
    if k == |s| || s[k] == '/' then k else ComponentEnd(s, k + 1)
  }

  lemma {:induction false} EndsThere(s: string, k: nat, i: nat)
    requires k <= i <= |s| && Plain(s[k..i]) && (i == |s| || s[i] == '/')
    ensures ComponentEnd(s, k) == i
    decreases i - k
  {
    if k < i {
      assert s[k..i][0] == s[k] && s[k..i][1..] == s[k + 1..i];
      EndsThere(s, k + 1, i);
    }
  }

  lemma CoveredComponent(d: Dialect, dir: string, k: nat, s: string)
    requires k <= |dir| && Plain(dir[k..]) && Covers(d, dir, s)
    ensures |dir| <= |s| && ComponentEnd(s, k) == |dir|
  {
    if s == dir {
      assert s[k..|dir|] == dir[k..];
    } else {
      assert Same(d, (dir + "/")[|dir|], s[|dir|]);
      forall i | 0 <= i < |dir| - k ensures s[k..|dir|][i] != '/' {
        assert Same(d, (dir + "/")[k + i], s[k + i]);
        assert dir[k..][i] == dir[k + i];
      }
    }
    EndsThere(s, k, |dir|);
  }

  /** A target that is some selected path is that path's own target as well. It takes a
      new name that differs from the old one in case alone. */
  lemma TargetOfTarget(d: Dialect, src: string, dst: string, p: string, q: string)
    requires Siblings(src, dst) && Covers(d, src, p) && Covers(d, src, q)
    requires q == Target(p, src, dst)
    ensures Target(q, src, dst) == q
  {
    var k :| 0 <= k <= |src| && k <= |dst| && src[..k] == dst[..k] && Plain(src[k..]) && Plain(dst[k..])
      && src[k..] != dst[k..];
    TargetStarts(d, p, src, dst);
    CoveredComponent(d, src, k, q);
    CoveredComponent(d, dst, k, q);
    assert q[..|dst|] == dst;
  }

  lemma TargetStarts(d: Dialect, path: string, src: string, dst: string)
    requires Covers(d, src, path)
    ensures Covers(d, dst, Target(path, src, dst))
    ensures StartsWith(d, src + "/", path) ==> Under(dst, Target(path, src, dst))
    ensures StartsWith(d, src + "/", path) ==> StartsWith(d, dst + "/", Target(path, src, dst))
    ensures Target(Target(path, src, dst), dst, src) == src + path[|src|..]
  {
    assert Target(path, src, dst)[|dst|..] == path[|src|..];
    if StartsWith(d, src + "/", path) {
      assert Same(d, (src + "/")[|src|], path[|src|]);
      assert Target(path, src, dst)[|dst|] == '/';
      assert dst + "/" <= Target(path, src, dst);
      LiteralPrefix(d, dst, Target(path, src, dst));
    }
  }

  /** Whichever rows have been moved so far, a row in the way of the next one is a row
      the whole move would collide with. */
  lemma InTheWay<T>(d: Dialect, t: Table<T>, sel: set<string>, done: set<string>, src: string, dst: string, now: int,
                    id: string, other: string)
    requires Unique(t) && Long(t, sel, src) && Aligned(d, t, sel, src, dst)
    requires done <= sel && id in sel && id !in done && other in t && other != id
    requires MoveRows(t, done, src, dst, now)[other].path == Target(t[id].path, src, dst)
    ensures !Fits(t, sel, src, dst)
  {
    if other in sel && other !in done {
      TargetOfTarget(d, src, dst, t[id].path, t[other].path);
    }
  }

  lemma OneMoreRow<T>(t: Table<T>, done: set<string>, src: string, dst: string, now: int, id: string)
    requires Long(t, done + {id}, src) && Long(t, done, src) && id in t && id !in done
    ensures MoveRows(t, done + {id}, src, dst, now) ==
      MoveRows(t, done, src, dst, now)[id := Moved(t[id], src, dst, now)]
  {
  }

  /** One statement of the transaction moves one more row, or finds a row in its way. */
  lemma MoveOne<T>(d: Dialect, t: Table<T>, sel: set<string>, done: set<string>, src: string, dst: string, now: int,
                   id: string)
    requires Unique(t) && Long(t, sel, src) && done <= sel && id in sel && id !in done
    ensures var tx, target := MoveRows(t, done, src, dst, now), Target(t[id].path, src, dst);
      var next := SetPath(tx, id, target, Base(target), now);
      && (next.Some? ==> next.value == MoveRows(t, done + {id}, src, dst, now))
      && (next.None? && Aligned(d, t, sel, src, dst) ==> !Fits(t, sel, src, dst))
  {
    var tx, target := MoveRows(t, done, src, dst, now), Target(t[id].path, src, dst);
    if Taken(tx, id, target) {
      if Aligned(d, t, sel, src, dst) {
        var other :| other in tx && other != id && tx[other].path == target;
        InTheWay(d, t, sel, done, src, dst, now, id, other);
      }
    } else {
      OneMoreRow(t, done, src, dst, now, id);
    }
  }

  /** The row-by-row updates of the transaction, in any order: they all go through if and
      only if no two rows would share a path after the move. */
  method UpdatePaths<T>(d: Dialect, t: Table<T>, sel: set<string>, src: string, dst: string, now: int)
    returns (r: Option<Table<T>>)
    requires Unique(t) && Long(t, sel, src)
    ensures r.Some? ==> Unique(r.value) && r.value == MoveRows(t, sel, src, dst, now)
    ensures r.Some? ==> Fits(t, sel, src, dst)
    ensures Aligned(d, t, sel, src, dst) && Fits(t, sel, src, dst) ==> r.Some?
  {
    var tx, todo := t, sel;
    ghost var done: set<string> := {};
    assert tx == MoveRows(t, done, src, dst, now);
    while todo != {}
      invariant todo + done == sel && todo !! done && Unique(tx)
      invariant tx == MoveRows(t, done, src, dst, now)
      decreases todo
    {
      var id :| id in todo;
      var target := Target(t[id].path, src, dst);
      MoveOne(d, t, sel, done, src, dst, now, id);
      var next := SetPath(tx, id, target, Base(target), now);
      if next.None? {
        return None;
      }
      tx := next.value;
      todo, done := todo - {id}, done + {id};
    }
    assert done == sel;
    FitsIsUnique(t, sel, src, dst, now);
    return Some(tx);
  }

  // -------------------------------------------- when the query is exact

  lemma TargetUnder(path: string, src: string, dst: string)
    requires AtOrUnder(src, path)
    ensures AtOrUnder(dst, Target(path, src, dst))
    ensures Under(src, path) ==> Under(dst, Target(path, src, dst))
    ensures Target(Target(path, src, dst), dst, src) == path
  {
    if path != src {
      assert path == src + "/" + path[|src| + 1..];
      assert path[|src|..] == "/" + path[|src| + 1..];
      assert dst + path[|src|..] == dst + "/" + path[|src| + 1..];
    }
    assert Target(path, src, dst)[|dst|..] == path[|src|..];
  }

  /** A row that stays put holds the path of a row that is to move. */
  predicate Blocked<T>(t: Table<T>, sel: set<string>, src: string, dst: string)
    requires Long(t, sel, src)
  {
    exists i, j :: i in sel && j in t && j !in sel && Target(t[i].path, src, dst) == t[j].path
  }

  /** Rows that lie at or under the old path by the letter never collide with each
      other: only a row that stays can be in the way. */
  lemma OnlyStayersBlock<T>(t: Table<T>, sel: set<string>, src: string, dst: string)
    requires Unique(t) && Long(t, sel, src) && forall id :: id in sel ==> AtOrUnder(src, t[id].path)
    ensures Fits(t, sel, src, dst) <==> !Blocked(t, sel, src, dst)
  {
    forall i, j | i in sel && j in sel && Target(t[i].path, src, dst) == Target(t[j].path, src, dst) ensures i == j {
      TargetUnder(t[i].path, src, dst);
      TargetUnder(t[j].path, src, dst);
    }
  }

  /** Two rows that differ in case alone would end up on one path. */
  lemma TwinsCollide<T>(a: Row<T>, b: Row<T>)
    requires a.path == "docs/a" && b.path == "DOCS/a" && !a.deleted && !b.deleted
    ensures var t := map["f" := a, "g" := b];
      var sel := Selected(SQLite, t, "docs");
      Long(t, sel, "docs") && !Fits(t, sel, "docs", "papers") && !Blocked(t, sel, "docs", "papers")
  {
    var t := map["f" := a, "g" := b];
    SelectedStarts(SQLite, t, "docs");
    assert "docs" + "/" == "docs/";
    assert "f" in Selected(SQLite, t, "docs") && "g" in Selected(SQLite, t, "docs");
    assert "docs/a"[4..] == "/a" && "DOCS/a"[4..] == "/a";
    assert "f" != "g";
  }

  // ------------------------------------------------------ renaming back

  /** What the tables must be like for a rename to go through. */
  ghost predicate CanRename<F, D>(d: Dialect, files: Table<F>, dirs: Table<D>, src: string, dst: string) {
    && ExistsLive(dirs, src) && !ExistsLive(dirs, dst)
    && Long(files, Selected(d, files, src), src) && Fits(files, Selected(d, files, src), src, dst)
    && Long(dirs, Chosen(d, dirs, src), src) && Fits(dirs, Chosen(d, dirs, src), src, dst)
  }

  /** After a move the query for the new directory selects the rows that were moved,
      provided it selected none before. */
  lemma MovedSelection<T>(d: Dialect, t: Table<T>, sel: set<string>, src: string, dst: string, now: int)
    requires Siblings(src, dst) && Selected(d, t, dst) == {}
    requires sel == Selected(d, t, src) || (sel == Chosen(d, t, src) && !ExistsLive(t, dst))
    requires Long(t, sel, src)
    ensures var t1 := MoveRows(t, sel, src, dst, now);
      && (sel == Selected(d, t, src) ==> Selected(d, t1, dst) == sel)
      && (sel == Chosen(d, t, src) && !ExistsLive(t, dst) ==> Chosen(d, t1, dst) == sel)
  {
    var t1 := MoveRows(t, sel, src, dst, now);
    SelectedStarts(d, t, src);
    SelectedStarts(d, t, dst);
    SelectedStarts(d, t1, dst);
    forall id | id in t && !t[id].deleted
      ensures id !in Selected(d, t, dst) && (t[id].path == dst ==> ExistsLive(t, dst))
    {
      assert t[id].path == dst ==> LiveAt(t, id, dst);
    }
    forall id | id in sel
      ensures Covers(d, dst, t1[id].path)
      ensures StartsWith(d, src + "/", t[id].path) ==> StartsWith(d, dst + "/", t1[id].path)
    {
      TargetStarts(d, t[id].path, src, dst);
    }
  }

  /** Moving the same rows back collides with nothing; a path comes back as it was if
      and only if it lay at or under the old directory by the letter. */
  lemma MoveBack<T>(d: Dialect, t: Table<T>, sel: set<string>, src: string, dst: string, now: int, later: int)
    requires Unique(t) && Long(t, sel, src) && Aligned(d, t, sel, src, dst) && Fits(t, sel, src, dst)
    ensures var t1 := MoveRows(t, sel, src, dst, now);
      && Long(t1, sel, dst)
      && (forall id :: id in t ==> (MoveRows(t1, sel, dst, src, later)[id].path == t[id].path <==>
            id !in sel || AtOrUnder(src, t[id].path)))
      && ((forall id :: id in sel ==> AtOrUnder(src, t[id].path)) ==> Fits(t1, sel, dst, src))
  {
    var t1 := MoveRows(t, sel, src, dst, now);
    forall id | id in sel
      ensures |dst| <= |t1[id].path| && Target(t1[id].path, dst, src) == src + t[id].path[|src|..]
      ensures src + t[id].path[|src|..] == t[id].path <==> AtOrUnder(src, t[id].path)
    {
      TargetStarts(d, t[id].path, src, dst);
      ByTheLetter(d, src, t[id].path);
    }
  }

  lemma ByTheLetter(d: Dialect, src: string, path: string)
    requires Covers(d, src, path)
    ensures |src| <= |path|
    ensures src + path[|src|..] == path <==> AtOrUnder(src, path)
  {
    if path != src {
      assert Same(d, (src + "/")[|src|], path[|src|]);
      assert path[|src|] == '/';
      if src + path[|src|..] == path { assert path[..|src|] == src && path[..|src| + 1] == src + "/"; }
      if Under(src, path) { assert path[..|src|] == src; }
    }
  }

  /** Renaming a directory and renaming it back, when the query for the new name found
      nothing before: if the query for the old name was exact, the second rename cannot
      fail; and it restores the paths of both tables if and only if it was. */
  lemma RenameBack<F, D>(d: Dialect, files: Table<F>, dirs: Table<D>, src: string, dst: string, now: int, later: int)
    requires Unique(files) && Unique(dirs) && Siblings(src, dst) && CanRename(d, files, dirs, src, dst)
    requires Selected(d, files, dst) == {} && Selected(d, dirs, dst) == {}
    ensures var f1 := MoveRows(files, Selected(d, files, src), src, dst, now);
      var d1 := MoveRows(dirs, Chosen(d, dirs, src), src, dst, now);
      && Long(f1, Selected(d, f1, dst), dst) && Long(d1, Chosen(d, d1, dst), dst)
      && (Exact(d, files, src) && Exact(d, dirs, src) ==> CanRename(d, f1, d1, dst, src))
      && (Exact(d, files, src) <==>
            forall id :: id in files ==> MoveRows(f1, Selected(d, f1, dst), dst, src, later)[id].path == files[id].path)
      && (Exact(d, dirs, src) <==>
            forall id :: id in dirs ==> MoveRows(d1, Chosen(d, d1, dst), dst, src, later)[id].path == dirs[id].path)
  {
    var fs, ds := Selected(d, files, src), Chosen(d, dirs, src);
    var f1, d1 := MoveRows(files, fs, src, dst, now), MoveRows(dirs, ds, src, dst, now);
    ChosenAligned(d, files, src, dst);
    ChosenAligned(d, dirs, src, dst);
    MovedSelection(d, files, fs, src, dst, now);
    MovedSelection(d, dirs, ds, src, dst, now);
    MoveBack(d, files, fs, src, dst, now, later);
    MoveBack(d, dirs, ds, src, dst, now, later);
    SelectedIsInside(d, files, src);
    ChosenIsSubtree(d, dirs, src);
    RestoredIffExact(d, files, fs, src);
    RestoredIffExact(d, dirs, ds, src);
    NamesSwapped(d, dirs, src, dst, now);
  }

  lemma RestoredIffExact<T>(d: Dialect, t: Table<T>, sel: set<string>, src: string)
    requires sel == Selected(d, t, src) || sel == Chosen(d, t, src)
    ensures Exact(d, t, src) <==> forall id :: id in sel ==> AtOrUnder(src, t[id].path)
  {
    SelectedStarts(d, t, src);
    if forall id :: id in sel ==> AtOrUnder(src, t[id].path) {
      forall id | id in t && !t[id].deleted && StartsWith(d, src + "/", t[id].path) ensures Under(src, t[id].path) {
        assert id in sel;
      }
    }
  }

  /** After the move the new name is a live directory and the old name is not. */
  lemma NamesSwapped<T>(d: Dialect, t: Table<T>, src: string, dst: string, now: int)
    requires Unique(t) && Siblings(src, dst) && ExistsLive(t, src)
    requires Long(t, Chosen(d, t, src), src)
    ensures var t1 := MoveRows(t, Chosen(d, t, src), src, dst, now);
      ExistsLive(t1, dst) && (Exact(d, t, src) ==> !ExistsLive(t1, src))
  {
    var t1 := MoveRows(t, Chosen(d, t, src), src, dst, now);
    var own :| own in t && LiveAt(t, own, src);
    assert LiveAt(t1, own, dst);
    ChosenIsSubtree(d, t, src);
    if Exact(d, t, src) {
      forall id | id in t1 && !t1[id].deleted ensures t1[id].path != src {
        if id in Chosen(d, t, src) {
          TargetUnder(t[id].path, src, dst);
          SiblingsDisjoint(src, dst, src);
        }
      }
    }
  }
}
