/** Directory renames and deletes seen from the files: the rows move, or are deleted, in
    transactions, and each file's bytes are then moved, or removed, to match. Storage
    failures at that point are logged and no more. */
module TreeStore {
  import opened Dialects
  import opened Directories
  import opened DirectoryRename
  import opened FileStore
  import opened Like
  import opened Paths
  import opened Relocation
  import opened StreamDigest
  import opened Tables

  function LivePaths(rows: Table<Info>): set<string> {
    set id | id in rows && !rows[id].deleted :: rows[id].path
  }

  /** Where a directory rename takes each of a set of paths. */
  function Going(ps: set<string>, src: string, dst: string): map<string, string> {
    map p | p in ps && |src| <= |p| :: Target(p, src, dst)
  }

  /** The moves that storage carries out: of the paths with bytes it can move. */
  function Carried(st: State, sel: set<string>, lost: set<string>, src: string, dst: string): map<string, string> {
    Only(Going(PathsOf(st.rows, sel), src, dst), st.store.Keys - lost)
  }

  /** What the transaction has made sure of: the rows it moved were live and taken in by
      the query, and no two rows share a path afterwards. */
  ghost predicate Accepted(d: Dialect, rows: Table<Info>, sel: set<string>, src: string, dst: string) {
    && Unique(rows) && Long(rows, sel, src) && Aligned(d, rows, sel, src, dst) && Fits(rows, sel, src, dst)
    && forall id :: id in sel ==> !rows[id].deleted
  }

  lemma GoingKeys(rows: Table<Info>, sel: set<string>, src: string, dst: string)
    requires Long(rows, sel, src)
    ensures Going(PathsOf(rows, sel), src, dst).Keys == PathsOf(rows, sel)
  {
  }

  /** No two accepted rows go to one path, and none goes where another one was. */
  lemma GoingApart(d: Dialect, rows: Table<Info>, sel: set<string>, src: string, dst: string)
    requires Accepted(d, rows, sel, src, dst)
    ensures var go := Going(PathsOf(rows, sel), src, dst);
      Injective(go) && Apart(go)
  {
    var go := Going(PathsOf(rows, sel), src, dst);
    forall p, q | p in go && q in go && go[p] == go[q] ensures p == q {
      var i :| i in sel && i in rows && rows[i].path == p;
      var j :| j in sel && j in rows && rows[j].path == q;
    }
    forall p, q | p in go && q in go && go[p] == q ensures p == q {
      var i :| i in sel && i in rows && rows[i].path == p;
      var j :| j in sel && j in rows && rows[j].path == q;
      TargetOfTarget(d, src, dst, p, q);
    }
  }

  /** Moves the objects one by one, in any order. A rename that fails is passed over. */
  method RenameObjects(d: Dialect, st: State, sel: set<string>, lost: set<string>, src: string, dst: string)
    returns (store: map<string, seq<Byte>>)
    requires Accepted(d, st.rows, sel, src, dst)
    ensures Injective(Carried(st, sel, lost, src, dst))
    ensures store == Shift(st.store, Carried(st, sel, lost, src, dst))
  {
    GoingApart(d, st.rows, sel, src, dst);
    store := MoveAll(st.store, Going(PathsOf(st.rows, sel), src, dst), lost);
  }

  // ------------------------------------------------- renaming a directory

  /** The selected rows moved, and the bytes of those whose storage rename succeeded. */
  ghost function MovedState(d: Dialect, st: State, sel: set<string>, lost: set<string>, src: string, dst: string,
                            now: int): State
    requires Accepted(d, st.rows, sel, src, dst)
  {
    GoingApart(d, st.rows, sel, src, dst);
    OnlyInjective(Going(PathsOf(st.rows, sel), src, dst), st.store.Keys - lost);
    State(MoveRows(st.rows, sel, src, dst, now), Shift(st.store, Carried(st, sel, lost, src, dst)))
  }

  /** The rows whose bytes stay behind. */
  function LeftBehind(st: State, sel: set<string>, lost: set<string>): set<string> {
    set id | id in sel && id in st.rows && (st.rows[id].path !in st.store || st.rows[id].path in lost)
  }

  /** What storage holds for a row after the move: its bytes if they were carried along,
      and otherwise what was at its path before. */
  lemma BytesAfter(d: Dialect, st: State, sel: set<string>, lost: set<string>, src: string, dst: string, now: int,
                   id: string)
    requires Accepted(d, st.rows, sel, src, dst) && id in st.rows
    ensures var p := if id in sel then Target(st.rows[id].path, src, dst) else st.rows[id].path;
      var store := MovedState(d, st, sel, lost, src, dst, now).store;
      if id in sel && id !in LeftBehind(st, sel, lost) then
        st.rows[id].path in st.store && p in store && store[p] == st.store[st.rows[id].path]
      else (p in store <==> p in st.store) && (p in store ==> store[p] == st.store[p])
  {
    var go, ok := Going(PathsOf(st.rows, sel), src, dst), Carried(st, sel, lost, src, dst);
    GoingApart(d, st.rows, sel, src, dst);
    OnlyInjective(go, st.store.Keys - lost);
    var q := st.rows[id].path;
    if id !in sel {
      StayerUntouched(st.rows, sel, src, dst, id);
      assert !Hit(ok, q);
      Stays(st.store, ok, q);
    } else if q in ok {
      Arrives(st.store, ok, q);
    } else {
      assert q in go;
      assert !Hit(ok, go[q]);
      Stays(st.store, ok, go[q]);
    }
  }

  lemma StayerUntouched(rows: Table<Info>, sel: set<string>, src: string, dst: string, id: string)
    requires Unique(rows) && Long(rows, sel, src) && Fits(rows, sel, src, dst) && id in rows && id !in sel
    ensures var go := Going(PathsOf(rows, sel), src, dst);
      rows[id].path !in go && !Hit(go, rows[id].path)
  {
    var go := Going(PathsOf(rows, sel), src, dst);
    forall p | p in go ensures go[p] != rows[id].path && p != rows[id].path {
      var i :| i in sel && i in rows && rows[i].path == p;
    }
  }

  /** After the metadata of a directory rename has committed, whichever storage renames
      then fail, every live row is sound if and only if each row left behind has fitting
      bytes at its new path already. */
  lemma SoundIffNoneLost<S>(h: Hasher<S>, d: Dialect, st: State, sel: set<string>, lost: set<string>,
                            src: string, dst: string, now: int)
    requires Inv(h, st) && Accepted(d, st.rows, sel, src, dst)
    ensures Inv(h, MovedState(d, st, sel, lost, src, dst, now)) <==>
      forall id :: id in LeftBehind(st, sel, lost) ==> Sound(h, Moved(st.rows[id], src, dst, now), st.store)
  {
    var st' := MovedState(d, st, sel, lost, src, dst, now);
    FitsIsUnique(st.rows, sel, src, dst, now);
    forall id | id in st.rows && !st.rows[id].deleted
      ensures Sound(h, st'.rows[id], st'.store) <==>
        id !in LeftBehind(st, sel, lost) || Sound(h, Moved(st.rows[id], src, dst, now), st.store)
    {
      RowAfterMove(h, d, st, sel, lost, src, dst, now, id);
    }
  }

  lemma RowAfterMove<S>(h: Hasher<S>, d: Dialect, st: State, sel: set<string>, lost: set<string>,
                        src: string, dst: string, now: int, id: string)
    requires Inv(h, st) && Accepted(d, st.rows, sel, src, dst) && id in st.rows && !st.rows[id].deleted
    ensures var st' := MovedState(d, st, sel, lost, src, dst, now);
      Sound(h, st'.rows[id], st'.store) <==>
        id !in LeftBehind(st, sel, lost) || Sound(h, Moved(st.rows[id], src, dst, now), st.store)
  {
    assert Sound(h, st.rows[id], st.store);
    BytesAfter(d, st, sel, lost, src, dst, now, id);
  }

  /** There are no bytes under a directory. */
  predicate Empty(store: map<string, seq<Byte>>, dir: string) {
    forall p :: p in store ==> !Under(dir, p)
  }

  lemma SelectedAccepted(d: Dialect, rows: Table<Info>, src: string, dst: string)
    requires Unique(rows) && Siblings(src, dst)
    ensures Long(rows, Selected(d, rows, src), src)
    ensures Accepted(d, rows, Selected(d, rows, src), src, dst) <==> Fits(rows, Selected(d, rows, src), src, dst)
  {
    ChosenAligned(d, rows, src, dst);
  }

  /** With no bytes under the new directory beforehand, every live row is sound after the
      rename if and only if no storage rename of a selected path failed. */
  lemma SoundIffAllMoved<S>(h: Hasher<S>, d: Dialect, st: State, lost: set<string>, src: string, dst: string, now: int)
    requires Inv(h, st) && Empty(st.store, dst) && Accepted(d, st.rows, Selected(d, st.rows, src), src, dst)
    ensures Inv(h, MovedState(d, st, Selected(d, st.rows, src), lost, src, dst, now)) <==>
      PathsOf(st.rows, Selected(d, st.rows, src)) !! lost
  {
    var sel := Selected(d, st.rows, src);
    SelectedStarts(d, st.rows, src);
    SoundIffNoneLost(h, d, st, sel, lost, src, dst, now);
    forall id | id in sel ensures !Sound(h, Moved(st.rows[id], src, dst, now), st.store) {
      TargetStarts(d, st.rows[id].path, src, dst);
    }
    NoneLost(h, st, sel, lost);
  }

  lemma NoneLost<S>(h: Hasher<S>, st: State, sel: set<string>, lost: set<string>)
    requires Inv(h, st) && forall id :: id in sel ==> id in st.rows && !st.rows[id].deleted
    ensures LeftBehind(st, sel, lost) == {} <==> PathsOf(st.rows, sel) !! lost
  {
    forall id | id in sel ensures id in LeftBehind(st, sel, lost) <==> st.rows[id].path in lost {
      assert Sound(h, st.rows[id], st.store);
    }
    if LeftBehind(st, sel, lost) == {} {
      forall p | p in PathsOf(st.rows, sel) ensures p !in lost {
        var id :| id in sel && id in st.rows && st.rows[id].path == p;
        assert id !in LeftBehind(st, sel, lost);
      }
    }
  }

  // ------------------------------------- what clients see of a rename

  /** The files a query for a directory takes in. */
  function Leaving(d: Dialect, files: map<string, seq<Byte>>, src: string): set<string> {
    set p | p in files && StartsWith(d, src + "/", p)
  }

  /** The files with everything the query takes in moved to the new directory, except
      what was lost. */
  function Rekeyed(d: Dialect, files: map<string, seq<Byte>>, src: string, dst: string, lost: set<string>)
    : map<string, seq<Byte>>
    requires Injective(Going(Leaving(d, files, src), src, dst))
  {
    var go := Going(Leaving(d, files, src), src, dst);
    OnlyInjective(go, files.Keys - lost);
    (files - Leaving(d, files, src)) + Cargo(files, Only(go, files.Keys - lost))
  }

  lemma FilesRestrict(st: State)
    ensures Files(st) == Restrict(st.store, LivePaths(st.rows))
  {
    forall p ensures p in LivePaths(st.rows) <==> ExistsLive(st.rows, p) {
      if ExistsLive(st.rows, p) { var id :| id in st.rows && LiveAt(st.rows, id, p); }
      if id :| id in st.rows && !st.rows[id].deleted && st.rows[id].path == p { assert LiveAt(st.rows, id, p); }
    }
  }

  lemma SeenLeaving<S>(h: Hasher<S>, d: Dialect, st: State, src: string)
    requires Inv(h, st)
    ensures Leaving(d, Files(st), src) == PathsOf(st.rows, Selected(d, st.rows, src))
  {
    SelectedStarts(d, st.rows, src);
    forall p ensures p in Leaving(d, Files(st), src) <==> p in PathsOf(st.rows, Selected(d, st.rows, src)) {
      if p in Leaving(d, Files(st), src) {
        var id :| id in st.rows && LiveAt(st.rows, id, p);
        assert id in Selected(d, st.rows, src);
      }
      if id :| id in Selected(d, st.rows, src) && id in st.rows && st.rows[id].path == p {
        assert LiveAt(st.rows, id, p);
        LiveSound(h, st, p);
      }
    }
  }

  /** The live paths after a move: the others as they were, and the targets. */
  lemma LiveAfterMove(rows: Table<Info>, sel: set<string>, src: string, dst: string, now: int)
    requires Unique(rows) && Long(rows, sel, src) && forall id :: id in sel ==> !rows[id].deleted
    ensures LivePaths(MoveRows(rows, sel, src, dst, now)) ==
      KeysAfter(LivePaths(rows), Going(PathsOf(rows, sel), src, dst))
  {
    var moved, go := MoveRows(rows, sel, src, dst, now), Going(PathsOf(rows, sel), src, dst);
    GoingKeys(rows, sel, src, dst);
    forall x ensures x in LivePaths(moved) <==> x in KeysAfter(LivePaths(rows), go) {
      if id :| id in moved && !moved[id].deleted && moved[id].path == x {
        if id in sel {
          assert go[rows[id].path] == x;
        } else {
          assert rows[id].path == x && x !in PathsOf(rows, sel);
        }
      }
      if x in LivePaths(rows) - go.Keys {
        var id :| id in rows && !rows[id].deleted && rows[id].path == x;
        assert id !in sel;
        assert moved[id] == rows[id];
      }
      if p :| p in go && go[p] == x {
        var id :| id in sel && id in rows && rows[id].path == p;
        assert moved[id].path == x;
      }
    }
  }

  /** No row that stays is where a moved row arrives. */
  lemma NoneInTheWay(rows: Table<Info>, sel: set<string>, src: string, dst: string, p: string)
    requires Long(rows, sel, src) && Fits(rows, sel, src, dst) && p in Going(PathsOf(rows, sel), src, dst)
    ensures Going(PathsOf(rows, sel), src, dst)[p] !in LivePaths(rows) - PathsOf(rows, sel)
  {
    var i :| i in sel && i in rows && rows[i].path == p;
    forall j | j in rows && rows[j].path == Target(p, src, dst) ensures rows[j].path in PathsOf(rows, sel) {
    }
  }

  /** Whatever storage renames fail: clients see the files with the directory moved, less
      those whose storage rename failed, although the rename reports success; and where a
      row left behind finds stray bytes at its new path, they see those. */
  lemma MoveTreeShows<S>(h: Hasher<S>, d: Dialect, st: State, lost: set<string>, src: string, dst: string, now: int)
    requires Inv(h, st) && Accepted(d, st.rows, Selected(d, st.rows, src), src, dst)
    ensures var sel := Selected(d, st.rows, src);
      var go, ok := Going(PathsOf(st.rows, sel), src, dst), Carried(st, sel, lost, src, dst);
      && Injective(go) && Injective(Going(Leaving(d, Files(st), src), src, dst))
      && Files(MovedState(d, st, sel, lost, src, dst, now)) ==
           Rekeyed(d, Files(st), src, dst, lost) + Strays(st.store, go, ok)
  {
    var sel := Selected(d, st.rows, src);
    var st' := MovedState(d, st, sel, lost, src, dst, now);
    var go, ok := Going(PathsOf(st.rows, sel), src, dst), Carried(st, sel, lost, src, dst);
    GoingKeys(st.rows, sel, src, dst);
    GoingApart(d, st.rows, sel, src, dst);
    SeenLeaving(h, d, st, src);
    FilesRestrict(st);
    FilesRestrict(st');
    LiveAfterMove(st.rows, sel, src, dst, now);
    forall p | p in go ensures go[p] !in LivePaths(st.rows) - go.Keys {
      NoneInTheWay(st.rows, sel, src, dst, p);
    }
    CargoOfPart(st.store, Files(st), go, lost);
    RestrictShift(st.store, LivePaths(st.rows), go, ok);
  }

  /** With no bytes under the new directory, or no storage rename failing, there is
      nothing stray to see. */
  lemma MoveTreeRekeys<S>(h: Hasher<S>, d: Dialect, st: State, lost: set<string>, src: string, dst: string, now: int)
    requires Inv(h, st) && Accepted(d, st.rows, Selected(d, st.rows, src), src, dst)
    requires Empty(st.store, dst) || LeftBehind(st, Selected(d, st.rows, src), lost) == {}
    ensures Injective(Going(Leaving(d, Files(st), src), src, dst))
    ensures Files(MovedState(d, st, Selected(d, st.rows, src), lost, src, dst, now)) ==
      Rekeyed(d, Files(st), src, dst, lost)
  {
    var sel := Selected(d, st.rows, src);
    MoveTreeShows(h, d, st, lost, src, dst, now);
    NoStrays(d, st, sel, lost, src, dst);
    NothingAdded(Rekeyed(d, Files(st), src, dst, lost),
                 Strays(st.store, Going(PathsOf(st.rows, sel), src, dst), Carried(st, sel, lost, src, dst)));
  }

  lemma NoStrays(d: Dialect, st: State, sel: set<string>, lost: set<string>, src: string, dst: string)
    requires sel == Selected(d, st.rows, src) && Long(st.rows, sel, src)
    requires Injective(Going(PathsOf(st.rows, sel), src, dst))
    requires Empty(st.store, dst) || LeftBehind(st, sel, lost) == {}
    ensures Strays(st.store, Going(PathsOf(st.rows, sel), src, dst), Carried(st, sel, lost, src, dst)) == map[]
  {
    var go, ok := Going(PathsOf(st.rows, sel), src, dst), Carried(st, sel, lost, src, dst);
    forall p | p in go && p !in ok ensures go[p] !in st.store {
      NothingAtTarget(d, st, sel, lost, src, dst, p);
    }
  }

  lemma NothingAtTarget(d: Dialect, st: State, sel: set<string>, lost: set<string>, src: string, dst: string, p: string)
    requires sel == Selected(d, st.rows, src) && Long(st.rows, sel, src) && p in PathsOf(st.rows, sel)
    requires Empty(st.store, dst) || LeftBehind(st, sel, lost) == {}
    requires p !in st.store.Keys - lost && |src| <= |p|
    ensures Target(p, src, dst) !in st.store
  {
    var id :| id in sel && id in st.rows && st.rows[id].path == p;
    assert id in LeftBehind(st, sel, lost);
    SelectedStarts(d, st.rows, src);
    TargetStarts(d, p, src, dst);
  }

  // ------------------------------------------------------ renaming back

  /** The files under the new name after a rename are those that arrived there. */
  lemma Arrived(d: Dialect, files: map<string, seq<Byte>>, src: string, dst: string, x: string)
    requires Leaving(d, files, dst) == {} && Injective(Going(Leaving(d, files, src), src, dst))
    ensures var there := Rekeyed(d, files, src, dst, {});
      && (x in Leaving(d, there, dst) <==> Hit(Going(Leaving(d, files, src), src, dst), x))
      && (x in there && x !in Leaving(d, there, dst) <==> x in files && x !in Leaving(d, files, src))
      && (x in there && x !in Leaving(d, there, dst) ==> there[x] == files[x])
  {
    var go, there := Going(Leaving(d, files, src), src, dst), Rekeyed(d, files, src, dst, {});
    assert Only(go, files.Keys - {}) == go;
    if Hit(go, x) {
      var p :| p in go && go[p] == x;
      assert x in Cargo(files, go);
      TargetStarts(d, p, src, dst);
      assert x !in Leaving(d, files, dst);
    } else {
      assert x !in Cargo(files, go);
      assert x in files ==> x !in Leaving(d, files, dst);
    }
  }

  /** Where a file that arrived goes back to: its own path, spelled as the old directory. */
  lemma WayBack(d: Dialect, src: string, dst: string, p: string)
    requires StartsWith(d, src + "/", p)
    ensures var x := Target(p, src, dst);
      && Target(x, dst, src) == src + p[|src|..] && Under(src, Target(x, dst, src))
      && (Target(x, dst, src) == p <==> Under(src, p))
  {
    TargetStarts(d, p, src, dst);
    ByTheLetter(d, src, p);
    assert Same(d, (src + "/")[|src|], p[|src|]);
    assert src + "/" <= src + p[|src|..];
    if src + p[|src|..] == p { assert p != src; }
  }

  lemma GoesBack(d: Dialect, files: map<string, seq<Byte>>, src: string, dst: string, p: string)
    requires Leaving(d, files, dst) == {} && Injective(Going(Leaving(d, files, src), src, dst))
    requires p in Leaving(d, files, src)
    ensures var there := Rekeyed(d, files, src, dst, {});
      var back := Going(Leaving(d, there, dst), dst, src);
      var x := Target(p, src, dst);
      && x in back && back[x] == src + p[|src|..] && Under(src, back[x])
      && x in there && there[x] == files[p]
      && (back[x] == p <==> Under(src, p))
  {
    var go := Going(Leaving(d, files, src), src, dst);
    assert Only(go, files.Keys - {}) == go;
    assert p in go && go[p] == Target(p, src, dst);
    Arrived(d, files, src, dst, go[p]);
    assert go[p] in Cargo(files, go);
    WayBack(d, src, dst, p);
  }

  lemma BackInjective(d: Dialect, files: map<string, seq<Byte>>, src: string, dst: string)
    requires Leaving(d, files, dst) == {} && Injective(Going(Leaving(d, files, src), src, dst))
    ensures Injective(Going(Leaving(d, Rekeyed(d, files, src, dst, {}), dst), dst, src))
  {
    var go, there := Going(Leaving(d, files, src), src, dst), Rekeyed(d, files, src, dst, {});
    var back := Going(Leaving(d, there, dst), dst, src);
    forall x, y | x in back && y in back && back[x] == back[y] ensures x == y {
      Arrived(d, files, src, dst, x);
      Arrived(d, files, src, dst, y);
      var p :| p in go && go[p] == x;
      var q :| q in go && go[q] == y;
      GoesBack(d, files, src, dst, p);
      GoesBack(d, files, src, dst, q);
      assert p[|src|..] == (src + p[|src|..])[|src|..] == q[|src|..];
    }
  }

  /** The files after renaming there and back. */
  ghost function Home(d: Dialect, files: map<string, seq<Byte>>, src: string, dst: string): map<string, seq<Byte>>
    requires Leaving(d, files, dst) == {} && Injective(Going(Leaving(d, files, src), src, dst))
  {
    BackInjective(d, files, src, dst);
    Rekeyed(d, Rekeyed(d, files, src, dst, {}), dst, src, {})
  }

  /** What is at a path at the end: a file that came back to it, or one that never left. */
  lemma HomeAt(d: Dialect, files: map<string, seq<Byte>>, src: string, dst: string, x: string)
    requires Leaving(d, files, dst) == {} && Injective(Going(Leaving(d, files, src), src, dst))
    ensures var there := Rekeyed(d, files, src, dst, {});
      var back := Going(Leaving(d, there, dst), dst, src);
      && (x in Home(d, files, src, dst) <==> Hit(back, x) || (x in there && x !in Leaving(d, there, dst)))
      && (x in there && x !in Leaving(d, there, dst) && !Hit(back, x) ==> Home(d, files, src, dst)[x] == there[x])
      && (forall y :: y in back && back[y] == x ==> Home(d, files, src, dst)[x] == there[y])
  {
    var there := Rekeyed(d, files, src, dst, {});
    var back := Going(Leaving(d, there, dst), dst, src);
    BackInjective(d, files, src, dst);
    assert Only(back, there.Keys - {}) == back;
    assert x in Cargo(there, back) <==> Hit(back, x);
  }

  /** Only paths under the old name by the letter come back. */
  lemma BackUnder(d: Dialect, files: map<string, seq<Byte>>, src: string, dst: string, y: string)
    requires Leaving(d, files, dst) == {} && Injective(Going(Leaving(d, files, src), src, dst))
    requires y in Going(Leaving(d, Rekeyed(d, files, src, dst, {}), dst), dst, src)
    ensures Under(src, Going(Leaving(d, Rekeyed(d, files, src, dst, {}), dst), dst, src)[y])
    ensures exists p ::
      && p in Leaving(d, files, src)
      && Going(Leaving(d, Rekeyed(d, files, src, dst, {}), dst), dst, src)[y] == src + p[|src|..]
  {
    var go := Going(Leaving(d, files, src), src, dst);
    Arrived(d, files, src, dst, y);
    var p :| p in go && go[p] == y;
    GoesBack(d, files, src, dst, p);
  }

  lemma HomeMoved(d: Dialect, files: map<string, seq<Byte>>, src: string, dst: string, p: string)
    requires Leaving(d, files, dst) == {} && Injective(Going(Leaving(d, files, src), src, dst))
    requires p in Leaving(d, files, src)
    ensures Under(src, p) ==> p in Home(d, files, src, dst) && Home(d, files, src, dst)[p] == files[p]
    ensures !Under(src, p) ==> p !in Home(d, files, src, dst)
  {
    var back := Going(Leaving(d, Rekeyed(d, files, src, dst, {}), dst), dst, src);
    HomeAt(d, files, src, dst, p);
    Arrived(d, files, src, dst, p);
    GoesBack(d, files, src, dst, p);
    if !Under(src, p) {
      forall y | y in back ensures back[y] != p { BackUnder(d, files, src, dst, y); }
    }
  }

  lemma HomeStayed(d: Dialect, files: map<string, seq<Byte>>, src: string, dst: string, x: string)
    requires Leaving(d, files, dst) == {} && Injective(Going(Leaving(d, files, src), src, dst))
    requires x !in Leaving(d, files, src) && forall p :: p in Leaving(d, files, src) ==> Under(src, p)
    ensures x in Home(d, files, src, dst) <==> x in files
    ensures x in files ==> Home(d, files, src, dst)[x] == files[x]
  {
    var back := Going(Leaving(d, Rekeyed(d, files, src, dst, {}), dst), dst, src);
    HomeAt(d, files, src, dst, x);
    Arrived(d, files, src, dst, x);
    forall y | y in back ensures back[y] != x {
      BackUnder(d, files, src, dst, y);
      var p :| p in Leaving(d, files, src) && back[y] == src + p[|src|..];
      ByTheLetter(d, src, p);
    }
  }

  /** Renaming back, when the new name had no files: clients see the files they had, if
      and only if every file that moved lay under the old name by the letter. */
  lemma RekeyedBack(d: Dialect, files: map<string, seq<Byte>>, src: string, dst: string)
    requires Leaving(d, files, dst) == {} && Injective(Going(Leaving(d, files, src), src, dst))
    ensures Home(d, files, src, dst) == files <==> forall p :: p in Leaving(d, files, src) ==> Under(src, p)
  {
    var home := Home(d, files, src, dst);
    if forall p :: p in Leaving(d, files, src) ==> Under(src, p) {
      forall x ensures (x in home <==> x in files) && (x in files ==> home[x] == files[x]) {
        if x in Leaving(d, files, src) {
          HomeMoved(d, files, src, dst, x);
        } else {
          HomeStayed(d, files, src, dst, x);
        }
      }
    } else {
      var p :| p in Leaving(d, files, src) && !Under(src, p);
      HomeMoved(d, files, src, dst, p);
    }
  }

  // ------------------------------------------------- deleting a directory

  /** Rows soft-deleted in committed batches, and their bytes removed except where
      storage fails; `wiped` are the paths that went with the physical directories. */
  function Dropped(st: State, ids: set<string>, now: int, stuck: set<string>, wiped: set<string>): State {
    State(Flag(st.rows, ids, now), st.store - (PathsOf(st.rows, ids) - stuck) - wiped)
  }

  /** Nothing that stays live is wiped. */
  predicate WipesDead(rows: Table<Info>, ids: set<string>, wiped: set<string>) {
    forall id :: id in rows && !rows[id].deleted && rows[id].path in wiped ==> id in ids
  }

  /** What lies in a subdirectory that the query for a directory selects, the query
      selects as well. */
  lemma SubdirectoryBelow(d: Dialect, dir: string, sub: string, p: string)
    requires StartsWith(d, dir + "/", sub) && AtOrUnder(sub, p)
    ensures StartsWith(d, dir + "/", p)
  {
    forall i | 0 <= i < |dir + "/"| ensures Same(d, (dir + "/")[i], p[i]) {
      assert Same(d, (dir + "/")[i], sub[i]);
      assert p[i] == sub[i];
    }
  }

  /** So once all files of a directory are deleted, wiping its subdirectories takes
      nothing that is live. */
  lemma SubdirectoriesDead(d: Dialect, rows: Table<Info>, dir: string, wiped: set<string>)
    requires forall p :: p in wiped ==> StartsWith(d, dir + "/", p)
    ensures WipesDead(rows, Selected(d, rows, dir), wiped)
  {
    SelectedStarts(d, rows, dir);
  }

  /** However many batches of a directory were deleted, and whatever bytes storage kept:
      the deleted files are gone, and every other file is as it was. */
  lemma DropHides<S>(h: Hasher<S>, st: State, ids: set<string>, now: int, stuck: set<string>, wiped: set<string>)
    requires Inv(h, st) && WipesDead(st.rows, ids, wiped)
    ensures var st' := Dropped(st, ids, now, stuck, wiped);
      Inv(h, st') && Files(st') == Files(st) - PathsOf(st.rows, ids)
  {
    var st' := Dropped(st, ids, now, stuck, wiped);
    FlagUnique(st.rows, ids, now);
    forall id | id in st'.rows && !st'.rows[id].deleted ensures Sound(h, st'.rows[id], st'.store) {
      assert Sound(h, st.rows[id], st.store);
      assert st.rows[id].path !in PathsOf(st.rows, ids) && st.rows[id].path !in wiped;
    }
    forall p ensures ExistsLive(st'.rows, p) <==> ExistsLive(st.rows, p) && p !in PathsOf(st.rows, ids) {
      FlagLive(st.rows, ids, now, p);
    }
    forall p | ExistsLive(st'.rows, p) ensures p in st'.store {
      LiveSound(h, st', p);
    }
  }

  lemma FlagLive(rows: Table<Info>, ids: set<string>, now: int, p: string)
    requires Unique(rows)
    ensures ExistsLive(Flag(rows, ids, now), p) <==> ExistsLive(rows, p) && p !in PathsOf(rows, ids)
  {
    var rows' := Flag(rows, ids, now);
    if id :| id in rows' && LiveAt(rows', id, p) { assert LiveAt(rows, id, p); }
    if id :| id in rows && LiveAt(rows, id, p) && p !in PathsOf(rows, ids) { assert LiveAt(rows', id, p); }
  }

  /** Deleting rows of a directory is seen exactly if there are any to delete. */
  lemma DropSeen<S>(h: Hasher<S>, d: Dialect, st: State, dir: string, ids: set<string>, now: int, stuck: set<string>,
                    wiped: set<string>)
    requires Inv(h, st) && ids <= Selected(d, st.rows, dir) && WipesDead(st.rows, ids, wiped)
    ensures Files(Dropped(st, ids, now, stuck, wiped)) == Files(st) <==> ids == {}
  {
    DropHides(h, st, ids, now, stuck, wiped);
    SeenLeaving(h, d, st, dir);
    if id :| id in ids {
      assert st.rows[id].path in PathsOf(st.rows, Selected(d, st.rows, dir));
      assert st.rows[id].path in PathsOf(st.rows, ids);
      assert st.rows[id].path in Files(st);
    }
  }
}
