/** The last storage step of a directory rename: the object at the directory's own path.
    In local storage that is the physical directory, with whatever is left in it; but it
    can be a file. */
module DirectoryObject {
  import opened Dialects
  import opened DirectoryRename
  import opened FileStore
  import opened Like
  import opened Paths
  import opened Relocation
  import opened StreamDigest
  import opened Tables
  import opened TreeStore

  /** The last storage rename, of the directory's own path, can go through: it is not made
      to fail, and there is nothing under the new path. */
  predicate OwnMoves(store: map<string, seq<Byte>>, dst: string, ownOk: bool) { ownOk && Empty(store, dst) }

  function Below(store: map<string, seq<Byte>>, dir: string): set<string> {
    set p | p in store && Under(dir, p)
  }

  /** That rename moves a file that lies at the directory's own path; or else the whole
      physical directory, with all that is left in it, unless something has the new path. */
  function MoveOwn(store: map<string, seq<Byte>>, src: string, dst: string, ownOk: bool): map<string, seq<Byte>> {
    if !OwnMoves(store, dst, ownOk) then store
    else if src in store then Relocate(store, src, dst)
    else if dst in store then store
    else
      BelowGoes(store, src, dst);
      Shift(store, Going(Below(store, src), src, dst))
  }

  lemma BelowGoes(store: map<string, seq<Byte>>, src: string, dst: string)
    ensures Injective(Going(Below(store, src), src, dst)) && Going(Below(store, src), src, dst).Keys == Below(store, src)
  {
    var go := Going(Below(store, src), src, dst);
    forall p, q | p in go && q in go && go[p] == go[q] ensures p == q {
      TargetUnder(p, src, dst);
      TargetUnder(q, src, dst);
    }
  }

  /** Where a path under the new directory has its bytes from. */
  lemma BroughtAlong(store: map<string, seq<Byte>>, src: string, dst: string, x: string)
    requires Siblings(src, dst) && Empty(store, dst) && src !in store && dst !in store
    requires !Under(src, x)
    ensures var store' := MoveOwn(store, src, dst, true);
      if Under(dst, x) then
        && (x in store' <==> Target(x, dst, src) in store)
        && (x in store' ==> store'[x] == store[Target(x, dst, src)])
      else (x in store' <==> x in store) && (x in store' ==> store'[x] == store[x])
  {
    var go := Going(Below(store, src), src, dst);
    BelowGoes(store, src, dst);
    if Under(dst, x) {
      var p := Target(x, dst, src);
      TargetUnder(x, dst, src);
      if p in store {
        assert go[p] == x;
        Arrives(store, go, p);
      } else {
        forall q | q in go ensures go[q] != x { TargetUnder(q, src, dst); }
        Stays(store, go, x);
      }
    } else {
      forall q | q in go ensures go[q] != x { TargetUnder(q, src, dst); }
      Stays(store, go, x);
    }
  }

  /** The selected rows and bytes moved, and then the directory's own object. */
  ghost function RenamedState(d: Dialect, st: State, sel: set<string>, lost: set<string>, ownOk: bool,
                              src: string, dst: string, now: int): State
    requires Accepted(d, st.rows, sel, src, dst)
  {
    var st' := MovedState(d, st, sel, lost, src, dst, now);
    st'.(store := MoveOwn(st'.store, src, dst, ownOk))
  }

  /** A new name does not lie below the old one. */
  lemma SiblingNotBelow(d: Dialect, src: string, dst: string)
    requires Siblings(src, dst)
    ensures !StartsWith(d, src + "/", dst) && !StartsWith(d, src + "/", src) && src != dst && !Under(dst, src)
  {
    var k :| 0 <= k <= |src| && k <= |dst| && src[..k] == dst[..k] && Plain(src[k..]) && Plain(dst[k..])
      && src[k..] != dst[k..];
    if |src| < |dst| {
      assert dst[|src|] == dst[k..][|src| - k] && dst[|src|] != '/';
      assert (src + "/")[|src|] == '/' && !Same(d, '/', dst[|src|]);
    }
    SiblingsDisjoint(src, dst, src);
  }

  /** The per-file renames leave the directory's own path and the new one alone. */
  lemma OwnUntouched(d: Dialect, st: State, lost: set<string>, src: string, dst: string, now: int, x: string)
    requires Accepted(d, st.rows, Selected(d, st.rows, src), src, dst) && (x == src || x == dst)
    ensures var store := MovedState(d, st, Selected(d, st.rows, src), lost, src, dst, now).store;
      (x in store <==> x in st.store) && (x in store ==> store[x] == st.store[x])
  {
    var sel := Selected(d, st.rows, src);
    var go, ok := Going(PathsOf(st.rows, sel), src, dst), Carried(st, sel, lost, src, dst);
    GoingApart(d, st.rows, sel, src, dst);
    OnlyInjective(go, st.store.Keys - lost);
    SelectedStarts(d, st.rows, src);
    SiblingNotBelow(d, src, dst);
    forall p | p in go ensures p != x && go[p] != x {
      var id :| id in sel && id in st.rows && st.rows[id].path == p;
      TargetStarts(d, p, src, dst);
    }
    Stays(st.store, ok, x);
  }

  /** A file that was moved by itself has arrived under the new directory. */
  lemma CarriedArrives(d: Dialect, st: State, lost: set<string>, src: string, dst: string, now: int, p: string)
    requires Accepted(d, st.rows, Selected(d, st.rows, src), src, dst)
    requires p in Carried(st, Selected(d, st.rows, src), lost, src, dst)
    ensures !Empty(MovedState(d, st, Selected(d, st.rows, src), lost, src, dst, now).store, dst)
  {
    var sel := Selected(d, st.rows, src);
    var go, ok := Going(PathsOf(st.rows, sel), src, dst), Carried(st, sel, lost, src, dst);
    GoingApart(d, st.rows, sel, src, dst);
    OnlyInjective(go, st.store.Keys - lost);
    SelectedStarts(d, st.rows, src);
    var id :| id in sel && id in st.rows && st.rows[id].path == p;
    TargetStarts(d, p, src, dst);
    Arrives(st.store, ok, p);
  }

  /** When the whole directory can be moved, no file was moved by itself. */
  lemma NothingCarried(d: Dialect, st: State, lost: set<string>, src: string, dst: string, now: int)
    requires Accepted(d, st.rows, Selected(d, st.rows, src), src, dst)
    requires Empty(MovedState(d, st, Selected(d, st.rows, src), lost, src, dst, now).store, dst)
    ensures MovedState(d, st, Selected(d, st.rows, src), lost, src, dst, now).store == st.store
  {
    var ok := Carried(st, Selected(d, st.rows, src), lost, src, dst);
    forall p ensures p !in ok {
      if p in ok { CarriedArrives(d, st, lost, src, dst, now, p); }
    }
    ShiftNothing(st.store, ok);
  }

  /** The row as it would be if its directory were spelled like the renamed one. */
  function Respelled(row: Row<Info>, src: string): Row<Info>
    requires |src| <= |row.path|
  {
    row.(path := src + row.path[|src|..])
  }

  /** What a directory rename that reports success has left unsound: a live file at the
      directory's own path, or at the new one, whose bytes the last rename took or
      replaced; a row whose bytes were left behind; or, when the whole directory moved, a
      row that was selected for its case and has no bytes under that spelling. */
  ghost predicate Mislays<S>(h: Hasher<S>, d: Dialect, st: State, lost: set<string>, ownOk: bool,
                             src: string, dst: string, now: int)
    requires Accepted(d, st.rows, Selected(d, st.rows, src), src, dst)
  {
    var sel := Selected(d, st.rows, src);
    var own := OwnMoves(MovedState(d, st, sel, lost, src, dst, now).store, dst, ownOk);
    if own && src !in st.store && dst !in st.store then
      exists id :: id in sel && !Under(src, st.rows[id].path) && !Sound(h, Respelled(st.rows[id], src), st.store)
    else
      || (exists id :: id in LeftBehind(st, sel, lost) && !Sound(h, Moved(st.rows[id], src, dst, now), st.store))
      || (own && src in st.store &&
          (ExistsLive(st.rows, src) || !SuitsRow(h, st.rows, dst, Some(st.store[src]))))
  }

  /** The rows of a rename are sound afterwards if and only if it mislays nothing. */
  lemma SoundIffNoneMislaid<S>(h: Hasher<S>, d: Dialect, st: State, lost: set<string>, ownOk: bool,
                               src: string, dst: string, now: int)
    requires Inv(h, st) && Accepted(d, st.rows, Selected(d, st.rows, src), src, dst)
    ensures Inv(h, RenamedState(d, st, Selected(d, st.rows, src), lost, ownOk, src, dst, now)) <==>
      !Mislays(h, d, st, lost, ownOk, src, dst, now)
  {
    var sel := Selected(d, st.rows, src);
    var st1 := MovedState(d, st, sel, lost, src, dst, now);
    OwnUntouched(d, st, lost, src, dst, now, src);
    OwnUntouched(d, st, lost, src, dst, now, dst);
    if !OwnMoves(st1.store, dst, ownOk) || (src !in st.store && dst in st.store) {
      SoundIffNoneLost(h, d, st, sel, lost, src, dst, now);
    } else if src in st.store {
      SoundWithFile(h, d, st, lost, src, dst, now);
    } else {
      SoundWithTree(h, d, st, lost, src, dst, now);
    }
  }

  /** A file at the directory's own path: what becomes of a row that moves. */
  lemma FileRowMoves<S>(h: Hasher<S>, d: Dialect, st: State, lost: set<string>, src: string, dst: string, now: int,
                        id: string)
    requires Inv(h, st) && Accepted(d, st.rows, Selected(d, st.rows, src), src, dst)
    requires src in MovedState(d, st, Selected(d, st.rows, src), lost, src, dst, now).store
    requires id in Selected(d, st.rows, src)
    ensures var sel := Selected(d, st.rows, src);
      var st1 := MovedState(d, st, sel, lost, src, dst, now);
      Sound(h, st1.rows[id], Relocate(st1.store, src, dst)) <==>
        id !in LeftBehind(st, sel, lost) || Sound(h, Moved(st.rows[id], src, dst, now), st.store)
  {
    var sel := Selected(d, st.rows, src);
    var st1 := MovedState(d, st, sel, lost, src, dst, now);
    RowAfterMove(h, d, st, sel, lost, src, dst, now, id);
    SelectedStarts(d, st.rows, src);
    TargetStarts(d, st.rows[id].path, src, dst);
    UnderNotAt(src, dst, Target(st.rows[id].path, src, dst));
    RelocatedElsewhere(h, st1.rows[id], st1.store, src, dst);
  }

  lemma RelocatedElsewhere<S>(h: Hasher<S>, row: Row<Info>, store: map<string, seq<Byte>>, src: string, dst: string)
    requires src in store && row.path != src && row.path != dst
    ensures Sound(h, row, Relocate(store, src, dst)) <==> Sound(h, row, store)
  {
  }

  lemma UnderNotAt(src: string, dst: string, x: string)
    requires Under(dst, x) && Siblings(src, dst)
    ensures x != dst && x != src
  {
    if AtOrUnder(src, x) { SiblingsDisjoint(src, dst, x); }
  }

  /** And of one that stays. */
  lemma FileRowStays<S>(h: Hasher<S>, d: Dialect, st: State, lost: set<string>, src: string, dst: string, now: int,
                        id: string)
    requires Inv(h, st) && Accepted(d, st.rows, Selected(d, st.rows, src), src, dst) && src in st.store
    requires src in MovedState(d, st, Selected(d, st.rows, src), lost, src, dst, now).store
    requires id in st.rows && !st.rows[id].deleted && id !in Selected(d, st.rows, src)
    ensures var st1 := MovedState(d, st, Selected(d, st.rows, src), lost, src, dst, now);
      Sound(h, st1.rows[id], Relocate(st1.store, src, dst)) <==>
        if st.rows[id].path == src then false
        else if st.rows[id].path == dst then Describes(h, st.rows[id].info, st.store[src])
        else true
  {
    assert Sound(h, st.rows[id], st.store);
    BytesAfter(d, st, Selected(d, st.rows, src), lost, src, dst, now, id);
    OwnUntouched(d, st, lost, src, dst, now, src);
    SiblingNotBelow(d, src, dst);
  }

  lemma SoundWithFile<S>(h: Hasher<S>, d: Dialect, st: State, lost: set<string>, src: string, dst: string, now: int)
    requires Inv(h, st) && Accepted(d, st.rows, Selected(d, st.rows, src), src, dst) && src in st.store
    requires src in MovedState(d, st, Selected(d, st.rows, src), lost, src, dst, now).store
    ensures var sel := Selected(d, st.rows, src);
      var st1 := MovedState(d, st, sel, lost, src, dst, now);
      Inv(h, st1.(store := Relocate(st1.store, src, dst))) <==>
        && (forall id :: id in LeftBehind(st, sel, lost) ==> Sound(h, Moved(st.rows[id], src, dst, now), st.store))
        && !ExistsLive(st.rows, src) && SuitsRow(h, st.rows, dst, Some(st.store[src]))
  {
    var sel := Selected(d, st.rows, src);
    var st1 := MovedState(d, st, sel, lost, src, dst, now);
    var st2 := st1.(store := Relocate(st1.store, src, dst));
    FitsIsUnique(st.rows, sel, src, dst, now);
    SiblingNotBelow(d, src, dst);
    SelectedStarts(d, st.rows, src);
    forall id | id in st.rows && !st.rows[id].deleted
      ensures Sound(h, st2.rows[id], st2.store) <==>
        if id in sel then id !in LeftBehind(st, sel, lost) || Sound(h, Moved(st.rows[id], src, dst, now), st.store)
        else if st.rows[id].path == src then false
        else if st.rows[id].path == dst then Describes(h, st.rows[id].info, st.store[src])
        else true
    {
      if id in sel {
        FileRowMoves(h, d, st, lost, src, dst, now, id);
      } else {
        FileRowStays(h, d, st, lost, src, dst, now, id);
      }
    }
    if Inv(h, st2) {
      forall id | id in st.rows && !st.rows[id].deleted ensures st.rows[id].path != src {
        assert Sound(h, st2.rows[id], st2.store);
      }
    }
  }

  /** The whole directory moved: what becomes of each live row. */
  lemma TreeRow<S>(h: Hasher<S>, d: Dialect, st: State, src: string, dst: string, now: int, id: string)
    requires Inv(h, st) && Accepted(d, st.rows, Selected(d, st.rows, src), src, dst)
    requires Empty(st.store, dst) && src !in st.store && dst !in st.store && id in st.rows && !st.rows[id].deleted
    ensures var sel := Selected(d, st.rows, src);
      Sound(h, MoveRows(st.rows, sel, src, dst, now)[id], MoveOwn(st.store, src, dst, true)) <==>
        id !in sel || Sound(h, Respelled(st.rows[id], src), st.store)
  {
    var path := st.rows[id].path;
    assert Sound(h, st.rows[id], st.store);
    SelectedStarts(d, st.rows, src);
    if id in Selected(d, st.rows, src) {
      var x := Target(path, src, dst);
      TargetStarts(d, path, src, dst);
      SiblingsDisjoint(src, dst, src);
      NotUnderBoth(src, dst, x);
      BroughtAlong(st.store, src, dst, x);
    } else {
      if Under(src, path) { LiteralPrefix(d, src, path); }
      BroughtAlong(st.store, src, dst, path);
    }
  }

  lemma NotUnderBoth(src: string, dst: string, x: string)
    requires Siblings(src, dst) && Under(dst, x)
    ensures !Under(src, x)
  {
    if AtOrUnder(src, x) { SiblingsDisjoint(src, dst, x); }
  }

  lemma SoundWithTree<S>(h: Hasher<S>, d: Dialect, st: State, lost: set<string>, src: string, dst: string, now: int)
    requires Inv(h, st) && Accepted(d, st.rows, Selected(d, st.rows, src), src, dst)
    requires Empty(MovedState(d, st, Selected(d, st.rows, src), lost, src, dst, now).store, dst)
    requires src !in st.store && dst !in st.store
    ensures var sel := Selected(d, st.rows, src);
      Inv(h, RenamedState(d, st, sel, lost, true, src, dst, now)) <==>
        forall id :: id in sel && !Under(src, st.rows[id].path) ==> Sound(h, Respelled(st.rows[id], src), st.store)
  {
    var sel := Selected(d, st.rows, src);
    var st2 := RenamedState(d, st, sel, lost, true, src, dst, now);
    NothingCarried(d, st, lost, src, dst, now);
    FitsIsUnique(st.rows, sel, src, dst, now);
    forall id | id in st.rows && !st.rows[id].deleted
      ensures Sound(h, st2.rows[id], st2.store) <==> id !in sel || Sound(h, Respelled(st.rows[id], src), st.store)
    {
      TreeRow(h, d, st, src, dst, now, id);
    }
    forall id | id in sel && Under(src, st.rows[id].path) ensures Sound(h, Respelled(st.rows[id], src), st.store) {
      ByTheLetter(d, src, st.rows[id].path);
      assert Sound(h, st.rows[id], st.store);
    }
  }

  // ------------------------------------------------- what clients see

  /** The last rename moves nothing that shows: no live file is at either path, or no file
      is in the directory. */
  ghost predicate OwnUnseen(d: Dialect, st: State, lost: set<string>, ownOk: bool, src: string, dst: string, now: int)
    requires Accepted(d, st.rows, Selected(d, st.rows, src), src, dst)
  {
    var sel := Selected(d, st.rows, src);
    var store := MovedState(d, st, sel, lost, src, dst, now).store;
    OwnMoves(store, dst, ownOk) ==>
      if src in store then !ExistsLive(st.rows, src) && !ExistsLive(st.rows, dst)
      else dst in store || sel == {}
  }

  lemma NotLiveAfter(d: Dialect, rows: Table<Info>, src: string, dst: string, now: int, x: string)
    requires Accepted(d, rows, Selected(d, rows, src), src, dst) && (x == src || x == dst) && !ExistsLive(rows, x)
    ensures !ExistsLive(MoveRows(rows, Selected(d, rows, src), src, dst, now), x)
  {
    var sel := Selected(d, rows, src);
    var rows' := MoveRows(rows, sel, src, dst, now);
    SelectedStarts(d, rows, src);
    forall id | id in rows' && !rows'[id].deleted ensures rows'[id].path != x {
      if id in sel {
        TargetStarts(d, rows[id].path, src, dst);
        UnderNotAt(src, dst, rows'[id].path);
      } else {
        assert rows[id].path == x ==> LiveAt(rows, id, x);
      }
    }
  }

  lemma RelocatedUnseen(st: State, src: string, dst: string)
    requires src in st.store && !ExistsLive(st.rows, src) && !ExistsLive(st.rows, dst)
    ensures Files(st.(store := Relocate(st.store, src, dst))) == Files(st)
  {
  }

  ghost predicate SameAt(a: map<string, seq<Byte>>, b: map<string, seq<Byte>>, x: string) {
    (x in a <==> x in b) && (x in a ==> a[x] == b[x])
  }

  lemma SameShown(st: State, store: map<string, seq<Byte>>)
    requires forall x :: ExistsLive(st.rows, x) ==> SameAt(store, st.store, x)
    ensures Files(st.(store := store)) == Files(st)
  {
    forall x | ExistsLive(st.rows, x) ensures (x in store <==> x in st.store) && (x in store ==> store[x] == st.store[x]) {
      assert SameAt(store, st.store, x);
    }
  }

  /** A live file outside the directory keeps its bytes when the whole directory moves. */
  lemma TreeUnseen<S>(h: Hasher<S>, d: Dialect, st: State, src: string, dst: string, x: string)
    requires Inv(h, st) && Siblings(src, dst) && Selected(d, st.rows, src) == {} && ExistsLive(st.rows, x)
    requires Empty(st.store, dst) && src !in st.store && dst !in st.store
    ensures SameAt(MoveOwn(st.store, src, dst, true), st.store, x)
  {
    var id :| id in st.rows && LiveAt(st.rows, id, x);
    LiveSound(h, st, x);
    SelectedStarts(d, st.rows, src);
    if Under(src, x) { LiteralPrefix(d, src, x); }
    assert id !in Selected(d, st.rows, src);
    BroughtAlong(st.store, src, dst, x);
  }

  /** The storage after the per-file renames. */
  ghost function Stage(d: Dialect, st: State, lost: set<string>, src: string, dst: string, now: int): map<string, seq<Byte>>
    requires Accepted(d, st.rows, Selected(d, st.rows, src), src, dst)
  {
    MovedState(d, st, Selected(d, st.rows, src), lost, src, dst, now).store
  }

  /** Clients see the same before the last rename and after it. */
  ghost predicate Unnoticed(d: Dialect, st: State, lost: set<string>, ownOk: bool, src: string, dst: string, now: int)
    requires Accepted(d, st.rows, Selected(d, st.rows, src), src, dst)
  {
    var sel := Selected(d, st.rows, src);
    Files(RenamedState(d, st, sel, lost, ownOk, src, dst, now)) == Files(MovedState(d, st, sel, lost, src, dst, now))
  }

  lemma FileHidden(d: Dialect, st: State, lost: set<string>, ownOk: bool, src: string, dst: string, now: int)
    requires Accepted(d, st.rows, Selected(d, st.rows, src), src, dst)
    requires OwnMoves(Stage(d, st, lost, src, dst, now), dst, ownOk) && src in Stage(d, st, lost, src, dst, now)
    requires !ExistsLive(st.rows, src) && !ExistsLive(st.rows, dst)
    ensures Unnoticed(d, st, lost, ownOk, src, dst, now)
  {
    NotLiveAfter(d, st.rows, src, dst, now, src);
    NotLiveAfter(d, st.rows, src, dst, now, dst);
    RelocatedUnseen(MovedState(d, st, Selected(d, st.rows, src), lost, src, dst, now), src, dst);
  }

  lemma MoveNothing(rows: Table<Info>, src: string, dst: string, now: int)
    ensures MoveRows(rows, {}, src, dst, now) == rows
  {
  }

  lemma TreeHidden<S>(h: Hasher<S>, d: Dialect, st: State, lost: set<string>, ownOk: bool, src: string, dst: string, now: int)
    requires Inv(h, st) && Accepted(d, st.rows, Selected(d, st.rows, src), src, dst) && Selected(d, st.rows, src) == {}
    requires OwnMoves(Stage(d, st, lost, src, dst, now), dst, ownOk)
    requires src !in Stage(d, st, lost, src, dst, now) && dst !in Stage(d, st, lost, src, dst, now)
    ensures Unnoticed(d, st, lost, ownOk, src, dst, now)
  {
    NothingCarried(d, st, lost, src, dst, now);
    MoveNothing(st.rows, src, dst, now);
    var store := MoveOwn(st.store, src, dst, true);
    forall x | ExistsLive(st.rows, x) ensures SameAt(store, st.store, x) {
      TreeUnseen(h, d, st, src, dst, x);
    }
    SameShown(st, store);
  }

  lemma OwnStays(d: Dialect, st: State, lost: set<string>, ownOk: bool, src: string, dst: string, now: int)
    requires Accepted(d, st.rows, Selected(d, st.rows, src), src, dst)
    requires !OwnMoves(Stage(d, st, lost, src, dst, now), dst, ownOk) ||
      (src !in Stage(d, st, lost, src, dst, now) && dst in Stage(d, st, lost, src, dst, now))
    ensures Unnoticed(d, st, lost, ownOk, src, dst, now)
  {
    var sel := Selected(d, st.rows, src);
    assert RenamedState(d, st, sel, lost, ownOk, src, dst, now) == MovedState(d, st, sel, lost, src, dst, now);
  }

  lemma OwnHidden<S>(h: Hasher<S>, d: Dialect, st: State, lost: set<string>, ownOk: bool, src: string, dst: string, now: int)
    requires Inv(h, st) && Accepted(d, st.rows, Selected(d, st.rows, src), src, dst)
    requires OwnUnseen(d, st, lost, ownOk, src, dst, now)
    ensures Unnoticed(d, st, lost, ownOk, src, dst, now)
  {
    if OwnMoves(Stage(d, st, lost, src, dst, now), dst, ownOk) && src in Stage(d, st, lost, src, dst, now) {
      FileHidden(d, st, lost, ownOk, src, dst, now);
    } else if OwnMoves(Stage(d, st, lost, src, dst, now), dst, ownOk) && dst !in Stage(d, st, lost, src, dst, now) {
      TreeHidden(h, d, st, lost, ownOk, src, dst, now);
    } else {
      OwnStays(d, st, lost, ownOk, src, dst, now);
    }
  }
}
