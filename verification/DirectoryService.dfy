/** The directory manager with its storage: what it does to the file rows and to the
    bytes together is a step of the namespace. */
module DirectoryService {
  import opened Dialects
  import opened Directories
  import opened DirectoryObject
  import opened DirectoryRename
  import opened FileStore
  import opened Like
  import opened Namespace
  import opened Paths
  import opened StreamDigest
  import opened Tables
  import opened TreeStore

  /** The rows that were live before and are not any more. */
  function NewlyDeleted(before: Table<Info>, after: Table<Info>): set<string> {
    set id | id in before && !before[id].deleted && id in after && after[id].deleted
  }

  lemma FlaggedAreNew(rows: Table<Info>, ids: set<string>, now: int)
    requires forall id :: id in ids ==> id in rows && !rows[id].deleted
    ensures NewlyDeleted(rows, Flag(rows, ids, now)) == ids
  {
  }

  /** The rows of a directory at the paths of some of its rows are those rows. */
  lemma FlaggedAre(d: Dialect, rows: Table<Info>, dir: string, ids: set<string>)
    requires Unique(rows) && ids <= Selected(d, rows, dir)
    ensures Flagged(d, rows, dir, PathsOf(rows, ids)) == ids
    ensures PathsOf(rows, ids) <= PathsOf(rows, Selected(d, rows, dir))
  {
  }

  function Deletion(r: DeleteResult): Result {
    match r
    case Deleted => Ok
    case DeleteFailed => MetadataError
    case NoSuchDirectory => Result.NotFound
    case NotEmpty => Result.NotFound
  }

  lemma StepOfTree<S>(h: Hasher<S>, d: Dialect, st: State, lost: set<string>, ownOk: bool, src: string, dst: string,
                      now: int, allowed: bool)
    ensures var (st', r) := RenameTree(d, st, src, dst, now, allowed, lost, ownOk);
      Step(h, d, World(st, {}), MoveTree(src, dst, now, allowed, lost, ownOk)) == (World(st', {}), r)
  {
  }

  /** A rename that went through, with the bytes moved after it, is the namespace's step. */
  lemma RenameIsStep<S>(h: Hasher<S>, d: Dialect, st: State, lost: set<string>, ownOk: bool, src: string, dst: string,
                        now: int)
    requires Accepted(d, st.rows, Selected(d, st.rows, src), src, dst)
    ensures var sel := Selected(d, st.rows, src);
      Step(h, d, World(st, {}), MoveTree(src, dst, now, true, lost, ownOk)) ==
        (World(RenamedState(d, st, sel, lost, ownOk, src, dst, now), {}), Ok)
  {
    StepOfTree(h, d, st, lost, ownOk, src, dst, now, true);
    assert GoesThrough(d, st.rows, src, dst, true);
  }

  lemma RefusalIsStep<S>(h: Hasher<S>, d: Dialect, st: State, lost: set<string>, ownOk: bool, src: string, dst: string,
                         now: int)
    ensures Step(h, d, World(st, {}), MoveTree(src, dst, now, false, lost, ownOk)) == (World(st, {}), MetadataError)
    ensures Legal(d, World(st, {}), MoveTree(src, dst, now, false, lost, ownOk))
  {
  }

  /** What the manager's contract gives: the tables accepted the move. */
  lemma SuccessAccepted(d: Dialect, files: Table<Info>, dirs: Table<()>, src: string, dst: string)
    requires Unique(files) && (src == dst || Siblings(src, dst)) && CanRename(d, files, dirs, src, dst)
    ensures Siblings(src, dst) && Accepted(d, files, Selected(d, files, src), src, dst)
  {
    assert src != dst;
    SelectedAccepted(d, files, src, dst);
  }

  /** The paths below the directory of the directory rows that were deleted with it. */
  function DeletedBelow(d: Dialect, before: Table<()>, after: Table<()>, dir: string): set<string> {
    set id | id in Selected(d, before, dir) && id in after && after[id].deleted :: before[id].path
  }

  /** What goes with those physical directories. */
  function Wiped(store: map<string, seq<Byte>>, subs: set<string>, kept: set<string>): set<string> {
    set p | p in store && p !in kept && exists sub :: sub in subs && AtOrUnder(sub, p)
  }

  lemma WipedBelow(d: Dialect, store: map<string, seq<Byte>>, before: Table<()>, after: Table<()>, dir: string,
                   kept: set<string>)
    ensures forall p :: p in Wiped(store, DeletedBelow(d, before, after, dir), kept) ==> StartsWith(d, dir + "/", p)
  {
    SelectedStarts(d, before, dir);
    var subs := DeletedBelow(d, before, after, dir);
    forall p | p in Wiped(store, subs, kept) ensures StartsWith(d, dir + "/", p) {
      var sub :| sub in subs && AtOrUnder(sub, p);
      var id :| id in Selected(d, before, dir) && id in after && after[id].deleted && before[id].path == sub;
      SubdirectoryBelow(d, dir, sub, p);
    }
  }

  lemma NoneBelow(d: Dialect, dirs: Table<()>, dir: string)
    ensures DeletedBelow(d, dirs, dirs, dir) == {}
  {
  }

  /** As long as not all files are deleted, no directory is. */
  lemma FilesFirst(d: Dialect, dirs: Table<()>, dir: string, df: set<string>, now: int)
    requires Committed(Selected(d, dirs, dir), df, 0)
    ensures DeletedBelow(d, dirs, Flag(dirs, df, now), dir) == {}
  {
    NothingCommitted(Selected(d, dirs, dir), df, 0);
    FlagNothing(dirs, now);
  }

  /** The file rows that a delete took, as the manager's contract gives them. */
  lemma FilesDeleted(d: Dialect, files: Table<Info>, dirs: Table<()>, files': Table<Info>, dirs': Table<()>, dir: string,
                     now: int, filesFault: nat, dirsFault: nat, ok: bool) returns (ff: set<string>)
    requires var fs, ds := Selected(d, files, dir), Selected(d, dirs, dir);
      if ok then Batches(|fs|) <= filesFault && files' == Flag(files, fs, now)
      else PartlyDeleted(files, dirs, files', dirs', fs, ds, now, filesFault, dirsFault)
    ensures Committed(Selected(d, files, dir), ff, filesFault) && files' == Flag(files, ff, now)
    ensures ok || DeletedBelow(d, dirs, dirs', dir) != {} ==> ff == Selected(d, files, dir)
  {
    ff := Selected(d, files, dir);
    if !ok {
      var df: set<string>;
      ff, df :|
        && Committed(Selected(d, files, dir), ff, filesFault) && files' == Flag(files, ff, now)
        && Committed(Selected(d, dirs, dir), df, if ff == Selected(d, files, dir) then dirsFault else 0)
        && dirs' == Flag(dirs, df, now);
      if ff != Selected(d, files, dir) { FilesFirst(d, dirs, dir, df, now); }
    }
  }

  /** What was deleted of a directory, in rows and bytes, is the namespace's step. */
  lemma RemovalIsStep<S>(h: Hasher<S>, d: Dialect, st: State, dir: string, ff: set<string>, filesFault: nat, ok: bool,
                         now: int, stuck: set<string>, wiped: set<string>)
    requires Unique(st.rows) && Committed(Selected(d, st.rows, dir), ff, filesFault)
    requires ok || wiped != {} ==> ff == Selected(d, st.rows, dir)
    requires forall p :: p in wiped ==> StartsWith(d, dir + "/", p)
    ensures var op := RemoveTree(dir, true, PathsOf(st.rows, ff), filesFault, ok, now, stuck, wiped);
      && Legal(d, World(st, {}), op)
      && Step(h, d, World(st, {}), op) ==
           (World(Dropped(st, ff, now, stuck, wiped), {}), if ok then Ok else MetadataError)
  {
    FlaggedAre(d, st.rows, dir, ff);
  }

  lemma NoRemovalIsStep<S>(h: Hasher<S>, d: Dialect, st: State, dir: string, gone: set<string>, filesFault: nat, now: int,
                           stuck: set<string>, wiped: set<string>)
    ensures var op := RemoveTree(dir, false, gone, filesFault, false, now, stuck, wiped);
      Legal(d, World(st, {}), op) && Step(h, d, World(st, {}), op) == (World(st, {}), Result.NotFound)
  {
  }

  class Service<S> {
    const h: Hasher<S>
    const m: Directories.Manager<Info>
    var store: map<string, seq<Byte>>

    constructor (h: Hasher<S>, m: Directories.Manager<Info>)
      ensures this.h == h && this.m == m && store == map[]
    {
      this.h, this.m := h, m;
      store := map[];
    }

    ghost function Now(): World
      reads this, m
    {
      World(State(m.files, store), {})
    }

    /** Deletes a directory. The bytes of the files in committed batches are removed, and
        then the physical subdirectories of deleted directory rows, with all they hold;
        `stuck` and `kept` are the paths that storage fails to remove in the one way and in
        the other. */
    method DeleteDirectory(path: string, recursive: bool, now: int, filesFault: nat, dirsFault: nat, removeOk: bool,
                           stuck: set<string>, kept: set<string>) returns (r: DeleteResult, ghost step: Op)
      requires m.Valid()
      modifies this, m
      ensures m.Valid()
      ensures step.RemoveTree? && step.dir == Normal(path) && step.filesFault == filesFault
      ensures Legal(m.d, old(Now()), step) && Step(h, m.d, old(Now()), step) == (Now(), Deletion(r))
      ensures forall p :: p in old(store) ==>
        (p !in store <==>
          || (p !in stuck && exists id ::
                && id in old(m.files) && id in m.files && !old(m.files)[id].deleted && m.files[id].deleted
                && old(m.files)[id].path == p)
          || (p !in kept && exists id ::
                && id in Selected(m.d, old(m.dirs), Normal(path)) && id in m.dirs && m.dirs[id].deleted
                && AtOrUnder(old(m.dirs)[id].path, p)))
    {
      ghost var st := State(m.files, store);
      var before, dirsBefore := m.files, m.dirs;
      var dir := NormalizePath(path);
      r := m.DeleteDirectory(path, recursive, now, filesFault, dirsFault, removeOk);
      var ids := NewlyDeleted(before, m.files);
      var wiped := Wiped(store, DeletedBelow(m.d, dirsBefore, m.dirs, dir), kept);
      WipedBelow(m.d, store, dirsBefore, m.dirs, dir, kept);
      step := RemoveTree(dir, r.Deleted? || r.DeleteFailed?, PathsOf(before, ids), filesFault, r.Deleted?, now, stuck,
                         wiped);
      store := store - (PathsOf(before, ids) - stuck) - wiped;
      if r.Deleted? || r.DeleteFailed? {
        ghost var ff := FilesDeleted(m.d, before, dirsBefore, m.files, m.dirs, dir, now, filesFault, dirsFault, r.Deleted?);
        FlaggedAreNew(before, ff, now);
        RemovalIsStep(h, m.d, st, dir, ff, filesFault, r.Deleted?, now, stuck, wiped);
      } else {
        NoneBelow(m.d, dirsBefore, dir);
        NoRemovalIsStep(h, m.d, st, dir, PathsOf(before, ids), filesFault, now, stuck, wiped);
        assert ids == {} && wiped == {} && PathsOf(before, ids) == {};
        assert store == st.store;
      }
    }

    /** Renames a directory; then moves the bytes of its files one by one, and the
        directory's own object last. `lost` are the paths whose storage rename fails,
        `ownOk` is whether the last one may go through. */
    method RenameDirectory(path: string, newName: string, now: int, commitOk: bool, lost: set<string>, ownOk: bool)
      returns (r: RenameResult, ghost step: Op)
      requires m.Valid() && IsValidFilePath(path) && IsValidFileName(newName)
      modifies this, m
      ensures m.Valid()
      ensures step == MoveTree(Normal(path), Renamed(Normal(path), newName), now, r.Success?, lost, ownOk)
      ensures Legal(m.d, old(Now()), step)
      ensures Step(h, m.d, old(Now()), step) == (Now(), if r.Success? then Ok else MetadataError)
    {
      var src := NormalizePath(path);
      var dst := NormalizePath(Dir(src) + "/" + newName);
      RenameTarget(path, newName);
      var st := State(m.files, store);
      ghost var dirs := m.dirs;
      r := m.RenameDirectory(path, newName, now, commitOk);
      step := MoveTree(src, dst, now, r.Success?, lost, ownOk);
      if r.Success? {
        SuccessAccepted(m.d, st.rows, dirs, src, dst);
        var moved := RenameObjects(m.d, st, Selected(m.d, st.rows, src), lost, src, dst);
        store := MoveOwn(moved, src, dst, ownOk);
        RenameIsStep(h, m.d, st, lost, ownOk, src, dst, now);
      } else {
        RefusalIsStep(h, m.d, st, lost, ownOk, src, dst, now);
      }
    }
  }
}
