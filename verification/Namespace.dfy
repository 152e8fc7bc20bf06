/** The whole namespace over time: every run of file and directory operations and of
    cleanup passes that overlap with them, with faults of storage and database at each of
    their steps, against a plain map from path to content. */
module Namespace {
  import opened Dialects
  import opened Directories
  import opened DirectoryObject
  import opened DirectoryRename
  import opened FileStore
  import opened Like
  import opened Paths
  import opened Relocation
  import opened StreamDigest
  import opened Tables
  import opened TreeStore

  /** A row that a cleanup pass selected and has yet to remove. */
  datatype Doomed = Doomed(id: string, path: string)

  datatype World = World(st: State, pending: set<Doomed>)

  /** `gone` are the paths of the files whose batches were committed, `found` is whether
      the directory is there to be deleted, `restOk` whether all that follows the files
      succeeds, `wiped` are the paths that went with physical subdirectories. `allowed`
      covers all that a directory rename needs besides the file rows, `lost` are the paths
      whose storage rename fails, `ownOk` is whether that of the directory itself may go
      through. */
  datatype Op =
    | Upload(path: string, data: seq<Byte>, id: string, now: int, f: Faults)
    | Completion(path: string, data: seq<Byte>, hash: string, id: string, now: int, f: Faults)
    | Remove(path: string, now: int, removeOk: bool, updateOk: bool)
    | Move(path: string, target: string, now: int, lookupOk: bool, renameOk: bool, updateOk: bool, undoOk: bool)
    | RemoveTree(dir: string, found: bool, gone: set<string>, filesFault: nat, restOk: bool, now: int,
                 stuck: set<string>, wiped: set<string>)
    | MoveTree(dir: string, target: string, now: int, allowed: bool, lost: set<string>, ownOk: bool)
    | Select(cutoff: int)
    | ReapOne(row: Doomed, removeOk: bool, deleteOk: bool)

  /** The rows a cleanup pass selects. */
  function Aging(rows: Table<Info>, cutoff: int): set<Doomed> {
    set id | id in Aged(rows, cutoff, {}) :: Doomed(id, rows[id].path)
  }

  /** The rows of the directory whose batches were committed. */
  function Flagged(d: Dialect, rows: Table<Info>, dir: string, gone: set<string>): set<string> {
    set id | id in Selected(d, rows, dir) && rows[id].path in gone
  }

  /** New ids are new; what was committed of a directory is what its batches allow, and
      subdirectories are removed after all files; a directory is renamed within its parent;
      and a pass removes what it selected. */
  ghost predicate Legal(d: Dialect, w: World, op: Op) {
    match op
    case Upload(_, _, id, _, _) => forall x :: x in w.pending ==> x.id != id
    case Completion(_, _, _, id, _, _) => forall x :: x in w.pending ==> x.id != id
    case RemoveTree(dir, found, gone, filesFault, _, _, _, wiped) =>
      found ==>
        && gone <= PathsOf(w.st.rows, Selected(d, w.st.rows, dir))
        && Committed(Selected(d, w.st.rows, dir), Flagged(d, w.st.rows, dir, gone), filesFault)
        && (wiped != {} ==> Flagged(d, w.st.rows, dir, gone) == Selected(d, w.st.rows, dir))
        && (forall p :: p in wiped ==> StartsWith(d, dir + "/", p))
    case MoveTree(dir, target, _, allowed, _, _) => allowed ==> Siblings(dir, target)
    case ReapOne(row, _, _) => row in w.pending
    case _ => true
  }

  /** The file rows of a directory rename fit. */
  ghost predicate GoesThrough(d: Dialect, rows: Table<Info>, src: string, dst: string, allowed: bool) {
    allowed && Accepted(d, rows, Selected(d, rows, src), src, dst)
  }

  ghost function FileStep<S>(h: Hasher<S>, d: Dialect, st: State, op: Op): (State, Result)
    requires !op.Select? && !op.ReapOne?
  {
    match op
    case Upload(path, data, id, now, f) => Put(st, path, data, DigestOf(h, data), id, now, f)
    case Completion(path, data, hash, id, now, f) => Put(st, path, data, hash, id, now, f)
    case Remove(path, now, removeOk, updateOk) => Delete(st, path, now, removeOk, updateOk)
    case Move(path, target, now, lookupOk, renameOk, updateOk, undoOk) =>
      Rename(st, path, target, now, lookupOk, renameOk, updateOk, undoOk)
    case RemoveTree(dir, found, gone, filesFault, restOk, now, stuck, wiped) =>
      if !found then (st, Result.NotFound)
      else
        (Dropped(st, Flagged(d, st.rows, dir, gone), now, stuck, wiped),
         if Flagged(d, st.rows, dir, gone) == Selected(d, st.rows, dir) && restOk then Ok else MetadataError)
    case MoveTree(dir, target, now, allowed, lost, ownOk) => RenameTree(d, st, dir, target, now, allowed, lost, ownOk)
  }

  /** The file rows and bytes of a directory rename. */
  ghost function RenameTree(d: Dialect, st: State, src: string, dst: string, now: int, allowed: bool, lost: set<string>,
                            ownOk: bool): (State, Result)
  {
    if GoesThrough(d, st.rows, src, dst, allowed) then
      (RenamedState(d, st, Selected(d, st.rows, src), lost, ownOk, src, dst, now), Ok)
    else (st, MetadataError)
  }

  ghost function Step<S>(h: Hasher<S>, d: Dialect, w: World, op: Op): (World, Result) {
    match op
    case Select(cutoff) =>
      (w.(pending := w.pending + Aging(w.st.rows, cutoff)), Ok)
    case ReapOne(row, removeOk, deleteOk) =>
      (World(Reap(w.st, row.id, row.path, removeOk, deleteOk), w.pending - {row}), Ok)
    case _ => var (st, r) := FileStep(h, d, w.st, op); (w.(st := st), r)
  }

  // ------------------------------------------------------ the invariant

  /** Whatever a pass has selected is still deleted, or gone. */
  ghost predicate PendingDead(w: World) {
    forall x :: x in w.pending && x.id in w.st.rows ==> w.st.rows[x.id].deleted
  }

  ghost predicate Good<S>(h: Hasher<S>, w: World) {
    Inv(h, w.st) && PendingDead(w)
  }

  /** Rows that are deleted stay so, except that new ids may come. */
  ghost predicate DeadStayDead(rows: Table<Info>, rows': Table<Info>, added: set<string>) {
    forall id :: id in rows' && id !in added ==> id in rows && (rows[id].deleted ==> rows'[id].deleted)
  }

  lemma StepDead<S>(h: Hasher<S>, d: Dialect, st: State, op: Op)
    requires !op.Select? && !op.ReapOne?
    ensures DeadStayDead(st.rows, FileStep(h, d, st, op).0.rows,
                         if op.Upload? || op.Completion? then {op.id} else {})
  {
  }

  lemma StepPending<S>(h: Hasher<S>, d: Dialect, w: World, op: Op)
    requires PendingDead(w) && Legal(d, w, op)
    ensures PendingDead(Step(h, d, w, op).0)
  {
    if !op.Select? && !op.ReapOne? {
      StepDead(h, d, w.st, op);
    }
  }

  // ---------------------------------------- which steps leave rows unsound

  /** A put has recorded a digest that is not that of the content, which takes a session
      whose file could not be read back to its end; or it has failed and left bytes under
      a live row that does not describe them. */
  ghost predicate TornPut<S>(h: Hasher<S>, st: State, path: string, content: seq<Byte>, hash: string, id: string,
                             now: int, f: Faults)
  {
    if Put(st, path, content, hash, id, now, f).1.Ok? then !Attests(h, hash, content)
    else !SuitsRow(h, st.rows, path, PutLeaves(st, path, content, f))
  }

  /** The faults that nothing makes good. */
  ghost predicate Torn<S>(h: Hasher<S>, d: Dialect, w: World, op: Op) {
    match op
    case Upload(path, data, id, now, f) => TornPut(h, w.st, path, data, DigestOf(h, data), id, now, f)
    case Completion(path, data, hash, id, now, f) => TornPut(h, w.st, path, data, hash, id, now, f)
    case Remove(path, _, removeOk, updateOk) => path in Files(w.st) && removeOk && !updateOk
    case Move(path, target, _, lookupOk, renameOk, updateOk, undoOk) =>
      Stranded(w.st, path, target, lookupOk, renameOk, updateOk, undoOk)
    case MoveTree(dir, target, now, allowed, lost, ownOk) =>
      GoesThrough(d, w.st.rows, dir, target, allowed) && Mislays(h, d, w.st, lost, ownOk, dir, target, now)
    case ReapOne(row, removeOk, _) => removeOk && ExistsLive(w.st.rows, row.path)
    case _ => false
  }

  lemma TreeWipesDead(d: Dialect, w: World, op: Op)
    requires Legal(d, w, op) && op.RemoveTree? && op.found
    ensures WipesDead(w.st.rows, Flagged(d, w.st.rows, op.dir, op.gone), op.wiped)
  {
    SubdirectoriesDead(d, w.st.rows, op.dir, op.wiped);
  }

  /** One step, with whatever faults: the rows are sound after it if and only if it is
      not one of these. */
  lemma StepSound<S>(h: Hasher<S>, d: Dialect, w: World, op: Op)
    requires Good(h, w) && Legal(d, w, op)
    ensures Good(h, Step(h, d, w, op).0) <==> !Torn(h, d, w, op)
  {
    StepPending(h, d, w, op);
    match op
    case Upload(path, data, id, now, f) => PutRefines(h, w.st, path, data, DigestOf(h, data), id, now, f);
    case Completion(path, data, hash, id, now, f) => PutRefines(h, w.st, path, data, hash, id, now, f);
    case Remove(path, now, removeOk, updateOk) => DeleteRefines(h, w.st, path, now, removeOk, updateOk);
    case Move(path, target, now, lookupOk, renameOk, updateOk, undoOk) =>
      RenameRefines(h, w.st, path, target, now, lookupOk, renameOk, updateOk, undoOk);
    case RemoveTree(dir, found, gone, filesFault, restOk, now, stuck, wiped) =>
      if found {
        TreeWipesDead(d, w, op);
        DropHides(h, w.st, Flagged(d, w.st.rows, dir, gone), now, stuck, wiped);
      }
    case MoveTree(dir, target, now, allowed, lost, ownOk) =>
      if GoesThrough(d, w.st.rows, dir, target, allowed) {
        SoundIffNoneMislaid(h, d, w.st, lost, ownOk, dir, target, now);
      }
    case Select(_) =>
    case ReapOne(row, removeOk, deleteOk) => ReapRefines(h, w.st, row.id, row.path, removeOk, deleteOk);
  }

  // ------------------------------------------------------------- runs

  ghost predicate IsStep<S>(h: Hasher<S>, d: Dialect, w: World, op: Op, w': World, r: Result) {
    Legal(d, w, op) && Step(h, d, w, op) == (w', r)
  }

  /** A run: its states, its operations and their results. */
  ghost predicate IsRun<S>(h: Hasher<S>, d: Dialect, ws: seq<World>, ops: seq<Op>, rs: seq<Result>) {
    && |ws| == |ops| + 1 && |rs| == |ops|
    && forall i :: 0 <= i < |ops| ==> IsStep(h, d, ws[i], ops[i], ws[i + 1], rs[i])
  }

  /** Over every run from sound rows, with any of these faults: the rows are sound in every
      state if and only if no step was one of those that nothing makes good. */
  lemma {:induction false} SoundThroughout<S>(h: Hasher<S>, d: Dialect, ws: seq<World>, ops: seq<Op>, rs: seq<Result>)
    requires IsRun(h, d, ws, ops, rs) && Good(h, ws[0])
    ensures (forall i :: 0 <= i <= |ops| ==> Good(h, ws[i])) <==>
      (forall i :: 0 <= i < |ops| ==> !Torn(h, d, ws[i], ops[i]))
  {
    if forall i :: 0 <= i < |ops| ==> !Torn(h, d, ws[i], ops[i]) {
      for n := 0 to |ops|
        invariant forall i :: 0 <= i <= n ==> Good(h, ws[i])
      {
        assert IsStep(h, d, ws[n], ops[n], ws[n + 1], rs[n]);
        StepSound(h, d, ws[n], ops[n]);
      }
    }
    if forall i :: 0 <= i <= |ops| ==> Good(h, ws[i]) {
      forall i | 0 <= i < |ops| ensures !Torn(h, d, ws[i], ops[i]) {
        assert IsStep(h, d, ws[i], ops[i], ws[i + 1], rs[i]);
        StepSound(h, d, ws[i], ops[i]);
        assert Good(h, ws[i + 1]);
      }
    }
  }

  // ------------------------------------------------- what clients see

  /** What a put does to a plain map. When it fails on a file that was there, clients see
      what the failed steps left. */
  function AfterPut(files: map<string, seq<Byte>>, path: string, content: seq<Byte>, f: Faults, ok: bool)
    : map<string, seq<Byte>>
  {
    if ok then files[path := content]
    else if path !in files then files
    else
      match f.write
      case Untouched => files
      case Partial(n) => files[path := Cut(content, n)]
      case Complete => if f.queryOk || !f.undoOk then files[path := content] else files - {path}
  }

  /** What an operation with a given result does to a plain map from path to content. */
  function Effect(d: Dialect, files: map<string, seq<Byte>>, op: Op, r: Result): map<string, seq<Byte>> {
    match op
    case Upload(path, data, _, _, f) => AfterPut(files, path, data, f, r.Ok?)
    case Completion(path, data, _, _, _, f) => AfterPut(files, path, data, f, r.Ok?)
    case Remove(path, _, removeOk, _) => if removeOk then files - {path} else files
    case Move(path, target, _, _, _, _, undoOk) =>
      if r.Ok? && path in files then (files - {path})[target := files[path]]
      else if r.MetadataError? then Halfway(files, path, target, undoOk)
      else files
    case RemoveTree(_, found, gone, _, _, _, _, _) => if found then files - gone else files
    case MoveTree(dir, target, _, _, lost, _) => AfterMoveTree(d, files, dir, target, lost, r.Ok?)
    case Select(_) => files
    case ReapOne(row, removeOk, _) => if removeOk then files - {row.path} else files
  }

  /** No row of a renamed directory whose bytes stay behind can find other bytes at its
      new path, and the rename of the directory itself moves nothing that shows. */
  ghost predicate NothingStray(d: Dialect, w: World, op: Op) {
    op.MoveTree? && GoesThrough(d, w.st.rows, op.dir, op.target, op.allowed) ==>
      && (Empty(w.st.store, op.target) || LeftBehind(w.st, Selected(d, w.st.rows, op.dir), op.lost) == {})
      && OwnUnseen(d, w.st, op.lost, op.ownOk, op.dir, op.target, op.now)
  }

  lemma PutView<S>(h: Hasher<S>, st: State, path: string, content: seq<Byte>, hash: string, id: string, now: int,
                   f: Faults)
    requires Inv(h, st)
    ensures var (st', r) := Put(st, path, content, hash, id, now, f);
      Files(st') == AfterPut(Files(st), path, content, f, r.Ok?)
  {
    PutRefines(h, st, path, content, hash, id, now, f);
    if ExistsLive(st.rows, path) { LiveSound(h, st, path); }
    assert path in Files(st) ==> Files(st)[path := Files(st)[path]] == Files(st);
  }

  lemma FlaggedPaths(d: Dialect, rows: Table<Info>, dir: string, gone: set<string>)
    requires gone <= PathsOf(rows, Selected(d, rows, dir))
    ensures PathsOf(rows, Flagged(d, rows, dir, gone)) == gone
  {
    forall p | p in gone ensures p in PathsOf(rows, Flagged(d, rows, dir, gone)) {
      var id :| id in Selected(d, rows, dir) && id in rows && rows[id].path == p;
      assert id in Flagged(d, rows, dir, gone);
    }
  }

  lemma RemoveTreeView<S>(h: Hasher<S>, d: Dialect, w: World, op: Op)
    requires Inv(h, w.st) && Legal(d, w, op) && op.RemoveTree?
    ensures Files(FileStep(h, d, w.st, op).0) == if op.found then Files(w.st) - op.gone else Files(w.st)
  {
    if op.found {
      TreeWipesDead(d, w, op);
      DropHides(h, w.st, Flagged(d, w.st.rows, op.dir, op.gone), op.now, op.stuck, op.wiped);
      FlaggedPaths(d, w.st.rows, op.dir, op.gone);
    }
  }

  /** What a directory rename does to the plain map. */
  function AfterMoveTree(d: Dialect, files: map<string, seq<Byte>>, src: string, dst: string, lost: set<string>, ok: bool)
    : map<string, seq<Byte>>
  {
    if ok && Injective(Going(Leaving(d, files, src), src, dst)) then Rekeyed(d, files, src, dst, lost) else files
  }

  lemma MoveTreeView<S>(h: Hasher<S>, d: Dialect, w: World, op: Op)
    requires Inv(h, w.st) && NothingStray(d, w, op) && op.MoveTree?
    ensures var (st', r) := RenameTree(d, w.st, op.dir, op.target, op.now, op.allowed, op.lost, op.ownOk);
      Files(st') == AfterMoveTree(d, Files(w.st), op.dir, op.target, op.lost, r.Ok?)
  {
    if GoesThrough(d, w.st.rows, op.dir, op.target, op.allowed) {
      MoveTreeRekeys(h, d, w.st, op.lost, op.dir, op.target, op.now);
      OwnHidden(h, d, w.st, op.lost, op.ownOk, op.dir, op.target, op.now);
    }
  }

  /** One step from sound rows, with whatever faults and whatever result: what clients see
      is what the step does to the plain map. */
  lemma StepRefines<S>(h: Hasher<S>, d: Dialect, w: World, op: Op)
    requires Good(h, w) && Legal(d, w, op) && NothingStray(d, w, op)
    ensures var (w', r) := Step(h, d, w, op);
      Files(w'.st) == Effect(d, Files(w.st), op, r)
  {
    match op
    case Upload(path, data, id, now, f) => PutView(h, w.st, path, data, DigestOf(h, data), id, now, f);
    case Completion(path, data, hash, id, now, f) => PutView(h, w.st, path, data, hash, id, now, f);
    case Remove(path, now, removeOk, updateOk) => DeleteRefines(h, w.st, path, now, removeOk, updateOk);
    case Move(path, target, now, lookupOk, renameOk, updateOk, undoOk) =>
      MoveView(h, w.st, path, target, now, lookupOk, renameOk, updateOk, undoOk);
    case RemoveTree(_, _, _, _, _, _, _, _) => RemoveTreeView(h, d, w, op);
    case MoveTree(_, _, _, _, _, _) => MoveTreeView(h, d, w, op);
    case Select(_) =>
    case ReapOne(row, removeOk, deleteOk) => ReapRefines(h, w.st, row.id, row.path, removeOk, deleteOk);
  }

  lemma MoveView<S>(h: Hasher<S>, st: State, src: string, dst: string, now: int,
                    lookupOk: bool, renameOk: bool, updateOk: bool, undoOk: bool)
    requires Inv(h, st)
    ensures var (st', r) := Rename(st, src, dst, now, lookupOk, renameOk, updateOk, undoOk);
      Files(st') ==
        if r.Ok? && src in Files(st) then (Files(st) - {src})[dst := Files(st)[src]]
        else if r.MetadataError? then Halfway(Files(st), src, dst, undoOk)
        else Files(st)
  {
    RenameRefines(h, st, src, dst, now, lookupOk, renameOk, updateOk, undoOk);
  }

  lemma RenameSilent<S>(h: Hasher<S>, st: State, src: string, dst: string, now: int,
                        lookupOk: bool, renameOk: bool, updateOk: bool, undoOk: bool)
    requires Inv(h, st) && !Rename(st, src, dst, now, lookupOk, renameOk, updateOk, undoOk).1.Ok?
    ensures Files(Rename(st, src, dst, now, lookupOk, renameOk, updateOk, undoOk).0) == Files(st) <==>
      !Stranded(st, src, dst, lookupOk, renameOk, updateOk, undoOk)
  {
    RenameRefines(h, st, src, dst, now, lookupOk, renameOk, updateOk, undoOk);
    if ExistsLive(st.rows, dst) { LiveSound(h, st, dst); }
    var st' := Rename(st, src, dst, now, lookupOk, renameOk, updateOk, undoOk).0;
    if Stranded(st, src, dst, lookupOk, renameOk, updateOk, undoOk) {
      assert if undoOk then dst in Files(st) && dst !in Files(st') else src in Files(st) && src !in Files(st');
    } else if HalfRenamed(st, src, dst, lookupOk, renameOk, updateOk) && src != dst {
      assert dst !in Files(st);
    }
  }

  /** The plain map after a run. */
  function PlainRun(d: Dialect, files: map<string, seq<Byte>>, ops: seq<Op>, rs: seq<Result>): map<string, seq<Byte>>
    requires |rs| == |ops|
  {
    if ops == [] then files
    else Effect(d, PlainRun(d, files, ops[..|ops| - 1], rs[..|ops| - 1]), ops[|ops| - 1], rs[|ops| - 1])
  }

  /** Over every run of uploads, completions, deletes and renames of files and of
      directories, and of cleanup passes that overlap with them, in which no step leaves
      rows unsound: clients see the plain map on which every operation had its effect,
      the partly committed directory deletes included. */
  lemma {:induction false} RunRefines<S>(h: Hasher<S>, d: Dialect, ws: seq<World>, ops: seq<Op>, rs: seq<Result>)
    requires IsRun(h, d, ws, ops, rs) && Good(h, ws[0])
    requires forall i :: 0 <= i < |ops| ==> !Torn(h, d, ws[i], ops[i]) && NothingStray(d, ws[i], ops[i])
    ensures Good(h, ws[|ops|]) && Files(ws[|ops|].st) == PlainRun(d, Files(ws[0].st), ops, rs)
    decreases |ops|
  {
    if ops != [] {
      var n := |ops| - 1;
      assert ws[..n + 1][0] == ws[0];
      forall i | 0 <= i < n
        ensures IsStep(h, d, ws[..n + 1][i], ops[..n][i], ws[..n + 1][i + 1], rs[..n][i])
        ensures !Torn(h, d, ws[..n + 1][i], ops[..n][i]) && NothingStray(d, ws[..n + 1][i], ops[..n][i])
      {
        assert IsStep(h, d, ws[i], ops[i], ws[i + 1], rs[i]);
        assert !Torn(h, d, ws[i], ops[i]);
      }
      RunRefines(h, d, ws[..n + 1], ops[..n], rs[..n]);
      assert IsStep(h, d, ws[n], ops[n], ws[n + 1], rs[n]);
      StepSound(h, d, ws[n], ops[n]);
      StepRefines(h, d, ws[n], ops[n]);
    }
  }

  // ------------------------------------------- errors that are not silent

  /** When an operation that reports an error has changed nothing clients see. */
  ghost predicate Silent(d: Dialect, w: World, op: Op) {
    match op
    case Upload(path, data, _, _, f) =>
      path !in Files(w.st) || PutLeaves(w.st, path, data, f) == Some(Files(w.st)[path])
    case Completion(path, data, _, _, _, f) =>
      path !in Files(w.st) || PutLeaves(w.st, path, data, f) == Some(Files(w.st)[path])
    case Remove(path, _, removeOk, _) => path !in Files(w.st) || !removeOk
    case Move(path, target, _, lookupOk, renameOk, updateOk, undoOk) =>
      !Stranded(w.st, path, target, lookupOk, renameOk, updateOk, undoOk)
    case RemoveTree(dir, found, _, filesFault, _, _, _, _) =>
      !found || Selected(d, w.st.rows, dir) == {} || filesFault == 0
    case _ => true
  }

  lemma PutSilent<S>(h: Hasher<S>, st: State, path: string, content: seq<Byte>, hash: string, id: string, now: int,
                     f: Faults)
    requires Inv(h, st)
    requires !Put(st, path, content, hash, id, now, f).1.Ok?
    ensures Files(Put(st, path, content, hash, id, now, f).0) == Files(st) <==>
      path !in Files(st) || PutLeaves(st, path, content, f) == Some(Files(st)[path])
  {
    PutRefines(h, st, path, content, hash, id, now, f);
    if ExistsLive(st.rows, path) { LiveSound(h, st, path); }
    var st', left := Put(st, path, content, hash, id, now, f).0, PutLeaves(st, path, content, f);
    if path in Files(st) && left != Some(Files(st)[path]) {
      assert path in Files(st') ==> left.Some? && Files(st')[path] == left.value;
    }
  }

  /** Exactly when an error is silent. A recursive delete that fails is so exactly if
      there were no files to delete or the first batch failed already. */
  lemma ErrorSilentIff<S>(h: Hasher<S>, d: Dialect, w: World, op: Op)
    requires Good(h, w) && Legal(d, w, op) && !Step(h, d, w, op).1.Ok?
    ensures Files(Step(h, d, w, op).0.st) == Files(w.st) <==> Silent(d, w, op)
  {
    match op
    case Upload(path, data, id, now, f) => PutSilent(h, w.st, path, data, DigestOf(h, data), id, now, f);
    case Completion(path, data, hash, id, now, f) => PutSilent(h, w.st, path, data, hash, id, now, f);
    case Remove(path, now, removeOk, updateOk) => DeleteRefines(h, w.st, path, now, removeOk, updateOk);
    case Move(path, target, now, lookupOk, renameOk, updateOk, undoOk) =>
      RenameSilent(h, w.st, path, target, now, lookupOk, renameOk, updateOk, undoOk);
    case RemoveTree(dir, found, gone, filesFault, restOk, now, stuck, wiped) =>
      if found {
        TreeWipesDead(d, w, op);
        DropSeen(h, d, w.st, dir, Flagged(d, w.st.rows, dir, gone), now, stuck, wiped);
        NothingCommitted(Selected(d, w.st.rows, dir), Flagged(d, w.st.rows, dir, gone), filesFault);
      }
    case MoveTree(_, _, _, _, _, _) =>
  }

  // -------------------------------------------------- overlapping cleanup

  const NO_FAULTS := Faults(Complete, true, true, true, true)

  /** Every step but the removals of a cleanup pass succeeds or is undone. */
  ghost predicate Faultless<S>(h: Hasher<S>, op: Op) {
    match op
    case Upload(_, _, _, _, f) => f == NO_FAULTS
    case Completion(_, data, hash, _, _, f) => f == NO_FAULTS && Attests(h, hash, data)
    case Remove(_, _, _, updateOk) => updateOk
    case Move(_, _, _, lookupOk, _, _, undoOk) => lookupOk && undoOk
    case MoveTree(_, _, _, _, lost, _) => lost == {}
    case _ => true
  }

  /** A pass removes the bytes of a path that has been written again since. */
  predicate ReapsLive(w: World, op: Op) {
    op.ReapOne? && op.removeOk && ExistsLive(w.st.rows, op.row.path)
  }

  /** The last rename of a directory rename takes a live file that has the directory's own
      path, or puts one in the place of a live file. */
  ghost predicate TakesFile<S>(h: Hasher<S>, d: Dialect, w: World, op: Op) {
    && op.MoveTree? && GoesThrough(d, w.st.rows, op.dir, op.target, op.allowed)
    && OwnMoves(Stage(d, w.st, op.lost, op.dir, op.target, op.now), op.target, op.ownOk) && op.dir in w.st.store
    && (ExistsLive(w.st.rows, op.dir) || !SuitsRow(h, w.st.rows, op.target, Some(w.st.store[op.dir])))
  }

  /** When no storage rename fails, the whole directory moves only if it has no files. */
  lemma FaultlessMove<S>(h: Hasher<S>, d: Dialect, st: State, ownOk: bool, src: string, dst: string, now: int)
    requires Inv(h, st) && Accepted(d, st.rows, Selected(d, st.rows, src), src, dst)
    ensures LeftBehind(st, Selected(d, st.rows, src), {}) == {}
    ensures OwnMoves(Stage(d, st, {}, src, dst, now), dst, ownOk) ==> Selected(d, st.rows, src) == {}
  {
    var sel := Selected(d, st.rows, src);
    NoneLost(h, st, sel, {});
    if id :| id in sel {
      var p := st.rows[id].path;
      assert Sound(h, st.rows[id], st.store);
      assert p in PathsOf(st.rows, sel) && p in Carried(st, sel, {}, src, dst);
      CarriedArrives(d, st, {}, src, dst, now, p);
    }
  }

  lemma FaultlessMislays<S>(h: Hasher<S>, d: Dialect, st: State, ownOk: bool, src: string, dst: string, now: int)
    requires Inv(h, st) && Accepted(d, st.rows, Selected(d, st.rows, src), src, dst)
    ensures Mislays(h, d, st, {}, ownOk, src, dst, now) <==>
      && OwnMoves(Stage(d, st, {}, src, dst, now), dst, ownOk) && src in st.store
      && (ExistsLive(st.rows, src) || !SuitsRow(h, st.rows, dst, Some(st.store[src])))
  {
    FaultlessMove(h, d, st, ownOk, src, dst, now);
  }

  lemma FaultlessTorn<S>(h: Hasher<S>, d: Dialect, w: World, op: Op)
    requires Good(h, w) && Legal(d, w, op) && Faultless(h, op)
    ensures Torn(h, d, w, op) <==> ReapsLive(w, op) || TakesFile(h, d, w, op)
  {
    if op.MoveTree? && GoesThrough(d, w.st.rows, op.dir, op.target, op.allowed) {
      FaultlessMislays(h, d, w.st, op.ownOk, op.dir, op.target, op.now);
    }
  }

  /** A step that leaves a live file without its bytes although nothing failed. */
  ghost predicate Costly<S>(h: Hasher<S>, d: Dialect, w: World, op: Op) {
    ReapsLive(w, op) || TakesFile(h, d, w, op)
  }

  lemma FaultlessStep<S>(h: Hasher<S>, d: Dialect, w: World, op: Op, w': World, r: Result)
    requires Good(h, w) && IsStep(h, d, w, op, w', r) && Faultless(h, op)
    ensures Good(h, w') <==> !Costly(h, d, w, op)
  {
    FaultlessTorn(h, d, w, op);
    StepSound(h, d, w, op);
  }

  /** Over every run in which cleanup passes overlap with operations that meet no lasting
      fault: the rows are sound in every state if and only if no selected path is live
      when the pass comes to remove it, and no directory rename takes a live file. */
  lemma CleanupRace<S>(h: Hasher<S>, d: Dialect, ws: seq<World>, ops: seq<Op>, rs: seq<Result>)
    requires IsRun(h, d, ws, ops, rs) && Good(h, ws[0]) && forall i :: 0 <= i < |ops| ==> Faultless(h, ops[i])
    ensures (forall i :: 0 <= i <= |ops| ==> Good(h, ws[i])) <==>
      (forall i :: 0 <= i < |ops| ==> !Costly(h, d, ws[i], ops[i]))
  {
    if forall i :: 0 <= i <= |ops| ==> Good(h, ws[i]) {
      forall i | 0 <= i < |ops| ensures !Costly(h, d, ws[i], ops[i]) {
        assert IsStep(h, d, ws[i], ops[i], ws[i + 1], rs[i]);
        FaultlessStep(h, d, ws[i], ops[i], ws[i + 1], rs[i]);
      }
    }
    if forall i :: 0 <= i < |ops| ==> !Costly(h, d, ws[i], ops[i]) {
      for n := 0 to |ops|
        invariant forall i :: 0 <= i <= n ==> Good(h, ws[i])
      {
        assert IsStep(h, d, ws[n], ops[n], ws[n + 1], rs[n]);
        FaultlessStep(h, d, ws[n], ops[n], ws[n + 1], rs[n]);
      }
    }
  }
}
