/** The namespace with everything taken out but which paths are listed and what bytes lie
    where: no rows, ids, sizes, digests or times. Every run of the service, from any state
    and with any faults, is a run of this, and what clients see can be read off it. */
module PlainSpace {
  import opened Dialects
  import opened Directories
  import opened DirectoryObject
  import opened DirectoryRename
  import opened FileStore
  import opened Like
  import opened Namespace
  import opened Paths
  import opened Relocation
  import opened StreamDigest
  import opened Tables
  import opened TreeStore

  datatype Plain = Plain(bytes: map<string, seq<Byte>>, listed: set<string>)

  /** What clients see: the bytes of the listed paths. */
  function Shown(p: Plain): map<string, seq<Byte>> { Restrict(p.bytes, p.listed) }

  function Abstract(st: State): Plain { Plain(st.store, LivePaths(st.rows)) }

  // ------------------------------------------------------------ effects

  function PlainPut(p: Plain, path: string, data: seq<Byte>, f: Faults, ok: bool): Plain {
    if ok then Plain(p.bytes[path := data], p.listed + {path})
    else
      match f.write
      case Untouched => p
      case Partial(n) => p.(bytes := p.bytes[path := Cut(data, n)])
      case Complete =>
        p.(bytes := if (path in p.listed && f.queryOk) || !f.undoOk then p.bytes[path := data] else p.bytes - {path})
  }

  /** Bytes carried from one path to another, if there are any. */
  function Carry(bytes: map<string, seq<Byte>>, src: string, dst: string): map<string, seq<Byte>> {
    if src in bytes then Relocate(bytes, src, dst) else bytes
  }

  function PlainMove(p: Plain, src: string, dst: string, undoOk: bool, r: Result): Plain {
    if r.Ok? then Plain(Carry(p.bytes, src, dst), (p.listed - {src}) + {dst})
    else if r.MetadataError? then
      var moved := Carry(p.bytes, src, dst);
      p.(bytes := if undoOk then Carry(moved, dst, src) else moved)
    else p
  }

  /** The listed paths that the query for a directory takes in. */
  function Taken(d: Dialect, listed: set<string>, dir: string): set<string> {
    set p | p in listed && StartsWith(d, dir + "/", p)
  }

  function PlainMoveTree(d: Dialect, p: Plain, src: string, dst: string, lost: set<string>, ownOk: bool): Plain {
    var go := Going(Taken(d, p.listed, src), src, dst);
    if Injective(go) then
      OnlyInjective(go, p.bytes.Keys - lost);
      Plain(MoveOwn(Shift(p.bytes, Only(go, p.bytes.Keys - lost)), src, dst, ownOk), KeysAfter(p.listed, go))
    else p
  }

  /** What an operation with a given result does. */
  function PlainStep(d: Dialect, p: Plain, op: Op, r: Result): Plain {
    match op
    case Upload(path, data, _, _, f) => PlainPut(p, path, data, f, r.Ok?)
    case Completion(path, data, _, _, _, f) => PlainPut(p, path, data, f, r.Ok?)
    case Remove(path, _, _, _) =>
      if r.Ok? then Plain(p.bytes - {path}, p.listed - {path})
      else if r.MetadataError? then p.(bytes := p.bytes - {path})
      else p
    case Move(path, target, _, _, _, _, undoOk) => PlainMove(p, path, target, undoOk, r)
    case RemoveTree(_, found, gone, _, _, _, stuck, wiped) =>
      if found then Plain(p.bytes - (gone - stuck) - wiped, p.listed - gone) else p
    case MoveTree(dir, target, _, _, lost, ownOk) =>
      if r.Ok? then PlainMoveTree(d, p, dir, target, lost, ownOk) else p
    case Select(_) => p
    case ReapOne(row, removeOk, _) => if removeOk then p.(bytes := p.bytes - {row.path}) else p
  }

  // ------------------------------------------------- which paths are listed

  lemma ListedLive(rows: Table<Info>, p: string)
    ensures p in LivePaths(rows) <==> ExistsLive(rows, p)
  {
    if ExistsLive(rows, p) { var id :| id in rows && LiveAt(rows, id, p); }
    if id :| id in rows && !rows[id].deleted && rows[id].path == p { assert LiveAt(rows, id, p); }
  }

  lemma ListedOverwritten(rows: Table<Info>, path: string, info: Info, now: int)
    ensures LivePaths(Overwrite(rows, path, info, now)) == LivePaths(rows)
    ensures Unique(rows) ==> Unique(Overwrite(rows, path, info, now))
  {
    var rows' := Overwrite(rows, path, info, now);
    assert forall id :: id in rows ==> rows'[id].path == rows[id].path && rows'[id].deleted == rows[id].deleted;
    forall p ensures p in LivePaths(rows') <==> p in LivePaths(rows) {
      if id :| id in rows && !rows[id].deleted && rows[id].path == p { assert rows'[id].path == p; }
    }
  }

  lemma ListedCreated(rows: Table<Info>, id: string, row: Row<Info>)
    requires Unique(rows) && !ExistsLive(rows, row.path) && id !in rows && !row.deleted
    ensures var rows' := Create(rows, id, row);
      rows'.Some? && LivePaths(rows'.value) == LivePaths(rows) + {row.path} && Unique(rows'.value)
  {
    CreateUnique(rows, id, row);
    forall p ensures p in LivePaths(Create(rows, id, row).value) <==> p in LivePaths(rows) + {row.path} {
      CreateLive(rows, id, row, p);
      ListedLive(rows, p);
      ListedLive(Create(rows, id, row).value, p);
    }
  }

  lemma ListedDropped(rows: Table<Info>, path: string, now: int)
    requires Unique(rows)
    ensures LivePaths(Drop(rows, path, now)) == LivePaths(rows) - {path} && Unique(Drop(rows, path, now))
  {
    var rows' := Drop(rows, path, now);
    forall p ensures p in LivePaths(rows') <==> p in LivePaths(rows) - {path} {
      if id :| id in rows' && !rows'[id].deleted && rows'[id].path == p { assert rows[id] == rows'[id]; }
      if id :| id in rows && !rows[id].deleted && rows[id].path == p && p != path { assert rows'[id] == rows[id]; }
    }
  }

  lemma ListedMoved(rows: Table<Info>, src: string, dst: string, now: int)
    requires Unique(rows) && ExistsLive(rows, src) && (src == dst || Vacant(rows, dst))
    ensures LivePaths(MoveLive(rows, src, dst, now)) == (LivePaths(rows) - {src}) + {dst}
    ensures Unique(MoveLive(rows, src, dst, now))
  {
    var rows' := MoveLive(rows, src, dst, now);
    var own :| own in rows && LiveAt(rows, own, src);
    assert rows'[own].path == dst && !rows'[own].deleted;
    forall p ensures p in LivePaths(rows') <==> p in (LivePaths(rows) - {src}) + {dst} {
      if id :| id in rows' && !rows'[id].deleted && rows'[id].path == p {
        assert id == own || rows[id] == rows'[id];
      }
      if id :| id in rows && !rows[id].deleted && rows[id].path == p && p != src { assert rows'[id] == rows[id]; }
    }
  }

  lemma ListedFlagged(rows: Table<Info>, ids: set<string>, now: int)
    requires Unique(rows)
    ensures LivePaths(Flag(rows, ids, now)) == LivePaths(rows) - PathsOf(rows, ids) && Unique(Flag(rows, ids, now))
  {
    FlagUnique(rows, ids, now);
    forall p ensures p in LivePaths(Flag(rows, ids, now)) <==> p in LivePaths(rows) - PathsOf(rows, ids) {
      FlagLive(rows, ids, now, p);
      ListedLive(rows, p);
      ListedLive(Flag(rows, ids, now), p);
    }
  }

  lemma ListedReaped(rows: Table<Info>, id: string)
    requires id in rows ==> rows[id].deleted
    ensures LivePaths(rows - {id}) == LivePaths(rows) && (Unique(rows) ==> Unique(rows - {id}))
  {
    forall p ensures p in LivePaths(rows - {id}) <==> p in LivePaths(rows) {
      if k :| k in rows && !rows[k].deleted && rows[k].path == p { assert k in rows - {id}; }
    }
  }

  lemma TakenIsSelected(d: Dialect, rows: Table<Info>, dir: string)
    ensures Taken(d, LivePaths(rows), dir) == PathsOf(rows, Selected(d, rows, dir))
  {
    SelectedStarts(d, rows, dir);
    forall p ensures p in Taken(d, LivePaths(rows), dir) <==> p in PathsOf(rows, Selected(d, rows, dir)) {
      if p in Taken(d, LivePaths(rows), dir) {
        var id :| id in rows && !rows[id].deleted && rows[id].path == p;
        assert id in Selected(d, rows, dir);
      }
    }
  }

  // --------------------------------------------------------- refinement

  ghost predicate Refines(d: Dialect, st: State, op: Op, st': State, r: Result) {
    Unique(st'.rows) && Abstract(st') == PlainStep(d, Abstract(st), op, r)
  }

  lemma PutAbstracts(st: State, path: string, data: seq<Byte>, hash: string, id: string, now: int, f: Faults)
    requires Unique(st.rows)
    ensures var (st', r) := Put(st, path, data, hash, id, now, f);
      Unique(st'.rows) && Abstract(st') == PlainPut(Abstract(st), path, data, f, r.Ok?)
  {
    var info := Info(|data|, hash);
    ListedLive(st.rows, path);
    if f.write.Complete? {
      if ExistsLive(st.rows, path) {
        ListedOverwritten(st.rows, path, info, now);
        assert LivePaths(st.rows) + {path} == LivePaths(st.rows);
      } else if id !in st.rows {
        ListedCreated(st.rows, id, Row(path, Base(path), info, false, now));
      }
    }
    assert st.store[path := data] - {path} == st.store - {path};
  }

  lemma MoveAbstracts(st: State, src: string, dst: string, now: int,
                      lookupOk: bool, renameOk: bool, updateOk: bool, undoOk: bool)
    requires Unique(st.rows)
    ensures var (st', r) := Rename(st, src, dst, now, lookupOk, renameOk, updateOk, undoOk);
      Unique(st'.rows) && Abstract(st') == PlainMove(Abstract(st), src, dst, undoOk, r)
  {
    if Rename(st, src, dst, now, lookupOk, renameOk, updateOk, undoOk).1.Ok? {
      ListedMoved(st.rows, src, dst, now);
    }
  }

  lemma MoveTreeAbstracts(d: Dialect, st: State, src: string, dst: string, now: int, lost: set<string>, ownOk: bool)
    requires Accepted(d, st.rows, Selected(d, st.rows, src), src, dst)
    ensures var st' := RenamedState(d, st, Selected(d, st.rows, src), lost, ownOk, src, dst, now);
      Unique(st'.rows) && Abstract(st') == PlainMoveTree(d, Abstract(st), src, dst, lost, ownOk)
  {
    var sel := Selected(d, st.rows, src);
    TakenIsSelected(d, st.rows, src);
    GoingApart(d, st.rows, sel, src, dst);
    FitsIsUnique(st.rows, sel, src, dst, now);
    LiveAfterMove(st.rows, sel, src, dst, now);
  }

  lemma RemoveTreeAbstracts(d: Dialect, st: State, dir: string, gone: set<string>, now: int, stuck: set<string>,
                            wiped: set<string>)
    requires Unique(st.rows) && gone <= PathsOf(st.rows, Selected(d, st.rows, dir))
    ensures var st' := Dropped(st, Flagged(d, st.rows, dir, gone), now, stuck, wiped);
      Unique(st'.rows) && Abstract(st') == Plain(st.store - (gone - stuck) - wiped, LivePaths(st.rows) - gone)
  {
    FlaggedPaths(d, st.rows, dir, gone);
    ListedFlagged(st.rows, Flagged(d, st.rows, dir, gone), now);
  }

  /** One step from any state whose rows have different paths, sound or not, with whatever
      faults and whatever result. */
  lemma StepAbstracts<S>(h: Hasher<S>, d: Dialect, w: World, op: Op)
    requires Unique(w.st.rows) && PendingDead(w) && Legal(d, w, op)
    ensures var (w', r) := Step(h, d, w, op);
      Refines(d, w.st, op, w'.st, r) && PendingDead(w')
  {
    StepPending(h, d, w, op);
    match op
    case Upload(path, data, id, now, f) => PutAbstracts(w.st, path, data, DigestOf(h, data), id, now, f);
    case Completion(path, data, hash, id, now, f) => PutAbstracts(w.st, path, data, hash, id, now, f);
    case Remove(path, now, _, _) => ListedDropped(w.st.rows, path, now);
    case Move(path, target, now, lookupOk, renameOk, updateOk, undoOk) =>
      MoveAbstracts(w.st, path, target, now, lookupOk, renameOk, updateOk, undoOk);
    case RemoveTree(dir, found, gone, _, _, now, stuck, wiped) =>
      if found { RemoveTreeAbstracts(d, w.st, dir, gone, now, stuck, wiped); }
    case MoveTree(dir, target, now, allowed, lost, ownOk) =>
      if GoesThrough(d, w.st.rows, dir, target, allowed) {
        MoveTreeAbstracts(d, w.st, dir, target, now, lost, ownOk);
      }
    case Select(_) =>
    case ReapOne(row, _, _) => ListedReaped(w.st.rows, row.id);
  }

  function PlainRun(d: Dialect, p: Plain, ops: seq<Op>, rs: seq<Result>): Plain
    requires |rs| == |ops|
  {
    if ops == [] then p
    else PlainStep(d, PlainRun(d, p, ops[..|ops| - 1], rs[..|ops| - 1]), ops[|ops| - 1], rs[|ops| - 1])
  }

  /** Over every run of file and directory operations and overlapping cleanups, with any
      faults at any steps, and going on after rows have come to describe bytes that are not
      there: what clients see at the end is what the plain namespace shows. */
  lemma {:induction false} EveryRunShows<S>(h: Hasher<S>, d: Dialect, ws: seq<World>, ops: seq<Op>, rs: seq<Result>)
    requires IsRun(h, d, ws, ops, rs) && Unique(ws[0].st.rows) && PendingDead(ws[0])
    ensures Unique(ws[|ops|].st.rows) && PendingDead(ws[|ops|])
    ensures Abstract(ws[|ops|].st) == PlainRun(d, Abstract(ws[0].st), ops, rs)
    ensures Files(ws[|ops|].st) == Shown(PlainRun(d, Abstract(ws[0].st), ops, rs))
    decreases |ops|
  {
    if ops != [] {
      var n := |ops| - 1;
      assert ws[..n + 1][0] == ws[0];
      forall i | 0 <= i < n ensures IsStep(h, d, ws[..n + 1][i], ops[..n][i], ws[..n + 1][i + 1], rs[..n][i]) {
        assert IsStep(h, d, ws[i], ops[i], ws[i + 1], rs[i]);
      }
      EveryRunShows(h, d, ws[..n + 1], ops[..n], rs[..n]);
      assert IsStep(h, d, ws[n], ops[n], ws[n + 1], rs[n]);
      StepAbstracts(h, d, ws[n], ops[n]);
    }
    FilesRestrict(ws[|ops|].st);
  }
}
