/** The bookkeeping columns of file rows over time: the name follows the path, every change
    is stamped with the time it was made, and so a deleted row is kept until a cleanup pass
    looks back less far than the time since. */
module Retention {
  import opened DirectoryRename
  import opened Dialects
  import opened FileStore
  import opened Namespace
  import opened Paths
  import opened StreamDigest
  import opened Tables

  // ----------------------------------------------------------- names

  /** Every name is the last component of the path. */
  ghost predicate Named(rows: Table<Info>) {
    forall id :: id in rows ==> rows[id].name == Base(rows[id].path)
  }

  lemma PutNames(st: State, path: string, content: seq<Byte>, hash: string, id: string, now: int, f: Faults)
    requires Named(st.rows)
    ensures Named(Put(st, path, content, hash, id, now, f).0.rows)
  {
  }

  lemma RenameNames(st: State, src: string, dst: string, now: int, lookupOk: bool, renameOk: bool, updateOk: bool,
                    undoOk: bool)
    requires Named(st.rows)
    ensures Named(Rename(st, src, dst, now, lookupOk, renameOk, updateOk, undoOk).0.rows)
  {
  }

  lemma MoveNames(rows: Table<Info>, sel: set<string>, src: string, dst: string, now: int)
    requires Named(rows) && Long(rows, sel, src)
    ensures Named(MoveRows(rows, sel, src, dst, now))
  {
  }

  lemma StepNames<S>(h: Hasher<S>, d: Dialect, w: World, op: Op)
    requires Named(w.st.rows)
    ensures Named(Step(h, d, w, op).0.st.rows)
  {
    match op
    case Upload(path, data, id, now, f) => PutNames(w.st, path, data, DigestOf(h, data), id, now, f);
    case Completion(path, data, hash, id, now, f) => PutNames(w.st, path, data, hash, id, now, f);
    case Move(path, target, now, lookupOk, renameOk, updateOk, undoOk) =>
      RenameNames(w.st, path, target, now, lookupOk, renameOk, updateOk, undoOk);
    case MoveTree(dir, target, now, allowed, _, _) =>
      if GoesThrough(d, w.st.rows, dir, target, allowed) {
        MoveNames(w.st.rows, Selected(d, w.st.rows, dir), dir, target, now);
      }
    case _ =>
  }

  /** Over every run, through uploads, renames of files and of directories, and whatever
      fails: names follow paths. */
  lemma {:induction false} NamesFollowPaths<S>(h: Hasher<S>, d: Dialect, ws: seq<World>, ops: seq<Op>, rs: seq<Result>)
    requires IsRun(h, d, ws, ops, rs) && Named(ws[0].st.rows)
    ensures forall i :: 0 <= i <= |ops| ==> Named(ws[i].st.rows)
  {
    for n := 0 to |ops|
      invariant forall i :: 0 <= i <= n ==> Named(ws[i].st.rows)
    {
      assert IsStep(h, d, ws[n], ops[n], ws[n + 1], rs[n]);
      StepNames(h, d, ws[n], ops[n]);
    }
  }

  // ---------------------------------------------------------- stamps

  /** Every row that is new or changed carries the time of the step. */
  ghost predicate Stamped(rows: Table<Info>, rows': Table<Info>, now: int) {
    forall id :: id in rows' && (id !in rows || rows'[id] != rows[id]) ==> rows'[id].updatedAt == now
  }

  lemma StepStamps<S>(h: Hasher<S>, d: Dialect, w: World, op: Op)
    requires !op.Select? && !op.ReapOne?
    ensures Stamped(w.st.rows, Step(h, d, w, op).0.st.rows, op.now)
  {
  }

  /** A row that a step deletes is otherwise as it was, with the time of the deletion; and
      only a deletion of its file or of its directory does that. */
  lemma StepDeletes<S>(h: Hasher<S>, d: Dialect, w: World, op: Op, id: string)
    requires id in w.st.rows && !w.st.rows[id].deleted
    ensures var rows' := Step(h, d, w, op).0.st.rows;
      id in rows' && rows'[id].deleted ==>
        (op.Remove? || op.RemoveTree?) && rows'[id] == w.st.rows[id].(deleted := true, updatedAt := op.now)
  {
  }

  // ------------------------------------------------------- retention

  /** A pass selects a row if and only if it is deleted and was so before the cutoff. */
  lemma SelectsIff<S>(h: Hasher<S>, d: Dialect, w: World, cutoff: int, x: Doomed)
    ensures x in Step(h, d, w, Select(cutoff)).0.pending <==>
      || x in w.pending
      || (x.id in w.st.rows && w.st.rows[x.id].deleted && w.st.rows[x.id].updatedAt < cutoff && w.st.rows[x.id].path == x.path)
  {
  }

  /** What is removed of a selected row: its bytes if storage can remove them, and then its
      record if the database can; and nothing else. */
  lemma ReapsIff<S>(h: Hasher<S>, d: Dialect, w: World, row: Doomed, removeOk: bool, deleteOk: bool, id: string, p: string)
    ensures var st' := Step(h, d, w, ReapOne(row, removeOk, deleteOk)).0.st;
      && (id in st'.rows <==> id in w.st.rows && !(id == row.id && removeOk && deleteOk))
      && (id in st'.rows ==> st'.rows[id] == w.st.rows[id])
      && (p in st'.store <==> p in w.st.store && !(p == row.path && removeOk))
      && (p in st'.store ==> st'.store[p] == w.st.store[p])
  {
  }

  /** Of a row that a step has just deleted, a cleanup leaves the record if and only if its
      cutoff is not after the time of the deletion, or the bytes or the record cannot be
      removed. */
  lemma CleanupAfterDelete<S>(h: Hasher<S>, d: Dialect, w: World, op: Op, id: string, cutoff: int, stuck: set<string>,
                              kept: set<string>)
    requires id in w.st.rows && !w.st.rows[id].deleted
    requires var rows' := Step(h, d, w, op).0.st.rows; id in rows' && rows'[id].deleted
    ensures (op.Remove? || op.RemoveTree?)
    ensures id in Cleanup(Step(h, d, w, op).0.st, cutoff, stuck, kept).rows <==>
      cutoff <= op.now || w.st.rows[id].path in stuck || id in kept
  {
    StepDeletes(h, d, w, op, id);
  }

  /** The row is deleted and no pass has it. */
  ghost predicate Safe(w: World, id: string) {
    id in w.st.rows && w.st.rows[id].deleted && forall x :: x in w.pending ==> x.id != id
  }

  /** An upload that takes the path of a deleted row over. */
  predicate Revives(op: Op, r: Result, path: string) {
    (op.Upload? || op.Completion?) && op.path == path && r.Ok?
  }

  lemma StepRetains<S>(h: Hasher<S>, d: Dialect, w: World, op: Op, id: string)
    requires Safe(w, id) && Legal(d, w, op)
    requires op.Select? ==> op.cutoff <= w.st.rows[id].updatedAt
    ensures var (w', r) := Step(h, d, w, op);
      (Safe(w', id) && w'.st.rows[id] == w.st.rows[id]) || Revives(op, r, w.st.rows[id].path)
  {
  }

  /** A row deleted by the first step of a run, at the time `t`, is there, as it was left,
      in every later state, as long as no cleanup pass has a cutoff after `t`, or until an
      upload takes the path over. */
  lemma {:induction false} Retained<S>(h: Hasher<S>, d: Dialect, ws: seq<World>, ops: seq<Op>, rs: seq<Result>, id: string, n: nat)
    requires IsRun(h, d, ws, ops, rs) && PendingDead(ws[0]) && 1 <= n <= |ops|
    requires id in ws[0].st.rows && !ws[0].st.rows[id].deleted
    requires id in ws[1].st.rows && ws[1].st.rows[id].deleted
    requires forall i :: 1 <= i < |ops| && ops[i].Select? ==> ops[i].cutoff <= ops[0].now
    ensures
      || (Safe(ws[n], id) && ws[n].st.rows[id] == ws[0].st.rows[id].(deleted := true, updatedAt := ops[0].now))
      || exists i :: 1 <= i < n && Revives(ops[i], rs[i], ws[0].st.rows[id].path)
  {
    assert IsStep(h, d, ws[0], ops[0], ws[1], rs[0]);
    StepDeletes(h, d, ws[0], ops[0], id);
    if n > 1 {
      Retained(h, d, ws, ops, rs, id, n - 1);
      var w, op := ws[n - 1], ops[n - 1];
      assert IsStep(h, d, w, op, ws[n], rs[n - 1]);
      if !(exists i :: 1 <= i < n - 1 && Revives(ops[i], rs[i], ws[0].st.rows[id].path)) {
        StepRetains(h, d, w, op, id);
      }
    }
  }
}
