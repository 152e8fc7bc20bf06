/** The file manager's operations as it carries them out, step by step, on storage
    and on the metadata table. */
module FileManager {
  import opened FileStore
  import opened Paths
  import opened StreamDigest
  import opened Tables

  class Manager<S> {
    const h: Hasher<S>
    var rows: Table<Info>
    var store: map<string, seq<Byte>>

    ghost predicate Valid()
      reads this
    {
      Unique(rows)
    }

    ghost function Now(): State
      reads this
    {
      State(rows, store)
    }

    constructor (h: Hasher<S>)
      ensures Valid() && Now() == State(map[], map[]) && this.h == h && Inv(h, Now())
    {
      this.h := h;
      rows, store := map[], map[];
    }

    method UploadFile(path: string, data: seq<Byte>, id: string, now: int, f: Faults) returns (r: Result)
      requires Valid()
      modifies this
      ensures Valid()
      ensures (Now(), r) == Put(old(Now()), Normal(path), data, DigestOf(h, data), id, now, f)
      ensures r.Ok? || r.StorageError? || r.MetadataError?
      ensures r.StorageError? <==> !f.write.Complete?
      ensures r.Ok? ==> exists k :: k in rows && LiveAt(rows, k, Normal(path)) && rows[k].info == Info(|data|, DigestOf(h, data)) && rows[k].updatedAt == now
      ensures r.Ok? ==> Normal(path) in store && store[Normal(path)] == data
    {
      var p := NormalizePath(path);
      r := Save(p, data, DigestOf(h, data), id, now, f);
    }

    /** The last part of completing an upload session whose content has been checked. */
    method CompleteSession(path: string, content: seq<Byte>, hash: string, id: string, now: int, f: Faults)
      returns (r: Result)
      requires Valid()
      modifies this
      ensures Valid()
      ensures (Now(), r) == Put(old(Now()), Normal(path), content, hash, id, now, f)
      ensures r.Ok? || r.StorageError? || r.MetadataError?
      ensures r.StorageError? <==> !f.write.Complete?
      ensures r.Ok? ==> exists k :: k in rows && LiveAt(rows, k, Normal(path)) && rows[k].info == Info(|content|, hash) && rows[k].updatedAt == now
      ensures r.Ok? ==> Normal(path) in store && store[Normal(path)] == content
    {
      var p := NormalizePath(path);
      r := Save(p, content, hash, id, now, f);
    }

    method Save(p: string, data: seq<Byte>, hash: string, id: string, now: int, f: Faults) returns (r: Result)
      requires Valid()
      modifies this
      ensures Valid()
      ensures (Now(), r) == Put(old(Now()), p, data, hash, id, now, f)
      ensures r.Ok? || r.StorageError? || r.MetadataError?
      ensures r.StorageError? <==> !f.write.Complete?
      ensures r.Ok? ==> exists k :: k in rows && LiveAt(rows, k, p) && rows[k].info == Info(|data|, hash) && rows[k].updatedAt == now
      ensures r.Ok? ==> p in store && store[p] == data
    {
      if f.write.Untouched? { return StorageError; }
      if f.write.Partial? {
        store := store[p := Cut(data, f.write.n)];
        return StorageError;
      }
      store := store[p := data];
      var live := GetByPath(rows, p);
      if live.Some? && f.queryOk {
        if !f.updateOk { return MetadataError; }
        UpdateInfo(live.value, p, Info(|data|, hash), now);
        assert live.value in rows && LiveAt(rows, live.value, p);
        return Ok;
      }
      // An INSERT next to a live row, or under an id in use, violates a constraint.
      if !f.createOk || live.Some? || id in rows {
        if f.undoOk { store := store - {p}; }
        return MetadataError;
      }
      CreateRow(id, Row(p, Base(p), Info(|data|, hash), false, now));
      assert id in rows && LiveAt(rows, id, p);
      return Ok;
    }

    method UpdateInfo(live: string, p: string, info: Info, now: int)
      requires Valid() && LiveAt(rows, live, p)
      modifies this`rows
      ensures Valid() && rows == Overwrite(old(rows), p, info, now)
    {
      OneLiveRow(rows, live, p);
      rows := rows[live := rows[live].(info := info, updatedAt := now)];
    }

    method CreateRow(id: string, row: Row<Info>)
      requires Valid() && !ExistsLive(rows, row.path) && id !in rows
      modifies this`rows
      ensures Valid() && Some(rows) == Create(old(rows), id, row)
    {
      if dead :| dead in rows && rows[dead].path == row.path {
        assert rows - {dead} == map k | k in rows && rows[k].path != row.path :: rows[k];
        rows := rows - {dead};
      } else {
        assert rows == map k | k in rows && rows[k].path != row.path :: rows[k];
      }
      rows := rows[id := row];
    }

    method DeleteFile(path: string, now: int, removeOk: bool, updateOk: bool) returns (r: Result)
      requires Valid()
      modifies this
      ensures Valid()
      ensures (Now(), r) == Delete(old(Now()), Normal(path), now, removeOk, updateOk)
      ensures r.NotFound? <==> !ExistsLive(old(rows), Normal(path))
      ensures r.StorageError? <==> ExistsLive(old(rows), Normal(path)) && !(Normal(path) in old(store) && removeOk)
      ensures r.Ok? <==> ExistsLive(old(rows), Normal(path)) && Normal(path) in old(store) && removeOk && updateOk
      ensures !r.TargetExists?
    {
      var p := NormalizePath(path);
      var meta := GetByPath(rows, p);
      if meta.None? { return NotFound; }
      if p !in store || !removeOk { return StorageError; }
      store := store - {p};
      if !updateOk { return MetadataError; }
      OneLiveRow(rows, meta.value, p);
      rows := rows[meta.value := rows[meta.value].(deleted := true, updatedAt := now)];
      assert rows == Drop(old(rows), p, now);
      return Ok;
    }

    method RenameFile(path: string, newName: string, now: int,
                      lookupOk: bool, renameOk: bool, updateOk: bool, undoOk: bool) returns (r: Result)
      requires Valid()
      modifies this
      ensures Valid()
      ensures (Now(), r) ==
        Rename(old(Now()), Normal(path), Renamed(Normal(path), newName), now, lookupOk, renameOk, updateOk, undoOk)
      ensures r.NotFound? <==> !ExistsLive(old(rows), Normal(path))
      ensures r.TargetExists? <==> ExistsLive(old(rows), Normal(path)) && lookupOk && ExistsLive(old(rows), Renamed(Normal(path), newName))
      ensures r.StorageError? <==>
        && ExistsLive(old(rows), Normal(path)) && !(lookupOk && ExistsLive(old(rows), Renamed(Normal(path), newName)))
        && !(Normal(path) in old(store) && renameOk)
    {
      var src := NormalizePath(path);
      var dst := NormalizePath(Dir(src) + "/" + newName);
      r := RenamePath(src, dst, now, lookupOk, renameOk, updateOk, undoOk);
    }

    method RenamePath(src: string, dst: string, now: int, lookupOk: bool, renameOk: bool, updateOk: bool, undoOk: bool)
      returns (r: Result)
      requires Valid()
      modifies this
      ensures Valid()
      ensures (Now(), r) == Rename(old(Now()), src, dst, now, lookupOk, renameOk, updateOk, undoOk)
      ensures r.NotFound? <==> !ExistsLive(old(rows), src)
      ensures r.TargetExists? <==> ExistsLive(old(rows), src) && lookupOk && ExistsLive(old(rows), dst)
      ensures r.StorageError? <==>
        && ExistsLive(old(rows), src) && !(lookupOk && ExistsLive(old(rows), dst))
        && !(src in old(store) && renameOk)
    {
      var meta := GetByPath(rows, src);
      if meta.None? { return NotFound; }
      var taken := GetByPath(rows, dst);
      if lookupOk && taken.Some? { return TargetExists; }
      if src !in store || !renameOk { return StorageError; }
      store := Relocate(store, src, dst);
      var updated := if updateOk then SetPath(rows, meta.value, dst, Base(dst), now) else None;
      SetPathMoves(rows, meta.value, src, dst, now);
      if updated.None? {
        if undoOk { store := Relocate(store, dst, src); }
        return MetadataError;
      }
      rows := updated.value;
      return Ok;
    }

    method DownloadFile(path: string) returns (r: Option<seq<Byte>>)
      ensures r == if Normal(path) in Files(Now()) then Some(store[Normal(path)]) else None
    {
      var p := NormalizePath(path);
      var meta := GetByPath(rows, p);
      if meta.None? || p !in store { return None; }
      return Some(store[p]);
    }

    /** Visits the aged rows in any order; a row whose bytes cannot be removed stays, and
        one that cannot be deleted stays without its bytes. */
    method Cleanup(cutoff: int, stuck: set<string>, kept: set<string>)
      requires Valid()
      modifies this
      ensures Valid() && Now() == FileStore.Cleanup(old(Now()), cutoff, stuck, kept)
      ensures forall id :: id in rows <==>
        id in old(rows) && (var row := old(rows)[id];
          !row.deleted || row.updatedAt >= cutoff || row.path in stuck || id in kept)
      ensures forall id :: id in rows ==> rows[id] == old(rows)[id]
      ensures forall p :: p in store <==>
        p in old(store) && (p in stuck || forall id :: id in old(rows) && old(rows)[id].path == p ==>
          !old(rows)[id].deleted || old(rows)[id].updatedAt >= cutoff)
      ensures forall p :: p in store ==> store[p] == old(store)[p]
    {
      var todo := set id | id in rows && rows[id].deleted && rows[id].updatedAt < cutoff;
      ghost var done: set<string> := {};
      ghost var ids := Aged(rows, cutoff, stuck);
      while todo != {}
        invariant Valid() && todo <= rows.Keys && todo !! done
        invariant done <= ids <= todo + done
        invariant forall id :: id in todo && rows[id].path !in stuck ==> id in ids
        invariant Now() == Reclaimed(old(Now()), done, kept)
        decreases todo
      {
        var id :| id in todo;
        todo := todo - {id};
        if rows[id].path in stuck {
          continue;
        }
        ReclaimOne(old(Now()), done, kept, id);
        store := store - {rows[id].path};
        if id !in kept {
          rows := rows - {id};
        }
        done := done + {id};
      }
      assert done == ids;
    }
  }

  /** The state with the bytes of some rows gone, and of these rows all but the kept. */
  function Reclaimed(st: State, ids: set<string>, kept: set<string>): State {
    State(st.rows - (ids - kept), st.store - PathsOf(st.rows, ids))
  }

  lemma ReclaimOne(st: State, done: set<string>, kept: set<string>, id: string)
    requires id in st.rows && id !in done
    ensures Reclaimed(st, done + {id}, kept) ==
      State(if id in kept then Reclaimed(st, done, kept).rows else Reclaimed(st, done, kept).rows - {id},
            Reclaimed(st, done, kept).store - {st.rows[id].path})
  {
    assert PathsOf(st.rows, done + {id}) == PathsOf(st.rows, done) + {st.rows[id].path};
    assert (done + {id}) - kept == (done - kept) + if id in kept then {} else {id};
  }

  /** Updating the one live row by id is updating the live rows at its path, and is
      refused exactly when some other row holds the target. */
  lemma SetPathMoves(rows: Table<Info>, id: string, src: string, dst: string, now: int)
    requires Unique(rows) && LiveAt(rows, id, src)
    ensures var r := SetPath(rows, id, dst, Base(dst), now);
      && (r.Some? <==> src == dst || Vacant(rows, dst))
      && (r.Some? ==> r.value == MoveLive(rows, src, dst, now))
  {
    OneLiveRow(rows, id, src);
  }

  lemma OneLiveRow(rows: Table<Info>, id: string, path: string)
    requires Unique(rows) && LiveAt(rows, id, path)
    ensures forall k :: k in rows && LiveAt(rows, k, path) <==> k == id
  {
  }
}
