/** Files: bytes in storage by path, and metadata rows. Every operation touches both,
    storage first. Some failures are undone, some are not; each lemma here says which,
    and what is then left. */
module FileStore {
  import opened Paths
  import opened StreamDigest
  import opened Tables

  datatype Info = Info(size: int, hash: string)

  datatype State = State(rows: Table<Info>, store: map<string, seq<Byte>>)

  datatype Result = Ok | NotFound | TargetExists | StorageError | MetadataError

  /** The metadata has the size of the bytes, and their digest if it has one. */
  predicate Describes<S>(h: Hasher<S>, info: Info, bytes: seq<Byte>) {
    |bytes| == info.size && (info.hash == "" || info.hash == DigestOf(h, bytes))
  }

  /** The row's bytes are stored and are what it says. */
  predicate Sound<S>(h: Hasher<S>, row: Row<Info>, store: map<string, seq<Byte>>) {
    row.path in store && Describes(h, row.info, store[row.path])
  }

  predicate Inv<S>(h: Hasher<S>, st: State) {
    && Unique(st.rows)
    && forall id :: id in st.rows && !st.rows[id].deleted ==> Sound(h, st.rows[id], st.store)
  }

  /** What clients see: the contents of the live files by path. */
  function Files(st: State): map<string, seq<Byte>> {
    map p | p in st.store && ExistsLive(st.rows, p) :: st.store[p]
  }

  /** The paths of a set of rows. */
  function PathsOf(rows: Table<Info>, ids: set<string>): set<string> {
    set id | id in ids && id in rows :: rows[id].path
  }

  // ------------------------------------------------------- operations

  /** Metadata INSERT, or revival of a soft-deleted row at the path under a new id.
      Refused if a live row holds the path or the id is taken. */
  function Create(rows: Table<Info>, id: string, row: Row<Info>): Option<Table<Info>> {
    if ExistsLive(rows, row.path) || id in rows then None
    else Some((map k | k in rows && rows[k].path != row.path :: rows[k])[id := row])
  }

  /** The new values of the live rows at a path. */
  function Overwrite(rows: Table<Info>, path: string, info: Info, now: int): Table<Info> {
    map k | k in rows :: if LiveAt(rows, k, path) then rows[k].(info := info, updatedAt := now) else rows[k]
  }

  /** How a write ends. A failed one may have truncated the old bytes and written some of
      the new ones. */
  datatype Write = Complete | Untouched | Partial(n: nat)

  /** Whether each further step succeeds: the lookup of the old row, its update, the
      creation of a new one, and the removal of the bytes if that fails. */
  datatype Faults = Faults(write: Write, queryOk: bool, updateOk: bool, createOk: bool, undoOk: bool)

  function Cut(content: seq<Byte>, n: nat): seq<Byte> {
    if n < |content| then content[..n] else content
  }

  /** Stores content at a path and records it: an upload, or a completed session.
      `hash` is the digest to record. A lookup that fails counts as finding nothing. */
  function Put(st: State, path: string, content: seq<Byte>, hash: string, id: string, now: int,
               f: Faults): (State, Result)
  {
    var info, stored := Info(|content|, hash), st.store[path := content];
    match f.write
    case Untouched => (st, StorageError)
    case Partial(n) => (st.(store := st.store[path := Cut(content, n)]), StorageError)
    case Complete =>
      if ExistsLive(st.rows, path) && f.queryOk then
        if f.updateOk then (State(Overwrite(st.rows, path, info, now), stored), Ok)
        else (st.(store := stored), MetadataError)
      else
        var rows := Create(st.rows, id, Row(path, Base(path), info, false, now));
        if rows.Some? && f.createOk then (State(rows.value, stored), Ok)
        else (st.(store := if f.undoOk then stored - {path} else stored), MetadataError)
  }

  /** The rows with the live ones at a path soft-deleted. */
  function Drop(rows: Table<Info>, path: string, now: int): Table<Info> {
    map k | k in rows :: if LiveAt(rows, k, path) then rows[k].(deleted := true, updatedAt := now) else rows[k]
  }

  /** Deletes a file: its bytes, then its row. Bytes are not put back. */
  function Delete(st: State, path: string, now: int, removeOk: bool, updateOk: bool): (State, Result) {
    if !ExistsLive(st.rows, path) then (st, NotFound)
    else if path !in st.store || !removeOk then (st, StorageError)
    else if !updateOk then (st.(store := st.store - {path}), MetadataError)
    else (State(Drop(st.rows, path, now), st.store - {path}), Ok)
  }

  /** A storage rename replaces whatever was at the target. */
  function Relocate(store: map<string, seq<Byte>>, src: string, dst: string): map<string, seq<Byte>>
    requires src in store
  {
    (store - {src})[dst := store[src]]
  }

  /** The live rows at one path, moved to another. */
  function MoveLive(rows: Table<Info>, src: string, dst: string, now: int): Table<Info> {
    map k | k in rows ::
      if LiveAt(rows, k, src) then rows[k].(path := dst, name := Base(dst), updatedAt := now) else rows[k]
  }

  /** No row, live or deleted, holds the path. */
  predicate Vacant(rows: Table<Info>, path: string) {
    forall k :: k in rows ==> rows[k].path != path
  }

  /** Renames a file. A lookup of the target that fails counts as finding nothing. The row
      update fails on any other row at the target, even a deleted one, or when the
      database does; the storage rename is then undone, unless that fails too. */
  function Rename(st: State, src: string, dst: string, now: int,
                  lookupOk: bool, renameOk: bool, updateOk: bool, undoOk: bool): (State, Result)
  {
    if !ExistsLive(st.rows, src) then (st, NotFound)
    else if lookupOk && ExistsLive(st.rows, dst) then (st, TargetExists)
    else if src !in st.store || !renameOk then (st, StorageError)
    else
      var moved := Relocate(st.store, src, dst);
      if updateOk && (src == dst || Vacant(st.rows, dst)) then (State(MoveLive(st.rows, src, dst, now), moved), Ok)
      else (st.(store := if undoOk then Relocate(moved, dst, src) else moved), MetadataError)
  }

  /** Soft-deleted rows older than the cutoff whose bytes can be removed. */
  function Aged(rows: Table<Info>, cutoff: int, stuck: set<string>): set<string> {
    set id | id in rows && rows[id].deleted && rows[id].updatedAt < cutoff && rows[id].path !in stuck
  }

  /** Removes aged rows for good, with their bytes. `stuck` are the paths that storage
      fails to remove, `kept` the rows the database then fails to delete. */
  function Cleanup(st: State, cutoff: int, stuck: set<string>, kept: set<string>): State {
    var ids := Aged(st.rows, cutoff, stuck);
    State(st.rows - (ids - kept), st.store - PathsOf(st.rows, ids))
  }

  /** What a cleanup does with one row it selected earlier: removes the bytes at the
      path, then the row with the id. */
  function Reap(st: State, id: string, path: string, removeOk: bool, deleteOk: bool): State {
    if !removeOk then st
    else State(if deleteOk then st.rows - {id} else st.rows, st.store - {path})
  }

  // ---------------------------------------- what changing bytes alone does

  lemma LiveSound<S>(h: Hasher<S>, st: State, path: string)
    requires Inv(h, st) && ExistsLive(st.rows, path)
    ensures path in st.store && path in Files(st)
  {
    var id :| id in st.rows && LiveAt(st.rows, id, path);
    assert Sound(h, st.rows[id], st.store);
  }

  /** The live row at a path, if any, describes the bytes. */
  predicate SuitsRow<S>(h: Hasher<S>, rows: Table<Info>, path: string, bytes: Option<seq<Byte>>) {
    ExistsLive(rows, path) ==>
      bytes.Some? && forall id :: id in rows && LiveAt(rows, id, path) ==> Describes(h, rows[id].info, bytes.value)
  }

  /** Storage with the bytes at one path replaced, or gone. */
  function Holding(store: map<string, seq<Byte>>, path: string, bytes: Option<seq<Byte>>): map<string, seq<Byte>> {
    if bytes.Some? then store[path := bytes.value] else store - {path}
  }

  /** The files as seen with the bytes at one path replaced, or gone. */
  function Showing(files: map<string, seq<Byte>>, path: string, bytes: Option<seq<Byte>>): map<string, seq<Byte>> {
    if bytes.Some? then files[path := bytes.value] else files - {path}
  }

  /** Replacing the bytes at one path keeps the rows sound exactly when a live row there
      describes them; and clients see the change exactly when there is one. */
  lemma BytesReplaced<S>(h: Hasher<S>, st: State, path: string, bytes: Option<seq<Byte>>)
    requires Inv(h, st)
    ensures var st' := st.(store := Holding(st.store, path, bytes));
      && (Inv(h, st') <==> SuitsRow(h, st.rows, path, bytes))
      && Files(st') == if ExistsLive(st.rows, path) then Showing(Files(st), path, bytes) else Files(st)
  {
    var st' := st.(store := Holding(st.store, path, bytes));
    forall id | id in st.rows && !st.rows[id].deleted
      ensures Sound(h, st.rows[id], st'.store) <==>
        st.rows[id].path != path || (bytes.Some? && Describes(h, st.rows[id].info, bytes.value))
    {
      assert Sound(h, st.rows[id], st.store);
    }
    if Inv(h, st') {
      forall id | id in st.rows && LiveAt(st.rows, id, path)
        ensures bytes.Some? && Describes(h, st.rows[id].info, bytes.value)
      {
        assert Sound(h, st'.rows[id], st'.store);
      }
    } else {
      var id :| id in st.rows && !st.rows[id].deleted && !Sound(h, st.rows[id], st'.store);
      assert LiveAt(st.rows, id, path);
    }
  }

  // ------------------------------------------------------------ uploads

  /** The bytes at the path after a put that reports an error. */
  function PutLeaves(st: State, path: string, content: seq<Byte>, f: Faults): Option<seq<Byte>> {
    match f.write
    case Untouched => if path in st.store then Some(st.store[path]) else None
    case Partial(n) => Some(Cut(content, n))
    case Complete =>
      if (ExistsLive(st.rows, path) && f.queryOk) || !f.undoOk then Some(content) else None
  }

  /** The recorded digest is that of the content, or none. */
  predicate Attests<S>(h: Hasher<S>, hash: string, content: seq<Byte>) {
    hash == "" || hash == DigestOf(h, content)
  }

  /** Putting content sets that one file; or reports an error, and then clients see no
      change unless the path was live, in which case they see what the failed steps left
      there. Every live row stays sound exactly if the recorded digest is right, or if
      what a failure left suits the row at the path. */
  lemma PutRefines<S>(h: Hasher<S>, st: State, path: string, content: seq<Byte>, hash: string, id: string, now: int,
                      f: Faults)
    requires Inv(h, st)
    ensures var (st', r) := Put(st, path, content, hash, id, now, f);
      var live := ExistsLive(st.rows, path);
      && (r.Ok? <==>
            f.write.Complete? && if live then f.queryOk && f.updateOk else id !in st.rows && f.createOk)
      && (r.Ok? ==> Files(st') == Files(st)[path := content] && (Inv(h, st') <==> Attests(h, hash, content)))
      && (!r.Ok? ==>
            && Files(st') == (if live then Showing(Files(st), path, PutLeaves(st, path, content, f)) else Files(st))
            && (Inv(h, st') <==> SuitsRow(h, st.rows, path, PutLeaves(st, path, content, f))))
  {
    var (st', r) := Put(st, path, content, hash, id, now, f);
    if r.Ok? {
      if ExistsLive(st.rows, path) {
        OverwriteKeeps(h, st, path, content, hash, now);
      } else {
        CreateKeeps(h, st, path, content, hash, id, now);
      }
    } else {
      var left := PutLeaves(st, path, content, f);
      assert st' == st.(store := Holding(st.store, path, left));
      BytesReplaced(h, st, path, left);
    }
  }

  lemma OverwriteKeeps<S>(h: Hasher<S>, st: State, path: string, content: seq<Byte>, hash: string, now: int)
    requires Inv(h, st) && ExistsLive(st.rows, path)
    ensures var st' := State(Overwrite(st.rows, path, Info(|content|, hash), now), st.store[path := content]);
      Files(st') == Files(st)[path := content] && (Inv(h, st') <==> Attests(h, hash, content))
  {
    var st' := State(Overwrite(st.rows, path, Info(|content|, hash), now), st.store[path := content]);
    forall p ensures ExistsLive(st'.rows, p) <==> ExistsLive(st.rows, p) {
      if id :| id in st.rows && LiveAt(st.rows, id, p) { assert LiveAt(st'.rows, id, p); }
      if id :| id in st'.rows && LiveAt(st'.rows, id, p) { assert LiveAt(st.rows, id, p); }
    }
    forall id | id in st'.rows && !st'.rows[id].deleted
      ensures Sound(h, st'.rows[id], st'.store) <==> st'.rows[id].path != path || Attests(h, hash, content)
    {
      assert Sound(h, st.rows[id], st.store);
    }
    var live :| live in st.rows && LiveAt(st.rows, live, path);
    assert Inv(h, st') ==> Sound(h, st'.rows[live], st'.store);
  }

  /** The rows after a create, and which paths are live in them. */
  lemma CreateLive(rows: Table<Info>, id: string, row: Row<Info>, p: string)
    requires !ExistsLive(rows, row.path) && id !in rows && !row.deleted
    ensures var rows' := Create(rows, id, row);
      rows'.Some? && (ExistsLive(rows'.value, p) <==> p == row.path || ExistsLive(rows, p))
  {
    var rows' := Create(rows, id, row).value;
    assert LiveAt(rows', id, row.path);
    if k :| k in rows && LiveAt(rows, k, p) { assert LiveAt(rows', k, p); }
    if k :| k in rows' && LiveAt(rows', k, p) && k != id { assert LiveAt(rows, k, p); }
  }

  lemma CreateUnique(rows: Table<Info>, id: string, row: Row<Info>)
    requires Unique(rows) && !ExistsLive(rows, row.path) && id !in rows
    ensures Unique(Create(rows, id, row).value)
  {
  }

  lemma CreateKeeps<S>(h: Hasher<S>, st: State, path: string, content: seq<Byte>, hash: string, id: string, now: int)
    requires Inv(h, st) && !ExistsLive(st.rows, path) && id !in st.rows
    ensures var rows := Create(st.rows, id, Row(path, Base(path), Info(|content|, hash), false, now));
      && rows.Some?
      && Files(State(rows.value, st.store[path := content])) == Files(st)[path := content]
      && (Inv(h, State(rows.value, st.store[path := content])) <==> Attests(h, hash, content))
  {
    var row := Row(path, Base(path), Info(|content|, hash), false, now);
    var st' := State(Create(st.rows, id, row).value, st.store[path := content]);
    forall p ensures ExistsLive(st'.rows, p) <==> p == path || ExistsLive(st.rows, p) {
      CreateLive(st.rows, id, row, p);
    }
    CreateUnique(st.rows, id, row);
    forall k | k in st'.rows && !st'.rows[k].deleted
      ensures Sound(h, st'.rows[k], st'.store) <==> k != id || Attests(h, hash, content)
    {
      if k != id { assert Sound(h, st.rows[k], st.store); }
    }
    assert Inv(h, st') ==> Sound(h, st'.rows[id], st'.store);
  }

  // ------------------------------------------------------------ deletes

  /** Only the row update is not made good: if it fails the file is gone for clients,
      and its row is the one that is no longer sound. */
  lemma DeleteRefines<S>(h: Hasher<S>, st: State, path: string, now: int, removeOk: bool, updateOk: bool)
    requires Inv(h, st)
    ensures var (st', r) := Delete(st, path, now, removeOk, updateOk);
      && (r.Ok? <==> path in Files(st) && removeOk && updateOk)
      && Files(st') == (if path in Files(st) && removeOk then Files(st) - {path} else Files(st))
      && (Inv(h, st') <==> !(path in Files(st) && removeOk && !updateOk))
  {
    var (st', r) := Delete(st, path, now, removeOk, updateOk);
    if ExistsLive(st.rows, path) {
      LiveSound(h, st, path);
      if removeOk && updateOk {
        DropKeeps(h, st, path, now);
      } else if removeOk {
        BytesReplaced(h, st, path, None);
      }
    }
  }

  lemma DropKeeps<S>(h: Hasher<S>, st: State, path: string, now: int)
    requires Inv(h, st)
    ensures var st' := State(Drop(st.rows, path, now), st.store - {path});
      Inv(h, st') && Files(st') == Files(st) - {path}
  {
    var st' := State(Drop(st.rows, path, now), st.store - {path});
    forall p | p != path ensures ExistsLive(st'.rows, p) <==> ExistsLive(st.rows, p) {
      if k :| k in st.rows && LiveAt(st.rows, k, p) { assert LiveAt(st'.rows, k, p); }
      if k :| k in st'.rows && LiveAt(st'.rows, k, p) { assert LiveAt(st.rows, k, p); }
    }
    forall k | k in st'.rows && !st'.rows[k].deleted ensures Sound(h, st'.rows[k], st'.store) {
      assert Sound(h, st.rows[k], st.store);
    }
  }

  // ------------------------------------------------------------ renames

  /** The storage rename went through and the row update did not. */
  predicate HalfRenamed(st: State, src: string, dst: string, lookupOk: bool, renameOk: bool, updateOk: bool) {
    && src in Files(st) && !(lookupOk && ExistsLive(st.rows, dst)) && renameOk
    && !(updateOk && (src == dst || Vacant(st.rows, dst)))
  }

  /** What a half-done rename leaves clients with. The bytes of a live file at the target
      are gone in any case. */
  function Halfway(files: map<string, seq<Byte>>, src: string, dst: string, undoOk: bool): map<string, seq<Byte>> {
    if src == dst then files
    else if undoOk then files - {dst}
    else if src in files && dst in files then (files - {src})[dst := files[src]]
    else files - {src}
  }

  /** The way back failed, or there was a live file in the way. */
  predicate Stranded(st: State, src: string, dst: string, lookupOk: bool, renameOk: bool, updateOk: bool, undoOk: bool) {
    HalfRenamed(st, src, dst, lookupOk, renameOk, updateOk) && src != dst && (!undoOk || ExistsLive(st.rows, dst))
  }

  /** A rename moves that one file; or reports an error, and then changes nothing clients
      see and leaves every live row sound, unless it is stranded half way. */
  lemma RenameRefines<S>(h: Hasher<S>, st: State, src: string, dst: string, now: int,
                         lookupOk: bool, renameOk: bool, updateOk: bool, undoOk: bool)
    requires Inv(h, st)
    ensures var (st', r) := Rename(st, src, dst, now, lookupOk, renameOk, updateOk, undoOk);
      var half := HalfRenamed(st, src, dst, lookupOk, renameOk, updateOk);
      && (r.Ok? <==>
            && src in Files(st) && !(lookupOk && ExistsLive(st.rows, dst)) && renameOk && updateOk
            && (src == dst || Vacant(st.rows, dst)))
      && (r.MetadataError? <==> half)
      && Files(st') == (if r.Ok? then (Files(st) - {src})[dst := Files(st)[src]]
                        else if half then Halfway(Files(st), src, dst, undoOk) else Files(st))
      && (Inv(h, st') <==> !Stranded(st, src, dst, lookupOk, renameOk, updateOk, undoOk))
  {
    var (st', r) := Rename(st, src, dst, now, lookupOk, renameOk, updateOk, undoOk);
    if ExistsLive(st.rows, src) {
      LiveSound(h, st, src);
      if r.Ok? {
        if src == dst { RenameInPlace(h, st, src, now); } else { RenameKeeps(h, st, src, dst, now); }
      } else if r.MetadataError? {
        HalfwayBytes(h, st, src, dst, undoOk);
      }
    }
  }

  /** A rename to the same name touches the row's name and time alone. */
  lemma RenameInPlace<S>(h: Hasher<S>, st: State, path: string, now: int)
    requires Inv(h, st) && ExistsLive(st.rows, path) && path in st.store
    ensures var st' := State(MoveLive(st.rows, path, path, now), Relocate(st.store, path, path));
      Inv(h, st') && Files(st') == Files(st) && Files(st) == (Files(st) - {path})[path := st.store[path]]
  {
    var st' := State(MoveLive(st.rows, path, path, now), Relocate(st.store, path, path));
    assert st'.store == st.store;
    forall p ensures ExistsLive(st'.rows, p) <==> ExistsLive(st.rows, p) {
      if k :| k in st.rows && LiveAt(st.rows, k, p) { assert LiveAt(st'.rows, k, p); }
      if k :| k in st'.rows && LiveAt(st'.rows, k, p) { assert LiveAt(st.rows, k, p); }
    }
    forall k | k in st'.rows && !st'.rows[k].deleted ensures Sound(h, st'.rows[k], st'.store) {
      assert Sound(h, st.rows[k], st.store);
    }
  }

  lemma HalfwayBytes<S>(h: Hasher<S>, st: State, src: string, dst: string, undoOk: bool)
    requires Inv(h, st) && ExistsLive(st.rows, src) && src in st.store
    ensures var moved := Relocate(st.store, src, dst);
      var st' := st.(store := if undoOk then Relocate(moved, dst, src) else moved);
      && Files(st') == Halfway(Files(st), src, dst, undoOk)
      && (Inv(h, st') <==> src == dst || (undoOk && !ExistsLive(st.rows, dst)))
  {
    var moved := Relocate(st.store, src, dst);
    if src == dst {
      assert moved == st.store && Relocate(moved, dst, src) == st.store;
    } else if undoOk {
      BytesReplaced(h, st, dst, None);
      assert Relocate(moved, dst, src) == Holding(st.store, dst, None);
      if ExistsLive(st.rows, dst) { LiveSound(h, st, dst); }
    } else {
      StrandedBytes(h, st, src, dst);
    }
  }

  /** Bytes moved away from under a live row. */
  lemma StrandedBytes<S>(h: Hasher<S>, st: State, src: string, dst: string)
    requires Inv(h, st) && ExistsLive(st.rows, src) && src in st.store && src != dst
    ensures var st' := st.(store := Relocate(st.store, src, dst));
      !Inv(h, st') && Files(st') == Halfway(Files(st), src, dst, false)
  {
    var st' := st.(store := Relocate(st.store, src, dst));
    var id :| id in st.rows && LiveAt(st.rows, id, src);
    assert !Sound(h, st.rows[id], st'.store);
    LiveSound(h, st, src);
    if ExistsLive(st.rows, dst) { LiveSound(h, st, dst); }
    RelocatedShown(st, src, dst);
  }

  lemma RelocatedShown(st: State, src: string, dst: string)
    requires src in st.store && src != dst && ExistsLive(st.rows, src) && (ExistsLive(st.rows, dst) ==> dst in st.store)
    ensures Files(st.(store := Relocate(st.store, src, dst))) == Halfway(Files(st), src, dst, false)
  {
  }

  /** Which paths have a live row after a move to a path that no row held. */
  lemma MoveLivePaths(rows: Table<Info>, src: string, dst: string, now: int, p: string)
    requires ExistsLive(rows, src) && Vacant(rows, dst)
    ensures ExistsLive(MoveLive(rows, src, dst, now), p) <==> p == dst || (p != src && ExistsLive(rows, p))
  {
    var moved := MoveLive(rows, src, dst, now);
    var id :| id in rows && LiveAt(rows, id, src);
    assert LiveAt(moved, id, dst);
    if k :| k in rows && LiveAt(rows, k, p) && p != src { assert LiveAt(moved, k, p); }
    if k :| k in moved && LiveAt(moved, k, p) && p != dst { assert LiveAt(rows, k, p); }
  }

  lemma MoveLiveUnique(rows: Table<Info>, src: string, dst: string, now: int)
    requires Unique(rows) && Vacant(rows, dst)
    ensures Unique(MoveLive(rows, src, dst, now))
  {
  }

  lemma MovedStaysSound<S>(h: Hasher<S>, st: State, src: string, dst: string, now: int, k: string)
    requires Inv(h, st) && src in st.store && Vacant(st.rows, dst) && k in st.rows && !st.rows[k].deleted
    ensures Sound(h, MoveLive(st.rows, src, dst, now)[k], Relocate(st.store, src, dst))
  {
    assert Sound(h, st.rows[k], st.store);
  }

  lemma RenameKeeps<S>(h: Hasher<S>, st: State, src: string, dst: string, now: int)
    requires Inv(h, st) && ExistsLive(st.rows, src) && src in st.store && Vacant(st.rows, dst)
    ensures var st' := State(MoveLive(st.rows, src, dst, now), Relocate(st.store, src, dst));
      Inv(h, st') && Files(st') == (Files(st) - {src})[dst := st.store[src]]
  {
    var st' := State(MoveLive(st.rows, src, dst, now), Relocate(st.store, src, dst));
    MoveLiveUnique(st.rows, src, dst, now);
    MovedShown(st, src, dst, now);
    forall k | k in st'.rows && !st'.rows[k].deleted ensures Sound(h, st'.rows[k], st'.store) {
      MovedStaysSound(h, st, src, dst, now, k);
    }
  }

  lemma MovedShown(st: State, src: string, dst: string, now: int)
    requires ExistsLive(st.rows, src) && src in st.store && Vacant(st.rows, dst)
    ensures Files(State(MoveLive(st.rows, src, dst, now), Relocate(st.store, src, dst))) ==
      (Files(st) - {src})[dst := st.store[src]]
  {
    forall p ensures ExistsLive(MoveLive(st.rows, src, dst, now), p) <==> p == dst || (p != src && ExistsLive(st.rows, p)) {
      MoveLivePaths(st.rows, src, dst, now, p);
    }
  }

  // ------------------------------------------------------------ cleanup

  /** A cleanup pass that nothing overlaps with keeps the invariant and takes nothing
      away that a client can see. */
  lemma CleanupInvisible<S>(h: Hasher<S>, st: State, cutoff: int, stuck: set<string>, kept: set<string>)
    requires Inv(h, st)
    ensures Inv(h, Cleanup(st, cutoff, stuck, kept)) && Files(Cleanup(st, cutoff, stuck, kept)) == Files(st)
  {
    var st', ids := Cleanup(st, cutoff, stuck, kept), Aged(st.rows, cutoff, stuck);
    forall id | id in st.rows && !st.rows[id].deleted
      ensures st.rows[id].path !in PathsOf(st.rows, ids)
    {
    }
    forall p ensures ExistsLive(st'.rows, p) <==> ExistsLive(st.rows, p) {
      if k :| k in st.rows && LiveAt(st.rows, k, p) { assert LiveAt(st'.rows, k, p); }
      if k :| k in st'.rows && LiveAt(st'.rows, k, p) { assert LiveAt(st.rows, k, p); }
    }
    forall k | k in st'.rows && !st'.rows[k].deleted ensures Sound(h, st'.rows[k], st'.store) {
      assert Sound(h, st.rows[k], st.store);
    }
  }

  /** Taking away a row that is deleted changes nothing. */
  lemma DeadRowGone<S>(h: Hasher<S>, st: State, id: string)
    requires Unique(st.rows) && (id in st.rows ==> st.rows[id].deleted)
    ensures Inv(h, st) <==> Inv(h, st.(rows := st.rows - {id}))
    ensures Files(st.(rows := st.rows - {id})) == Files(st)
  {
    var st' := st.(rows := st.rows - {id});
    if Inv(h, st') {
      forall k | k in st.rows && !st.rows[k].deleted ensures Sound(h, st.rows[k], st.store) {
        assert Sound(h, st'.rows[k], st'.store);
      }
    }
    forall p ensures ExistsLive(st'.rows, p) <==> ExistsLive(st.rows, p) {
      if k :| k in st.rows && LiveAt(st.rows, k, p) { assert LiveAt(st'.rows, k, p); }
      if k :| k in st'.rows && LiveAt(st'.rows, k, p) { assert LiveAt(st.rows, k, p); }
    }
  }

  /** One removal of an overlapping pass: harmless exactly if the path is not live again;
      otherwise the file there is gone for clients. */
  lemma ReapRefines<S>(h: Hasher<S>, st: State, id: string, path: string, removeOk: bool, deleteOk: bool)
    requires Inv(h, st) && (id in st.rows ==> st.rows[id].deleted)
    ensures var st' := Reap(st, id, path, removeOk, deleteOk);
      && (Inv(h, st') <==> !(removeOk && ExistsLive(st.rows, path)))
      && Files(st') == if removeOk then Files(st) - {path} else Files(st)
  {
    if removeOk {
      var mid := st.(store := Holding(st.store, path, None));
      BytesReplaced(h, st, path, None);
      DeadRowGone(h, mid, id);
    }
  }
}
