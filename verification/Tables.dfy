/** Metadata tables: rows by id, with the UNIQUE constraint on the path column that
    holds over live and soft-deleted rows alike. */
module Tables {

  datatype Row<T> = Row(path: string, name: string, info: T, deleted: bool, updatedAt: int)

  type Table<T> = map<string, Row<T>>

  predicate Unique<T>(t: Table<T>) {
    forall i, j :: i in t && j in t && t[i].path == t[j].path ==> i == j
  }

  predicate LiveAt<T>(t: Table<T>, id: string, path: string) {
    id in t && t[id].path == path && !t[id].deleted
  }

  predicate ExistsLive<T>(t: Table<T>, path: string) {
    exists id :: id in t && LiveAt(t, id, path)
  }

  datatype Option<T> = None | Some(value: T)

  /** The id of the live row at a path. */
  method GetByPath<T>(t: Table<T>, path: string) returns (r: Option<string>)
    ensures r.Some? <==> ExistsLive(t, path)
    ensures r.Some? ==> LiveAt(t, r.value, path)
  {
    if id :| id in t && LiveAt(t, id, path) {
      return Some(id);
    }
    return None;
  }

  predicate Taken<T>(t: Table<T>, id: string, path: string) {
    exists other :: other in t && other != id && t[other].path == path
  }

  /** UPDATE of one row's path: refused if another row holds the path. */
  function SetPath<T>(t: Table<T>, id: string, path: string, name: string, now: int): (r: Option<Table<T>>)
    ensures Unique(t) && r.Some? ==> Unique(r.value)
  {
    if id !in t then Some(t)
    else if Taken(t, id, path) then None
    else Some(t[id := t[id].(path := path, name := name, updatedAt := now)])
  }
}
