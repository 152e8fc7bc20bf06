/** Directory listing: which paths the query selects, and how pages are cut. */
module Listing {
  import opened Dialects
  import opened Like
  import opened Paths

  // ------------------------------------------------- what is selected

  /** The WHERE clause on the path column, for a normalized directory. */
  predicate Listed(d: Dialect, dir: string, recursive: bool, path: string) {
    if dir == "" then recursive || !Matches(d, "%/%", path)
    else
      && Matches(d, Escape(dir + "/") + "%", path)
      && (recursive || !Matches(d, Escape(dir + "/") + "%/%", path))
  }

  function FoldText(d: Dialect, s: string): string {
    seq(|s|, i requires 0 <= i < |s| => Fold(d, s[i]))
  }

  function FoldAll(d: Dialect, cs: seq<string>): seq<string> {
    seq(|cs|, i requires 0 <= i < |cs| => FoldText(d, cs[i]))
  }

  lemma StartsWithFolded(d: Dialect, p: string, s: string)
    ensures StartsWith(d, p, s) <==> FoldText(d, p) <= FoldText(d, s)
  {
    if StartsWith(d, p, s) {
      assert forall i :: 0 <= i < |p| ==> FoldText(d, p)[i] == FoldText(d, s)[i] by {
        assert forall i :: 0 <= i < |p| ==> Same(d, p[i], s[i]);
      }
    }
    if FoldText(d, p) <= FoldText(d, s) {
      forall i | 0 <= i < |p| ensures Same(d, p[i], s[i]) {
        assert FoldText(d, p)[i] == FoldText(d, s)[i];
      }
    }
  }

  lemma FoldConcat(d: Dialect, a: string, b: string)
    ensures FoldText(d, a + b) == FoldText(d, a) + FoldText(d, b)
  {
  }

  lemma {:induction false} FoldJoin(d: Dialect, cs: seq<string>)
    ensures FoldText(d, Join(cs)) == Join(FoldAll(d, cs))
  {
    if |cs| == 1 {
      assert FoldAll(d, cs) == [FoldText(d, cs[0])];
    } else if |cs| > 1 {
      FoldJoin(d, cs[1..]);
      FoldConcat(d, cs[0], "/");
      FoldConcat(d, cs[0] + "/", Join(cs[1..]));
      assert FoldText(d, "/") == "/";
      assert FoldAll(d, cs)[1..] == FoldAll(d, cs[1..]);
    }
  }

  lemma FoldPlain(d: Dialect, cs: seq<string>)
    requires AllPlain(cs)
    ensures AllPlain(FoldAll(d, cs))
  {
    forall i | 0 <= i < |cs| ensures Plain(FoldAll(d, cs)[i]) {
      forall c | c in FoldText(d, cs[i]) ensures c != '/' {
        var j :| 0 <= j < |cs[i]| && c == FoldText(d, cs[i])[j];
        assert cs[i][j] in cs[i];
      }
    }
  }

  lemma {:induction false} SlashInJoin(cs: seq<string>)
    requires cs != [] && AllPlain(cs)
    ensures '/' in Join(cs) <==> |cs| > 1
  {
    if |cs| > 1 {
      assert '/' in cs[0] + "/" + Join(cs[1..]) by { assert (cs[0] + "/" + Join(cs[1..]))[|cs[0]|] == '/'; }
    } else {
      assert Plain(cs[0]);
    }
  }

  /** The prefix query selects what lies under the directory, as the dialect compares
      components. */
  lemma PrefixSelects(d: Dialect, ds: seq<string>, cs: seq<string>)
    requires ds != [] && cs != [] && AllPlain(ds) && AllPlain(cs)
    ensures StartsWith(d, Join(ds) + "/", Join(cs)) <==> |ds| < |cs| && FoldAll(d, ds) <= FoldAll(d, cs)
  {
    StartsWithFolded(d, Join(ds) + "/", Join(cs));
    FoldConcat(d, Join(ds), "/");
    assert FoldText(d, "/") == "/";
    FoldJoin(d, ds);
    FoldJoin(d, cs);
    FoldPlain(d, ds);
    FoldPlain(d, cs);
    UnderIffDescendant(FoldAll(d, ds), FoldAll(d, cs));
  }

  /** What follows the directory in a selected path has a slash exactly when the path
      lies more than one level below. */
  lemma DepthBelow(d: Dialect, ds: seq<string>, cs: seq<string>)
    requires ds != [] && cs != [] && AllPlain(ds) && AllPlain(cs)
    requires |ds| < |cs| && FoldAll(d, ds) <= FoldAll(d, cs)
    ensures |Join(ds)| + 1 <= |Join(cs)|
    ensures '/' in Join(cs)[|Join(ds)| + 1..] <==> |cs| > |ds| + 1
  {
    SameLength(d, ds, cs);
    SlashBelow(cs, |ds|);
  }

  lemma SlashBelow(cs: seq<string>, n: nat)
    requires AllPlain(cs) && 0 < n < |cs|
    ensures |Join(cs[..n])| + 1 <= |Join(cs)|
    ensures '/' in Join(cs)[|Join(cs[..n])| + 1..] <==> |cs| > n + 1
  {
    var top, rest := cs[..n], cs[n..];
    assert cs == top + rest;
    JoinConcat(top, rest);
    assert Join(cs)[|Join(top)| + 1..] == Join(rest);
    SlashInJoin(rest);
  }

  lemma SameLength(d: Dialect, ds: seq<string>, cs: seq<string>)
    requires FoldAll(d, ds) <= FoldAll(d, cs)
    ensures |ds| <= |cs| && |Join(cs[..|ds|])| == |Join(ds)|
  {
    assert |ds| == |FoldAll(d, ds)| <= |FoldAll(d, cs)| == |cs|;
    var top := cs[..|ds|];
    forall i | 0 <= i < |ds| ensures FoldAll(d, ds)[i] == FoldAll(d, top)[i] {
      assert FoldAll(d, ds)[i] == FoldAll(d, cs)[i];
    }
    assert FoldAll(d, ds) == FoldAll(d, top);
    FoldJoin(d, top);
    FoldJoin(d, ds);
    assert |FoldText(d, Join(top))| == |Join(top)| && |FoldText(d, Join(ds))| == |Join(ds)|;
  }

  /** A listing selects the paths that are below the directory: all of them, or those
      exactly one level down. For PostgreSQL components are compared as they are, for
      SQLite without regard to ASCII case. */
  lemma ListedIsBelow(d: Dialect, ds: seq<string>, cs: seq<string>, recursive: bool)
    requires cs != [] && AllPlain(cs) && AllPlain(ds) && (ds != [] ==> Join(ds) != "")
    ensures Listed(d, Join(ds), recursive, Join(cs)) <==>
      FoldAll(d, ds) <= FoldAll(d, cs) && (if recursive then |cs| > |ds| else |cs| == |ds| + 1)
  {
    if ds == [] {
      InnerSlash(d, Join(cs));
      SlashInJoin(cs);
    } else {
      var p := Join(ds) + "/";
      PrefixPattern(d, p, Join(cs));
      NestedPattern(d, p, Join(cs));
      PrefixSelects(d, ds, cs);
      if |ds| < |cs| && FoldAll(d, ds) <= FoldAll(d, cs) { DepthBelow(d, ds, cs); }
    }
  }

  lemma PostgresComparesExactly(ds: seq<string>, cs: seq<string>)
    ensures FoldAll(PostgreSQL, ds) <= FoldAll(PostgreSQL, cs) <==> ds <= cs
  {
    assert forall s: string :: FoldText(PostgreSQL, s) == s;
    assert FoldAll(PostgreSQL, ds) == ds && FoldAll(PostgreSQL, cs) == cs;
  }

  // ------------------------------------------------------------ pages

  const DEFAULT_PAGE_SIZE := 20

  function Page(page: int): (r: nat) ensures r >= 1 { if page < 1 then 1 else page }

  function Size(size: int): (r: nat) ensures r >= 1 { if size < 1 then DEFAULT_PAGE_SIZE else size }

  /** Where a page starts. */
  function Offset(page: nat, size: nat): nat
    requires page >= 1
  {
    (page - 1) * size
  }

  /** LIMIT and OFFSET. */
  function Window<T>(rows: seq<T>, offset: nat, limit: nat): seq<T> {
    if offset >= |rows| then [] else if offset + limit >= |rows| then rows[offset..] else rows[offset..offset + limit]
  }

  /** One page of the ordered rows: a row more than the page is fetched, only to see
      whether there is one. */
  method ListPage<T>(rows: seq<T>, page0: int, pageSize0: int) returns (items: seq<T>, hasMore: bool)
    ensures items == Window(rows, Offset(Page(page0), Size(pageSize0)), Size(pageSize0))
    ensures hasMore <==> Offset(Page(page0), Size(pageSize0)) + Size(pageSize0) < |rows|
    ensures var size := if pageSize0 < 1 then 20 else pageSize0;
      var from := if page0 < 1 then 0 else (page0 - 1) * size;
      && |items| == (if |rows| <= from then 0 else if |rows| - from < size then |rows| - from else size)
      && (forall k :: 0 <= k < |items| ==> items[k] == rows[from + k])
      && (hasMore <==> from + size < |rows|)
  {
    var page, pageSize := Page(page0), Size(pageSize0);
    var fetchLimit := pageSize + 1;
    var offset := Offset(page, pageSize);
    items := Window(rows, offset, fetchLimit);
    hasMore := |items| > pageSize;
    if hasMore {
      items := items[..pageSize];
    }
  }

  lemma NextOffset(page: nat, size: nat)
    requires page >= 1
    ensures Offset(page + 1, size) == Offset(page, size) + size
  {
  }

  /** A client that asks for page after page, as long as it is told there is more, is
      given every row once, in order, for any page size. */
  method ReadPages<T>(rows: seq<T>, pageSize: int) returns (all: seq<T>)
    ensures all == rows
  {
    var page := 1;
    var hasMore;
    all, hasMore := ListPage(rows, page, pageSize);
    while hasMore
      invariant page >= 1 && hasMore == (Offset(page, Size(pageSize)) + Size(pageSize) < |rows|)
      invariant all == if hasMore then rows[..Offset(page, Size(pageSize)) + Size(pageSize)] else rows
      decreases |rows| - Offset(page, Size(pageSize))
    {
      NextOffset(page, Size(pageSize));
      page := page + 1;
      var items;
      items, hasMore := ListPage(rows, page, pageSize);
      all := all + items;
    }
  }
}
