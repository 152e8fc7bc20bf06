/** Sorted lists of half-open byte intervals, as kept by a multipart upload
    session in `coveredRanges`. A list in normal form has non-empty intervals
    separated by strict gaps; it is the only normal form of the bytes it covers. */
module ByteRanges {

  datatype ByteRange = ByteRange(start: int, end: int)

  /** The bytes of the half-open interval [start, end). */
  function Bytes(start: int, end: int): (r: set<int>)
    ensures forall x :: x in r <==> start <= x < end
    ensures start <= end ==> |r| == end - start
    decreases end - start
  {
    if start >= end then {} else Bytes(start, end - 1) + {end - 1}
  }

  /** The bytes covered by a list of intervals. */
  function Covered(rs: seq<ByteRange>): set<int> {
    if rs == [] then {} else Bytes(rs[0].start, rs[0].end) + Covered(rs[1..])
  }

  /** Non-empty intervals, sorted, each ending strictly before the next starts. */
  predicate Normal(rs: seq<ByteRange>) {
    && (forall i :: 0 <= i < |rs| ==> rs[i].start < rs[i].end)
    && (forall i, j :: 0 <= i < j < |rs| ==> rs[i].end < rs[j].start)
  }

  /** The list after [start, end) has been merged in. */
  function Insert(rs: seq<ByteRange>, start: int, end: int): seq<ByteRange>
    decreases |rs|
  {
    if start >= end then rs
    else if rs == [] then [ByteRange(start, end)]
    else if rs[0].end < start then [rs[0]] + Insert(rs[1..], start, end)
    else if rs[0].start > end then [ByteRange(start, end)] + rs
    else Insert(rs[1..], Min(rs[0].start, start), Max(rs[0].end, end))
  }

  function Min(x: int, y: int): int { if x < y then x else y }

  function Max(x: int, y: int): int { if x > y then x else y }

  lemma {:induction false} CoveredAt(rs: seq<ByteRange>, x: int)
    ensures x in Covered(rs) <==> exists i :: 0 <= i < |rs| && rs[i].start <= x < rs[i].end
  {
    if rs != [] {
      CoveredAt(rs[1..], x);
      if x in Covered(rs[1..]) {
        var i :| 0 <= i < |rs[1..]| && rs[1..][i].start <= x < rs[1..][i].end;
        assert rs[i + 1].start <= x < rs[i + 1].end;
      }
      if i :| 0 <= i < |rs| && rs[i].start <= x < rs[i].end {
        if i > 0 {
          assert rs[1..][i - 1].start <= x < rs[1..][i - 1].end;
        }
      }
    }
  }

  /** Every byte covered by a normal list lies at or after its first start. */
  lemma {:induction false} CoveredFrom(rs: seq<ByteRange>, low: int)
    requires Normal(rs)
    requires rs != [] ==> low <= rs[0].start
    ensures forall x :: x in Covered(rs) ==> low <= x
  {
    if rs != [] {
      CoveredFrom(rs[1..], low);
    }
  }

  /** Merging keeps the normal form. */
  lemma {:induction false} InsertNormal(rs: seq<ByteRange>, start: int, end: int)
    requires Normal(rs)
    ensures Normal(Insert(rs, start, end))
    ensures start < end ==>
      && Insert(rs, start, end) != []
      && Insert(rs, start, end)[0].start == if rs == [] then start else Min(start, rs[0].start)
    decreases |rs|
  {
    if start >= end || rs == [] {
    } else if rs[0].end < start {
      InsertNormal(rs[1..], start, end);
      NormalCons(rs[0], Insert(rs[1..], start, end));
    } else if rs[0].start > end {
      NormalCons(ByteRange(start, end), rs);
    } else {
      InsertNormal(rs[1..], Min(rs[0].start, start), Max(rs[0].end, end));
    }
  }

  lemma NormalCons(r: ByteRange, rs: seq<ByteRange>)
    requires Normal(rs) && r.start < r.end
    requires rs != [] ==> r.end < rs[0].start
    ensures Normal([r] + rs)
  {
    var all := [r] + rs;
    assert forall i :: 1 <= i < |all| ==> all[i] == rs[i - 1];
    assert forall i :: 1 <= i < |rs| ==> rs[0].end < rs[i].start;
  }

  /** Merging covers exactly the union of the old bytes and the new ones. */
  lemma {:induction false} InsertCovers(rs: seq<ByteRange>, start: int, end: int)
    ensures Covered(Insert(rs, start, end)) == Covered(rs) + Bytes(start, end)
    decreases |rs|
  {
    if start >= end || rs == [] {
    } else if rs[0].end < start {
      InsertCovers(rs[1..], start, end);
      assert ([rs[0]] + Insert(rs[1..], start, end))[1..] == Insert(rs[1..], start, end);
    } else if rs[0].start > end {
      assert ([ByteRange(start, end)] + rs)[1..] == rs;
    } else {
      MergeCovers(rs, start, end);
    }
  }

  lemma {:induction false} MergeCovers(rs: seq<ByteRange>, start: int, end: int)
    requires rs != [] && start < end && start <= rs[0].end && rs[0].start <= end
    ensures Covered(Insert(rs, start, end)) == Covered(rs) + Bytes(start, end)
    decreases |rs|, 0
  {
    var s, e := Min(rs[0].start, start), Max(rs[0].end, end);
    InsertCovers(rs[1..], s, e);
    assert Bytes(s, e) == Bytes(rs[0].start, rs[0].end) + Bytes(start, end);
  }

  /** Two normal lists that cover the same bytes are the same list. */
  lemma {:induction false} NormalUnique(a: seq<ByteRange>, b: seq<ByteRange>)
    requires Normal(a) && Normal(b) && Covered(a) == Covered(b)
    ensures a == b
  {
    NonEmptyCovers(a);
    NonEmptyCovers(b);
    if a != [] {
      SameHead(a, b);
      NormalUnique(a[1..], b[1..]);
      assert a == [a[0]] + a[1..] && b == [b[0]] + b[1..];
    }
  }

  lemma SameHead(a: seq<ByteRange>, b: seq<ByteRange>)
    requires Normal(a) && Normal(b) && a != [] && b != [] && Covered(a) == Covered(b)
    ensures a[0] == b[0] && Normal(a[1..]) && Normal(b[1..]) && Covered(a[1..]) == Covered(b[1..])
  {
    HeadAgrees(a, b);
    HeadAgrees(b, a);
    TailCovers(a);
    TailCovers(b);
  }

  lemma NonEmptyCovers(rs: seq<ByteRange>)
    requires Normal(rs)
    ensures rs == [] <==> Covered(rs) == {}
  {
    if rs != [] {
      assert rs[0].start in Covered(rs);
    }
  }

  lemma HeadAgrees(a: seq<ByteRange>, b: seq<ByteRange>)
    requires Normal(a) && Normal(b) && a != [] && b != [] && Covered(a) == Covered(b)
    ensures a[0].start >= b[0].start
    ensures a[0].start == b[0].start ==> a[0].end <= b[0].end
  {
    assert a[0].start in Covered(a);
    CoveredFrom(b, b[0].start);
    if a[0].start == b[0].start && a[0].end > b[0].end {
      assert b[0].end in Bytes(a[0].start, a[0].end);
      CoveredFrom(b[1..], b[0].end + 1);
    }
  }

  /** The tail covers what the whole covers, less the head. */
  lemma TailCovers(rs: seq<ByteRange>)
    requires Normal(rs) && rs != []
    ensures Covered(rs[1..]) == Covered(rs) - Bytes(rs[0].start, rs[0].end)
  {
    CoveredFrom(rs[1..], rs[0].end + 1);
  }

  /** A normal list covers [0, total) exactly when it is that single interval. */
  lemma CoversAllIsSingleton(rs: seq<ByteRange>, total: nat)
    requires Normal(rs)
    ensures Covered(rs) == Bytes(0, total) <==> rs == if total == 0 then [] else [ByteRange(0, total)]
  {
    var whole := if total == 0 then [] else [ByteRange(0, total)];
    assert Covered(whole) == Bytes(0, total);
    if Covered(rs) == Bytes(0, total) {
      NormalUnique(rs, whole);
    }
  }
}
