/** What a list of accepted writes means: the bytes it covers, how many bytes it
    carried, the interval list it leaves and the file it leaves. The list is in
    order of arrival; parts may overlap, repeat and be empty. */
module PartLog {
  import opened ByteRanges
  import opened StreamDigest

  datatype Part = Part(offset: int, data: seq<Byte>) {
    function End(): int { offset + |data| }

    predicate Within(total: nat) { 0 <= offset && End() <= total }

    function Span(): set<int> { Bytes(offset, End()) }

    predicate Has(x: int) { offset <= x < End() }

    /** No byte lies in both parts. An empty part is apart from every part. */
    predicate Apart(q: Part) {
      data == [] || q.data == [] || End() <= q.offset || q.End() <= offset
    }
  }

  predicate AllWithin(ps: seq<Part>, total: nat) {
    forall i :: 0 <= i < |ps| ==> ps[i].Within(total)
  }

  function Init(ps: seq<Part>): seq<Part>
    requires ps != []
  {
    ps[..|ps| - 1]
  }

  function Last(ps: seq<Part>): Part
    requires ps != []
  {
    ps[|ps| - 1]
  }

  /** Bytes carried, counting every repetition. */
  function Carried(ps: seq<Part>): nat {
    if ps == [] then 0 else Carried(Init(ps)) + |Last(ps).data|
  }

  /** Bytes touched by some part. */
  function Touched(ps: seq<Part>): set<int> {
    if ps == [] then {} else Touched(Init(ps)) + Last(ps).Span()
  }

  /** The interval list after merging the parts in arrival order. */
  function Ranges(ps: seq<Part>): seq<ByteRange> {
    if ps == [] then [] else Insert(Ranges(Init(ps)), Last(ps).offset, Last(ps).End())
  }

  function WriteAt(file: seq<Byte>, p: Part): (r: seq<Byte>)
    requires p.Within(|file|)
    ensures |r| == |file|
  {
    file[..p.offset] + p.data + file[p.End()..]
  }

  lemma WriteAtByte(file: seq<Byte>, p: Part, x: int)
    requires p.Within(|file|) && 0 <= x < |file|
    ensures WriteAt(file, p)[x] == if p.Has(x) then p.data[x - p.offset] else file[x]
  {
  }

  function Zeros(n: nat): (r: seq<Byte>)
    ensures |r| == n
  {
    if n == 0 then [] else Zeros(n - 1) + [0]
  }

  /** The temp file: zero-filled at creation, then written in arrival order. */
  function FileOf(ps: seq<Part>, total: nat): (r: seq<Byte>)
    requires AllWithin(ps, total)
    ensures |r| == total
  {
    if ps == [] then Zeros(total) else WriteAt(FileOf(Init(ps), total), Last(ps))
  }

  /** No byte lies in two parts. */
  predicate Disjoint(ps: seq<Part>) {
    forall i, j :: 0 <= i < j < |ps| ==> ps[i].Apart(ps[j])
  }

  /** The parts cut [0, total) into disjoint pieces that leave nothing out. */
  predicate Tiles(ps: seq<Part>, total: nat) {
    Disjoint(ps) && Touched(ps) == Bytes(0, total)
  }

  /** What one more accepted part adds to each reading of the log. */
  lemma LogSnoc(ps: seq<Part>, p: Part, total: nat)
    requires AllWithin(ps, total) && p.Within(total)
    ensures AllWithin(ps + [p], total)
    ensures FileOf(ps + [p], total) == WriteAt(FileOf(ps, total), p)
    ensures Ranges(ps + [p]) == Insert(Ranges(ps), p.offset, p.End())
    ensures Carried(ps + [p]) == Carried(ps) + |p.data|
  {
    assert Init(ps + [p]) == ps && Last(ps + [p]) == p;
  }

  lemma {:induction false} TouchedAt(ps: seq<Part>, x: int)
    ensures x in Touched(ps) <==> exists p :: p in ps && p.Has(x)
  {
    if ps != [] {
      TouchedAt(Init(ps), x);
      assert ps == Init(ps) + [Last(ps)];
      assert Last(ps) in ps;
    }
  }

  lemma {:induction false} RangesNormal(ps: seq<Part>)
    ensures Normal(Ranges(ps))
  {
    if ps != [] {
      RangesNormal(Init(ps));
      InsertNormal(Ranges(Init(ps)), Last(ps).offset, Last(ps).End());
    }
  }

  lemma {:induction false} RangesCover(ps: seq<Part>)
    ensures Covered(Ranges(ps)) == Touched(ps)
  {
    if ps != [] {
      RangesCover(Init(ps));
      InsertCovers(Ranges(Init(ps)), Last(ps).offset, Last(ps).End());
    }
  }

  /** The interval list is the normal form of the touched bytes. */
  lemma RangesCorrect(ps: seq<Part>)
    ensures Normal(Ranges(ps)) && Covered(Ranges(ps)) == Touched(ps)
  {
    RangesNormal(ps);
    RangesCover(ps);
  }

  lemma TouchedWithin(ps: seq<Part>, total: nat)
    requires AllWithin(ps, total)
    ensures Touched(ps) <= Bytes(0, total)
  {
    forall x | x in Touched(ps) ensures x in Bytes(0, total) {
      TouchedAt(ps, x);
    }
  }

  lemma UnionSize(a: set<int>, b: set<int>)
    ensures |a + b| + |a * b| == |a| + |b|
  {
    assert a + b == a + (b - a);
    assert b == (b - a) + a * b;
  }

  /** Counting: parts carry at least as many bytes as they touch, and exactly as
      many when no two of them overlap. */
  lemma {:induction false} CarriedVersusTouched(ps: seq<Part>)
    ensures |Touched(ps)| <= Carried(ps)
    ensures |Touched(ps)| == Carried(ps) <==> Disjoint(ps)
  {
    if ps != [] {
      var front, p := Init(ps), Last(ps);
      CarriedVersusTouched(front);
      UnionSize(Touched(front), p.Span());
      ApartFromAll(front, p);
      DisjointSnoc(ps);
    }
  }

  lemma DisjointSnoc(ps: seq<Part>)
    requires ps != []
    ensures Disjoint(ps) <==>
      && Disjoint(Init(ps))
      && (forall i :: 0 <= i < |Init(ps)| ==> Init(ps)[i].Apart(Last(ps)))
  {
    var front, p := Init(ps), Last(ps);
    assert forall i :: 0 <= i < |front| ==> front[i] == ps[i];
    if Disjoint(ps) {
      assert forall i :: 0 <= i < |front| ==> front[i].Apart(p);
    }
  }

  /** A part misses every touched byte exactly when it is apart from every part. */
  lemma ApartFromAll(ps: seq<Part>, p: Part)
    ensures Touched(ps) * p.Span() == {} <==> forall i :: 0 <= i < |ps| ==> ps[i].Apart(p)
  {
    if Touched(ps) * p.Span() == {} {
      forall i | 0 <= i < |ps| ensures ps[i].Apart(p) {
        var x := Max(ps[i].offset, p.offset);
        TouchedAt(ps, x);
        assert ps[i] in ps;
        assert x !in Touched(ps) * p.Span();
      }
    }
    if forall i :: 0 <= i < |ps| ==> ps[i].Apart(p) {
      forall x | x in Touched(ps) ensures x !in p.Span() {
        TouchedAt(ps, x);
      }
    }
  }

  /** In a file written by disjoint parts, each part's bytes are where it put them. */
  lemma {:induction false} FileAt(ps: seq<Part>, total: nat, k: nat, x: int)
    requires AllWithin(ps, total) && Disjoint(ps)
    requires k < |ps| && ps[k].Has(x)
    ensures FileOf(ps, total)[x] == ps[k].data[x - ps[k].offset]
  {
    WriteAtByte(FileOf(Init(ps), total), Last(ps), x);
    if k < |ps| - 1 {
      assert ps[k].Apart(ps[|ps| - 1]);
      FileAt(Init(ps), total, k, x);
    }
  }

  /** The byte disjoint parts leave at x is the one its only covering part carries. */
  lemma StoredByte(ps: seq<Part>, total: nat, p: Part, x: int)
    requires AllWithin(ps, total) && Disjoint(ps)
    requires p in ps && p.Has(x)
    ensures 0 <= x < total && FileOf(ps, total)[x] == p.data[x - p.offset]
  {
    var k :| 0 <= k < |ps| && ps[k] == p;
    FileAt(ps, total, k, x);
  }

  ghost predicate SameNonEmptyParts(ps: seq<Part>, qs: seq<Part>) {
    forall p: Part :: p.data != [] ==> (p in ps <==> p in qs)
  }

  /** The stored bytes are a function of the set of non-empty parts. */
  lemma FileDependsOnPartSet(ps: seq<Part>, qs: seq<Part>, total: nat)
    requires AllWithin(ps, total) && AllWithin(qs, total)
    requires Tiles(ps, total) && Tiles(qs, total) && SameNonEmptyParts(ps, qs)
    ensures FileOf(ps, total) == FileOf(qs, total)
  {
    var f, g := FileOf(ps, total), FileOf(qs, total);
    forall x | 0 <= x < total ensures f[x] == g[x] {
      assert x in Touched(ps);
      TouchedAt(ps, x);
      var p :| p in ps && p.Has(x);
      StoredByte(ps, total, p, x);
      StoredByte(qs, total, p, x);
    }
  }

  lemma {:induction false} CarriedRemove(ps: seq<Part>, k: nat)
    requires k < |ps|
    ensures Carried(ps) == Carried(ps[..k] + ps[k + 1..]) + |ps[k].data|
  {
    var rest := ps[..k] + ps[k + 1..];
    if k == |ps| - 1 {
      assert rest == Init(ps);
    } else {
      CarriedRemove(Init(ps), k);
      assert Init(rest) == Init(ps)[..k] + Init(ps)[k + 1..];
      assert Last(rest) == Last(ps);
    }
  }

  lemma {:induction false} CarriedPermutes(ps: seq<Part>, qs: seq<Part>)
    requires multiset(ps) == multiset(qs)
    ensures Carried(ps) == Carried(qs)
  {
    assert |ps| == |multiset(ps)| == |multiset(qs)| == |qs|;
    if ps != [] {
      var p := Last(ps);
      assert ps == Init(ps) + [p];
      assert p in multiset(qs);
      var k :| 0 <= k < |qs| && qs[k] == p;
      var rest := qs[..k] + qs[k + 1..];
      assert qs == qs[..k] + [p] + qs[k + 1..];
      assert multiset(rest) == multiset(qs) - multiset{p};
      assert multiset(Init(ps)) == multiset(ps) - multiset{p};
      CarriedPermutes(Init(ps), rest);
      CarriedRemove(qs, k);
    }
  }

  /** Arrival order changes neither the counter, nor the interval list, nor
      whether the parts tile the file. */
  lemma OrderIrrelevant(ps: seq<Part>, qs: seq<Part>, total: nat)
    requires multiset(ps) == multiset(qs)
    ensures Carried(ps) == Carried(qs) && Ranges(ps) == Ranges(qs)
    ensures Tiles(ps, total) <==> Tiles(qs, total)
  {
    CarriedPermutes(ps, qs);
    SameTouched(ps, qs);
    RangesCorrect(ps);
    RangesCorrect(qs);
    NormalUnique(Ranges(ps), Ranges(qs));
    CarriedVersusTouched(ps);
    CarriedVersusTouched(qs);
  }

  lemma SameTouched(ps: seq<Part>, qs: seq<Part>)
    requires multiset(ps) == multiset(qs)
    ensures Touched(ps) == Touched(qs)
  {
    assert forall p :: p in ps <==> p in multiset(ps);
    assert forall p :: p in qs <==> p in multiset(qs);
    forall x ensures x in Touched(ps) <==> x in Touched(qs) {
      TouchedAt(ps, x);
      TouchedAt(qs, x);
    }
  }
}
