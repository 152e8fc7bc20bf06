/** The rules that Go's path package gives for cleaning a path, with leading slashes taken
    off at the end. They determine the normal form: it obeys them, and whatever obeys them
    is the normal form. */
module PathRules {
  import opened Paths

  // --------------------------------------------------------- the rules

  /** Two ends of a path put together; the root stays the root. */
  function Rest(a: seq<string>, b: seq<string>): seq<string> {
    if a == [""] && b == [] then ["", ""] else a + b
  }

  /** A dot or an empty component after the first goes. */
  predicate Vanishes(f: string -> string, a: seq<string>, c: string, b: seq<string>) {
    AllPlain(a) && AllPlain(b) && a != [] && (c == "." || c == "") ==>
      f(Join(a + [c] + b)) == f(Join(Rest(a, b)))
  }

  /** A dot-dot takes the name before it along. */
  predicate TakesBack(f: string -> string, a: seq<string>, x: string, b: seq<string>) {
    AllPlain(a) && AllPlain(b) && a != [] && Name(x) ==>
      f(Join(a + [x, ".."] + b)) == f(Join(Rest(a, b)))
  }

  /** At the front of a relative path a dot goes, and so does a name with a dot-dot. */
  predicate FrontGoes(f: string -> string, x: string, b: seq<string>) {
    AllPlain(b) && (b == [] || b[0] != "") ==>
      && f(Join(["."] + b)) == f(Join(b))
      && (Name(x) ==> f(Join([x, ".."] + b)) == f(Join(b)))
  }

  /** A dot-dot at the root goes. */
  predicate RootStays(f: string -> string, b: seq<string>) {
    AllPlain(b) ==> f(Join(["", ".."] + b)) == f(Join(Rest([""], b)))
  }

  /** What cannot be reduced is kept, less a leading slash. */
  predicate Keeps(f: string -> string, cs: seq<string>) {
    cs != [] && Canonical(cs) ==>
      && f(Join(cs)) == Join(cs)
      && (".." !in cs ==> f("/" + Join(cs)) == Join(cs))
  }

  ghost predicate Obeys(f: string -> string) {
    && (forall a, c, b :: Vanishes(f, a, c, b))
    && (forall a, x, b :: TakesBack(f, a, x, b))
    && (forall x, b :: FrontGoes(f, x, b))
    && (forall b :: RootStays(f, b))
    && (forall cs :: Keeps(f, cs))
    && f("") == "." && f("/") == ""
  }

  // ---------------------------------------- the normal form obeys them

  /** Components are resolved from the left. */
  lemma {:induction false} ResolveConcat(rooted: bool, done: seq<string>, a: seq<string>, b: seq<string>)
    ensures Resolve(rooted, done, a + b) == Resolve(rooted, Resolve(rooted, done, a), b)
    decreases |a|
  {
    if a == [] {
      assert a + b == b;
    } else {
      assert (a + b)[1..] == a[1..] + b;
      if a[0] == "" || a[0] == "." {
        ResolveConcat(rooted, done, a[1..], b);
      } else if a[0] == ".." {
        if done != [] && done[|done| - 1] != ".." {
          ResolveConcat(rooted, done[..|done| - 1], a[1..], b);
        } else if rooted {
          ResolveConcat(rooted, done, a[1..], b);
        } else {
          ResolveConcat(rooted, done + [".."], a[1..], b);
        }
      } else {
        ResolveConcat(rooted, done + [a[0]], a[1..], b);
      }
    }
  }

  lemma FirstChar(cs: seq<string>)
    requires cs != [] && cs != [""] && AllPlain(cs)
    ensures Join(cs) != "" && (Join(cs)[0] == '/' <==> cs[0] == "")
  {
    if cs[0] != "" {
      assert cs[0][0] in cs[0];
    } else {
      assert |cs| > 1;
    }
  }

  /** The normal form by components: rooted if the first of several is empty. */
  lemma NormalByComponents(cs: seq<string>)
    requires cs != [""] && AllPlain(cs)
    ensures var rooted := cs != [] && cs[0] == "";
      var done := Resolve(rooted, [], cs);
      Normal(Join(cs)) == if !rooted && done == [] then "." else Join(done)
  {
    if cs == [] {
      StripOne(".");
    } else {
      SplitJoin(cs);
      var rooted := cs[0] == "";
      FirstChar(cs);
      ResolveCanonical(rooted, [], cs);
      var done := Resolve(rooted, [], cs);
      if done != [] { JoinStart(done); }
      StripOne(Join(done));
    }
  }

  predicate Rooted(cs: seq<string>) { cs != [] && cs[0] == "" }

  /** Two paths with the same start that resolve alike have the same normal form. */
  lemma SameResolved(cs: seq<string>, ds: seq<string>)
    requires cs != [""] && AllPlain(cs) && ds != [""] && AllPlain(ds)
    requires Rooted(cs) == Rooted(ds) && Resolve(Rooted(cs), [], cs) == Resolve(Rooted(cs), [], ds)
    ensures Normal(Join(cs)) == Normal(Join(ds))
  {
    NormalByComponents(cs);
    NormalByComponents(ds);
  }

  lemma RestResolves(a: seq<string>, b: seq<string>)
    requires a != [] && AllPlain(a) && AllPlain(b)
    ensures Rest(a, b) != [""] && AllPlain(Rest(a, b)) && Rooted(Rest(a, b)) == Rooted(a)
    ensures Resolve(Rooted(a), [], Rest(a, b)) == Resolve(Rooted(a), Resolve(Rooted(a), [], a), b)
  {
    if a == [""] && b == [] {
      assert ["", ""][1..] == [""] && [""][1..] == [];
    } else {
      ResolveConcat(Rooted(a), [], a, b);
    }
  }

  /** Components that resolve to nothing can be put in and taken out. */
  lemma MiddleGoes(a: seq<string>, m: seq<string>, b: seq<string>)
    requires AllPlain(a) && AllPlain(m) && AllPlain(b) && a != [] && m != []
    requires Resolve(Rooted(a), Resolve(Rooted(a), [], a), m) == Resolve(Rooted(a), [], a)
    ensures Normal(Join(a + m + b)) == Normal(Join(Rest(a, b)))
  {
    ResolveConcat(Rooted(a), [], a + m, b);
    ResolveConcat(Rooted(a), [], a, m);
    RestResolves(a, b);
    assert |a + m + b| > 1;
    SameResolved(a + m + b, Rest(a, b));
  }

  lemma NameBack(rooted: bool, done: seq<string>, x: string)
    requires Name(x)
    ensures Resolve(rooted, done, [x, ".."]) == done
  {
    assert [x, ".."][1..] == [".."] && [".."][1..] == [];
    assert (done + [x])[..|done + [x]| - 1] == done;
    assert Resolve(rooted, done + [x], [".."]) == Resolve(rooted, done, []);
  }

  lemma NormalVanishes(a: seq<string>, c: string, b: seq<string>)
    ensures Vanishes(Normal, a, c, b)
  {
    if AllPlain(a) && AllPlain(b) && a != [] && (c == "." || c == "") {
      assert [c][1..] == [];
      MiddleGoes(a, [c], b);
    }
  }

  lemma NormalTakesBack(a: seq<string>, x: string, b: seq<string>)
    ensures TakesBack(Normal, a, x, b)
  {
    if AllPlain(a) && AllPlain(b) && a != [] && Name(x) {
      NameBack(Rooted(a), Resolve(Rooted(a), [], a), x);
      MiddleGoes(a, [x, ".."], b);
    }
  }

  /** A name and a dot-dot can simply be left out of a path, if and only if more than the
      root is left: `/x/..` is the root and not the empty path. */
  lemma TakesBackIff(a: seq<string>, x: string, b: seq<string>)
    requires AllPlain(a) && AllPlain(b) && a != [] && Name(x)
    ensures Normal(Join(a + [x, ".."] + b)) == Normal(Join(a + b)) <==> !(a == [""] && b == [])
  {
    NormalTakesBack(a, x, b);
    if a == [""] && b == [] {
      NormalEnds();
      assert a + b == [""];
      assert ["", ""][1..] == [""];
    }
  }

  lemma NormalFrontGoes(x: string, b: seq<string>)
    ensures FrontGoes(Normal, x, b)
  {
    if AllPlain(b) && (b == [] || b[0] != "") {
      assert (["."] + b)[1..] == b;
      SameResolved(["."] + b, b);
      if Name(x) {
        ResolveConcat(false, [], [x, ".."], b);
        NameBack(false, [], x);
        SameResolved([x, ".."] + b, b);
      }
    }
  }

  lemma NormalRootStays(b: seq<string>)
    ensures RootStays(Normal, b)
  {
    if AllPlain(b) {
      RestResolves([""], b);
      assert [""][1..] == [];
      assert (["", ".."] + b)[1..] == [".."] + b;
      assert ([".."] + b)[1..] == b;
      SameResolved(["", ".."] + b, Rest([""], b));
    }
  }

  lemma NormalKeeps(cs: seq<string>)
    ensures Keeps(Normal, cs)
  {
    if cs != [] && Canonical(cs) {
      CleanCanonical(cs);
      if ".." !in cs {
        SlashedCanonical(cs);
      }
    }
  }

  /** A slash before a canonical path goes. */
  lemma SlashedCanonical(cs: seq<string>)
    requires cs != [] && Canonical(cs) && ".." !in cs
    ensures Normal("/" + Join(cs)) == Join(cs)
  {
    assert ([""] + cs)[1..] == cs;
    assert "/" + Join(cs) == Join([""] + cs);
    NormalByComponents([""] + cs);
    ResolveNoParents(true, [], cs);
    ResolveKeeps([], cs);
    assert [] + cs == cs;
  }

  lemma NormalEnds()
    ensures Normal("") == "." && Normal("/") == ""
  {
    RootNotIdempotent();
    StripOne(".");
  }

  /** The normal form obeys all the rules. */
  lemma NormalObeys()
    ensures Obeys(Normal)
  {
    forall a, c, b ensures Vanishes(Normal, a, c, b) { NormalVanishes(a, c, b); }
    forall a, x, b ensures TakesBack(Normal, a, x, b) { NormalTakesBack(a, x, b); }
    forall x, b ensures FrontGoes(Normal, x, b) { NormalFrontGoes(x, b); }
    forall b ensures RootStays(Normal, b) { NormalRootStays(b); }
    forall cs ensures Keeps(Normal, cs) { NormalKeeps(cs); }
    NormalEnds();
  }

  // --------------------------------------------- they leave no choice

  /** A component after the first that vanishes. */
  predicate Idle(cs: seq<string>, i: nat) {
    0 < i < |cs| && (cs[i] == "" || cs[i] == ".")
  }

  /** A dot-dot that follows something else. */
  predicate Back(cs: seq<string>, i: nat) {
    0 < i < |cs| && cs[i] == ".." && cs[i - 1] != ".."
  }

  /** On every path, two functions that obey the rules agree. */
  lemma {:induction false} SameOnComponents(f: string -> string, g: string -> string, cs: seq<string>)
    requires Obeys(f) && Obeys(g) && AllPlain(cs)
    ensures f(Join(cs)) == g(Join(cs))
    decreases |cs|, 1
  {
    if i :| Idle(cs, i) {
      DropAt(f, g, cs, i);
    } else if i :| Back(cs, i) {
      TakeBackAt(f, g, cs, i);
    } else if cs != [] && cs[0] == "." {
      assert cs == ["."] + cs[1..];
      assert cs[1..] == [] || cs[1..][0] != "" by { assert !Idle(cs, 1); }
      assert FrontGoes(f, "", cs[1..]) && FrontGoes(g, "", cs[1..]);
      SameOnComponents(f, g, cs[1..]);
    } else {
      Irreducible(f, g, cs);
    }
  }

  lemma {:induction false} DropAt(f: string -> string, g: string -> string, cs: seq<string>, i: nat)
    requires Obeys(f) && Obeys(g) && AllPlain(cs) && Idle(cs, i)
    ensures f(Join(cs)) == g(Join(cs))
    decreases |cs|, 0
  {
    var a, b := cs[..i], cs[i + 1..];
    assert cs == a + [cs[i]] + b;
    assert Vanishes(f, a, cs[i], b) && Vanishes(g, a, cs[i], b);
    if a == [""] && b == [] {
      JustRoot();
    } else {
      SameOnComponents(f, g, a + b);
    }
  }

  lemma JustRoot()
    ensures Join(["", ""]) == "/"
  {
    assert ["", ""][1..] == [""];
  }

  lemma {:induction false} TakeBackAt(f: string -> string, g: string -> string, cs: seq<string>, i: nat)
    requires Obeys(f) && Obeys(g) && AllPlain(cs) && Back(cs, i) && forall j :: !Idle(cs, j)
    ensures f(Join(cs)) == g(Join(cs))
    decreases |cs|, 0
  {
    var a, x, b := cs[..i - 1], cs[i - 1], cs[i + 1..];
    assert cs == a + [x, ".."] + b;
    assert b == [] || b[0] != "" by { assert !Idle(cs, i + 1); }
    if i > 1 {
      assert !Idle(cs, i - 1);
      assert TakesBack(f, a, x, b) && TakesBack(g, a, x, b);
      if a == [""] && b == [] { JustRoot(); } else { SameOnComponents(f, g, a + b); }
    } else {
      assert a == [] && cs == [x, ".."] + b;
      if x == "" {
        assert RootStays(f, b) && RootStays(g, b);
        if b == [] { JustRoot(); } else { SameOnComponents(f, g, [""] + b); }
      } else if x == "." {
        assert cs == ["."] + cs[1..];
        assert FrontGoes(f, x, cs[1..]) && FrontGoes(g, x, cs[1..]);
        SameOnComponents(f, g, cs[1..]);
      } else {
        assert FrontGoes(f, x, b) && FrontGoes(g, x, b);
        SameOnComponents(f, g, b);
      }
    }
  }

  /** With no name before it, a dot-dot has only dot-dots before it. */
  lemma {:induction false} ParentsFirst(cs: seq<string>, i: nat, j: nat)
    requires i < j < |cs| && cs[j] == ".." && forall k :: !Back(cs, k)
    ensures cs[i] == ".."
  {
    assert !Back(cs, j);
    if i < j - 1 { ParentsFirst(cs, i, j - 1); }
  }

  lemma Irreducible(f: string -> string, g: string -> string, cs: seq<string>)
    requires Obeys(f) && Obeys(g) && AllPlain(cs) && (cs == [] || cs[0] != ".")
    requires (forall j :: !Idle(cs, j)) && (forall j :: !Back(cs, j))
    ensures f(Join(cs)) == g(Join(cs))
  {
    forall i, j | 0 <= i < j < |cs| && cs[j] == ".." ensures cs[i] == ".." { ParentsFirst(cs, i, j); }
    forall j | 0 < j < |cs| ensures cs[j] != "" && cs[j] != "." { assert !Idle(cs, j); }
    if |cs| > 1 && cs[0] == "" {
      var rest := cs[1..];
      assert Canonical(rest) && ".." !in rest;
      assert Join(cs) == "/" + Join(rest);
      assert Keeps(f, rest) && Keeps(g, rest);
    } else if cs != [] && cs[0] != "" {
      assert Canonical(cs);
      assert Keeps(f, cs) && Keeps(g, cs);
    } else {
      assert Join(cs) == "";
    }
  }

  /** The rules determine the normal form: whatever obeys them is it, on every path. */
  lemma RulesDetermine(f: string -> string, p: string)
    requires Obeys(f)
    ensures f(p) == Normal(p)
  {
    NormalObeys();
    JoinSplit(p);
    SameOnComponents(f, Normal, Split(p));
  }
}
