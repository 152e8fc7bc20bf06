/** Logical paths: their components, lexical cleaning as Go's path package documents
    it, and the normal form that all metadata is stored under. A string is its bytes, one
    char to a byte. */
module Paths {

  // ---------------------------------------------------- components

  predicate Plain(c: string) { '/' !in c }

  predicate AllPlain(cs: seq<string>) {
    forall i :: 0 <= i < |cs| ==> Plain(cs[i])
  }

  /** The pieces between slashes; there is always at least one. */
  function Split(s: string): (cs: seq<string>)
    ensures cs != [] && AllPlain(cs)
  {
    if s == [] then [""]
    else if s[0] == '/' then [""] + Split(s[1..])
    else
      var cs := Split(s[1..]);
      [[s[0]] + cs[0]] + cs[1..]
  }

  function Join(cs: seq<string>): string {
    if cs == [] then "" else if |cs| == 1 then cs[0] else cs[0] + "/" + Join(cs[1..])
  }

  lemma {:induction false} JoinSplit(s: string)
    ensures Join(Split(s)) == s
  {
    if s != [] {
      JoinSplit(s[1..]);
      var cs := Split(s[1..]);
      if s[0] == '/' {
        assert ([""] + cs)[1..] == cs;
      } else {
        assert ([[s[0]] + cs[0]] + cs[1..])[1..] == cs[1..];
      }
    }
  }

  /** A component followed by a slash is what the rest is split after. */
  lemma {:induction false} SplitAfter(c: string, rest: string)
    requires Plain(c)
    ensures Split(c + "/" + rest) == [c] + Split(rest)
  {
    var s := c + "/" + rest;
    if c == [] {
      assert s[1..] == rest;
    } else {
      assert c[0] in c;
      assert s[1..] == c[1..] + "/" + rest;
      SplitAfter(c[1..], rest);
      assert c == [c[0]] + c[1..];
    }
  }

  lemma {:induction false} SplitPlain(c: string)
    requires Plain(c)
    ensures Split(c) == [c]
  {
    if c != [] {
      assert c[0] in c;
      SplitPlain(c[1..]);
      assert c == [c[0]] + c[1..];
    }
  }

  lemma {:induction false} SplitJoin(cs: seq<string>)
    requires cs != [] && AllPlain(cs)
    ensures Split(Join(cs)) == cs
  {
    if |cs| == 1 {
      SplitPlain(cs[0]);
    } else {
      SplitJoin(cs[1..]);
      SplitAfter(cs[0], Join(cs[1..]));
    }
  }

  lemma {:induction false} JoinConcat(a: seq<string>, b: seq<string>)
    requires a != [] && b != []
    ensures Join(a + b) == Join(a) + "/" + Join(b)
  {
    if |a| == 1 {
      assert (a + b)[1..] == b;
    } else {
      assert (a + b)[1..] == a[1..] + b;
      JoinConcat(a[1..], b);
    }
  }

  // ------------------------------------------------------ cleaning

  /** Components resolved one by one: empty and dot components vanish, a dot-dot
      takes back a real component, and survives only at the front of a relative path. */
  function Resolve(rooted: bool, done: seq<string>, cs: seq<string>): seq<string>
    decreases |cs|
  {
    if cs == [] then done
    else if cs[0] == "" || cs[0] == "." then Resolve(rooted, done, cs[1..])
    else if cs[0] == ".." then
      if done != [] && done[|done| - 1] != ".." then Resolve(rooted, done[..|done| - 1], cs[1..])
      else if rooted then Resolve(rooted, done, cs[1..])
      else Resolve(rooted, done + [".."], cs[1..])
    else Resolve(rooted, done + [cs[0]], cs[1..])
  }

  /** The shortest equivalent path. */
  function Clean(p: string): string {
    if p == "" then "."
    else
      var rooted := p[0] == '/';
      var cs := Resolve(rooted, [], Split(p));
      if rooted then "/" + Join(cs) else if cs == [] then "." else Join(cs)
  }

  function StripSlashes(p: string): string {
    if p != "" && p[0] == '/' then StripSlashes(p[1..]) else p
  }

  /** The form paths are stored and looked up under. */
  function Normal(p: string): string { StripSlashes(Clean(p)) }

  method NormalizePath(p: string) returns (r: string)
    ensures r == Normal(p)
  {
    r := Clean(p);
    while r != "" && r[0] == '/'
      invariant StripSlashes(r) == Normal(p)
      decreases |r|
    {
      r := r[1..];
    }
  }

  /** The parent: cleaned text up to the last slash. */
  function Dir(p: string): string {
    var cs := Split(p);
    Clean(if |cs| == 1 then "" else Join(cs[..|cs| - 1]) + "/")
  }

  function TrimSlashes(p: string): string {
    if p != "" && p[|p| - 1] == '/' then TrimSlashes(p[..|p| - 1]) else p
  }

  /** The last component. */
  function Base(p: string): string {
    if p == "" then "."
    else if TrimSlashes(p) == "" then "/"
    else var cs := Split(TrimSlashes(p)); cs[|cs| - 1]
  }

  // --------------------------------------------------- normal form

  predicate Name(c: string) { Plain(c) && c != "" && c != "." && c != ".." }

  /** Components of a stored path: names, after a possible run of dot-dots. */
  predicate Canonical(cs: seq<string>) {
    && (forall i :: 0 <= i < |cs| ==> Plain(cs[i]) && cs[i] != "" && cs[i] != ".")
    && (forall i, j :: 0 <= i < j < |cs| && cs[j] == ".." ==> cs[i] == "..")
  }

  lemma {:induction false} ResolveCanonical(rooted: bool, done: seq<string>, cs: seq<string>)
    requires Canonical(done) && AllPlain(cs) && (rooted ==> ".." !in done)
    ensures Canonical(Resolve(rooted, done, cs))
    ensures rooted ==> ".." !in Resolve(rooted, done, cs)
    decreases |cs|
  {
    if cs != [] {
      assert AllPlain(cs[1..]);
      if cs[0] == "" || cs[0] == "." {
        ResolveCanonical(rooted, done, cs[1..]);
      } else if cs[0] == ".." {
        if done != [] && done[|done| - 1] != ".." {
          ResolveCanonical(rooted, done[..|done| - 1], cs[1..]);
        } else if rooted {
          ResolveCanonical(rooted, done, cs[1..]);
        } else {
          assert forall i :: 0 <= i < |done| ==> done[i] == "..";
          ResolveCanonical(rooted, done + [".."], cs[1..]);
        }
      } else {
        ResolveCanonical(rooted, done + [cs[0]], cs[1..]);
      }
    }
  }

  /** Resolving appends canonical components unchanged. */
  lemma {:induction false} ResolveKeeps(done: seq<string>, cs: seq<string>)
    requires Canonical(done + cs)
    ensures Resolve(false, done, cs) == done + cs
    decreases |cs|
  {
    if cs == [] {
      assert done + cs == done;
    } else {
      assert (done + cs)[|done|] == cs[0];
      assert done + [cs[0]] + cs[1..] == done + cs;
      if cs[0] == ".." && done != [] {
        assert (done + cs)[|done| - 1] == "..";
      }
      ResolveKeeps(done + [cs[0]], cs[1..]);
    }
  }

  lemma {:induction false} ResolveSkipsLastEmpty(rooted: bool, done: seq<string>, cs: seq<string>)
    ensures Resolve(rooted, done, cs + [""]) == Resolve(rooted, done, cs)
    decreases |cs|
  {
    if cs == [] {
      assert (cs + [""])[1..] == [];
    } else {
      assert (cs + [""])[1..] == cs[1..] + [""];
      if cs[0] == "" || cs[0] == "." {
        ResolveSkipsLastEmpty(rooted, done, cs[1..]);
      } else if cs[0] == ".." {
        if done != [] && done[|done| - 1] != ".." {
          ResolveSkipsLastEmpty(rooted, done[..|done| - 1], cs[1..]);
        } else if rooted {
          ResolveSkipsLastEmpty(rooted, done, cs[1..]);
        } else {
          ResolveSkipsLastEmpty(rooted, done + [".."], cs[1..]);
        }
      } else {
        ResolveSkipsLastEmpty(rooted, done + [cs[0]], cs[1..]);
      }
    }
  }

  lemma JoinStart(cs: seq<string>)
    requires cs != [] && Canonical(cs)
    ensures Join(cs) != "" && Join(cs)[0] != '/'
  {
    assert cs[0] != "" && cs[0][0] in cs[0];
  }

  /** A canonical path is its own normal form. */
  lemma CleanCanonical(cs: seq<string>)
    requires cs != [] && Canonical(cs)
    ensures Clean(Join(cs)) == Join(cs) && Normal(Join(cs)) == Join(cs)
  {
    JoinStart(cs);
    SplitJoin(cs);
    assert [] + cs == cs;
    ResolveKeeps([], cs);
  }

  lemma StripOne(t: string)
    requires t == "" || t[0] != '/'
    ensures StripSlashes("/" + t) == t && StripSlashes(t) == t
  {
    assert ("/" + t)[1..] == t;
  }

  /** Every normal form is a canonical path, or dot for the current directory, or
      empty for the root. */
  lemma NormalShape(p: string)
    ensures Normal(p) == "" <==> Clean(p) == "/"
    ensures Normal(p) == "" || Normal(p) == "." ||
      exists cs :: cs != [] && Canonical(cs) && Normal(p) == Join(cs)
  {
    if p != "" {
      var rooted := p[0] == '/';
      var cs := Resolve(rooted, [], Split(p));
      ResolveCanonical(rooted, [], Split(p));
      if cs != [] { JoinStart(cs); }
      StripOne(Join(cs));
    }
  }

  /** Normalizing twice is normalizing once, except for what cleans to the root: that
      becomes empty, and empty becomes dot. */
  lemma NormalIdempotent(p: string)
    ensures Normal(Normal(p)) == Normal(p) <==> Clean(p) != "/"
  {
    NormalShape(p);
    if cs :| cs != [] && Canonical(cs) && Normal(p) == Join(cs) {
      CleanCanonical(cs);
    } else if Normal(p) == "." {
      assert Split(".") == ["."] by { SplitPlain("."); }
      assert ["."][1..] == [];
    }
  }

  /** The root: its normal form is empty, and the normal form of that is dot. */
  lemma RootNotIdempotent()
    ensures Clean("/") == "/" && Normal("/") == "" && Normal(Normal("/")) == "."
  {
    assert "/"[1..] == "";
    assert Split("") == [""];
    assert Split("/") == ["", ""];
    assert ["", ""][1..] == [""] && [""][1..] == [];
    assert Resolve(true, [], ["", ""]) == [];
    assert StripSlashes("/") == "";
  }

  // ------------------------------------------------ request checks

  const MAX_NAME := 255

  predicate IsValidFileName(name: string) {
    && name != "" && |name| <= MAX_NAME
    && !(exists i :: 0 <= i < |name| - 1 && name[i] == '.' && name[i + 1] == '.')
    && name != ".." && name != "."
    && '/' !in name && '\\' !in name
    && (forall i :: 0 <= i < |name| ==> name[i] as int >= 0x20)
  }

  predicate IsValidFilePath(p: string) {
    var q := StripSlashes(p);
    && q != ""
    && Clean(q) != "." && Clean(q) != ".." && Clean(q) != "/"
    && (forall i :: 0 <= i < |Split(q)| ==> Split(q)[i] != ".." && Split(q)[i] != "")
  }

  lemma ValidNameIsName(name: string)
    requires IsValidFileName(name)
    ensures Name(name)
  {
  }

  /** No two dots in a row. */
  predicate DotsApart(s: string) {
    forall i :: 0 <= i < |s| && s[i] == '.' ==> i + 1 == |s| || s[i + 1] != '.'
  }

  /** Every name of at most 255 printing characters other than slash and backslash is
      accepted, if it is not a lone dot and has no two dots in a row; no other is. */
  lemma ValidNameIff(name: string)
    ensures IsValidFileName(name) <==>
      && 1 <= |name| <= 255 && name != "." && DotsApart(name)
      && forall ch :: ch in name ==> ch >= ' ' && ch != '/' && ch != '\\'
  {
    var dots := "..";
    assert dots[0] == '.' && dots[1] == '.' && !DotsApart(dots);
    assert forall i :: 0 <= i < |name| ==> name[i] in name;
  }

  lemma {:induction false} ResolveNoParents(rooted: bool, done: seq<string>, cs: seq<string>)
    requires ".." !in cs && ".." !in done
    ensures Resolve(rooted, done, cs) == Resolve(false, done, cs)
    ensures ".." !in Resolve(rooted, done, cs)
    decreases |cs|
  {
    if cs != [] {
      assert cs[0] in cs;
      if cs[0] == "" || cs[0] == "." {
        ResolveNoParents(rooted, done, cs[1..]);
      } else {
        ResolveNoParents(rooted, done + [cs[0]], cs[1..]);
      }
    }
  }

  lemma {:induction false} StripKeepsComponents(p: string)
    requires ".." !in Split(StripSlashes(p))
    ensures ".." !in Split(p)
    ensures Resolve(false, [], Split(p)) == Resolve(false, [], Split(StripSlashes(p)))
  {
    if p != "" && p[0] == '/' {
      StripKeepsComponents(p[1..]);
      assert Split(p)[1..] == Split(p[1..]);
    }
  }

  /** The components that are not a dot, in order. */
  function WithoutDots(cs: seq<string>): seq<string> {
    if cs == [] then [] else (if cs[0] == "." then [] else [cs[0]]) + WithoutDots(cs[1..])
  }

  lemma {:induction false} WithoutDotsEmpty(cs: seq<string>)
    ensures WithoutDots(cs) == [] <==> forall i :: 0 <= i < |cs| ==> cs[i] == "."
  {
    if cs != [] {
      WithoutDotsEmpty(cs[1..]);
      assert forall i :: 1 <= i < |cs| ==> cs[1..][i - 1] == cs[i];
    }
  }

  /** With no empty and no dot-dot component, resolving takes the dots out. */
  lemma {:induction false} ResolveDropsDots(done: seq<string>, cs: seq<string>)
    requires "" !in cs && ".." !in cs
    ensures Resolve(false, done, cs) == done + WithoutDots(cs)
    decreases |cs|
  {
    if cs == [] {
      assert done + WithoutDots(cs) == done;
    } else {
      var c, rest := cs[0], cs[1..];
      assert c in cs && forall x :: x in rest ==> x in cs;
      if c == "." {
        ResolveDropsDots(done, rest);
        assert WithoutDots(cs) == WithoutDots(rest);
      } else {
        ResolveDropsDots(done + [c], rest);
        assert (done + [c]) + WithoutDots(rest) == done + ([c] + WithoutDots(rest));
      }
    }
  }

  /** A path is accepted if and only if, leading slashes aside, no component is empty or
      dot-dot and some component is not a dot. */
  lemma ValidPathIff(p: string)
    ensures IsValidFilePath(p) <==>
      var cs := Split(StripSlashes(p));
      "" !in cs && ".." !in cs && exists i :: 0 <= i < |cs| && cs[i] != "."
  {
    var q := StripSlashes(p);
    var cs := Split(q);
    if q != "" && "" !in cs && ".." !in cs {
      StrippedStart(p);
      ResolveDropsDots([], cs);
      assert [] + WithoutDots(cs) == WithoutDots(cs);
      WithoutDotsEmpty(cs);
      ResolveNoParents(false, [], cs);
      ResolveCanonical(false, [], cs);
      var done := WithoutDots(cs);
      if done != [] {
        JoinStart(done);
        NoDots(done);
      }
    }
  }

  /** Canonical components without a dot-dot join to neither dot nor dot-dot. */
  lemma NoDots(cs: seq<string>)
    requires cs != [] && Canonical(cs) && ".." !in cs
    ensures Join(cs) != "." && Join(cs) != ".."
  {
    SplitJoin(cs);
    SplitPlain(".");
    SplitPlain("..");
    assert cs[0] in cs;
  }

  /** The components of a path that a request may name are the plain names between its
      slashes, at least one, with dots left out. Its normal form joins them. */
  lemma ValidPathComponents(p: string) returns (cs: seq<string>)
    requires IsValidFilePath(p)
    ensures cs == WithoutDots(Split(StripSlashes(p)))
    ensures cs != [] && (forall i :: 0 <= i < |cs| ==> Name(cs[i])) && Canonical(cs)
    ensures Normal(p) == Join(cs) && Normal(Normal(p)) == Normal(p)
  {
    var q := StripSlashes(p);
    StrippedStart(p);
    StripKeepsComponents(p);
    cs := Resolve(false, [], Split(q));
    ResolveDropsDots([], Split(q));
    assert [] + WithoutDots(Split(q)) == WithoutDots(Split(q));
    ResolveNoParents(false, [], Split(q));
    ResolveNoParents(p[0] == '/', [], Split(p));
    ResolveCanonical(false, [], Split(q));
    assert forall i :: 0 <= i < |cs| ==> cs[i] in cs;
    JoinStart(cs);
    StripOne(Join(cs));
    CleanCanonical(cs);
  }

  lemma {:induction false} StrippedStart(p: string)
    ensures StripSlashes(p) != "" ==> p != "" && StripSlashes(p)[0] != '/'
  {
    if p != "" && p[0] == '/' { StrippedStart(p[1..]); }
  }

  /** The path an entry is renamed to: its parent, then the new name. */
  function Renamed(path: string, name: string): string { Normal(Dir(path) + "/" + name) }

  lemma SplitTrailingSlash(cs: seq<string>)
    requires cs != [] && AllPlain(cs)
    ensures Split(Join(cs) + "/") == cs + [""]
  {
    JoinConcat(cs, [""]);
    assert Join(cs) + "/" == Join(cs + [""]);
    SplitJoin(cs + [""]);
  }

  /** A trailing slash on a canonical path is cleaned away. */
  lemma CleanTrailingSlash(cs: seq<string>)
    requires cs != [] && Canonical(cs)
    ensures Clean(Join(cs) + "/") == Join(cs)
  {
    JoinStart(cs);
    SplitTrailingSlash(cs);
    ResolveSkipsLastEmpty(false, [], cs);
    assert [] + cs == cs;
    ResolveKeeps([], cs);
  }

  lemma DirOfCanonical(cs: seq<string>)
    requires cs != [] && Canonical(cs)
    ensures Dir(Join(cs)) == if |cs| == 1 then "." else Join(cs[..|cs| - 1])
  {
    SplitJoin(cs);
    if |cs| > 1 {
      CleanTrailingSlash(cs[..|cs| - 1]);
    }
  }

  /** Renaming a canonical path replaces its last component and nothing else. */
  lemma RenamedIsSibling(cs: seq<string>, name: string)
    requires cs != [] && Canonical(cs) && Name(name)
    ensures Canonical(cs[..|cs| - 1] + [name])
    ensures Renamed(Join(cs), name) == Join(cs[..|cs| - 1] + [name])
  {
    DirOfCanonical(cs);
    SiblingCanonical(cs, name);
    var parent := cs[..|cs| - 1];
    if |cs| == 1 {
      RenamedAtTop(name);
      assert parent + [name] == [name];
    } else {
      JoinConcat(parent, [name]);
      CleanCanonical(parent + [name]);
    }
  }

  lemma SiblingCanonical(cs: seq<string>, name: string)
    requires cs != [] && Canonical(cs) && Name(name)
    ensures Canonical(cs[..|cs| - 1] + [name])
  {
    var parent := cs[..|cs| - 1];
    assert forall i :: 0 <= i < |parent| ==> (parent + [name])[i] == cs[i];
  }

  lemma RenamedAtTop(name: string)
    requires Name(name)
    ensures Normal("." + "/" + name) == name
  {
    var cs := [".", name];
    assert cs[1..] == [name];
    SplitJoin(cs);
    ResolveKeeps([], [name]);
    assert [] + [name] == [name];
    assert name[0] in name;
    StripOne(name);
  }

  lemma {:induction false} TrimPlainEnd(p: string)
    requires p != "" && p[|p| - 1] != '/'
    ensures TrimSlashes(p) == p
  {
  }

  lemma {:induction false} JoinEnd(cs: seq<string>)
    requires cs != [] && Plain(cs[|cs| - 1]) && cs[|cs| - 1] != ""
    ensures Join(cs) != "" && Join(cs)[|Join(cs)| - 1] != '/'
  {
    if |cs| == 1 {
      assert cs[0][|cs[0]| - 1] in cs[0];
    } else {
      JoinEnd(cs[1..]);
    }
  }

  lemma BaseOfCanonical(cs: seq<string>)
    requires cs != [] && Canonical(cs)
    ensures Base(Join(cs)) == cs[|cs| - 1]
  {
    JoinEnd(cs);
    TrimPlainEnd(Join(cs));
    SplitJoin(cs);
  }

  /** Trailing slashes do not count, unless there is nothing else. */
  lemma BaseTrims(p: string)
    ensures Base("") == "." && Base("/") == "/"
    ensures p != "" ==> Base(p + "/") == Base(p)
  {
    var root := "/";
    assert root[..|root| - 1] == "";
    assert TrimSlashes(root) == "";
    assert (p + "/")[..|p + "/"| - 1] == p;
  }

  // ------------------------------------------------- the tree order

  predicate Under(dir: string, s: string) { dir + "/" <= s }

  predicate AtOrUnder(dir: string, s: string) { s == dir || Under(dir, s) }

  /** A path text lies under another exactly when the components say so. */
  lemma {:induction false} UnderIffDescendant(ds: seq<string>, cs: seq<string>)
    requires ds != [] && cs != [] && AllPlain(ds) && AllPlain(cs)
    ensures Under(Join(ds), Join(cs)) <==> |ds| < |cs| && ds <= cs
  {
    var dir, s := Join(ds), Join(cs);
    if Under(dir, s) {
      var rest := s[|dir| + 1..];
      assert s == dir + "/" + rest;
      JoinSplit(rest);
      JoinConcat(ds, Split(rest));
      SplitJoin(ds + Split(rest));
      SplitJoin(cs);
      assert cs == ds + Split(rest);
    }
    if |ds| < |cs| && ds <= cs {
      assert cs == ds + cs[|ds|..];
      JoinConcat(ds, cs[|ds|..]);
    }
  }

  /** Two entries of one directory, named apart. */
  predicate Siblings(a: string, b: string) {
    exists k :: 0 <= k <= |a| && k <= |b| && a[..k] == b[..k] && Plain(a[k..]) && Plain(b[k..]) && a[k..] != b[k..]
  }

  /** Nothing lies at or under two siblings. */
  lemma SiblingsDisjoint(a: string, b: string, s: string)
    requires Siblings(a, b) && AtOrUnder(a, s)
    ensures !AtOrUnder(b, s)
  {
    var k :| 0 <= k <= |a| && k <= |b| && a[..k] == b[..k] && Plain(a[k..]) && Plain(b[k..]) && a[k..] != b[k..];
    FirstComponent(a, k, s);
    if AtOrUnder(b, s) {
      FirstComponent(b, k, s);
    }
  }

  lemma FirstComponent(a: string, k: nat, s: string)
    requires k <= |a| && Plain(a[k..]) && AtOrUnder(a, s)
    ensures k <= |s| && Split(s[k..])[0] == a[k..]
  {
    if s == a {
      SplitPlain(a[k..]);
    } else {
      var rest := s[|a| + 1..];
      assert s[k..] == a[k..] + "/" + rest;
      SplitAfter(a[k..], rest);
    }
  }

  /** A renamed path is a sibling of the old one, unless it is the same path. */
  lemma RenamedApart(cs: seq<string>, name: string)
    requires cs != [] && Canonical(cs) && Name(name) && cs[|cs| - 1] != name
    ensures Siblings(Join(cs), Join(cs[..|cs| - 1] + [name]))
    ensures Siblings(Join(cs[..|cs| - 1] + [name]), Join(cs))
  {
    var parent := cs[..|cs| - 1];
    assert cs == parent + [cs[|cs| - 1]];
    var k := if parent == [] then 0 else |Join(parent)| + 1;
    if parent != [] {
      JoinConcat(parent, [cs[|cs| - 1]]);
      JoinConcat(parent, [name]);
    }
    var a, b := Join(cs), Join(parent + [name]);
    assert a[k..] == cs[|cs| - 1] && b[k..] == name && a[..k] == b[..k];
  }
}
