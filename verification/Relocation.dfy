/** Moving many entries of a map to other keys: the storage objects of a directory, or
    the files as clients see them. */
module Relocation {

  /** Where each key goes; no two go to the same place. */
  predicate Injective(go: map<string, string>) {
    forall p, q :: p in go && q in go && go[p] == go[q] ==> p == q
  }

  /** No key goes to where another one was. */
  predicate Apart(go: map<string, string>) {
    forall p, q :: p in go && q in go && go[p] == q ==> p == q
  }

  predicate Hit(go: map<string, string>, x: string) {
    exists p :: p in go && go[p] == x
  }

  /** The entries that go, at their new keys. */
  function Cargo<V>(m: map<string, V>, go: map<string, string>): map<string, V>
    requires go.Keys <= m.Keys && Injective(go)
  {
    map p | p in go :: go[p] := m[p]
  }

  function Shift<V>(m: map<string, V>, go: map<string, string>): map<string, V>
    requires go.Keys <= m.Keys && Injective(go)
  {
    (m - go.Keys) + Cargo(m, go)
  }

  lemma Arrives<V>(m: map<string, V>, go: map<string, string>, p: string)
    requires go.Keys <= m.Keys && Injective(go) && p in go
    ensures go[p] in Shift(m, go) && Shift(m, go)[go[p]] == m[p]
  {
    assert go[p] in Cargo(m, go);
  }

  lemma Stays<V>(m: map<string, V>, go: map<string, string>, x: string)
    requires go.Keys <= m.Keys && Injective(go) && x !in go && !Hit(go, x)
    ensures x in Shift(m, go) <==> x in m
    ensures x in m ==> Shift(m, go)[x] == m[x]
  {
    assert x !in Cargo(m, go);
  }

  lemma Leaves<V>(m: map<string, V>, go: map<string, string>, x: string)
    requires go.Keys <= m.Keys && Injective(go) && x in go && !Hit(go, x)
    ensures x !in Shift(m, go)
  {
    assert x !in Cargo(m, go);
  }

  lemma CargoOne<V>(m: map<string, V>, go: map<string, string>, p: string, target: string)
    requires go[p := target].Keys <= m.Keys && Injective(go[p := target]) && p !in go
    requires go.Keys <= m.Keys && Injective(go)
    ensures Cargo(m, go[p := target]) == Cargo(m, go)[target := m[p]]
  {
    var go' := go[p := target];
    assert go'[p] == target;
    assert forall q :: q in go ==> go'[q] == go[q];
  }

  lemma PutAside<V>(m: map<string, V>, ks: set<string>, c: map<string, V>, p: string, target: string, v: V)
    requires p !in c
    ensures (m - (ks + {p})) + c[target := v] == (((m - ks) + c) - {p})[target := v]
  {
  }

  /** One more entry: moving it after the others is moving it with them. */
  lemma ShiftOne<V>(m: map<string, V>, go: map<string, string>, p: string, target: string)
    requires go[p := target].Keys <= m.Keys && Injective(go[p := target]) && p !in go
    requires go.Keys <= m.Keys && Injective(go) && !Hit(go, p)
    ensures p in Shift(m, go) && Shift(m, go)[p] == m[p]
    ensures Shift(m, go[p := target]) == (Shift(m, go) - {p})[target := m[p]]
  {
    Stays(m, go, p);
    CargoOne(m, go, p, target);
    PutAside(m, go.Keys, Cargo(m, go), p, target, m[p]);
    assert go[p := target].Keys == go.Keys + {p};
  }

  /** The moves of some keys only. */
  function Only(go: map<string, string>, ps: set<string>): map<string, string> {
    map p | p in go && p in ps :: go[p]
  }

  lemma OnlyInjective(go: map<string, string>, ps: set<string>)
    requires Injective(go)
    ensures Injective(Only(go, ps))
  {
  }

  /** A key that has not moved yet is nobody's target. */
  lemma NotHit(go: map<string, string>, ps: set<string>, p: string)
    requires Apart(go) && p in go && p !in ps
    ensures !Hit(Only(go, ps), p)
  {
  }

  lemma OnlyOneMore(go: map<string, string>, ps: set<string>, p: string)
    requires p in go && p !in ps
    ensures Only(go, ps + {p}) == Only(go, ps)[p := go[p]]
  {
  }

  /** The next entry is where it was, and moving it now is moving it with the others. */
  lemma MoveNext<V>(m: map<string, V>, go: map<string, string>, ps: set<string>, p: string)
    requires Injective(go) && Apart(go) && ps <= m.Keys && p in go && p !in ps
    ensures Injective(Only(go, ps)) && (p in Shift(m, Only(go, ps)) <==> p in m)
    ensures p in m ==>
      && Injective(Only(go, ps + {p})) && Shift(m, Only(go, ps))[p] == m[p]
      && Shift(m, Only(go, ps + {p})) == (Shift(m, Only(go, ps)) - {p})[go[p] := m[p]]
  {
    OnlyInjective(go, ps);
    OnlyInjective(go, ps + {p});
    NotHit(go, ps, p);
    Stays(m, Only(go, ps), p);
    if p in m {
      OnlyOneMore(go, ps, p);
      ShiftOne(m, Only(go, ps), p, go[p]);
    }
  }

  /** What has moved when some keys are still to do. */
  ghost function Dealt(ks: set<string>, go: map<string, string>, lost: set<string>, todo: set<string>): set<string> {
    (go.Keys - todo) * (ks - lost)
  }

  lemma DealtNext(ks: set<string>, go: map<string, string>, lost: set<string>, todo: set<string>, p: string)
    requires p in todo && todo <= go.Keys
    ensures Dealt(ks, go, lost, todo) <= ks && p !in Dealt(ks, go, lost, todo)
    ensures Dealt(ks, go, lost, todo - {p}) ==
      if p in ks && p !in lost then Dealt(ks, go, lost, todo) + {p} else Dealt(ks, go, lost, todo)
  {
  }

  lemma DealtEnds(ks: set<string>, go: map<string, string>, lost: set<string>)
    ensures Only(go, Dealt(ks, go, lost, go.Keys)) == map[]
    ensures Only(go, Dealt(ks, go, lost, {})) == Only(go, ks - lost)
  {
  }

  ghost predicate MovedSoFar<V>(m: map<string, V>, go: map<string, string>, done: set<string>, r: map<string, V>) {
    done <= m.Keys && Injective(Only(go, done)) && r == Shift(m, Only(go, done))
  }

  /** Moves the entries one by one, in any order, passing over those that are missing or
      cannot be moved. */
  method MoveAll<V>(m: map<string, V>, go: map<string, string>, lost: set<string>) returns (r: map<string, V>)
    requires Injective(go) && Apart(go)
    ensures Injective(Only(go, m.Keys - lost)) && r == Shift(m, Only(go, m.Keys - lost))
  {
    r := m;
    var todo := go.Keys;
    DealtEnds(m.Keys, go, lost);
    while todo != {}
      invariant todo <= go.Keys && MovedSoFar(m, go, Dealt(m.Keys, go, lost, todo), r)
      decreases todo
    {
      var p :| p in todo;
      DealtNext(m.Keys, go, lost, todo, p);
      MoveNext(m, go, Dealt(m.Keys, go, lost, todo), p);
      if p in r && p !in lost {
        r := (r - {p})[go[p] := r[p]];
      }
      todo := todo - {p};
    }
  }

  /** The cargo is the same whether it is taken from a map or from a part of it that has
      all the keys that go. */
  lemma CargoOfPart<V>(m: map<string, V>, part: map<string, V>, go: map<string, string>, lost: set<string>)
    requires Injective(go) && go.Keys <= part.Keys <= m.Keys && forall p :: p in part ==> part[p] == m[p]
    ensures Injective(Only(go, m.Keys - lost)) && Injective(Only(go, part.Keys - lost))
    ensures Cargo(m, Only(go, m.Keys - lost)) == Cargo(part, Only(go, part.Keys - lost))
  {
    OnlyInjective(go, m.Keys - lost);
    assert Only(go, m.Keys - lost) == Only(go, part.Keys - lost);
    var a, b := Cargo(m, Only(go, m.Keys - lost)), Cargo(part, Only(go, part.Keys - lost));
    assert a == b;
  }

  /** The entries whose keys are visible. */
  function Restrict<V>(m: map<string, V>, visible: set<string>): map<string, V> {
    map p | p in m && p in visible :: m[p]
  }

  /** The visible keys after a move. */
  function KeysAfter(visible: set<string>, go: map<string, string>): set<string> {
    (visible - go.Keys) + set p | p in go :: go[p]
  }

  /** What lies at the keys where entries that did not move were to arrive. */
  function Strays<V>(m: map<string, V>, go: map<string, string>, ok: map<string, string>): map<string, V>
    requires Injective(go)
  {
    map p | p in go && p !in ok && go[p] in m :: go[p] := m[go[p]]
  }

  lemma ShiftNothing<V>(m: map<string, V>, go: map<string, string>)
    requires forall p :: p !in go
    ensures Injective(go) && go.Keys <= m.Keys && Shift(m, go) == m
  {
    assert go == map[];
  }

  lemma NothingAdded<V>(m: map<string, V>, none: map<string, V>)
    requires none == map[]
    ensures m + none == m
  {
  }

  /** `ok` is the part of the moves that is carried out, of entries that are there. */
  ghost predicate PartOf<V>(m: map<string, V>, go: map<string, string>, ok: map<string, string>) {
    && Injective(go) && Apart(go) && Injective(ok)
    && ok.Keys <= go.Keys && ok.Keys <= m.Keys && forall p :: p in ok ==> ok[p] == go[p]
  }

  /** Moving part of what was to move: the entries of `ok`. What then shows is what
      showed before, with those moved and the others gone, except for what lies at the
      keys where the others were to arrive. */
  lemma RestrictShift<V>(m: map<string, V>, visible: set<string>, go: map<string, string>, ok: map<string, string>)
    requires go.Keys <= visible && PartOf(m, go, ok)
    requires forall p :: p in go ==> go[p] !in visible - go.Keys
    ensures Restrict(Shift(m, ok), KeysAfter(visible, go)) ==
      (Restrict(m, visible) - go.Keys) + Cargo(m, ok) + Strays(m, go, ok)
  {
    var l := Restrict(Shift(m, ok), KeysAfter(visible, go));
    var r := (Restrict(m, visible) - go.Keys) + Cargo(m, ok) + Strays(m, go, ok);
    forall x ensures (x in l <==> x in r) && (x in l ==> l[x] == r[x]) {
      if Hit(ok, x) {
        ShownArrived(m, visible, go, ok, x);
      } else {
        ShownElsewhere(m, visible, go, ok, x);
      }
    }
  }

  lemma ShownArrived<V>(m: map<string, V>, visible: set<string>, go: map<string, string>, ok: map<string, string>,
                        x: string)
    requires PartOf(m, go, ok) && Hit(ok, x)
    ensures x in Restrict(Shift(m, ok), KeysAfter(visible, go)) && x in Cargo(m, ok) && x !in Strays(m, go, ok)
    ensures Shift(m, ok)[x] == Cargo(m, ok)[x]
  {
    var p :| p in ok && ok[p] == x;
    Arrives(m, ok, p);
    assert go[p] == x;
  }

  lemma ShownElsewhere<V>(m: map<string, V>, visible: set<string>, go: map<string, string>, ok: map<string, string>,
                          x: string)
    requires go.Keys <= visible && PartOf(m, go, ok) && !Hit(ok, x)
    ensures x !in Cargo(m, ok)
    ensures x in Restrict(Shift(m, ok), KeysAfter(visible, go)) <==>
      (x in Restrict(m, visible) && x !in go) || x in Strays(m, go, ok)
    ensures x in Strays(m, go, ok) ==> x in m && Strays(m, go, ok)[x] == m[x]
    ensures x in Restrict(Shift(m, ok), KeysAfter(visible, go)) ==> Shift(m, ok)[x] == m[x]
  {
    assert x !in Cargo(m, ok);
    if x in ok {
      Leaves(m, ok, x);
    } else {
      Stays(m, ok, x);
      if Hit(go, x) {
        var p :| p in go && go[p] == x;
        assert p !in ok;
      }
    }
  }
}
