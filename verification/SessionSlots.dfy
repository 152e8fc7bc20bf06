/** The shared counter that admits upload sessions. Threads interleave the atomic
    add, the test of the value it returned, the undo, and the steps that store,
    restore and end sessions. */
module SessionSlots {

  /** Where a thread is. `Added` remembers the counter value its own add returned. */
  datatype Pc =
    | Idle
    | Added(seen: int)
    | Undoing
    | Admitted
    | Ending(session: string)
    | Releasing

  /** `sessions` maps a session to whether a slot was taken for it. `surplus` is a
      history variable: releases made for a session that held no slot. */
  datatype State = State(
    max: nat,
    count: int,
    threads: map<int, Pc>,
    sessions: map<string, bool>,
    surplus: nat)

  datatype Step =
    | Add(t: int)
    | Test(t: int)
    | Undo(t: int)
    | CreateFails(t: int)
    | Store(t: int, s: string)
    | Restore(s: string)
    | LoadToEnd(t: int, s: string)
    | Delete(t: int)
    | Release(t: int)

  predicate BeingEnded(st: State, s: string) {
    exists t :: t in st.threads && st.threads[t] == Ending(s)
  }

  /** A new session gets an id that nothing else refers to. */
  predicate Enabled(st: State, step: Step) {
    match step
    case Add(t) => t in st.threads && st.threads[t].Idle?
    case Test(t) => t in st.threads && st.threads[t].Added?
    case Undo(t) => t in st.threads && st.threads[t].Undoing?
    case CreateFails(t) => t in st.threads && st.threads[t].Admitted?
    case Store(t, s) => t in st.threads && st.threads[t].Admitted? && s !in st.sessions && !BeingEnded(st, s)
    case Restore(s) => s !in st.sessions
    case LoadToEnd(t, s) => t in st.threads && st.threads[t].Idle? && s in st.sessions
    case Delete(t) => t in st.threads && st.threads[t].Ending?
    case Release(t) => t in st.threads && st.threads[t].Releasing?
  }

  function Apply(st: State, step: Step): State
    requires Enabled(st, step)
  {
    match step
    case Add(t) => st.(count := st.count + 1, threads := st.threads[t := Added(st.count + 1)])
    case Test(t) =>
      st.(threads := st.threads[t := if st.threads[t].seen > st.max then Undoing else Admitted])
    case Undo(t) => st.(count := st.count - 1, threads := st.threads[t := Idle])
    case CreateFails(t) => st.(threads := st.threads[t := Releasing])
    case Store(t, s) => st.(threads := st.threads[t := Idle], sessions := st.sessions[s := true])
    case Restore(s) => st.(sessions := st.sessions[s := false])
    case LoadToEnd(t, s) => st.(threads := st.threads[t := Ending(s)])
    case Delete(t) =>
      var s := st.threads[t].session;
      st.(threads := st.threads[t := Releasing],
          sessions := st.sessions - {s},
          surplus := if s in st.sessions && st.sessions[s] then st.surplus else st.surplus + 1)
    case Release(t) => st.(count := st.count - 1, threads := st.threads[t := Idle])
  }

  predicate Initial(st: State) {
    && st.count == 0 && st.sessions == map[] && st.surplus == 0
    && forall t :: t in st.threads ==> st.threads[t].Idle?
  }

  /** A run from `st`: every step is enabled where it is taken. */
  predicate LegalRun(st: State, steps: seq<Step>)
    decreases |steps|
  {
    steps != [] ==> Enabled(st, steps[0]) && LegalRun(Apply(st, steps[0]), steps[1..])
  }

  function Run(st: State, steps: seq<Step>): State
    requires LegalRun(st, steps)
    decreases |steps|
  {
    if steps == [] then st else Run(Apply(st, steps[0]), steps[1..])
  }

  predicate Holds(pc: Pc) {
    pc.Added? || pc.Undoing? || pc.Admitted? || pc.Releasing?
  }

  predicate Grants(pc: Pc, max: nat) {
    pc.Admitted? || (pc.Added? && pc.seen <= max)
  }

  /** Threads whose add to the counter has not been taken back. */
  function Holding(threads: map<int, Pc>): set<int> {
    set t | t in threads && Holds(threads[t])
  }

  /** Threads that have a slot or whose pending test is going to grant one. */
  function Granted(threads: map<int, Pc>, max: nat): set<int> {
    set t | t in threads && Grants(threads[t], max)
  }

  /** Sessions a slot was taken for. */
  function Slotted(sessions: map<string, bool>): set<string> {
    set s | s in sessions && sessions[s]
  }

  function One(b: bool): nat { if b then 1 else 0 }

  ghost predicate Inv(st: State) {
    && st.count + st.surplus == |Holding(st.threads)| + |Slotted(st.sessions)|
    && |Granted(st.threads, st.max)| + |Slotted(st.sessions)| <= st.max + st.surplus
  }

  lemma Without<T>(s: set<T>, x: T)
    ensures |s| == |s - {x}| + One(x in s)
  {
  }

  /** Moving one thread changes the two thread counts by that thread alone. */
  lemma Moves(threads: map<int, Pc>, t: int, pc: Pc, max: nat)
    requires t in threads
    ensures |Holding(threads[t := pc])| == |Holding(threads)| - One(Holds(threads[t])) + One(Holds(pc))
    ensures |Granted(threads[t := pc], max)| ==
      |Granted(threads, max)| - One(Grants(threads[t], max)) + One(Grants(pc, max))
  {
    assert Holding(threads[t := pc]) - {t} == Holding(threads) - {t};
    assert Granted(threads[t := pc], max) - {t} == Granted(threads, max) - {t};
    Without(Holding(threads), t);
    Without(Holding(threads[t := pc]), t);
    Without(Granted(threads, max), t);
    Without(Granted(threads[t := pc], max), t);
  }

  lemma GrantedFewer(threads: map<int, Pc>, max: nat)
    ensures |Granted(threads, max)| <= |Holding(threads)|
  {
    var extra := Holding(threads) - Granted(threads, max);
    forall t | t in Granted(threads, max) ensures t in Holding(threads) {
      assert Grants(threads[t], max);
    }
    assert Holding(threads) == Granted(threads, max) + extra;
  }

  lemma Stores(sessions: map<string, bool>, s: string, slot: bool)
    requires s !in sessions
    ensures |Slotted(sessions[s := slot])| == |Slotted(sessions)| + One(slot)
  {
    assert Slotted(sessions[s := slot]) - {s} == Slotted(sessions);
    assert s in Slotted(sessions[s := slot]) <==> slot;
  }

  lemma Deletes(sessions: map<string, bool>, s: string)
    ensures |Slotted(sessions - {s})| == |Slotted(sessions)| - One(s in sessions && sessions[s])
  {
    assert Slotted(sessions - {s}) == Slotted(sessions) - {s};
  }

  lemma StoreKeeps(st: State, t: int, s: string)
    requires Inv(st) && Enabled(st, Store(t, s))
    ensures Inv(Apply(st, Store(t, s)))
  {
    Moves(st.threads, t, Idle, st.max);
    Stores(st.sessions, s, true);
  }

  lemma DeleteKeeps(st: State, t: int)
    requires Inv(st) && Enabled(st, Delete(t))
    ensures Inv(Apply(st, Delete(t)))
  {
    Moves(st.threads, t, Releasing, st.max);
    Deletes(st.sessions, st.threads[t].session);
  }

  /** A step that moves one thread and the counter only. */
  lemma MoveKeeps(st: State, step: Step)
    requires Inv(st) && Enabled(st, step) && !step.Restore? && !step.Store? && !step.Delete?
    ensures Inv(Apply(st, step))
  {
    var st' := Apply(st, step);
    GrantedFewer(st'.threads, st.max);
    Moves(st.threads, step.t, st'.threads[step.t], st.max);
  }

  lemma StepKeeps(st: State, step: Step)
    requires Inv(st) && Enabled(st, step)
    ensures Inv(Apply(st, step)) && Apply(st, step).max == st.max
  {
    match step
    case Restore(s) => Stores(st.sessions, s, false);
    case Store(t, s) => StoreKeeps(st, t, s);
    case Delete(t) => DeleteKeeps(st, t);
    case _ => MoveKeeps(st, step);
  }

  lemma {:induction false} RunKeeps(st: State, steps: seq<Step>)
    requires Inv(st) && LegalRun(st, steps)
    ensures Inv(Run(st, steps)) && Run(st, steps).max == st.max
    decreases |steps|
  {
    if steps != [] {
      StepKeeps(st, steps[0]);
      RunKeeps(Apply(st, steps[0]), steps[1..]);
    }
  }

  lemma InitialInv(st: State)
    requires Initial(st)
    ensures Inv(st)
  {
    assert forall t :: t !in Holding(st.threads);
    assert forall t :: t !in Granted(st.threads, st.max);
    assert forall s :: s !in Slotted(st.sessions);
  }

  /** Accounting over every interleaving: the counter is the slots held by live
      sessions and threads in transit, less the surplus releases. It is exact if
      and only if no release was ever made for a session without a slot. */
  lemma CounterAccounts(st: State, steps: seq<Step>)
    requires Initial(st) && LegalRun(st, steps)
    ensures var end := Run(st, steps);
      && end.count == |Slotted(end.sessions)| + |Holding(end.threads)| - end.surplus
      && (end.count == |Slotted(end.sessions)| + |Holding(end.threads)| <==> end.surplus == 0)
  {
    InitialInv(st);
    RunKeeps(st, steps);
  }

  /** Admission over every interleaving: live sessions that took a slot, with the
      admissions under way, exceed the maximum by no more than the surplus. */
  lemma AdmissionBound(st: State, steps: seq<Step>)
    requires Initial(st) && LegalRun(st, steps)
    ensures var end := Run(st, steps);
      && |Slotted(end.sessions)| + |Granted(end.threads, end.max)| <= st.max + end.surplus
      && (end.surplus == 0 ==> |Slotted(end.sessions)| <= st.max)
  {
    InitialInv(st);
    RunKeeps(st, steps);
  }

  // ------------------------------------------- when the counter is exact

  /** A session is ended by one thread at a time, and only if it took a slot here. */
  predicate Careful(st: State, step: Step)
    requires Enabled(st, step)
  {
    step.LoadToEnd? ==> st.sessions[step.s] && !BeingEnded(st, step.s)
  }

  predicate CarefulRun(st: State, steps: seq<Step>)
    requires LegalRun(st, steps)
    decreases |steps|
  {
    steps != [] ==> Careful(st, steps[0]) && CarefulRun(Apply(st, steps[0]), steps[1..])
  }

  predicate EndsItsOwn(st: State, t: int) {
    t in st.threads && st.threads[t].Ending? ==>
      && st.threads[t].session in st.sessions && st.sessions[st.threads[t].session]
      && forall u :: u in st.threads && st.threads[u] == st.threads[t] ==> u == t
  }

  /** No surplus release has been made, and none is on its way. */
  ghost predicate Clean(st: State) {
    st.surplus == 0 && forall t :: EndsItsOwn(st, t)
  }

  lemma CarefulKeepsClean(st: State, step: Step)
    requires Clean(st) && Enabled(st, step) && Careful(st, step)
    ensures Clean(Apply(st, step))
  {
    var st' := Apply(st, step);
    if step.Delete? {
      assert EndsItsOwn(st, step.t);
      assert st'.surplus == 0;
    }
    forall t ensures EndsItsOwn(st', t) {
      assert EndsItsOwn(st, t);
    }
  }

  /** A surplus release that is on its way cannot be called off. */
  lemma UncleanStays(st: State, step: Step)
    requires Enabled(st, step) && (!Clean(st) || !Careful(st, step))
    ensures !Clean(Apply(st, step))
  {
    var st' := Apply(st, step);
    if st'.surplus == 0 {
      if !Careful(st, step) {
        if u :| u in st.threads && st.threads[u] == Ending(step.s) { assert st'.threads[u] == st'.threads[step.t]; }
        assert !EndsItsOwn(st', step.t);
      } else {
        var t :| !EndsItsOwn(st, t);
        var s := st.threads[t].session;
        if s in st.sessions && st.sessions[s] {
          var u :| u in st.threads && st.threads[u] == st.threads[t] && u != t;
          assert step == Delete(t) || st'.threads[t] == Ending(s);
          assert step == Delete(u) || st'.threads[u] == Ending(s);
          assert !EndsItsOwn(st', if step == Delete(t) then u else t);
        } else {
          assert st'.threads[t] == Ending(s);
          assert !EndsItsOwn(st', t);
        }
      }
    }
  }

  lemma {:induction false} CleanIffCareful(st: State, steps: seq<Step>)
    requires LegalRun(st, steps)
    ensures Clean(Run(st, steps)) <==> Clean(st) && CarefulRun(st, steps)
    decreases |steps|
  {
    if steps != [] {
      CleanIffCareful(Apply(st, steps[0]), steps[1..]);
      if Clean(st) && Careful(st, steps[0]) {
        CarefulKeepsClean(st, steps[0]);
      } else {
        UncleanStays(st, steps[0]);
      }
    }
  }

  /** Once no end is half done, the counter equals the slots that are held if and only
      if every end was of a session that took a slot and that no other thread was
      ending; then the maximum was never exceeded either. */
  lemma ExactIffCareful(st: State, steps: seq<Step>)
    requires Initial(st) && LegalRun(st, steps)
    requires forall t :: t in Run(st, steps).threads ==> !Run(st, steps).threads[t].Ending?
    ensures var end := Run(st, steps);
      && (end.count == |Slotted(end.sessions)| + |Holding(end.threads)| <==> CarefulRun(st, steps))
      && (CarefulRun(st, steps) ==> |Slotted(end.sessions)| + |Granted(end.threads, end.max)| <= st.max)
  {
    CounterAccounts(st, steps);
    AdmissionBound(st, steps);
    CleanIffCareful(st, steps);
  }

  lemma {:induction false} RunSplit(st: State, a: seq<Step>, b: seq<Step>)
    requires LegalRun(st, a) && LegalRun(Run(st, a), b)
    ensures LegalRun(st, a + b) && Run(st, a + b) == Run(Run(st, a), b)
    decreases |a|
  {
    if a == [] {
      assert a + b == b;
    } else {
      assert (a + b)[1..] == a[1..] + b;
      RunSplit(Apply(st, a[0]), a[1..], b);
    }
  }

  lemma Then(st: State, step: Step, rest: seq<Step>)
    requires Enabled(st, step) && LegalRun(Apply(st, step), rest)
    ensures LegalRun(st, [step] + rest) && Run(st, [step] + rest) == Run(Apply(st, step), rest)
  {
    assert ([step] + rest)[1..] == rest;
  }

  function Admission(t: int, s: string): seq<Step> {
    [Add(t)] + ([Test(t)] + ([Store(t, s)] + []))
  }

  /** An idle thread that finds room takes a slot and stores its session. */
  lemma Admits(st: State, t: int, s: string)
    requires t in st.threads && st.threads[t].Idle? && s !in st.sessions && !BeingEnded(st, s) && st.count < st.max
    ensures LegalRun(st, Admission(t, s))
    ensures Run(st, Admission(t, s)) == st.(count := st.count + 1, sessions := st.sessions[s := true])
  {
    var st1 := Apply(st, Add(t));
    var st2 := Apply(st1, Test(t));
    var st3 := Apply(st2, Store(t, s));
    assert st3.threads == st.threads;
    Then(st2, Store(t, s), []);
    Then(st1, Test(t), [Store(t, s)] + []);
    Then(st, Add(t), [Test(t)] + ([Store(t, s)] + []));
  }

  function EndedTwice(t: int, u: int, s: string): seq<Step> {
    [LoadToEnd(t, s)] + ([LoadToEnd(u, s)] + ([Delete(t)] + ([Delete(u)] + ([Release(t)] + ([Release(u)] + [])))))
  }

  /** Two ends of one session that both load it before either deletes it release
      twice: the counter drops by two and the surplus grows by one. */
  lemma EndsTwice(st: State, t: int, u: int, s: string)
    requires t != u && t in st.threads && u in st.threads && st.threads[t].Idle? && st.threads[u].Idle?
    requires s in st.sessions && st.sessions[s]
    ensures LegalRun(st, EndedTwice(t, u, s))
    ensures Run(st, EndedTwice(t, u, s)) ==
      st.(count := st.count - 2, sessions := st.sessions - {s}, surplus := st.surplus + 1)
  {
    var st1 := Apply(st, LoadToEnd(t, s));
    var st2 := Apply(st1, LoadToEnd(u, s));
    var st3 := Apply(st2, Delete(t));
    var st4 := Apply(st3, Delete(u));
    var st5 := Apply(st4, Release(t));
    var st6 := Apply(st5, Release(u));
    assert st6.threads == st.threads && st6.sessions == st.sessions - {s};
    Then(st5, Release(u), []);
    Then(st4, Release(t), [Release(u)] + []);
    Then(st3, Delete(u), [Release(t)] + ([Release(u)] + []));
    Then(st2, Delete(t), [Delete(u)] + ([Release(t)] + ([Release(u)] + [])));
    Then(st1, LoadToEnd(u, s), [Delete(t)] + ([Delete(u)] + ([Release(t)] + ([Release(u)] + []))));
    Then(st, LoadToEnd(t, s), [LoadToEnd(u, s)] + ([Delete(t)] + ([Delete(u)] + ([Release(t)] + ([Release(u)] + [])))));
  }

  /** Admitting two sessions one after the other. */
  lemma AdmitsTwo(st: State, t: int, a: string, b: string)
    requires t in st.threads && st.threads[t].Idle? && a != b && a !in st.sessions && b !in st.sessions
    requires !BeingEnded(st, a) && !BeingEnded(st, b) && st.count + 1 < st.max
    ensures LegalRun(st, Admission(t, a) + Admission(t, b))
    ensures Run(st, Admission(t, a) + Admission(t, b)) ==
      st.(count := st.count + 2, sessions := st.sessions[a := true][b := true])
  {
    Admits(st, t, a);
    Admits(Run(st, Admission(t, a)), t, b);
    RunSplit(st, Admission(t, a), Admission(t, b));
  }

  /** The bound needs the surplus: with room for one session, ending one twice lets
      two later sessions in at once. */
  lemma DoubleEndOverAdmits() returns (st: State, steps: seq<Step>)
    ensures Initial(st) && LegalRun(st, steps) && st.max == 1
    ensures Run(st, steps).surplus == 1 && |Slotted(Run(st, steps).sessions)| == 2
  {
    st := State(1, 0, map[0 := Idle, 1 := Idle], map[], 0);
    Admits(st, 0, "a");
    var st1 := Run(st, Admission(0, "a"));
    EndsTwice(st1, 0, 1, "a");
    var st2 := Run(st1, EndedTwice(0, 1, "a"));
    AdmitsTwo(st2, 0, "b", "c");
    var later := Admission(0, "b") + Admission(0, "c");
    RunSplit(st1, EndedTwice(0, 1, "a"), later);
    RunSplit(st, Admission(0, "a"), EndedTwice(0, 1, "a") + later);
    steps := Admission(0, "a") + (EndedTwice(0, 1, "a") + later);
    assert Slotted(Run(st, steps).sessions) == {"b", "c"};
  }
}
