/** Per-path mutexes of local storage. Most operations take one; a rename takes two,
    the smaller path first. */
module PathLocks {

  // ---------------------------------------------------- string order

  /** Order of strings, character by character. */
  predicate Less(a: string, b: string) {
    if b == "" then false
    else if a == "" then true
    else a[0] < b[0] || (a[0] == b[0] && Less(a[1..], b[1..]))
  }

  lemma {:induction false} LessTransitive(a: string, b: string, c: string)
    requires Less(a, b) && Less(b, c)
    ensures Less(a, c)
  {
    if a != "" && a[0] == b[0] && b[0] == c[0] {
      LessTransitive(a[1..], b[1..], c[1..]);
    }
  }

  lemma {:induction false} LessIrreflexive(a: string)
    ensures !Less(a, a)
  {
    if a != "" { LessIrreflexive(a[1..]); }
  }

  lemma {:induction false} LessTotal(a: string, b: string)
    ensures a == b || Less(a, b) || Less(b, a)
  {
    if a != "" && b != "" {
      LessTotal(a[1..], b[1..]);
      if a[1..] == b[1..] && a[0] == b[0] {
        assert a == [a[0]] + a[1..] && b == [b[0]] + b[1..];
      }
    }
  }

  /** A finite non-empty set of paths has a largest one. */
  lemma {:induction false} Largest(ps: set<string>) returns (m: string)
    requires ps != {}
    ensures m in ps && forall p :: p in ps ==> !Less(m, p)
    decreases ps
  {
    var x :| x in ps;
    LessIrreflexive(x);
    m := x;
    if ps != {x} {
      var y := Largest(ps - {x});
      LessTotal(x, y);
      if Less(x, y) {
        m := y;
        forall p | p in ps ensures !Less(m, p) {
          if p == x && Less(y, x) { LessTransitive(x, y, x); }
        }
      } else {
        forall p | p in ps ensures !Less(x, p) {
          if p != x && Less(x, p) {
            if x != y { LessTransitive(y, x, p); }
          }
        }
      }
    }
  }

  // ---------------------------------------------------------- machine

  datatype Op = Single(path: string) | Rename(src: string, dst: string)

  /** The locks of an operation, in the order it takes them. */
  function PathOrder(op: Op): (r: seq<string>)
    ensures |r| <= 2 && (|r| == 2 ==> Less(r[0], r[1]))
  {
    match op
    case Single(p) => [p]
    case Rename(src, dst) =>
      if src == dst then []
      else if Less(src, dst) then [src, dst]
      else
        LessTotal(src, dst);
        [dst, src]
  }

  /** A rename locks both its paths, each once, whichever way round they are given. */
  lemma LocksBothPaths(src: string, dst: string)
    ensures PathOrder(Rename(src, dst)) == PathOrder(Rename(dst, src))
    ensures src != dst ==> multiset(PathOrder(Rename(src, dst))) == multiset{src, dst}
  {
    if src != dst {
      LessTotal(src, dst);
      if Less(src, dst) && Less(dst, src) {
        LessTransitive(src, dst, src);
        LessIrreflexive(src);
      }
    }
  }

  /** A thread: operations to come, locks still to take for the current one, locks held. */
  datatype Thread = Thread(program: seq<Op>, want: seq<string>, held: set<string>)

  datatype State = State(threads: seq<Thread>, owner: map<string, nat>)

  datatype Step = Begin(t: nat) | Acquire(t: nat) | Release(t: nat, path: string)

  predicate Enabled(s: State, step: Step) {
    && step.t < |s.threads|
    && var th := s.threads[step.t];
       match step
       case Begin(_) => th.want == [] && th.held == {} && th.program != []
       case Acquire(_) => th.want != [] && th.want[0] !in s.owner
       case Release(_, path) => th.want == [] && path in th.held
  }

  function Apply(s: State, step: Step): State
    requires Enabled(s, step)
  {
    var th := s.threads[step.t];
    match step
    case Begin(t) =>
      s.(threads := s.threads[t := th.(program := th.program[1..], want := PathOrder(th.program[0]))])
    case Acquire(t) =>
      State(s.threads[t := th.(want := th.want[1..], held := th.held + {th.want[0]})], s.owner[th.want[0] := t])
    case Release(t, path) =>
      State(s.threads[t := th.(held := th.held - {path})], s.owner - {path})
  }

  predicate Initial(s: State) {
    && s.owner == map[]
    && forall t :: 0 <= t < |s.threads| ==> s.threads[t].want == [] && s.threads[t].held == {}
  }

  predicate LegalRun(s: State, steps: seq<Step>)
    decreases |steps|
  {
    steps != [] ==> Enabled(s, steps[0]) && LegalRun(Apply(s, steps[0]), steps[1..])
  }

  function Run(s: State, steps: seq<Step>): State
    requires LegalRun(s, steps)
    decreases |steps|
  {
    if steps == [] then s else Run(Apply(s, steps[0]), steps[1..])
  }

  predicate Finished(th: Thread) { th.program == [] && th.want == [] && th.held == {} }

  predicate CanStep(s: State) {
    exists t :: 0 <= t < |s.threads| && Runnable(s, t)
  }

  predicate Runnable(s: State, t: nat)
    requires t < |s.threads|
  {
    Enabled(s, Begin(t)) || Enabled(s, Acquire(t)) || exists p :: p in s.threads[t].held && Enabled(s, Release(t, p))
  }

  // -------------------------------------------------------- invariant

  /** Every held lock is smaller than every lock still wanted. */
  predicate InOrder(th: Thread) {
    && (forall p, i :: p in th.held && 0 <= i < |th.want| ==> Less(p, th.want[i]))
    && (forall i, j :: 0 <= i < j < |th.want| ==> Less(th.want[i], th.want[j]))
  }

  predicate Inv(s: State) {
    && (forall t :: 0 <= t < |s.threads| ==> InOrder(s.threads[t]))
    && (forall t, p :: 0 <= t < |s.threads| && p in s.threads[t].held ==> p in s.owner && s.owner[p] == t)
    && (forall p :: p in s.owner ==> s.owner[p] < |s.threads| && p in s.threads[s.owner[p]].held)
  }

  lemma StepKeepsOrder(s: State, step: Step)
    requires Inv(s) && Enabled(s, step)
    ensures forall t :: 0 <= t < |s.threads| ==> InOrder(Apply(s, step).threads[t])
  {
    assert InOrder(s.threads[step.t]);
  }

  lemma StepKeepsHeld(s: State, step: Step, u: nat, p: string)
    requires Inv(s) && Enabled(s, step) && u < |s.threads|
    requires p in Apply(s, step).threads[u].held
    ensures p in Apply(s, step).owner && Apply(s, step).owner[p] == u
  {
    if !(step.Acquire? && u == step.t && p == s.threads[u].want[0]) {
      assert p in s.threads[u].held && s.owner[p] == u;
      if step.Release? && u != step.t {
        assert step.path in s.threads[step.t].held && s.owner[step.path] == step.t;
        assert p != step.path;
      }
    }
  }

  lemma StepKeepsOwner(s: State, step: Step, p: string)
    requires Inv(s) && Enabled(s, step) && p in Apply(s, step).owner
    ensures var s' := Apply(s, step);
      s'.owner[p] < |s'.threads| && p in s'.threads[s'.owner[p]].held
  {
  }

  lemma StepKeeps(s: State, step: Step)
    requires Inv(s) && Enabled(s, step)
    ensures Inv(Apply(s, step))
  {
    var s' := Apply(s, step);
    StepKeepsOrder(s, step);
    forall u, p | 0 <= u < |s'.threads| && p in s'.threads[u].held ensures p in s'.owner && s'.owner[p] == u {
      StepKeepsHeld(s, step, u, p);
    }
    forall p | p in s'.owner ensures s'.owner[p] < |s'.threads| && p in s'.threads[s'.owner[p]].held {
      StepKeepsOwner(s, step, p);
    }
  }

  lemma {:induction false} RunKeeps(s: State, steps: seq<Step>)
    requires Inv(s) && LegalRun(s, steps)
    ensures Inv(Run(s, steps))
    decreases |steps|
  {
    if steps != [] {
      StepKeeps(s, steps[0]);
      RunKeeps(Apply(s, steps[0]), steps[1..]);
    }
  }

  // -------------------------------------------------- mutual exclusion

  /** The paths an operation works on. A rename of a path to itself does nothing. */
  function Touched(op: Op): set<string> {
    match op
    case Single(p) => {p}
    case Rename(src, dst) => if src == dst then {} else {src, dst}
  }

  /** What a thread holds and wants are together the paths of the operation. */
  predicate Engaged(s: State, t: nat, op: Op) {
    && t < |s.threads|
    && s.threads[t].held + (set p | p in s.threads[t].want) == Touched(op)
  }

  lemma BeginEngages(s: State, t: nat)
    requires Enabled(s, Begin(t))
    ensures Engaged(Apply(s, Begin(t)), t, s.threads[t].program[0])
  {
    var op := s.threads[t].program[0];
    if op.Rename? { LessTotal(op.src, op.dst); }
  }

  lemma StepStaysEngaged(s: State, step: Step, t: nat, op: Op)
    requires Engaged(s, t, op) && Enabled(s, step) && (step.t != t || step.Acquire?)
    ensures Engaged(Apply(s, step), t, op)
  {
    if step.t == t {
      var th := s.threads[t];
      assert th.want == [th.want[0]] + th.want[1..];
    }
  }

  lemma {:induction false} StaysEngaged(s: State, steps: seq<Step>, t: nat, op: Op)
    requires Engaged(s, t, op) && LegalRun(s, steps)
    requires forall i :: 0 <= i < |steps| ==> steps[i].t != t || steps[i].Acquire?
    ensures Engaged(Run(s, steps), t, op)
    decreases |steps|
  {
    if steps != [] {
      StepStaysEngaged(s, steps[0], t, op);
      StaysEngaged(Apply(s, steps[0]), steps[1..], t, op);
    }
  }

  /** Whatever the other threads do: from the time a thread has all the locks of its
      operation to its first release, it is the only one to hold the lock of any path the
      operation works on, be it one path or two. */
  lemma WorksAlone(s: State, t: nat, steps: seq<Step>, p: string)
    requires Inv(s) && Enabled(s, Begin(t)) && LegalRun(Apply(s, Begin(t)), steps)
    requires forall i :: 0 <= i < |steps| ==> steps[i].t != t || steps[i].Acquire?
    requires p in Touched(s.threads[t].program[0])
    ensures var end := Run(Apply(s, Begin(t)), steps);
      && t < |end.threads|
      && (end.threads[t].want == [] ==>
            && p in end.threads[t].held && p in end.owner && end.owner[p] == t
            && forall u :: 0 <= u < |end.threads| && u != t ==> p !in end.threads[u].held)
  {
    StepKeeps(s, Begin(t));
    RunKeeps(Apply(s, Begin(t)), steps);
    BeginEngages(s, t);
    StaysEngaged(Apply(s, Begin(t)), steps, t, s.threads[t].program[0]);
  }

  // --------------------------------------------------- deadlock freedom

  /** The paths that threads are blocked on. */
  function Awaited(s: State): set<string> {
    set t | 0 <= t < |s.threads| && s.threads[t].want != [] :: s.threads[t].want[0]
  }

  /** An unfinished thread can go on, or it waits for a lock. */
  lemma UnfinishedWaits(s: State, t: nat)
    requires t < |s.threads| && !Finished(s.threads[t])
    ensures Runnable(s, t) || s.threads[t].want != []
  {
    if s.threads[t].want == [] && s.threads[t].held != {} {
      var p :| p in s.threads[t].held;
      assert Enabled(s, Release(t, p));
    }
  }

  /** Unless somebody can step, the owner of an awaited path awaits a larger one. */
  lemma OwnerAwaitsLarger(s: State, t: nat)
    requires Inv(s) && t < |s.threads| && s.threads[t].want != []
    ensures CanStep(s) || exists p :: p in Awaited(s) && Less(s.threads[t].want[0], p)
  {
    var w := s.threads[t].want[0];
    if w !in s.owner {
      assert Runnable(s, t);
    } else {
      var u := s.owner[w];
      UnfinishedWaits(s, u);
      if s.threads[u].want != [] {
        assert s.threads[u].want[0] in Awaited(s);
      }
    }
  }

  /** Some unfinished thread can always step. */
  lemma NoDeadlock(s: State, t: nat)
    requires Inv(s) && t < |s.threads| && !Finished(s.threads[t])
    ensures CanStep(s)
  {
    UnfinishedWaits(s, t);
    if s.threads[t].want != [] {
      assert s.threads[t].want[0] in Awaited(s);
      var m := Largest(Awaited(s));
      var u :| 0 <= u < |s.threads| && s.threads[u].want != [] && s.threads[u].want[0] == m;
      OwnerAwaitsLarger(s, u);
    }
  }

  // -------------------------------------------------------- termination

  function Work(th: Thread): nat { 5 * |th.program| + 2 * |th.want| + |th.held| }

  function TotalWork(ths: seq<Thread>): nat {
    if ths == [] then 0 else Work(ths[0]) + TotalWork(ths[1..])
  }

  lemma {:induction false} WorkUpdate(ths: seq<Thread>, t: nat, th: Thread)
    requires t < |ths|
    ensures TotalWork(ths[t := th]) == TotalWork(ths) - Work(ths[t]) + Work(th)
  {
    if t > 0 {
      WorkUpdate(ths[1..], t - 1, th);
      assert ths[t := th][1..] == ths[1..][t - 1 := th];
    } else {
      assert ths[t := th][1..] == ths[1..];
    }
  }

  lemma StepWorks(s: State, step: Step)
    requires Inv(s) && Enabled(s, step)
    ensures TotalWork(Apply(s, step).threads) < TotalWork(s.threads)
  {
    var s' := Apply(s, step);
    WorkUpdate(s.threads, step.t, s'.threads[step.t]);
  }

  lemma {:induction false} RunIsBounded(s: State, steps: seq<Step>)
    requires Inv(s) && LegalRun(s, steps)
    ensures |steps| + TotalWork(Run(s, steps).threads) <= TotalWork(s.threads)
    decreases |steps|
  {
    if steps != [] {
      StepKeeps(s, steps[0]);
      StepWorks(s, steps[0]);
      RunIsBounded(Apply(s, steps[0]), steps[1..]);
    }
  }

  /** Any number of threads running any programs, under any scheduling: no run goes on
      for more steps than there is work, and a run that cannot go on has finished
      every thread. */
  lemma EveryRunFinishes(s: State, steps: seq<Step>)
    requires Initial(s) && LegalRun(s, steps)
    ensures |steps| <= TotalWork(s.threads)
    ensures var end := Run(s, steps);
      !CanStep(end) ==> forall t :: 0 <= t < |end.threads| ==> Finished(end.threads[t])
  {
    RunKeeps(s, steps);
    RunIsBounded(s, steps);
    var end := Run(s, steps);
    forall t | 0 <= t < |end.threads| && !Finished(end.threads[t]) ensures CanStep(end) {
      NoDeadlock(end, t);
    }
  }
}
