/** Background renewal of a lease: a ticker started after the lock was granted
    extends it every interval until it is cancelled. Times are in nanoseconds. */
module Renewal {
  import opened LeaseLock

  const SECOND := 1_000_000_000

  /** A third of the ttl, but never under two seconds. */
  function Interval(ttl: int): (r: int)
    requires ttl > 0
    ensures 3 * r <= ttl <==> ttl >= 6 * SECOND
    ensures ttl >= 6 * SECOND ==> ttl < 3 * (r + 1)
    ensures ttl < 6 * SECOND ==> r == 2 * SECOND
  {
    if ttl / 3 < 2 * SECOND then 2 * SECOND else ttl / 3
  }

  /** The holder: its key, token and ttl, when the lock was granted, when its ticker
      started, and how late an extension may land after its tick. */
  datatype Holder = Holder(key: string, token: string, ttl: int, granted: int, started: int, lateness: int) {
    /** The assumption on timing: an extension due one interval after the ticker
        started, and landing `lateness` after that, is still within the ttl. */
    predicate Timely() {
      && ttl > 0 && granted <= started && lateness >= 0
      && (started - granted) + Interval(ttl) + lateness <= ttl
    }

    predicate IsOwn(op: Op) {
      match op
      case Lock(k, _, tok) => k == key && tok == token
      case Unlock(k, tok) => k == key && tok == token
      case Extend(k, tok, _) => k == key && tok == token
    }

    function Entry(lastGrant: int): Entry {
      LeaseLock.Entry(token, Some(lastGrant + ttl))
    }

    /** The call that takes the lock. */
    function Taking(): Op { Lock(key, ttl, token) }

    /** The lock is granted to the holder, and `t` is the table then. */
    predicate Obtained(t0: Table, t: Table) { Act(t0, Taking(), granted) == (t, Granted) }
  }

  /** When the k-th tick is due. */
  function Due(h: Holder, k: nat): int
    requires h.ttl > 0
  {
    if k == 0 then h.started else Due(h, k - 1) + Interval(h.ttl)
  }

  /** How many times the holder has extended. */
  function Extensions(h: Holder, run: seq<Timed>): nat {
    if run == [] then 0
    else Extensions(h, run[..|run| - 1]) + if h.IsOwn(run[|run| - 1].op) then 1 else 0
  }

  /** When the lease was last granted or extended. */
  function LastGrant(h: Holder, run: seq<Timed>): int {
    if run == [] then h.granted
    else if h.IsOwn(run[|run| - 1].op) then run[|run| - 1].at
    else LastGrant(h, run[..|run| - 1])
  }

  /** A run while renewal is on. The holder's own calls are its extensions, the k-th
      no earlier than the k-th tick; and nobody calls later than the point by which
      the next extension must have landed. Other callers are unconstrained. */
  predicate Renewed(h: Holder, run: seq<Timed>)
    requires h.ttl > 0
  {
    run != [] ==>
      var before, e := run[..|run| - 1], run[|run| - 1];
      var k := Extensions(h, before) + 1;
      && Renewed(h, before)
      && e.at <= Due(h, k) + h.lateness
      && (h.IsOwn(e.op) ==>
            e.op == Extend(h.key, h.token, h.ttl) && Due(h, k) <= e.at)
  }

  /** Calls after cancellation: none by the holder, none after the lease it last
      obtained runs out. */
  predicate WithinLastLease(h: Holder, lastGrant: int, run: seq<Timed>) {
    forall i :: 0 <= i < |run| ==> !h.IsOwn(run[i].op) && run[i].at <= lastGrant + h.ttl
  }

  lemma {:induction false} LastGrantAfterTick(h: Holder, run: seq<Timed>)
    requires h.Timely() && Renewed(h, run)
    ensures Extensions(h, run) == 0 ==> LastGrant(h, run) == h.granted
    ensures Extensions(h, run) > 0 ==> Due(h, Extensions(h, run)) <= LastGrant(h, run)
  {
    if run != [] {
      LastGrantAfterTick(h, run[..|run| - 1]);
    }
  }

  /** The next call of any party comes before the lease runs out. */
  lemma NextCallInTime(h: Holder, run: seq<Timed>)
    requires h.Timely() && run != [] && Renewed(h, run)
    ensures run[|run| - 1].at <= LastGrant(h, run[..|run| - 1]) + h.ttl
  {
    var before := run[..|run| - 1];
    var k := Extensions(h, before);
    LastGrantAfterTick(h, before);
    assert Due(h, k + 1) == Due(h, k) + Interval(h.ttl);
    if k == 0 { assert Due(h, 0) == h.started; }
  }

  /** For every run of any length from the grant on, while renewal is on the table holds
      the key for the holder, with the lease of its last extension. */
  lemma {:induction false} NeverLapses(h: Holder, t0: Table, t: Table, run: seq<Timed>)
    requires h.Timely() && Renewed(h, run) && h.Obtained(t0, t)
    ensures var after := TableAfter(t, run);
      h.key in after && after[h.key] == h.Entry(LastGrant(h, run))
  {
    if run != [] {
      NeverLapses(h, t0, t, run[..|run| - 1]);
      NextCallInTime(h, run);
    }
  }

  /** Every competing Lock is refused while renewal is on, and every extension the
      holder makes succeeds. */
  lemma RenewedAnswers(h: Holder, t0: Table, t: Table, run: seq<Timed>, i: nat)
    requires h.Timely() && Renewed(h, run) && i < |run| && h.Obtained(t0, t)
    ensures run[i].op.Lock? && run[i].op.key == h.key ==> AnswerAt(t, run, i) == Conflict
    ensures h.IsOwn(run[i].op) ==> AnswerAt(t, run, i) == Done
  {
    RenewedPrefix(h, run, i + 1);
    assert run[..i + 1][..i] == run[..i];
    NeverLapses(h, t0, t, run[..i]);
    NextCallInTime(h, run[..i + 1]);
  }

  lemma {:induction false} RenewedPrefix(h: Holder, run: seq<Timed>, n: nat)
    requires h.ttl > 0 && Renewed(h, run) && n <= |run|
    ensures Renewed(h, run[..n])
  {
    if n == |run| {
      assert run[..n] == run;
    } else {
      assert run[..|run| - 1][..n] == run[..n];
      RenewedPrefix(h, run[..|run| - 1], n);
    }
  }

  lemma {:induction false} HeldToTheEnd(h: Holder, lastGrant: int, t: Table, run: seq<Timed>)
    requires h.key in t && t[h.key] == h.Entry(lastGrant)
    requires WithinLastLease(h, lastGrant, run)
    ensures h.key in TableAfter(t, run) && TableAfter(t, run)[h.key] == h.Entry(lastGrant)
  {
    if run != [] {
      HeldToTheEnd(h, lastGrant, t, run[..|run| - 1]);
    }
  }

  /** After cancellation the key stays taken for what is left of the last lease, and
      not a moment longer: the first Lock past it is granted. */
  lemma CancelledLeaseRunsOut(h: Holder, t0: Table, t: Table, run: seq<Timed>, rest: seq<Timed>, competitor: Timed)
    requires h.Timely() && Renewed(h, run) && h.Obtained(t0, t)
    requires WithinLastLease(h, LastGrant(h, run), rest)
    requires competitor.op.Lock? && competitor.op.key == h.key
    ensures Act(TableAfter(TableAfter(t, run), rest), competitor.op, competitor.at).1 ==
      if competitor.at <= LastGrant(h, run) + h.ttl then Conflict else Granted
  {
    NeverLapses(h, t0, t, run);
    HeldToTheEnd(h, LastGrant(h, run), TableAfter(t, run), rest);
  }

  /** Renewal can be timely at all exactly for a ttl of at least two seconds. */
  lemma TimelyIffTwoSeconds(ttl: int)
    requires ttl > 0
    ensures (exists h: Holder :: h.ttl == ttl && h.Timely()) <==> ttl >= 2 * SECOND
  {
    if ttl >= 2 * SECOND {
      assert Holder("", "", ttl, 0, 0, 0).Timely();
    }
  }

  /** Whatever other callers do to the key, the table never holds a later lease for the
      holder than the one it was granted. */
  lemma {:induction false} OthersExtendNothing(h: Holder, t0: Table, t: Table, run: seq<Timed>)
    requires h.ttl > 0 && h.Obtained(t0, t)
    requires forall i :: 0 <= i < |run| ==> !h.IsOwn(run[i].op)
    ensures var after := TableAfter(t, run);
      h.key in after ==> after[h.key] == h.Entry(h.granted) || after[h.key].token != h.token
  {
    if run != [] {
      OthersExtendNothing(h, t0, t, run[..|run| - 1]);
    }
  }

  /** Below two seconds the lease is gone before the first tick: over every run of calls
      by others from the grant on, the first extension is refused. */
  lemma ShortLeaseLapses(h: Holder, t0: Table, t: Table, run: seq<Timed>, at: int)
    requires 0 < h.ttl < 2 * SECOND && h.granted <= h.started && h.started + Interval(h.ttl) <= at
    requires h.Obtained(t0, t)
    requires forall i :: 0 <= i < |run| ==> !h.IsOwn(run[i].op)
    ensures Act(TableAfter(t, run), Extend(h.key, h.token, h.ttl), at).1 == NotHeld
  {
    OthersExtendNothing(h, t0, t, run);
  }
}
