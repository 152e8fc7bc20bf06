/** The in-process lease lock: a table from key to holder token and expiry, where an
    expired entry stays in the table until some call runs into it. */
module LeaseLock {

  datatype Option<T> = None | Some(value: T)

  datatype Entry = Entry(token: string, expiry: Option<int>)

  type Table = map<string, Entry>

  datatype Op =
    | Lock(key: string, ttl: int, token: string)
    | Unlock(key: string, token: string)
    | Extend(key: string, token: string, ttl: int)

  datatype Answer = Granted | Done | Conflict | NotHeld

  datatype Timed = Timed(op: Op, at: int)

  predicate Expired(e: Entry, now: int) {
    e.expiry.Some? && now > e.expiry.value
  }

  function ExpiryFor(ttl: int, now: int): Option<int> {
    if ttl > 0 then Some(now + ttl) else None
  }

  /** One call on the table as the code makes it: expiry is noticed on contact. */
  function Act(t: Table, op: Op, now: int): (Table, Answer) {
    match op
    case Lock(key, ttl, token) =>
      if key in t && !Expired(t[key], now) then (t, Conflict)
      else (t[key := Entry(token, ExpiryFor(ttl, now))], Granted)
    case Unlock(key, token) =>
      if key !in t then (t, NotHeld)
      else if Expired(t[key], now) then (t - {key}, NotHeld)
      else if t[key].token != token then (t, NotHeld)
      else (t - {key}, Done)
    case Extend(key, token, ttl) =>
      if key !in t then (t, NotHeld)
      else if Expired(t[key], now) then (t - {key}, NotHeld)
      else if t[key].token != token then (t, NotHeld)
      else if ttl > 0 then (t[key := t[key].(expiry := Some(now + ttl))], Done)
      else (t, Done)
  }

  class LocalLock {
    var locks: Table

    constructor ()
      ensures locks == map[]
    {
      locks := map[];
    }

    method Lock(key: string, ttl: int, token: string, now: int) returns (r: Answer)
      modifies this
      ensures (locks, r) == Act(old(locks), Op.Lock(key, ttl, token), now)
      ensures r == Granted || r == Conflict
      ensures r == Conflict <==> key in old(locks) && !(old(locks)[key].expiry.Some? && now > old(locks)[key].expiry.value)
      ensures r == Conflict ==> locks == old(locks)
      ensures r == Granted ==> locks == old(locks)[key := Entry(token, if ttl > 0 then Some(now + ttl) else None)]
    {
      if key in locks {
        if Expired(locks[key], now) {
          locks := locks - {key};
        } else {
          return Conflict;
        }
      }
      locks := locks[key := Entry(token, ExpiryFor(ttl, now))];
      assert locks == old(locks)[key := Entry(token, ExpiryFor(ttl, now))];
      return Granted;
    }

    method Unlock(key: string, token: string, now: int) returns (r: Answer)
      modifies this
      ensures (locks, r) == Act(old(locks), Op.Unlock(key, token), now)
      ensures r == if HeldIn(old(locks), key, token, now) then Done else NotHeld
      ensures r == Done ==> locks == old(locks) - {key}
      ensures forall k :: k != key && k in old(locks) ==> k in locks && locks[k] == old(locks)[k]
    {
      if key !in locks { return NotHeld; }
      if Expired(locks[key], now) {
        locks := locks - {key};
        return NotHeld;
      }
      if locks[key].token != token { return NotHeld; }
      locks := locks - {key};
      return Done;
    }

    method Extend(key: string, token: string, ttl: int, now: int) returns (r: Answer)
      modifies this
      ensures (locks, r) == Act(old(locks), Op.Extend(key, token, ttl), now)
      ensures r == if HeldIn(old(locks), key, token, now) then Done else NotHeld
      ensures r == Done ==> locks == if ttl > 0 then old(locks)[key := Entry(token, Some(now + ttl))] else old(locks)
    {
      if key !in locks { return NotHeld; }
      if Expired(locks[key], now) {
        locks := locks - {key};
        return NotHeld;
      }
      if locks[key].token != token { return NotHeld; }
      if ttl > 0 {
        locks := locks[key := locks[key].(expiry := Some(now + ttl))];
      }
      return Done;
    }
  }

  // ------------------------------------------------------------------ runs

  /** Calls in clock order. */
  predicate Ordered(run: seq<Timed>) {
    forall i, j :: 0 <= i < j < |run| ==> run[i].at <= run[j].at
  }

  function TableAfter(t: Table, run: seq<Timed>): Table {
    if run == [] then t
    else Act(TableAfter(t, run[..|run| - 1]), run[|run| - 1].op, run[|run| - 1].at).0
  }

  /** What the call at position i is answered. */
  function AnswerAt(t: Table, run: seq<Timed>, i: nat): Answer
    requires i < |run|
  {
    Act(TableAfter(t, run[..i]), run[i].op, run[i].at).1
  }

  // -------------------------------------------------- how long a lease lasts

  /** No call gives up or extends the lease of `token` on `key`, and none on `key` comes
      after the lease that ends at `end`, if it does end. */
  predicate LeavesLease(run: seq<Timed>, key: string, token: string, end: Option<int>) {
    forall i :: 0 <= i < |run| && run[i].op.key == key ==>
      && (run[i].op.Lock? || run[i].op.token != token)
      && (end.Some? ==> run[i].at <= end.value)
  }

  lemma {:induction false} LeaseStands(t: Table, run: seq<Timed>, key: string, token: string, end: Option<int>)
    requires key in t && t[key] == Entry(token, end) && LeavesLease(run, key, token, end)
    ensures key in TableAfter(t, run) && TableAfter(t, run)[key] == Entry(token, end)
  {
    if run != [] {
      LeaseStands(t, run[..|run| - 1], key, token, end);
    }
  }

  /** A key granted at `at` with a positive ttl is refused to everyone up to and including
      `at + ttl` and free right after; with no ttl it is refused for ever, until the holder
      gives it up. */
  lemma GrantLasts(t: Table, key: string, ttl: int, token: string, at: int, run: seq<Timed>, ttl': int, other: string, x: int)
    requires Act(t, Lock(key, ttl, token), at).1 == Granted
    requires LeavesLease(run, key, token, if ttl > 0 then Some(at + ttl) else None)
    ensures var now := TableAfter(Act(t, Lock(key, ttl, token), at).0, run);
      Act(now, Lock(key, ttl', other), x).1 == if ttl <= 0 || x <= at + ttl then Conflict else Granted
  {
    LeaseStands(Act(t, Lock(key, ttl, token), at).0, run, key, token, if ttl > 0 then Some(at + ttl) else None);
  }

  /** An extension starts the lease anew at the time of the call. */
  lemma ExtensionLasts(t: Table, key: string, ttl: int, token: string, at: int, run: seq<Timed>, ttl': int, other: string, x: int)
    requires ttl > 0 && Act(t, Extend(key, token, ttl), at).1 == Done
    requires LeavesLease(run, key, token, Some(at + ttl))
    ensures var now := TableAfter(Act(t, Extend(key, token, ttl), at).0, run);
      Act(now, Lock(key, ttl', other), x).1 == if x <= at + ttl then Conflict else Granted
  {
    LeaseStands(Act(t, Extend(key, token, ttl), at).0, run, key, token, Some(at + ttl));
  }

  // ---------------------------------------------- eager expiry as reference

  /** The table with every entry expired at `now` taken out. */
  function Purge(t: Table, now: int): Table {
    map k | k in t && !Expired(t[k], now) :: t[k]
  }

  /** A table that expires eagerly needs no expiry test of its own: an entry that is
      present is live. */
  function ActEager(t: Table, op: Op, now: int): (Table, Answer) {
    match op
    case Lock(key, ttl, token) =>
      if key in t then (t, Conflict) else (t[key := Entry(token, ExpiryFor(ttl, now))], Granted)
    case Unlock(key, token) =>
      if key in t && t[key].token == token then (t - {key}, Done) else (t, NotHeld)
    case Extend(key, token, ttl) =>
      if key in t && t[key].token == token then
        (if ttl > 0 then t[key := t[key].(expiry := Some(now + ttl))] else t, Done)
      else (t, NotHeld)
  }

  function EagerAfter(t: Table, run: seq<Timed>): Table {
    if run == [] then t
    else
      var e := run[|run| - 1];
      ActEager(Purge(EagerAfter(t, run[..|run| - 1]), e.at), e.op, e.at).0
  }

  lemma ActRefines(t: Table, op: Op, now: int)
    ensures Act(t, op, now).1 == ActEager(Purge(t, now), op, now).1
    ensures Purge(Act(t, op, now).0, now) == Purge(ActEager(Purge(t, now), op, now).0, now)
  {
  }

  lemma PurgeLater(t: Table, a: int, b: int)
    requires a <= b
    ensures Purge(Purge(t, a), b) == Purge(t, b)
  {
  }

  /** Over every run with a nondecreasing clock, the lazy table answers each call as
      the eager one does. */
  lemma {:induction false} LazyAnswersAsEager(t: Table, run: seq<Timed>, i: nat)
    requires Ordered(run) && i < |run|
    ensures AnswerAt(t, run, i) == ActEager(Purge(EagerAfter(t, run[..i]), run[i].at), run[i].op, run[i].at).1
  {
    SameLive(t, run[..i], run[i].at);
    ActRefines(TableAfter(t, run[..i]), run[i].op, run[i].at);
  }

  lemma {:induction false} SameLive(t: Table, run: seq<Timed>, now: int)
    requires Ordered(run) && (run != [] ==> run[|run| - 1].at <= now)
    ensures Purge(TableAfter(t, run), now) == Purge(EagerAfter(t, run), now)
  {
    if run != [] {
      var before, e := run[..|run| - 1], run[|run| - 1];
      SameLive(t, before, e.at);
      ActRefines(TableAfter(t, before), e.op, e.at);
      PurgeLater(TableAfter(t, run), e.at, now);
      PurgeLater(EagerAfter(t, run), e.at, now);
    }
  }

  // --------------------------------------- leases read off the call history

  /** The lease that the answers given so far entitle `token` to on `key`: its last
      grant or extension, unless it has given the lock up. Nothing any other token
      did is looked at. */
  function Lease(run: seq<Timed>, key: string, token: string): Option<Option<int>> {
    if run == [] then None
    else
      Renegotiate(Lease(run[..|run| - 1], key, token), run[|run| - 1], AnswerAt(map[], run, |run| - 1), key, token)
  }

  predicate Live(run: seq<Timed>, key: string, token: string, now: int) {
    var lease := Lease(run, key, token);
    lease.Some? && (lease.value.Some? ==> now <= lease.value.value)
  }

  predicate HeldIn(t: Table, key: string, token: string, now: int) {
    key in t && t[key].token == token && !Expired(t[key], now)
  }

  /** The table agrees with the leases: the token it names has exactly the lease it
      records, and any other token's lease has run out. */
  lemma {:induction false} TableHoldsLeases(run: seq<Timed>, key: string, token: string)
    requires Ordered(run)
    ensures Agrees(TableAfter(map[], run), key, token, Lease(run, key, token), if run == [] then 0 else run[|run| - 1].at)
  {
    if run != [] {
      var before, e := run[..|run| - 1], run[|run| - 1];
      TableHoldsLeases(before, key, token);
      if before != [] { assert run[|run| - 2].at <= e.at; }
      CallAgrees(TableAfter(map[], before), e, key, token, Lease(before, key, token),
                 if before == [] then 0 else before[|before| - 1].at);
    }
  }

  predicate Agrees(t: Table, key: string, token: string, lease: Option<Option<int>>, now: int) {
    if key in t && t[key].token == token then lease == Some(t[key].expiry)
    else lease.Some? ==> lease.value.Some? && lease.value.value < now
  }

  /** What one answered call does to a lease. */
  function Renegotiate(lease: Option<Option<int>>, e: Timed, answer: Answer, key: string, token: string): Option<Option<int>> {
    match e.op
    case Lock(k, ttl, tok) =>
      if k == key && tok == token && answer == Granted then Some(if ttl > 0 then Some(e.at + ttl) else None)
      else lease
    case Unlock(k, tok) =>
      if k == key && tok == token && answer == Done then None else lease
    case Extend(k, tok, ttl) =>
      if k == key && tok == token && answer == Done && ttl > 0 then Some(Some(e.at + ttl)) else lease
  }

  lemma CallAgrees(t: Table, e: Timed, key: string, token: string, lease: Option<Option<int>>, before: int)
    requires Agrees(t, key, token, lease, before) && (lease.Some? ==> before <= e.at)
    ensures Agrees(Act(t, e.op, e.at).0, key, token,
                   Renegotiate(lease, e, Act(t, e.op, e.at).1, key, token), e.at)
  {
  }

  /** A token's lease is live exactly when the table holds it for that token. */
  lemma LiveIffHeld(run: seq<Timed>, key: string, token: string, now: int)
    requires Ordered(run) && (run != [] ==> run[|run| - 1].at <= now)
    ensures Live(run, key, token, now) <==> HeldIn(TableAfter(map[], run), key, token, now)
  {
    TableHoldsLeases(run, key, token);
  }

  /** Mutual exclusion over every run: no two tokens have live leases on one key. */
  lemma MutualExclusion(run: seq<Timed>, key: string, a: string, b: string, now: int)
    requires Ordered(run) && (run != [] ==> run[|run| - 1].at <= now)
    requires Live(run, key, a, now) && Live(run, key, b, now)
    ensures a == b
  {
    LiveIffHeld(run, key, a, now);
    LiveIffHeld(run, key, b, now);
  }

  /** Each answer is determined by the leases: unlocking and extending succeed for
      the live token alone, locking succeeds when no token is live. */
  lemma AnswersFollowLeases(run: seq<Timed>, e: Timed)
    requires Ordered(run + [e])
    ensures var answer := AnswerAt(map[], run + [e], |run|);
      match e.op
      case Lock(key, _, _) =>
        && (answer == Granted || answer == Conflict)
        && (answer == Granted <==> forall tok :: !Live(run, key, tok, e.at))
      case Unlock(key, tok) => answer == if Live(run, key, tok, e.at) then Done else NotHeld
      case Extend(key, tok, _) => answer == if Live(run, key, tok, e.at) then Done else NotHeld
  {
    var t := TableAfter(map[], run);
    assert (run + [e])[..|run|] == run;
    assert forall i :: 0 <= i < |run| ==> (run + [e])[i] == run[i];
    assert run != [] ==> (run + [e])[|run| - 1].at <= (run + [e])[|run|].at;
    match e.op
    case Lock(key, _, _) =>
      forall tok ensures Live(run, key, tok, e.at) <==> HeldIn(t, key, tok, e.at) {
        LiveIffHeld(run, key, tok, e.at);
      }
      if key in t && !Expired(t[key], e.at) {
        assert HeldIn(t, key, t[key].token, e.at);
      }
    case Unlock(key, tok) => LiveIffHeld(run, key, tok, e.at);
    case Extend(key, tok, _) => LiveIffHeld(run, key, tok, e.at);
  }

  /** No later Lock call uses the token again. */
  predicate NeverReissued(run: seq<Timed>, from: nat, key: string, token: string)
    requires from <= |run|
  {
    forall i :: from <= i < |run| ==> !(run[i].op.Lock? && run[i].op.key == key && run[i].op.token == token)
  }

  /** One more call, not issuing the token anew, does not bring a lapsed lease back. */
  lemma CallRevivesNothing(run: seq<Timed>, e: Timed, key: string, token: string, now: int)
    requires Ordered(run + [e]) && e.at <= now && !Live(run, key, token, e.at)
    requires !(e.op.Lock? && e.op.key == key && e.op.token == token)
    ensures !Live(run + [e], key, token, now)
  {
    AnswersFollowLeases(run, e);
    assert (run + [e])[..|run|] == run;
  }

  /** A lapsed holder stays out: once its lease is not live, with tokens never
      reissued, it never becomes live again, so its later calls are refused and the
      successor's entry is untouched by them. */
  lemma {:induction false} LapsedStaysOut(run: seq<Timed>, from: nat, key: string, token: string, lapse: int, now: int)
    requires Ordered(run) && from <= |run| && NeverReissued(run, from, key, token)
    requires forall i :: from <= i < |run| ==> lapse <= run[i].at <= now
    requires lapse <= now && !Live(run[..from], key, token, lapse)
    ensures !Live(run, key, token, now)
  {
    if |run| == from {
      assert run[..from] == run;
    } else {
      var before, e := run[..|run| - 1], run[|run| - 1];
      assert before + [e] == run && before[..from] == run[..from];
      assert forall i :: from <= i < |before| ==> run[i].at <= run[|run| - 1].at;
      LapsedStaysOut(before, from, key, token, lapse, e.at);
      CallRevivesNothing(before, e, key, token, now);
    }
  }
}
