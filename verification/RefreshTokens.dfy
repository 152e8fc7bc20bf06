/** Access and refresh tokens. A refresh token is good for one use: its identifier goes
    on a blacklist when it is redeemed, and the blacklist is purged as it grows. Times
    are in nanoseconds; the times inside a token are cut to whole seconds. */
module RefreshTokens {

  const SECOND := 1_000_000_000

  datatype Kind = Access | Refresh | Untyped

  datatype Claims = Claims(user: string, role: string, kind: Kind, jti: string, exp: int, nbf: int)

  datatype Pair = Pair(access: Claims, refresh: Claims)

  datatype Validity = Valid | Invalid | OnBlacklist

  datatype Outcome = Rejected | Revoked | NotRefresh | Issued(pair: Pair)

  datatype Config = Config(tokenExpiry: int, refreshExpiry: int)

  /** Whole seconds, rounded down. */
  function Cut(t: int): (r: int)
    ensures r <= t < r + SECOND && r % SECOND == 0
  {
    t / SECOND * SECOND
  }

  function Mint(c: Config, user: string, role: string, accessId: string, refreshId: string, now: int): Pair {
    Pair(Claims(user, role, Access, accessId, Cut(now + c.tokenExpiry), Cut(now)),
         Claims(user, role, Refresh, refreshId, Cut(now + c.refreshExpiry), Cut(now)))
  }

  /** The last whole second not after a time. */
  predicate IsSecondOf(sec: int, t: int) { sec % SECOND == 0 && sec <= t < sec + SECOND }

  /** The registered time claims, per sections 4.1.4 and 4.1.5 of RFC 7519. */
  predicate InTime(t: Claims, now: int) { now < t.exp && t.nbf <= now }

  predicate Blacklisted(list: map<string, int>, t: Claims) {
    t.kind == Refresh && t.jti != "" && t.jti in list
  }

  function Purge(list: map<string, int>, now: int): map<string, int> {
    map k | k in list && now <= list[k] :: list[k]
  }

  /** The blacklist after a token has been redeemed and old entries dropped. */
  function Retire(c: Config, list: map<string, int>, t: Claims, storedAt: int, purgedAt: int): map<string, int> {
    if t.jti == "" then list else Purge(list[t.jti := storedAt + c.refreshExpiry], purgedAt)
  }

  /** Clock readings of one refresh call, in the order they are taken. */
  datatype Clock = Clock(validated: int, stored: int, purged: int, minted: int) {
    predicate Ordered() { validated <= stored <= purged <= minted }
  }

  /** `authentic` says whether the token carries our signature. */
  function Redeem(c: Config, list: map<string, int>, t: Claims, authentic: bool, at: Clock,
                  accessId: string, refreshId: string): (map<string, int>, Outcome)
  {
    if !authentic || !InTime(t, at.validated) then (list, Rejected)
    else if Blacklisted(list, t) then (list, Revoked)
    else if t.kind == Access then (list, NotRefresh)
    else (Retire(c, list, t, at.stored, at.purged), Issued(Mint(c, t.user, t.role, accessId, refreshId, at.minted)))
  }

  class Service {
    const c: Config
    var blacklist: map<string, int>

    constructor (c: Config)
      ensures this.c == c && blacklist == map[]
    {
      this.c := c;
      blacklist := map[];
    }

    /** Checks signature and times, then the blacklist. */
    method ValidateToken(t: Claims, authentic: bool, now: int) returns (r: Validity)
      ensures r.Invalid? <==> !(authentic && InTime(t, now))
      ensures r.OnBlacklist? <==> authentic && InTime(t, now) && Blacklisted(blacklist, t)
      ensures r.Valid? <==>
        authentic && now < t.exp && t.nbf <= now && !(t.kind == Refresh && t.jti != "" && t.jti in blacklist)
    {
      if !authentic || now >= t.exp || now < t.nbf { return Invalid; }
      if t.kind == Refresh && t.jti != "" {
        if t.jti in blacklist { return OnBlacklist; }
      }
      return Valid;
    }

    /** Trades a refresh token for a new pair and retires it. */
    method RefreshToken(t: Claims, authentic: bool, at: Clock, accessId: string, refreshId: string)
      returns (r: Outcome)
      modifies this
      ensures (blacklist, r) == Redeem(c, old(blacklist), t, authentic, at, accessId, refreshId)
      ensures r.Rejected? <==> !(authentic && t.nbf <= at.validated < t.exp)
      ensures r.Revoked? <==>
        authentic && t.nbf <= at.validated < t.exp && t.kind == Refresh && t.jti != "" && t.jti in old(blacklist)
      ensures r.NotRefresh? <==> authentic && t.nbf <= at.validated < t.exp && t.kind == Access
      ensures r.Issued? <==>
        && authentic && t.nbf <= at.validated < t.exp && t.kind != Access
        && !(t.kind == Refresh && t.jti != "" && t.jti in old(blacklist))
      ensures !r.Issued? || t.jti == "" ==> blacklist == old(blacklist)
      ensures r.Issued? && t.jti != "" ==> forall k ::
        k in blacklist <==>
          if k == t.jti then at.purged <= at.stored + c.refreshExpiry
          else k in old(blacklist) && at.purged <= old(blacklist)[k]
      ensures forall k :: k in blacklist ==>
        blacklist[k] == if r.Issued? && k == t.jti != "" then at.stored + c.refreshExpiry else old(blacklist)[k]
      ensures r.Issued? ==>
        && var (access, refresh) := (r.pair.access, r.pair.refresh);
        && access.user == refresh.user == t.user && access.role == refresh.role == t.role
        && access.kind == Access && access.jti == accessId && refresh.kind == Refresh && refresh.jti == refreshId
        && IsSecondOf(access.nbf, at.minted) && IsSecondOf(access.exp, at.minted + c.tokenExpiry)
        && IsSecondOf(refresh.nbf, at.minted) && IsSecondOf(refresh.exp, at.minted + c.refreshExpiry)
    {
      var v := ValidateToken(t, authentic, at.validated);
      if v.Invalid? { return Rejected; }
      if v.OnBlacklist? { return Revoked; }
      if t.kind != Untyped && t.kind != Refresh { return NotRefresh; }
      if t.jti != "" {
        blacklist := blacklist[t.jti := at.stored + c.refreshExpiry];
        CleanupBlacklist(at.purged);
      }
      return Issued(Mint(c, t.user, t.role, accessId, refreshId, at.minted));
    }

    /** Walks the blacklist in any order and drops the entries that have run out. */
    method CleanupBlacklist(now: int)
      modifies this
      ensures blacklist == Purge(old(blacklist), now)
    {
      var unseen := blacklist.Keys;
      while unseen != {}
        invariant unseen <= blacklist.Keys <= old(blacklist).Keys
        invariant forall k :: k in blacklist ==> blacklist[k] == old(blacklist)[k]
        invariant forall k :: k in old(blacklist) && k !in unseen ==> (k in blacklist <==> now <= old(blacklist)[k])
        decreases unseen
      {
        var k :| k in unseen;
        unseen := unseen - {k};
        if now > blacklist[k] {
          blacklist := blacklist - {k};
        }
      }
    }
  }

  // ------------------------------------------------- one trade at a time

  /** A refresh call. */
  datatype Request = Request(t: Claims, authentic: bool, at: Clock, accessId: string, refreshId: string)

  function Served(c: Config, list: map<string, int>, q: Request): (map<string, int>, Outcome) {
    Redeem(c, list, q.t, q.authentic, q.at, q.accessId, q.refreshId)
  }

  /** The blacklist after calls that follow one another. */
  function ListAfter(c: Config, list: map<string, int>, calls: seq<Request>): map<string, int> {
    if calls == [] then list else Served(c, ListAfter(c, list, calls[..|calls| - 1]), calls[|calls| - 1]).0
  }

  /** No call purges an entry before its time. */
  lemma {:induction false} EntryLasts(c: Config, list: map<string, int>, calls: seq<Request>, id: string, until: int)
    requires id in list && until <= list[id]
    requires forall i :: 0 <= i < |calls| ==>
      calls[i].at.purged <= until && until <= calls[i].at.stored + c.refreshExpiry
    ensures id in ListAfter(c, list, calls) && until <= ListAfter(c, list, calls)[id]
  {
    if calls != [] {
      EntryLasts(c, list, calls[..|calls| - 1], id, until);
    }
  }

  /** A token that has been traded for a new pair, whatever calls follow: until it
      expires, trading it again is refused as revoked and leaves the blacklist as it was,
      if and only if it is a refresh token with an identifier; any other is traded again. */
  lemma TradedAgain(c: Config, list: map<string, int>, first: Request, between: seq<Request>, again: Request)
    requires Served(c, list, first).1.Issued? && first.at.Ordered()
    requires first.t.exp <= first.at.stored + c.refreshExpiry
    requires forall i :: 0 <= i < |between| ==>
      first.at.stored <= between[i].at.stored && between[i].at.purged <= again.at.validated
    requires again.t == first.t && again.authentic && first.at.purged <= again.at.validated < first.t.exp
    ensures var now := ListAfter(c, Served(c, list, first).0, between);
      && (Served(c, now, again) == (now, Revoked) <==> first.t.kind == Refresh && first.t.jti != "")
      && (Served(c, now, again).1.Issued? <==> first.t.kind == Untyped || first.t.jti == "")
  {
    if first.t.jti != "" {
      EntryLasts(c, Served(c, list, first).0, between, first.t.jti, again.at.validated);
    }
  }

  // --------------------------------------------- many trades at a time

  /** Where a trade is: its token has passed the check, or is on the blacklist and waits
      for the new pair. */
  datatype Pc = Idle | Passed(t: Claims) | Retired(t: Claims)

  /** `issued` are the tokens signed so far, `redeemed` the tokens traded in, in order,
      `parent` the token a token was traded for, `entries` all entries the blacklist ever
      had. */
  datatype State = State(
    blacklist: map<string, int>,
    clock: int,
    threads: map<string, Pc>,
    issued: set<Claims>,
    redeemed: seq<Claims>,
    parent: map<Claims, Claims>,
    entries: set<(string, int)>)

  /** A cleanup compares and deletes entry by entry, while others store; `ks` are keys it
      deletes, each because of an expiry it has seen for it. */
  datatype Step =
    | Login(user: string, role: string, accessId: string, refreshId: string, now: int)
    | Check(th: string, t: Claims, now: int)
    | Store(th: string, now: int)
    | Sweep(ks: set<string>, now: int)
    | Issue(th: string, accessId: string, refreshId: string, now: int)

  /** Identifiers are drawn fresh and not empty: no token and no entry has them. */
  predicate FreshIds(s: State, accessId: string, refreshId: string) {
    && accessId != "" && refreshId != "" && accessId != refreshId
    && (forall x :: x in s.entries ==> x.0 != accessId && x.0 != refreshId)
    && (forall t :: t in s.issued ==> t.jti != accessId && t.jti != refreshId)
  }

  predicate RanOut(s: State, k: string, now: int) {
    exists x :: x in s.entries && x.0 == k && x.1 < now
  }

  predicate Enabled(s: State, step: Step) {
    && s.clock <= step.now
    && match step
       case Login(_, _, a, r, _) => FreshIds(s, a, r)
       case Check(th, _, _) => th in s.threads && s.threads[th].Idle?
       case Store(th, _) => th in s.threads && s.threads[th].Passed?
       case Sweep(ks, now) => forall k :: k in ks ==> RanOut(s, k, now)
       case Issue(th, a, r, _) => th in s.threads && s.threads[th].Retired? && FreshIds(s, a, r)
  }

  /** Whether a token passes the checks of a refresh. */
  predicate Passing(s: State, t: Claims, now: int) {
    t in s.issued && InTime(t, now) && !Blacklisted(s.blacklist, t) && t.kind != Access
  }

  function Apply(c: Config, s: State, step: Step): State
    requires Enabled(s, step)
  {
    match step
    case Login(user, role, a, r, now) =>
      var p := Mint(c, user, role, a, r, now);
      s.(clock := now, issued := s.issued + {p.access, p.refresh})
    case Check(th, t, now) =>
      s.(clock := now, threads := if Passing(s, t, now) then s.threads[th := Passed(t)] else s.threads)
    case Store(th, now) =>
      var t := s.threads[th].t;
      s.(clock := now, threads := s.threads[th := Retired(t)], redeemed := s.redeemed + [t],
         blacklist := s.blacklist[t.jti := now + c.refreshExpiry], entries := s.entries + {(t.jti, now + c.refreshExpiry)})
    case Sweep(ks, now) => s.(clock := now, blacklist := s.blacklist - ks)
    case Issue(th, a, r, now) =>
      var t := s.threads[th].t;
      var p := Mint(c, t.user, t.role, a, r, now);
      s.(clock := now, threads := s.threads[th := Idle], issued := s.issued + {p.access, p.refresh},
         parent := s.parent[p.access := t][p.refresh := t])
  }

  predicate Initial(s: State) {
    && s.blacklist == map[] && s.issued == {} && s.redeemed == [] && s.parent == map[] && s.entries == {}
    && forall th :: th in s.threads ==> s.threads[th].Idle?
  }

  predicate Legal(c: Config, s: State, steps: seq<Step>)
    decreases |steps|, 0
  {
    steps != [] ==>
      && Legal(c, s, steps[..|steps| - 1])
      && Enabled(After(c, s, steps[..|steps| - 1]), steps[|steps| - 1])
  }

  function After(c: Config, s: State, steps: seq<Step>): State
    requires Legal(c, s, steps)
    decreases |steps|, 1
  {
    if steps == [] then s else Apply(c, After(c, s, steps[..|steps| - 1]), steps[|steps| - 1])
  }

  // ------------------------------------------------ entries and expiry

  /** Tokens are told apart by their identifiers, and no refresh token is valid for longer
      than the configured time. */
  predicate WellIssued(c: Config, s: State) {
    && (forall t :: t in s.issued ==> t.jti != "" && t.kind != Untyped)
    && (forall t, u :: t in s.issued && u in s.issued && t.jti == u.jti ==> t == u)
    && (forall t :: t in s.issued && t.kind == Refresh ==> t.exp <= s.clock + c.refreshExpiry)
    && (forall th :: th in s.threads && !s.threads[th].Idle? ==>
          s.threads[th].t in s.issued && s.threads[th].t.kind == Refresh)
  }

  /** An entry outlives its token, so a redeemed token is on the blacklist until it has
      expired anyway. */
  predicate Guarded(s: State) {
    && (forall t, x :: t in s.issued && t.kind == Refresh && x in s.entries && x.0 == t.jti ==> t.exp <= x.1)
    && (forall t :: t in s.redeemed ==> t in s.issued && t.kind == Refresh)
    && (forall t :: t in s.redeemed ==> t.jti in s.blacklist || t.exp <= s.clock)
  }

  /** Every entry on the blacklist is one it was given. */
  predicate Recorded(s: State) {
    forall k :: k in s.blacklist ==> (k, s.blacklist[k]) in s.entries
  }

  lemma StepRecords(c: Config, s: State, step: Step)
    requires Recorded(s) && Enabled(s, step)
    ensures Recorded(Apply(c, s, step))
  {
  }

  lemma StepIssues(c: Config, s: State, step: Step)
    requires WellIssued(c, s) && Enabled(s, step)
    ensures WellIssued(c, Apply(c, s, step))
  {
  }

  /** Entries are dropped only after the token they stand for has expired, however the
      sweeps of several trades mix with their stores. */
  lemma StepGuards(c: Config, s: State, step: Step)
    requires WellIssued(c, s) && Guarded(s) && Enabled(s, step)
    ensures Guarded(Apply(c, s, step))
  {
    if step.Sweep? {
      forall t | t in s.redeemed && t.jti in step.ks ensures t.exp <= step.now {
        var x :| x in s.entries && x.0 == t.jti && x.1 < step.now;
      }
    } else if step.Store? {
      var t := s.threads[step.th].t;
      forall u | u in s.issued && u.jti == t.jti ensures u == t {
      }
    }
  }

  /** A token that passes the checks has not been redeemed before. */
  lemma PassingIsUnused(c: Config, s: State, t: Claims, now: int)
    requires WellIssued(c, s) && Guarded(s) && s.clock <= now && Passing(s, t, now)
    ensures t !in s.redeemed
  {
  }

  /** Tokens traded for one another carry the same user and role. */
  predicate Faithful(s: State) {
    forall t :: t in s.parent ==>
      t in s.issued && s.parent[t] in s.issued && t.user == s.parent[t].user && t.role == s.parent[t].role
  }

  lemma IssueFaithful(c: Config, s: State, t: Claims, a: string, r: string, now: int)
    requires Faithful(s) && t in s.issued
    ensures var p := Mint(c, t.user, t.role, a, r, now);
      Faithful(s.(issued := s.issued + {p.access, p.refresh}, parent := s.parent[p.access := t][p.refresh := t]))
  {
  }

  lemma StepFaithful(c: Config, s: State, step: Step)
    requires WellIssued(c, s) && Faithful(s) && Enabled(s, step)
    ensures Faithful(Apply(c, s, step))
  {
    if step.Issue? {
      assert s.threads[step.th].t in s.issued;
      IssueFaithful(c, s, s.threads[step.th].t, step.accessId, step.refreshId, step.now);
    }
  }

  lemma {:induction false} RunKeeps(c: Config, s: State, steps: seq<Step>)
    requires Initial(s) && Legal(c, s, steps)
    ensures WellIssued(c, After(c, s, steps)) && Guarded(After(c, s, steps)) && Faithful(After(c, s, steps))
    ensures Recorded(After(c, s, steps))
  {
    if steps != [] {
      var before, step := steps[..|steps| - 1], steps[|steps| - 1];
      RunKeeps(c, s, before);
      StepIssues(c, After(c, s, before), step);
      StepGuards(c, After(c, s, before), step);
      StepFaithful(c, After(c, s, before), step);
      StepRecords(c, After(c, s, before), step);
    }
  }

  // --------------------------------------------------------- single use

  /** The trades of a token that have passed the check and not stored it yet. */
  function Pending(threads: map<string, Pc>, t: Claims): set<string> {
    set th | th in threads && threads[th] == Passed(t)
  }

  /** How often a token has been redeemed, with the trades that are going to. */
  function Uses(s: State, t: Claims): nat { multiset(s.redeemed)[t] + |Pending(s.threads, t)| }

  /** Two trades of one token are between check and store at once. */
  predicate Both(s: State, t: Claims) {
    exists th, u :: th in Pending(s.threads, t) && u in Pending(s.threads, t) && th != u
  }

  /** At some point of the run two trades of the token overlap. */
  predicate Overlapped(c: Config, s: State, steps: seq<Step>, t: Claims)
    requires Legal(c, s, steps)
  {
    steps != [] && (Overlapped(c, s, steps[..|steps| - 1], t) || Both(After(c, s, steps), t))
  }

  function One(b: bool): nat { if b then 1 else 0 }

  lemma Without(s: set<string>, x: string)
    ensures |s| == |s - {x}| + One(x in s)
  {
  }

  /** Moving one thread changes the number of pending trades by that one alone. */
  lemma PendingMoves(threads: map<string, Pc>, th: string, pc: Pc, t: Claims)
    requires th in threads
    ensures |Pending(threads[th := pc], t)| ==
      |Pending(threads, t)| - One(threads[th] == Passed(t)) + One(pc == Passed(t))
  {
    PendingElsewhere(threads, th, pc, t);
    Without(Pending(threads, t), th);
    Without(Pending(threads[th := pc], t), th);
  }

  lemma PendingElsewhere(threads: map<string, Pc>, th: string, pc: Pc, t: Claims)
    requires th in threads
    ensures Pending(threads[th := pc], t) - {th} == Pending(threads, t) - {th}
    ensures th in Pending(threads, t) <==> threads[th] == Passed(t)
    ensures th in Pending(threads[th := pc], t) <==> pc == Passed(t)
  {
    forall u ensures u in Pending(threads[th := pc], t) - {th} <==> u in Pending(threads, t) - {th} {
    }
  }

  /** Only passing the check adds a use; storing turns a pending one into a redeemed one. */
  lemma StepCounts(c: Config, s: State, step: Step, t: Claims)
    requires Enabled(s, step)
    ensures Uses(Apply(c, s, step), t) ==
      Uses(s, t) + if step.Check? && step.t == t && Passing(s, t, step.now) then 1 else 0
  {
    match step
    case Check(th, u, now) => if Passing(s, u, now) { PendingMoves(s.threads, th, Passed(u), t); }
    case Store(th, _) =>
      PendingMoves(s.threads, th, Retired(s.threads[th].t), t);
      assert multiset(s.redeemed + [s.threads[th].t]) == multiset(s.redeemed) + multiset{s.threads[th].t};
    case Issue(th, _, _, _) => PendingMoves(s.threads, th, Idle, t);
    case _ =>
  }

  lemma Pick(s: set<string>) returns (x: string)
    requires s != {}
    ensures x in s
  {
    x :| x in s;
  }

  lemma TwoPending(s: State, t: Claims)
    ensures Both(s, t) <==> |Pending(s.threads, t)| >= 2
  {
    var ps := Pending(s.threads, t);
    if |ps| >= 2 {
      var th := Pick(ps);
      Without(ps, th);
      var u := Pick(ps - {th});
    }
    if th, u :| th in ps && u in ps && th != u {
      Without(ps, th);
      assert u in ps - {th};
    }
  }

  lemma {:induction false} UsedTwiceIff(c: Config, s: State, steps: seq<Step>, t: Claims)
    requires Initial(s) && Legal(c, s, steps)
    ensures Uses(After(c, s, steps), t) >= 2 <==> Overlapped(c, s, steps, t)
  {
    if steps == [] {
      assert forall th :: th !in Pending(s.threads, t);
    } else {
      var before, step := steps[..|steps| - 1], steps[|steps| - 1];
      var mid := After(c, s, before);
      UsedTwiceIff(c, s, before, t);
      RunKeeps(c, s, before);
      StepCounts(c, mid, step, t);
      TwoPending(After(c, s, steps), t);
      if step.Check? && Passing(mid, step.t, step.now) {
        PassingIsUnused(c, mid, step.t, step.now);
      }
    }
  }

  /** Over every interleaving of any number of trades, with any clock advance, and although
      the blacklist is swept all the time: once no trade of it is half done, a refresh
      token has been redeemed twice if and only if two trades of it were between check and
      store at the same time. */
  lemma RedeemedTwiceIff(c: Config, s: State, steps: seq<Step>, t: Claims)
    requires Initial(s) && Legal(c, s, steps) && Pending(After(c, s, steps).threads, t) == {}
    ensures multiset(After(c, s, steps).redeemed)[t] >= 2 <==> Overlapped(c, s, steps, t)
  {
    UsedTwiceIff(c, s, steps, t);
  }

  /** So a token whose trades never overlap is redeemed once at most. */
  lemma RedeemedAtMostOnce(c: Config, s: State, steps: seq<Step>, t: Claims)
    requires Initial(s) && Legal(c, s, steps) && !Overlapped(c, s, steps, t)
    ensures multiset(After(c, s, steps).redeemed)[t] <= 1
  {
    UsedTwiceIff(c, s, steps, t);
  }

  // ------------------------------------------------------ single trades

  /** One more step of a run. */
  lemma Snoc(c: Config, s: State, steps: seq<Step>, step: Step, mid: State)
    requires Legal(c, s, steps) && After(c, s, steps) == mid && Enabled(mid, step)
    ensures Legal(c, s, steps + [step]) && After(c, s, steps + [step]) == Apply(c, mid, step)
  {
    assert (steps + [step])[..|steps + [step]| - 1] == steps;
  }

  /** The entries a cleanup finds run out. */
  function Stale(list: map<string, int>, now: int): set<string> {
    set k | k in list && list[k] < now
  }

  lemma SweptIsPurged(list: map<string, int>, now: int)
    ensures list - Stale(list, now) == Purge(list, now)
  {
  }

  /** The steps of a trade that nothing comes between. */
  function Alone(c: Config, s: State, th: string, t: Claims, at: Clock, a: string, r: string): seq<Step> {
    var list := s.blacklist[t.jti := at.stored + c.refreshExpiry];
    [] + [Check(th, t, at.validated)] + [Store(th, at.stored)] + [Sweep(Stale(list, at.purged), at.purged)]
       + [Issue(th, a, r, at.minted)]
  }

  lemma FourSteps(c: Config, s: State, e1: Step, s1: State, e2: Step, s2: State, e3: Step, s3: State, e4: Step, s4: State)
    requires Enabled(s, e1) && Apply(c, s, e1) == s1 && Enabled(s1, e2) && Apply(c, s1, e2) == s2
    requires Enabled(s2, e3) && Apply(c, s2, e3) == s3 && Enabled(s3, e4) && Apply(c, s3, e4) == s4
    ensures var steps := [] + [e1] + [e2] + [e3] + [e4];
      Legal(c, s, steps) && After(c, s, steps) == s4
  {
    var none: seq<Step> := [];
    Snoc(c, s, none, e1, s);
    Snoc(c, s, none + [e1], e2, s1);
    Snoc(c, s, none + [e1] + [e2], e3, s2);
    Snoc(c, s, none + [e1] + [e2] + [e3], e4, s3);
  }

  /** The state after a trade on its own. */
  function Traded(c: Config, s: State, t: Claims, at: Clock, a: string, r: string): State {
    var p := Mint(c, t.user, t.role, a, r, at.minted);
    s.(blacklist := Retire(c, s.blacklist, t, at.stored, at.purged), clock := at.minted,
       issued := s.issued + {p.access, p.refresh}, redeemed := s.redeemed + [t],
       parent := s.parent[p.access := t][p.refresh := t], entries := s.entries + {(t.jti, at.stored + c.refreshExpiry)})
  }

  /** Where a trade on its own is after its check, and after its store. */
  function Midway(s: State, th: string, t: Claims, at: Clock): State {
    s.(clock := at.validated, threads := s.threads[th := Passed(t)])
  }

  function Shelved(c: Config, s: State, th: string, t: Claims, at: Clock): State {
    s.(clock := at.stored, threads := s.threads[th := Retired(t)], redeemed := s.redeemed + [t],
       blacklist := s.blacklist[t.jti := at.stored + c.refreshExpiry],
       entries := s.entries + {(t.jti, at.stored + c.refreshExpiry)})
  }

  function Swept(c: Config, s: State, th: string, t: Claims, at: Clock): State {
    var s2 := Shelved(c, s, th, t, at);
    s2.(clock := at.purged, blacklist := s2.blacklist - Stale(s2.blacklist, at.purged))
  }

  lemma ChecksAndStores(c: Config, s: State, th: string, t: Claims, at: Clock)
    requires at.Ordered() && s.clock <= at.validated && th in s.threads && s.threads[th].Idle?
    requires Passing(s, t, at.validated)
    ensures Enabled(s, Check(th, t, at.validated)) && Apply(c, s, Check(th, t, at.validated)) == Midway(s, th, t, at)
    ensures Enabled(Midway(s, th, t, at), Store(th, at.stored))
    ensures Apply(c, Midway(s, th, t, at), Store(th, at.stored)) == Shelved(c, s, th, t, at)
  {
    assert s.threads[th := Passed(t)][th := Retired(t)] == s.threads[th := Retired(t)];
  }

  lemma Sweeps(c: Config, s: State, th: string, t: Claims, at: Clock)
    requires at.Ordered() && Recorded(s)
    ensures var s2 := Shelved(c, s, th, t, at);
      var sweep := Sweep(Stale(s2.blacklist, at.purged), at.purged);
      Enabled(s2, sweep) && Apply(c, s2, sweep) == Swept(c, s, th, t, at)
  {
    StaleRanOut(Shelved(c, s, th, t, at), at.purged);
  }

  lemma Issues(c: Config, s: State, th: string, t: Claims, at: Clock, a: string, r: string)
    requires at.Ordered() && th in s.threads && s.threads[th].Idle? && FreshIds(s, a, r)
    requires t in s.issued && t.jti != ""
    ensures var s3 := Swept(c, s, th, t, at);
      Enabled(s3, Issue(th, a, r, at.minted)) && Apply(c, s3, Issue(th, a, r, at.minted)) == Traded(c, s, t, at, a, r)
  {
    SweptIsPurged(Shelved(c, s, th, t, at).blacklist, at.purged);
    assert s.threads[th := Retired(t)][th := Idle] == s.threads;
  }

  /** A trade on its own does to the blacklist what a refresh call does, and issues the
      pair that the call returns. */
  lemma AloneIsRedeem(c: Config, s: State, th: string, t: Claims, at: Clock, a: string, r: string)
    requires WellIssued(c, s) && Recorded(s) && FreshIds(s, a, r) && at.Ordered() && s.clock <= at.validated
    requires th in s.threads && s.threads[th].Idle? && Passing(s, t, at.validated)
    ensures Legal(c, s, Alone(c, s, th, t, at, a, r))
    ensures After(c, s, Alone(c, s, th, t, at, a, r)) == Traded(c, s, t, at, a, r)
    ensures Redeem(c, s.blacklist, t, true, at, a, r) ==
      (Traded(c, s, t, at, a, r).blacklist, Issued(Mint(c, t.user, t.role, a, r, at.minted)))
  {
    assert t in s.issued && t.jti != "";
    AloneRuns(c, s, th, t, at, a, r);
  }

  lemma AloneRuns(c: Config, s: State, th: string, t: Claims, at: Clock, a: string, r: string)
    requires Recorded(s) && FreshIds(s, a, r) && at.Ordered() && s.clock <= at.validated && t.jti != ""
    requires th in s.threads && s.threads[th].Idle? && Passing(s, t, at.validated)
    ensures Legal(c, s, Alone(c, s, th, t, at, a, r))
    ensures After(c, s, Alone(c, s, th, t, at, a, r)) == Traded(c, s, t, at, a, r)
  {
    var s2 := Shelved(c, s, th, t, at);
    ChecksAndStores(c, s, th, t, at);
    Sweeps(c, s, th, t, at);
    Issues(c, s, th, t, at, a, r);
    FourSteps(c, s, Check(th, t, at.validated), Midway(s, th, t, at), Store(th, at.stored), s2,
              Sweep(Stale(s2.blacklist, at.purged), at.purged), Swept(c, s, th, t, at),
              Issue(th, a, r, at.minted), Traded(c, s, t, at, a, r));
  }

  lemma StaleRanOut(s: State, now: int)
    requires Recorded(s)
    ensures forall k :: k in Stale(s.blacklist, now) ==> RanOut(s, k, now)
  {
    forall k | k in Stale(s.blacklist, now) ensures RanOut(s, k, now) {
      var x := (k, s.blacklist[k]);
      assert x in s.entries && x.0 == k && x.1 < now;
    }
  }

  /** Two trades that both pass the check before either stores redeem one token twice. */
  lemma DoubleRefresh(c: Config) returns (s: State, steps: seq<Step>, t: Claims)
    requires c.refreshExpiry >= 2 * SECOND
    ensures Initial(s) && Legal(c, s, steps) && t in After(c, s, steps).issued
    ensures After(c, s, steps).redeemed == [t, t]
  {
    s := State(map[], 0, map["1" := Idle, "2" := Idle], {}, [], map[], {});
    var p := Mint(c, "u", "r", "a", "b", 0);
    t := p.refresh;
    var none: seq<Step> := [];
    var s1 := s.(issued := {p.access, p.refresh});
    Snoc(c, s, none, Login("u", "r", "a", "b", 0), s);
    steps := none + [Login("u", "r", "a", "b", 0)];
    assert After(c, s, steps) == s1;
    assert Passing(s1, t, 0);
    var s2 := s1.(threads := map["1" := Passed(t), "2" := Idle]);
    Snoc(c, s, steps, Check("1", t, 0), s1);
    steps := steps + [Check("1", t, 0)];
    assert After(c, s, steps) == s2;
    var s3 := s2.(threads := map["1" := Passed(t), "2" := Passed(t)]);
    Snoc(c, s, steps, Check("2", t, 0), s2);
    steps := steps + [Check("2", t, 0)];
    assert After(c, s, steps) == s3;
    var s4 := Apply(c, s3, Store("1", 0));
    Snoc(c, s, steps, Store("1", 0), s3);
    steps := steps + [Store("1", 0)];
    Snoc(c, s, steps, Store("2", 0), s4);
    steps := steps + [Store("2", 0)];
    assert [t] + [t] == [t, t];
  }

  // ----------------------------------------------------------- identity

  /** Each token of a chain was traded for the one before it. */
  predicate Chain(s: State, chain: seq<Claims>) {
    forall i :: 1 <= i < |chain| ==> chain[i] in s.parent && s.parent[chain[i]] == chain[i - 1]
  }

  lemma {:induction false} ChainKeepsIdentity(s: State, chain: seq<Claims>)
    requires Faithful(s) && Chain(s, chain) && chain != []
    ensures chain[|chain| - 1].user == chain[0].user && chain[|chain| - 1].role == chain[0].role
  {
    if |chain| > 1 {
      ChainKeepsIdentity(s, chain[..|chain| - 1]);
    }
  }

  /** Over every interleaving user and role are the same along any chain of refreshes. */
  lemma RefreshKeepsIdentity(c: Config, s: State, steps: seq<Step>, chain: seq<Claims>)
    requires Initial(s) && Legal(c, s, steps) && chain != [] && Chain(After(c, s, steps), chain)
    ensures chain[|chain| - 1].user == chain[0].user && chain[|chain| - 1].role == chain[0].role
  {
    RunKeeps(c, s, steps);
    ChainKeepsIdentity(After(c, s, steps), chain);
  }
}
