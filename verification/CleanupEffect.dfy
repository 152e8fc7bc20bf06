/** What background cleanup does to a bounded cache. It frees room, so an entry may be
    spared that would have been pushed out. The first answer it changes is therefore
    always a miss turned into a hit; only after that can it cost a hit. */
module CleanupEffect {
  import opened LruInclusion
  import opened Recency

  /** The list `l` of the cleaned cache begins with the list `u` of the other one, less
      some expired items; what follows was spared. */
  predicate Begins<V(==)>(c: Config, u: seq<Item<V>>, l: seq<Item<V>>, now: int)
    decreases |u|
  {
    u == [] || (if l != [] && l[0] == u[0] then Begins(c, u[1..], l[1..], now)
                else c.Expired(u[0].expiresAt, now) && Begins(c, u[1..], l, now))
  }

  lemma {:induction false} BeginsLater<V>(c: Config, u: seq<Item<V>>, l: seq<Item<V>>, now: int, later: int)
    requires Begins(c, u, l, now) && now <= later
    ensures Begins(c, u, l, later)
    decreases |u|
  {
    if u != [] {
      BeginsLater(c, u[1..], if l != [] && l[0] == u[0] then l[1..] else l, now, later);
    }
  }

  lemma DistinctTail<V>(l: seq<Item<V>>)
    requires Distinct(l) && l != []
    ensures Distinct(l[1..]) && Lookup(l[1..], l[0].key) == None
  {
    LookupFinds(l[1..], l[0].key);
  }

  /** A hit of the one is the same hit of the other. */
  lemma {:induction false} BeginsAnswer<V>(c: Config, u: seq<Item<V>>, l: seq<Item<V>>, now: int, key: string)
    requires Begins(c, u, l, now) && Distinct(u) && Distinct(l) && Answer(c, u, key, now).Some?
    ensures Lookup(l, key) == Lookup(u, key)
    decreases |u|
  {
    if u[0].key == key {
      assert l != [] && l[0] == u[0];
    } else {
      DistinctTail(u);
      if l != [] && l[0] == u[0] {
        DistinctTail(l);
        BeginsAnswer(c, u[1..], l[1..], now, key);
      } else {
        BeginsAnswer(c, u[1..], l, now, key);
      }
    }
  }

  lemma {:induction false} BeginsWithout<V>(c: Config, u: seq<Item<V>>, l: seq<Item<V>>, now: int, key: string)
    requires Begins(c, u, l, now) && Lookup(u, key) == None
    ensures Begins(c, u, Remove(l, key), now)
    decreases |u|
  {
    if u != [] {
      if l != [] && l[0] == u[0] {
        BeginsWithout(c, u[1..], l[1..], now, key);
        assert ([l[0]] + Remove(l[1..], key))[1..] == Remove(l[1..], key);
      } else {
        BeginsWithout(c, u[1..], l, now, key);
        SkipFirst(c, u, Remove(l, key), now);
      }
    }
  }

  /** An expired first item may be left out even if the other list has it. */
  lemma {:induction false} SkipFirst<V>(c: Config, u: seq<Item<V>>, l: seq<Item<V>>, now: int)
    requires u != [] && c.Expired(u[0].expiresAt, now) && Begins(c, u[1..], l, now)
    ensures Begins(c, u, l, now)
    decreases |u| + |l|
  {
    if l != [] && l[0] == u[0] {
      DropFirst(c, u[1..], l, now);
    }
  }

  lemma {:induction false} DropFirst<V>(c: Config, u: seq<Item<V>>, l: seq<Item<V>>, now: int)
    requires l != [] && c.Expired(l[0].expiresAt, now) && Begins(c, u, l, now)
    ensures Begins(c, u, l[1..], now)
    decreases |u| + |l|
  {
    if u != [] {
      if l[0] == u[0] {
        SkipFirst(c, u, l[1..], now);
      } else {
        DropFirst(c, u[1..], l, now);
        SkipFirst(c, u, l[1..], now);
      }
    }
  }

  /** Dropping one key from both. */
  lemma {:induction false} BeginsRemove<V>(c: Config, u: seq<Item<V>>, l: seq<Item<V>>, now: int, key: string)
    requires Begins(c, u, l, now) && Distinct(u)
    ensures Begins(c, Remove(u, key), Remove(l, key), now)
    decreases |u|
  {
    if u != [] {
      DistinctTail(u);
      var l' := if l != [] && l[0] == u[0] then l[1..] else l;
      if u[0].key == key {
        if l == [] || l[0] != u[0] { BeginsWithout(c, u[1..], l, now, key); }
      } else {
        BeginsRemove(c, u[1..], l', now, key);
        assert ([u[0]] + Remove(u[1..], key))[1..] == Remove(u[1..], key);
        if l != [] && l[0] == u[0] {
          assert ([l[0]] + Remove(l[1..], key))[1..] == Remove(l[1..], key);
        } else {
          SkipFirst(c, [u[0]] + Remove(u[1..], key), Remove(l, key), now);
        }
      }
    }
  }

  lemma BeginsFront<V>(c: Config, item: Item<V>, u: seq<Item<V>>, l: seq<Item<V>>, now: int)
    requires Begins(c, u, l, now)
    ensures Begins(c, [item] + u, [item] + l, now)
  {
    assert ([item] + u)[1..] == u && ([item] + l)[1..] == l;
  }

  // ------------------------------------------------------------ eviction

  function Init<V>(l: seq<Item<V>>): seq<Item<V>>
    requires l != []
  {
    l[..|l| - 1]
  }

  /** The uncleaned cache pushes out its last item. */
  lemma {:induction false} ShorterBegins<V>(c: Config, u: seq<Item<V>>, l: seq<Item<V>>, now: int)
    requires Begins(c, u, l, now) && u != []
    ensures Begins(c, Init(u), l, now)
    decreases |u|
  {
    if |u| > 1 {
      assert Init(u)[1..] == Init(u[1..]) && Init(u)[0] == u[0];
      ShorterBegins(c, u[1..], if l != [] && l[0] == u[0] then l[1..] else l, now);
    }
  }

  /** The cleaned cache pushes out its last item and is the longer one: a spared item. */
  lemma {:induction false} RoomToSpare<V>(c: Config, u: seq<Item<V>>, l: seq<Item<V>>, now: int)
    requires Begins(c, u, l, now) && |u| < |l|
    ensures Begins(c, u, Init(l), now)
    decreases |u|
  {
    if u != [] {
      assert Init(l)[0] == l[0];
      if l[0] == u[0] {
        assert Init(l)[1..] == Init(l[1..]);
        RoomToSpare(c, u[1..], l[1..], now);
      } else {
        RoomToSpare(c, u[1..], l, now);
      }
    }
  }

  /** Both push out their last item. */
  lemma {:induction false} BothShorter<V>(c: Config, u: seq<Item<V>>, l: seq<Item<V>>, now: int)
    requires Begins(c, u, l, now) && 0 < |u| <= |l|
    ensures Begins(c, Init(u), Init(l), now)
    decreases |u|
  {
    if |u| > 1 {
      assert Init(u)[1..] == Init(u[1..]) && Init(u)[0] == u[0] && Init(l)[0] == l[0];
      if l[0] == u[0] {
        assert Init(l)[1..] == Init(l[1..]);
        BothShorter(c, u[1..], l[1..], now);
      } else {
        BothShorter(c, u[1..], l, now);
      }
    }
  }

  lemma BeginsSet<V>(c: Config, u: seq<Item<V>>, l: seq<Item<V>>, key: string, value: V, now: int)
    requires Begins(c, u, l, now) && Good(c, u) && Good(c, l)
    ensures Begins(c, Act(c, u, Set(key, value), now), Act(c, l, Set(key, value), now), now)
  {
    var item := Item(key, value, c.Stamp(now));
    BeginsRemove(c, u, l, now, key);
    if Lookup(u, key).None? { RemoveAbsent(u, key); }
    if Lookup(l, key).None? { RemoveAbsent(l, key); }
    RemoveKeeps(u, key);
    var u1 := Remove(u, key);
    var l1 := Remove(l, key);
    var uFull := Lookup(u, key).None? && c.Bounded() && |u| >= c.maxSize;
    var lFull := Lookup(l, key).None? && c.Bounded() && |l| >= c.maxSize;
    var u2 := if uFull then Init(u1) else u1;
    var l2 := if lFull then Init(l1) else l1;
    if uFull && lFull {
      BothShorter(c, u1, l1, now);
    } else if uFull {
      ShorterBegins(c, u1, l1, now);
    } else if lFull {
      RoomToSpare(c, u1, l1, now);
    }
    BeginsFront(c, item, u2, l2, now);
  }

  // ------------------------------------------------------------- cleanup

  lemma {:induction false} BeginsCleaned<V>(c: Config, u: seq<Item<V>>, l: seq<Item<V>>, now: int)
    requires Begins(c, u, l, now)
    ensures Begins(c, u, Fresh(c, l, now), now)
    decreases |u| + |l|
  {
    if u != [] && l != [] {
      if c.Expired(l[0].expiresAt, now) {
        DropFirst(c, u, l, now);
        BeginsCleaned(c, u, l[1..], now);
      } else if l[0] == u[0] {
        BeginsCleaned(c, u[1..], l[1..], now);
        assert ([l[0]] + Fresh(c, l[1..], now))[1..] == Fresh(c, l[1..], now);
      } else {
        BeginsCleaned(c, u[1..], l, now);
        SkipFirst(c, u, Fresh(c, l, now), now);
      }
    }
  }

  // ---------------------------------------------------------------- runs

  /** Every Get of the run hits, or misses, with the cleanups as without. */
  predicate GetsAgree<V>(c: Config, run: seq<Timed<V>>) {
    run != [] ==>
      var before, e := run[..|run| - 1], run[|run| - 1];
      && GetsAgree(c, before)
      && (e.op.Get? ==>
            (Answer(c, After(c, before), e.op.key, e.at).Some? <==>
             Answer(c, After(c, Uncleaned(before)), e.op.key, e.at).Some?))
  }

  lemma BeginsGet<V>(c: Config, u: seq<Item<V>>, l: seq<Item<V>>, key: string, now: int)
    requires Begins(c, u, l, now) && Good(c, u) && Good(c, l)
    requires Answer(c, l, key, now).Some? <==> Answer(c, u, key, now).Some?
    ensures Begins(c, Act(c, u, Op<V>.Get(key), now), Act(c, l, Op<V>.Get(key), now), now)
  {
    BeginsRemove(c, u, l, now, key);
    if Answer(c, u, key, now).Some? {
      BeginsAnswer(c, u, l, now, key);
      BeginsFront(c, Lookup(u, key).value, Remove(u, key), Remove(l, key), now);
    } else {
      if Lookup(u, key).None? { RemoveAbsent(u, key); }
      if Lookup(l, key).None? { RemoveAbsent(l, key); }
    }
  }

  lemma {:induction false} CleanedBegins<V>(c: Config, run: seq<Timed<V>>, now: int)
    requires Ordered(run) && (run != [] ==> run[|run| - 1].at <= now) && GetsAgree(c, run)
    ensures Begins(c, After(c, Uncleaned(run)), After(c, run), now)
  {
    if run != [] {
      var before, e := run[..|run| - 1], run[|run| - 1];
      var u, l := After(c, Uncleaned(before)), After(c, before);
      CleanedBegins(c, before, e.at);
      RunKeeps(c, before);
      RunKeeps(c, Uncleaned(before));
      if e.op.Cleanup? {
        assert Uncleaned(run) == Uncleaned(before);
        BeginsCleaned(c, u, l, e.at);
      } else {
        assert Uncleaned(run)[..|Uncleaned(run)| - 1] == Uncleaned(before);
        match e.op
        case Get(key) => BeginsGet(c, u, l, key, e.at);
        case Set(key, value) => BeginsSet(c, u, l, key, value, e.at);
        case Delete(key) => BeginsRemove(c, u, l, e.at, key);
        case Clear =>
        case Probe(_) =>
      }
      BeginsLater(c, After(c, Uncleaned(run)), After(c, run), e.at, now);
    }
  }

  /** For every cache and every run with a nondecreasing clock: as long as no Get has
      been answered differently, every hit without the cleanups is the same hit with
      them. So the first answer that cleanups change is a miss turned into a hit. */
  lemma FirstChangeIsAHit<V>(c: Config, run: seq<Timed<V>>, key: string, now: int)
    requires Ordered(run) && (run != [] ==> run[|run| - 1].at <= now) && GetsAgree(c, run)
    ensures Answer(c, After(c, Uncleaned(run)), key, now).Some? ==>
      Answer(c, After(c, run), key, now) == Answer(c, After(c, Uncleaned(run)), key, now)
  {
    CleanedBegins(c, run, now);
    RunKeeps(c, run);
    RunKeeps(c, Uncleaned(run));
    if Answer(c, After(c, Uncleaned(run)), key, now).Some? {
      BeginsAnswer(c, After(c, Uncleaned(run)), After(c, run), now, key);
    }
  }

  // ------------------------------------- exactly when cleanups are observed

  /** The run with its cleanups and the one without answer alike at the end. */
  predicate AnswersAlike<V(==)>(c: Config, run: seq<Timed<V>>, key: string, now: int) {
    Answer(c, After(c, run), key, now) == Answer(c, After(c, Uncleaned(run)), key, now)
  }

  predicate EndsBy<V>(run: seq<Timed<V>>, now: int) {
    Ordered(run) && (run != [] ==> run[|run| - 1].at <= now)
  }

  ghost predicate NeverObserved<V(!new)>(c: Config) {
    forall run: seq<Timed<V>>, key, now :: EndsBy(run, now) ==> AnswersAlike(c, run, key, now)
  }

  /** A key for each number, unlike the others used here. */
  function Filler(n: nat): string {
    if n == 0 then "f" else Filler(n - 1) + "f"
  }

  lemma {:induction false} FillerLength(n: nat)
    ensures |Filler(n)| == n + 1 && forall i :: 0 <= i <= n ==> Filler(n)[i] == 'f'
  {
    if n > 0 { FillerLength(n - 1); }
  }

  /** Set x; then, a second later, Set k and so many fillers. */
  function Filling<V>(n: nat, v: V): seq<Timed<V>> {
    if n == 0 then [] + [At(Set("x", v), 0)] + [At(Set("k", v), 1)]
    else Filling(n - 1, v) + [At(Set(Filler(n - 1), v), 1)]
  }

  /** The fillers, latest first. */
  function Fillers<V>(c: Config, n: nat, v: V): seq<Item<V>> {
    if n == 0 then [] else [Item(Filler(n - 1), v, c.Stamp(SECOND))] + Fillers(c, n - 1, v)
  }

  /** None of the fillers is x, k, a or a later filler. */
  lemma {:induction false} NotAFiller<V>(c: Config, n: nat, v: V, key: string)
    requires |key| == 0 || key[0] != 'f' || |key| > n
    ensures Lookup(Fillers(c, n, v), key) == None && |Fillers(c, n, v)| == n
  {
    if n > 0 {
      FillerLength(n - 1);
      NotAFiller(c, n - 1, v, key);
    }
  }

  lemma {:induction false} FillersFresh<V>(c: Config, n: nat, v: V, now: int)
    requires c.ttl > 0 && now <= c.Stamp(SECOND)
    ensures Fresh(c, Fillers(c, n, v), now) == Fillers(c, n, v)
  {
    if n > 0 { FillersFresh(c, n - 1, v, now); }
  }

  lemma {:induction false} LookupConcat<V>(a: seq<Item<V>>, b: seq<Item<V>>, key: string)
    requires Lookup(a, key) == None
    ensures Lookup(a + b, key) == Lookup(b, key) && Remove(a + b, key) == a + Remove(b, key)
  {
    if a == [] {
      assert a + b == b;
    } else {
      assert (a + b)[1..] == a[1..] + b;
      LookupConcat(a[1..], b, key);
      assert [a[0]] + (a[1..] + Remove(b, key)) == a + Remove(b, key);
    }
  }

  lemma {:induction false} FreshConcat<V>(c: Config, a: seq<Item<V>>, b: seq<Item<V>>, now: int)
    ensures Fresh(c, a + b, now) == Fresh(c, a, now) + Fresh(c, b, now)
  {
    if a == [] {
      assert a + b == b;
    } else {
      assert (a + b)[1..] == a[1..] + b;
      FreshConcat(c, a[1..], b, now);
    }
  }

  function X<V>(c: Config, v: V): Item<V> { Item("x", v, c.Stamp(0)) }

  function K<V>(c: Config, v: V): Item<V> { Item("k", v, c.Stamp(SECOND)) }

  /** One more operation, with what it makes of the two lists. */
  lemma Goes<V>(c: Config, run: seq<Timed<V>>, e: Timed<V>, l: seq<Item<V>>, u: seq<Item<V>>,
                l': seq<Item<V>>, u': seq<Item<V>>)
    requires Lists(c, run, l, u) && Act(c, l, e.op, e.at) == l'
    requires u' == if e.op.Cleanup? then u else Act(c, u, e.op, e.at)
    ensures Lists(c, run + [e], l', u')
  {
    Next(c, run, e, l, u);
  }

  lemma SetWithRoom<V>(c: Config, l: seq<Item<V>>, key: string, v: V, now: int)
    requires Lookup(l, key) == None && |l| < c.maxSize
    ensures Act(c, l, Set(key, v), now) == [Item(key, v, c.Stamp(now))] + l
  {
  }

  lemma SetWhenFull<V>(c: Config, l: seq<Item<V>>, last: Item<V>, key: string, v: V, now: int)
    requires Lookup(l + [last], key) == None && c.maxSize == |l| + 1
    ensures Act(c, l + [last], Set(key, v), now) == [Item(key, v, c.Stamp(now))] + l
  {
    assert (l + [last])[..|l + [last]| - 1] == l;
  }

  /** The list after filling. */
  function Filled<V>(c: Config, n: nat, v: V): seq<Item<V>> {
    Fillers(c, n, v) + [K(c, v), X(c, v)]
  }

  lemma FillOne<V>(c: Config, n: nat, v: V)
    requires c.ttl > 0 && c.maxSize >= n + 3
    ensures Act(c, Filled(c, n, v), Set(Filler(n), v), SECOND) == Filled(c, n + 1, v)
  {
    var key := Filler(n);
    FillerLength(n);
    NotAFiller(c, n, v, key);
    LookupConcat(Fillers(c, n, v), [K(c, v), X(c, v)], key);
    Two(K(c, v), X(c, v), key);
    SetWithRoom(c, Filled(c, n, v), key, v, SECOND);
    assert [Item(key, v, c.Stamp(SECOND))] + Filled(c, n, v) == Filled(c, n + 1, v);
  }

  lemma FillTwo<V>(c: Config, v: V)
    requires c.ttl > 0 && c.maxSize >= 2
    ensures Lists(c, Filling(0, v), Filled(c, 0, v), Filled(c, 0, v))
  {
    var none: seq<Timed<V>> := [];
    var x, k := X(c, v), K(c, v);
    Goes(c, none, At(Set("x", v), 0), [], [], [x], [x]);
    One(x, "k");
    SetWithRoom(c, [x], "k", v, SECOND);
    assert [k] + [x] == Filled(c, 0, v);
    Goes(c, none + [At(Set("x", v), 0)], At(Set("k", v), 1), [x], [x], Filled(c, 0, v), Filled(c, 0, v));
  }

  lemma {:induction false} AfterFilling<V>(c: Config, n: nat, v: V)
    requires c.ttl > 0 && c.maxSize >= n + 2
    ensures Lists(c, Filling(n, v), Filled(c, n, v), Filled(c, n, v))
  {
    if n == 0 {
      FillTwo(c, v);
    } else {
      AfterFilling(c, n - 1, v);
      FromFewer(c, n - 1, v, Filling(n - 1, v));
    }
  }

  lemma FromFewer<V>(c: Config, n: nat, v: V, r: seq<Timed<V>>)
    requires c.ttl > 0 && c.maxSize >= n + 3 && Lists(c, r, Filled(c, n, v), Filled(c, n, v))
    ensures Lists(c, r + [At(Set(Filler(n), v), 1)], Filled(c, n + 1, v), Filled(c, n + 1, v))
  {
    var l, l' := Filled(c, n, v), Filled(c, n + 1, v);
    FillOne(c, n, v);
    Goes(c, r, At(Set(Filler(n), v), 1), l, l, l', l');
  }

  /** When x has just expired. */
  function Expiry(c: Config): int { c.Stamp(0) + 1 }

  /** Fill the cache, touch x so that k is last, wait for x to expire, clean up, set a. */
  function Telling<V>(c: Config, v: V): seq<Timed<V>>
    requires c.maxSize >= 2
  {
    Filling(c.maxSize - 2, v) + [At(Get("x"), 1)] + [Timed(Cleanup, Expiry(c))] + [Timed(Set("a", v), Expiry(c))]
  }

  /** With x touched it is first and k last. */
  function Touched<V>(c: Config, v: V): seq<Item<V>>
    requires c.maxSize >= 2
  {
    [X(c, v)] + Fillers(c, c.maxSize - 2, v) + [K(c, v)]
  }

  lemma Touch<V>(c: Config, v: V)
    requires c.ttl > 0 && c.maxSize >= 2
    ensures Act(c, Filled(c, c.maxSize - 2, v), Op<V>.Get("x"), SECOND) == Touched(c, v)
  {
    var n := c.maxSize - 2;
    var fs, x, k := Fillers(c, n, v), X(c, v), K(c, v);
    NotAFiller(c, n, v, "x");
    LookupConcat(fs, [k, x], "x");
    Two(k, x, "x");
    assert [x] + (fs + [k]) == [x] + fs + [k];
  }

  /** Setting a: with room after the cleanup, pushing out k without it. */
  lemma SetA<V>(c: Config, v: V)
    requires c.ttl > 0 && c.maxSize >= 2
    ensures var fs, a := Fillers(c, c.maxSize - 2, v), Item("a", v, c.Stamp(Expiry(c)));
      && Act(c, fs + [K(c, v)], Set("a", v), Expiry(c)) == [a] + (fs + [K(c, v)])
      && Act(c, Touched(c, v), Set("a", v), Expiry(c)) == [a] + ([X(c, v)] + fs)
  {
    var n := c.maxSize - 2;
    var fs, x, k := Fillers(c, n, v), X(c, v), K(c, v);
    NotAFiller(c, n, v, "a");
    LookupConcat(fs, [k], "a");
    One(k, "a");
    SetWithRoom(c, fs + [k], "a", v, Expiry(c));
    ConsLookup(x, fs + [k], "a");
    assert [x] + (fs + [k]) == [x] + fs + [k];
    SetWhenFull(c, [x] + fs, k, "a", v, Expiry(c));
  }

  /** The cleanup drops x alone, so that a then pushes out nothing; without it, k. */
  lemma AfterTelling<V>(c: Config, v: V)
    requires c.ttl > 0 && c.maxSize >= 2
    ensures var fs, a := Fillers(c, c.maxSize - 2, v), Item("a", v, c.Stamp(Expiry(c)));
      Lists(c, Telling(c, v), [a] + (fs + [K(c, v)]), [a] + ([X(c, v)] + fs))
  {
    AfterFilling(c, c.maxSize - 2, v);
    FromFilled(c, v, Filling(c.maxSize - 2, v));
  }

  lemma FromFilled<V>(c: Config, v: V, r: seq<Timed<V>>)
    requires c.ttl > 0 && c.maxSize >= 2
    requires Lists(c, r, Filled(c, c.maxSize - 2, v), Filled(c, c.maxSize - 2, v))
    ensures var fs, a := Fillers(c, c.maxSize - 2, v), Item("a", v, c.Stamp(Expiry(c)));
      Lists(c, r + [At(Get("x"), 1)] + [Timed(Cleanup, Expiry(c))] + [Timed(Set("a", v), Expiry(c))],
            [a] + (fs + [K(c, v)]), [a] + ([X(c, v)] + fs))
  {
    var l, t := Filled(c, c.maxSize - 2, v), Touched(c, v);
    Touch(c, v);
    Goes(c, r, At(Get("x"), 1), l, l, t, t);
    FromTouched(c, v, r + [At(Get("x"), 1)]);
  }

  lemma FromTouched<V>(c: Config, v: V, r: seq<Timed<V>>)
    requires c.ttl > 0 && c.maxSize >= 2 && Lists(c, r, Touched(c, v), Touched(c, v))
    ensures var fs, a := Fillers(c, c.maxSize - 2, v), Item("a", v, c.Stamp(Expiry(c)));
      Lists(c, r + [Timed(Cleanup, Expiry(c))] + [Timed(Set("a", v), Expiry(c))],
            [a] + (fs + [K(c, v)]), [a] + ([X(c, v)] + fs))
  {
    var fs, t, a := Fillers(c, c.maxSize - 2, v), Touched(c, v), Item("a", v, c.Stamp(Expiry(c)));
    CleanupDropsX(c, v);
    Goes(c, r, Timed(Cleanup, Expiry(c)), t, t, fs + [K(c, v)], t);
    SetA(c, v);
    Goes(c, r + [Timed(Cleanup, Expiry(c))], Timed(Set("a", v), Expiry(c)), fs + [K(c, v)], t,
         [a] + (fs + [K(c, v)]), [a] + ([X(c, v)] + fs));
  }

  lemma CleanupDropsX<V>(c: Config, v: V)
    requires c.ttl > 0 && c.maxSize >= 2
    ensures var fs := Fillers(c, c.maxSize - 2, v);
      Fresh(c, Touched(c, v), Expiry(c)) == fs + [K(c, v)]
  {
    var fs, x, k := Fillers(c, c.maxSize - 2, v), X(c, v), K(c, v);
    FreshConcat(c, [x] + fs, [k], Expiry(c));
    FreshConcat(c, [x], fs, Expiry(c));
    FillersFresh(c, c.maxSize - 2, v, Expiry(c));
    assert [x][1..] == [] && [k][1..] == [];
    assert Fresh(c, [x], Expiry(c)) == [];
    assert Fresh(c, [k], Expiry(c)) == [k];
  }

  lemma {:induction false} FillingOrdered<V>(n: nat, v: V)
    ensures EndsBy(Filling(n, v), SECOND)
  {
    if n > 0 { FillingOrdered(n - 1, v); }
  }

  lemma LaterOrdered<V>(run: seq<Timed<V>>, before: int, e: Timed<V>)
    requires EndsBy(run, before) && before <= e.at
    ensures EndsBy(run + [e], e.at)
  {
  }

  lemma TellingOrdered<V>(c: Config, v: V)
    requires c.ttl > 0 && c.maxSize >= 2
    ensures EndsBy(Telling(c, v), Expiry(c))
  {
    var r0 := Filling(c.maxSize - 2, v);
    FillingOrdered(c.maxSize - 2, v);
    LaterOrdered(r0, SECOND, At(Get("x"), 1));
    var r1 := r0 + [At(Get("x"), 1)];
    LaterOrdered(r1, SECOND, Timed(Cleanup, Expiry(c)));
    LaterOrdered(r1 + [Timed(Cleanup, Expiry(c))], Expiry(c), Timed(Set("a", v), Expiry(c)));
  }

  /** Where k is in the two lists at the end. */
  lemma TellingLists<V>(c: Config, v: V, a: Item<V>)
    requires c.ttl > 0 && c.maxSize >= 2 && a.key == "a"
    ensures var fs := Fillers(c, c.maxSize - 2, v);
      && Lookup([a] + (fs + [K(c, v)]), "k") == Some(K(c, v))
      && Lookup([a] + ([X(c, v)] + fs), "k") == None
  {
    var n := c.maxSize - 2;
    var fs, x, k := Fillers(c, n, v), X(c, v), K(c, v);
    NotAFiller(c, n, v, "k");
    LookupConcat(fs, [k], "k");
    One(k, "k");
    ConsLookup(a, fs + [k], "k");
    ConsLookup(x, fs, "k");
    ConsLookup(a, [x] + fs, "k");
  }

  /** For every ttl above zero and every maximum above one, k is a hit after that run and
      would be a miss without its cleanup. */
  lemma TellingTells<V>(c: Config, v: V)
    requires c.ttl > 0 && c.maxSize >= 2
    ensures EndsBy(Telling(c, v), Expiry(c)) && !AnswersAlike(c, Telling(c, v), "k", Expiry(c))
  {
    TellingOrdered(c, v);
    AfterTelling(c, v);
    TellingLists(c, v, Item("a", v, c.Stamp(Expiry(c))));
  }

  /** No run of a cache is ever changed by its cleanups, if and only if nothing expires or
      there is room for one item at most, or without limit. */
  lemma NeverObservedIff<V(!new)>(c: Config, v: V)
    ensures NeverObserved<V>(c) <==> Indifferent(c)
  {
    if Indifferent(c) {
      forall run: seq<Timed<V>>, key, now | EndsBy(run, now) ensures AnswersAlike(c, run, key, now) {
        CleanupsNeverObserved(c, run, key, now);
      }
    } else {
      TellingTells(c, v);
    }
  }

  // ------------------------------------------------- an entry spared, a hit lost

  const TEN_SECONDS_TWO_ITEMS := Config(10, 2)

  function At<V>(op: Op<V>, seconds: int): Timed<V> { Timed(op, seconds * SECOND) }

  /** The lists after a run, with its cleanups and without. */
  predicate Lists<V(==)>(c: Config, run: seq<Timed<V>>, l: seq<Item<V>>, u: seq<Item<V>>) {
    After(c, run) == l && After(c, Uncleaned(run)) == u
  }

  lemma Next<V>(c: Config, run: seq<Timed<V>>, e: Timed<V>, l: seq<Item<V>>, u: seq<Item<V>>)
    requires Lists(c, run, l, u)
    ensures Lists(c, run + [e], Act(c, l, e.op, e.at), if e.op.Cleanup? then u else Act(c, u, e.op, e.at))
  {
    assert (run + [e])[..|run + [e]| - 1] == run;
    var w := Uncleaned(run);
    assert (w + [e])[..|w + [e]| - 1] == w;
    assert w + [] == w;
  }

  lemma One<V>(p: Item<V>, key: string)
    ensures Lookup([p], key) == if p.key == key then Some(p) else None
    ensures Remove([p], key) == if p.key == key then [] else [p]
  {
    assert [p][1..] == [];
  }

  lemma Two<V>(p: Item<V>, q: Item<V>, key: string)
    ensures Lookup([p, q], key) == if p.key == key then Some(p) else if q.key == key then Some(q) else None
    ensures p.key != key && q.key == key ==> Remove([p, q], key) == [p]
  {
    assert [p, q][1..] == [q];
    One(q, key);
  }

  function Entry(key: string, setAt: int): Item<int> { Item(key, 0, (setAt + 10) * SECOND) }

  lemma CleanupDropsOld()
    ensures Fresh(TEN_SECONDS_TWO_ITEMS, [Entry("x", 0), Entry("k", 5)], 11 * SECOND) == [Entry("k", 5)]
  {
    var c, x, k := TEN_SECONDS_TWO_ITEMS, Entry("x", 0), Entry("k", 5);
    assert [x, k][1..] == [k] && [k][1..] == [];
    assert Fresh(c, [k], 11 * SECOND) == [k] by {
      assert !c.Expired(k.expiresAt, 11 * SECOND);
      assert Fresh(c, [k][1..], 11 * SECOND) == [];
    }
  }

  /** A new key goes in front of a single item, or pushes out the second of two. */
  lemma SetNew(p: Item<int>, q: Item<int>, key: string, seconds: int)
    requires p.key != key && q.key != key
    ensures Act(TEN_SECONDS_TWO_ITEMS, [p], Set(key, 0), seconds * SECOND) == [Entry(key, seconds), p]
    ensures Act(TEN_SECONDS_TWO_ITEMS, [p, q], Set(key, 0), seconds * SECOND) == [Entry(key, seconds), p]
  {
    One(p, key);
    Two(p, q, key);
    assert [p, q][..1] == [p];
  }

  /** A Get of the second of two items: a hit puts it in front. */
  lemma GetSecond(p: Item<int>, q: Item<int>, seconds: int)
    requires p.key != q.key && seconds * SECOND <= q.expiresAt
    ensures Act(TEN_SECONDS_TWO_ITEMS, [p, q], Op<int>.Get(q.key), seconds * SECOND) == [q, p]
  {
    Two(p, q, q.key);
  }

  function Run1(): seq<Timed<int>> { [] + [At(Set("x", 0), 0)] }
  function Run2(): seq<Timed<int>> { Run1() + [At(Set("k", 0), 5)] }
  function Run3(): seq<Timed<int>> { Run2() + [At(Get("x"), 6)] }
  function UpToCleanup(): seq<Timed<int>> { Run3() + [At(Cleanup, 11)] }
  function Spared(): seq<Timed<int>> { UpToCleanup() + [At(Set("a", 0), 12)] }
  function Used(): seq<Timed<int>> { Spared() + [At(Get("k"), 13)] }
  function Lost(): seq<Timed<int>> { Used() + [At(Set("b", 0), 14)] }

  lemma AfterRun2()
    ensures Lists(TEN_SECONDS_TWO_ITEMS, Run2(), [Entry("k", 5), Entry("x", 0)], [Entry("k", 5), Entry("x", 0)])
  {
    var c, x := TEN_SECONDS_TWO_ITEMS, Entry("x", 0);
    var none: seq<Timed<int>> := [];
    Next(c, none, At(Set("x", 0), 0), [], []);
    assert Lists(c, Run1(), [x], [x]);
    Next(c, Run1(), At(Set("k", 0), 5), [x], [x]);
    SetNew(x, x, "k", 5);
  }

  /** Room for two items that last ten seconds. The cleanup at eleven seconds drops x. */
  lemma AfterCleanup()
    ensures Lists(TEN_SECONDS_TWO_ITEMS, UpToCleanup(), [Entry("k", 5)], [Entry("x", 0), Entry("k", 5)])
  {
    var c, x, k := TEN_SECONDS_TWO_ITEMS, Entry("x", 0), Entry("k", 5);
    AfterRun2();
    Next(c, Run2(), At(Get("x"), 6), [k, x], [k, x]);
    GetSecond(k, x, 6);
    assert Lists(c, Run3(), [x, k], [x, k]);
    Next(c, Run3(), At(Cleanup, 11), [x, k], [x, k]);
    CleanupDropsOld();
  }

  lemma AfterSpared()
    ensures Lists(TEN_SECONDS_TWO_ITEMS, Spared(), [Entry("a", 12), Entry("k", 5)], [Entry("a", 12), Entry("x", 0)])
  {
    var c, x, k := TEN_SECONDS_TWO_ITEMS, Entry("x", 0), Entry("k", 5);
    AfterCleanup();
    Next(c, UpToCleanup(), At(Set("a", 0), 12), [k], [x, k]);
    SetNew(k, k, "a", 12);
    SetNew(x, k, "a", 12);
  }

  /** The next new key then pushes out k without the cleanup, but not with it: a later
      Get of k is a hit that would have been a miss. */
  lemma EntrySpared()
    ensures var c := TEN_SECONDS_TWO_ITEMS;
      && Answer(c, After(c, Spared()), "k", 13 * SECOND).Some?
      && Answer(c, After(c, Uncleaned(Spared())), "k", 13 * SECOND).None?
  {
    AfterSpared();
    Two(Entry("a", 12), Entry("k", 5), "k");
    Two(Entry("a", 12), Entry("x", 0), "k");
  }

  lemma AfterUsed()
    ensures Lists(TEN_SECONDS_TWO_ITEMS, Used(), [Entry("k", 5), Entry("a", 12)], [Entry("a", 12), Entry("x", 0)])
  {
    var c, x, k, a := TEN_SECONDS_TWO_ITEMS, Entry("x", 0), Entry("k", 5), Entry("a", 12);
    AfterSpared();
    Next(c, Spared(), At(Get("k"), 13), [a, k], [a, x]);
    GetSecond(a, k, 13);
    Two(a, x, "k");
  }

  lemma AfterLost()
    ensures Lists(TEN_SECONDS_TWO_ITEMS, Lost(), [Entry("b", 14), Entry("k", 5)], [Entry("b", 14), Entry("a", 12)])
  {
    var c, x, k, a := TEN_SECONDS_TWO_ITEMS, Entry("x", 0), Entry("k", 5), Entry("a", 12);
    AfterUsed();
    Next(c, Used(), At(Set("b", 0), 14), [k, a], [a, x]);
    SetNew(k, a, "b", 14);
    SetNew(a, x, "b", 14);
  }

  /** And that hit moves k to the front, so that one more new key pushes out a: a later
      Get of a is a miss that would have been a hit. */
  lemma HitLost()
    ensures var c := TEN_SECONDS_TWO_ITEMS;
      && Answer(c, After(c, Uncleaned(Lost())), "a", 14 * SECOND).Some?
      && Answer(c, After(c, Lost()), "a", 14 * SECOND).None?
  {
    AfterLost();
    Two(Entry("b", 14), Entry("k", 5), "a");
    Two(Entry("b", 14), Entry("a", 12), "a");
  }
}
