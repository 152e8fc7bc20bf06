/** Laws of the recency list over whole runs: a larger cache always contains a smaller
    one and has no fewer hits, and when background cleanup is never observed. */
module LruInclusion {
  import opened Recency

  // --------------------------------------------------------- inclusion

  /** Demand filling: a Get, then a Set if it missed; or a Delete. */
  datatype Demand<V> = Access(key: string, value: V, at: int) | Forget(key: string, at: int)

  function Serve<V>(c: Config, l: seq<Item<V>>, d: Demand<V>): seq<Item<V>> {
    match d
    case Access(key, value, at) =>
      var l' := Act(c, l, Get(key), at);
      if Answer(c, l, key, at).None? then Act(c, l', Set(key, value), at) else l'
    case Forget(key, at) => Act(c, l, Delete(key), at)
  }

  function AfterDemand<V>(c: Config, trace: seq<Demand<V>>): seq<Item<V>> {
    if trace == [] then [] else Serve(c, AfterDemand(c, trace[..|trace| - 1]), trace[|trace| - 1])
  }

  function Keys<V>(l: seq<Item<V>>): seq<string> {
    seq(|l|, i requires 0 <= i < |l| => l[i].key)
  }

  /** Whether capacity m is no larger than n, where n may be unbounded. */
  predicate NoLarger(m: int, n: int) {
    0 < m && (n <= 0 || m <= n)
  }

  function RemoveKey(ks: seq<string>, key: string): (r: seq<string>)
    ensures |r| <= |ks|
  {
    if ks == [] then [] else if ks[0] == key then ks[1..] else [ks[0]] + RemoveKey(ks[1..], key)
  }

  /** What a demand does to the keys alone. */
  function ServeKeys<V>(size: int, ks: seq<string>, d: Demand<V>): seq<string> {
    match d
    case Access(key, _, _) =>
      if key in ks then [key] + RemoveKey(ks, key)
      else if size > 0 && |ks| >= size then [key] + ks[..|ks| - 1]
      else [key] + ks
    case Forget(key, _) => RemoveKey(ks, key)
  }

  lemma {:induction false} RemoveOnKeys<V>(l: seq<Item<V>>, key: string)
    ensures Keys(Remove(l, key)) == RemoveKey(Keys(l), key)
    ensures Lookup(l, key).Some? <==> key in Keys(l)
    ensures Lookup(l, key).Some? ==> Lookup(l, key).value.key == key
  {
    if l != [] {
      RemoveOnKeys(l[1..], key);
      assert Keys(l)[1..] == Keys(l[1..]);
      assert Keys(l) == [l[0].key] + Keys(l[1..]);
    }
  }

  /** The keys evolve alike whatever the ttl: an expired item is dropped by the Get, and
      the Set that follows puts its key in front without pushing anything out. */
  lemma ServeOnKeys<V>(c: Config, l: seq<Item<V>>, d: Demand<V>)
    requires Good(c, l)
    ensures Keys(Serve(c, l, d)) == ServeKeys(c.maxSize, Keys(l), d)
  {
    RemoveOnKeys(l, d.key);
    if d.Access? && Lookup(l, d.key).Some? {
      var item := Lookup(l, d.key).value;
      var rest := Remove(l, d.key);
      RemoveKeeps(l, d.key);
      assert Keys([item] + rest) == [item.key] + Keys(rest);
      LookupFinds(rest, d.key);
      var stamped := Item(d.key, d.value, c.Stamp(d.at));
      assert Keys([stamped] + rest) == [d.key] + Keys(rest);
    }
  }

  lemma ServeKeeps<V>(c: Config, l: seq<Item<V>>, d: Demand<V>)
    requires Good(c, l)
    ensures Good(c, Serve(c, l, d))
  {
    match d
    case Access(key, value, at) =>
      ActKeeps(c, l, Get(key), at);
      ActKeeps(c, Act(c, l, Get(key), at), Set(key, value), at);
    case Forget(key, at) => ActKeeps(c, l, Delete(key), at);
  }

  lemma {:induction false} DemandKeeps<V>(c: Config, trace: seq<Demand<V>>)
    ensures Good(c, AfterDemand(c, trace))
  {
    if trace != [] {
      DemandKeeps(c, trace[..|trace| - 1]);
      ServeKeeps(c, AfterDemand(c, trace[..|trace| - 1]), trace[|trace| - 1]);
    }
  }

  /** What was accessed last comes first. */
  lemma LastAccessFirst<V>(c: Config, trace: seq<Demand<V>>)
    requires trace != [] && trace[|trace| - 1].Access?
    ensures Keys(AfterDemand(c, trace)) != [] && Keys(AfterDemand(c, trace))[0] == trace[|trace| - 1].key
  {
    DemandKeeps(c, trace[..|trace| - 1]);
    ServeOnKeys(c, AfterDemand(c, trace[..|trace| - 1]), trace[|trace| - 1]);
  }

  lemma {:induction false} RemoveKeepsPrefix(a: seq<string>, b: seq<string>, key: string)
    requires a <= b
    ensures RemoveKey(a, key) <= RemoveKey(b, key)
    ensures key !in a ==> RemoveKey(a, key) == a
    ensures key in a ==> |RemoveKey(a, key)| == |a| - 1
  {
    if a != [] && a[0] != key {
      RemoveKeepsPrefix(a[1..], b[1..], key);
    }
  }

  lemma ServeKeepsPrefix<V>(m: int, n: int, a: seq<string>, b: seq<string>, d: Demand<V>)
    requires NoLarger(m, n) && a <= b && |a| <= m && (n > 0 ==> |b| <= n)
    ensures ServeKeys(m, a, d) <= ServeKeys(n, b, d)
    ensures |ServeKeys(m, a, d)| <= m && (n > 0 ==> |ServeKeys(n, b, d)| <= n)
  {
    RemoveKeepsPrefix(a, b, d.key);
    RemoveKeepsPrefix(b, b, d.key);
  }

  /** The keys of the smaller cache are the first keys of the larger one, whatever the
      ttls and the times of the demands. */
  lemma {:induction false} Inclusion<V>(small: Config, large: Config, trace: seq<Demand<V>>)
    requires NoLarger(small.maxSize, large.maxSize)
    ensures Keys(AfterDemand(small, trace)) <= Keys(AfterDemand(large, trace))
    ensures |AfterDemand(small, trace)| <= small.maxSize
    ensures large.maxSize > 0 ==> |AfterDemand(large, trace)| <= large.maxSize
  {
    if trace != [] {
      var before, d := trace[..|trace| - 1], trace[|trace| - 1];
      Inclusion(small, large, before);
      DemandKeeps(small, before);
      DemandKeeps(large, before);
      ServeOnKeys(small, AfterDemand(small, before), d);
      ServeOnKeys(large, AfterDemand(large, before), d);
      ServeKeepsPrefix(small.maxSize, large.maxSize,
                       Keys(AfterDemand(small, before)), Keys(AfterDemand(large, before)), d);
    }
  }

  // -------------------------------------------------------------- hits

  predicate Hit<V>(c: Config, before: seq<Demand<V>>, d: Demand<V>) {
    d.Access? && Answer(c, AfterDemand(c, before), d.key, d.at).Some?
  }

  /** How many accesses of a trace found their key. */
  function Hits<V>(c: Config, trace: seq<Demand<V>>): nat {
    if trace == [] then 0
    else
      var before, d := trace[..|trace| - 1], trace[|trace| - 1];
      Hits(c, before) + if Hit(c, before, d) then 1 else 0
  }

  /** How many accesses to one key found it. */
  function HitsOf<V>(c: Config, trace: seq<Demand<V>>, key: string): nat {
    if trace == [] then 0
    else
      var before, d := trace[..|trace| - 1], trace[|trace| - 1];
      HitsOf(c, before, key) + if d.key == key && Hit(c, before, d) then 1 else 0
  }

  /** What a demand does to the item of a key: its own is there with the old stamp after a
      hit and with a new one after a miss; another one is as it was, or pushed out. */
  lemma ServeLookup<V>(c: Config, l: seq<Item<V>>, d: Demand<V>, key: string)
    requires Good(c, l)
    ensures var l' := Serve(c, l, d);
      if d.key != key then Lookup(l', key) == Lookup(l, key) || Lookup(l', key) == None
      else if d.Forget? then Lookup(l', key) == None
      else if Answer(c, l, key, d.at).Some? then Lookup(l', key) == Lookup(l, key)
      else Lookup(l', key) == Some(Item(key, d.value, c.Stamp(d.at)))
  {
    RemoveLookup(l, d.key, key);
    RemoveLookup(l, d.key, d.key);
    RemoveKeeps(l, d.key);
    LookupFinds(l, d.key);
    if l != [] { InitLookup(l, key); }
    if d.Access? {
      var item := Item(d.key, d.value, c.Stamp(d.at));
      ConsLookup(item, l, key);
      ConsLookup(item, Remove(l, d.key), key);
      if l != [] { ConsLookup(item, l[..|l| - 1], key); }
      if Lookup(l, d.key).Some? { ConsLookup(Lookup(l, d.key).value, Remove(l, d.key), key); }
    }
  }

  lemma ConsLookup<V>(item: Item<V>, l: seq<Item<V>>, key: string)
    ensures Lookup([item] + l, key) == if item.key == key then Some(item) else Lookup(l, key)
  {
    assert ([item] + l)[1..] == l;
  }

  lemma {:induction false} RemoveLookup<V>(l: seq<Item<V>>, gone: string, key: string)
    requires Distinct(l)
    ensures Lookup(Remove(l, gone), key) == if key == gone then None else Lookup(l, key)
  {
    if l != [] {
      RemoveLookup(l[1..], gone, key);
      LookupFinds(l[1..], gone);
    }
  }

  lemma {:induction false} InitLookup<V>(l: seq<Item<V>>, key: string)
    requires l != []
    ensures Lookup(l[..|l| - 1], key) == Lookup(l, key) || Lookup(l[..|l| - 1], key) == None
  {
    if |l| > 1 {
      assert l[..|l| - 1][1..] == l[1..][..|l[1..]| - 1];
      InitLookup(l[1..], key);
    }
  }

  predicate OrderedTrace<V>(trace: seq<Demand<V>>) {
    forall i, j :: 0 <= i < j < |trace| ==> trace[i].at <= trace[j].at
  }

  /** No stamp is later than one set at the end of the trace. */
  lemma {:induction false} StampsPast<V>(c: Config, trace: seq<Demand<V>>, key: string, now: int)
    requires OrderedTrace(trace) && (trace != [] ==> trace[|trace| - 1].at <= now)
    ensures var item := Lookup(AfterDemand(c, trace), key);
      item.Some? ==> item.value.expiresAt <= c.Stamp(now)
  {
    if trace != [] {
      var before, d := trace[..|trace| - 1], trace[|trace| - 1];
      DemandKeeps(c, before);
      StampsPast(c, before, key, d.at);
      ServeLookup(c, AfterDemand(c, before), d, key);
    }
  }

  /** The larger cache is ahead in hits of a key, and strictly so whenever it holds the
      key with an earlier stamp than the smaller one does: that stamp dates from a miss
      of the smaller one alone. */
  predicate Ahead<V>(s: Option<Item<V>>, l: Option<Item<V>>, small: nat, large: nat) {
    && small <= large
    && (s.Some? && l.Some? && l.value.expiresAt < s.value.expiresAt ==> small < large)
  }

  lemma KeyIncluded<V>(small: Config, large: Config, trace: seq<Demand<V>>, key: string)
    requires NoLarger(small.maxSize, large.maxSize)
    ensures Lookup(AfterDemand(small, trace), key).Some? ==> Lookup(AfterDemand(large, trace), key).Some?
  {
    Inclusion(small, large, trace);
    RemoveOnKeys(AfterDemand(small, trace), key);
    RemoveOnKeys(AfterDemand(large, trace), key);
  }

  lemma {:induction false} StaysAhead<V>(small: Config, large: Config, trace: seq<Demand<V>>, key: string)
    requires NoLarger(small.maxSize, large.maxSize) && small.ttl == large.ttl && OrderedTrace(trace)
    ensures Ahead(Lookup(AfterDemand(small, trace), key), Lookup(AfterDemand(large, trace), key),
                  HitsOf(small, trace, key), HitsOf(large, trace, key))
  {
    if trace != [] {
      var before, d := trace[..|trace| - 1], trace[|trace| - 1];
      StaysAhead(small, large, before, key);
      KeyIncluded(small, large, before, key);
      DemandKeeps(small, before);
      DemandKeeps(large, before);
      ServeLookup(small, AfterDemand(small, before), d, key);
      ServeLookup(large, AfterDemand(large, before), d, key);
      StampsPast(small, before, key, d.at);
    }
  }

  /** The hits of the keys of a list. */
  function HitsAmong<V>(c: Config, trace: seq<Demand<V>>, ks: seq<string>): nat {
    if ks == [] then 0 else HitsOf(c, trace, ks[0]) + HitsAmong(c, trace, ks[1..])
  }

  predicate NoRepeats(ks: seq<string>) {
    forall i, j :: 0 <= i < j < |ks| ==> ks[i] != ks[j]
  }

  lemma {:induction false} OneMoreHit<V>(c: Config, trace: seq<Demand<V>>, ks: seq<string>)
    requires trace != [] && NoRepeats(ks)
    ensures var before, d := trace[..|trace| - 1], trace[|trace| - 1];
      HitsAmong(c, trace, ks) ==
        HitsAmong(c, before, ks) + if d.key in ks && Hit(c, before, d) then 1 else 0
  {
    if ks != [] {
      OneMoreHit(c, trace, ks[1..]);
      assert ks == [ks[0]] + ks[1..];
      assert ks[0] !in ks[1..];
    }
  }

  lemma {:induction false} NoHitsYet<V>(c: Config, ks: seq<string>)
    ensures HitsAmong<V>(c, [], ks) == 0
  {
    if ks != [] { NoHitsYet<V>(c, ks[1..]); }
  }

  lemma {:induction false} HitsAddUp<V>(c: Config, trace: seq<Demand<V>>, ks: seq<string>)
    requires NoRepeats(ks) && forall i :: 0 <= i < |trace| ==> trace[i].key in ks
    ensures HitsAmong(c, trace, ks) == Hits(c, trace)
  {
    if trace == [] {
      NoHitsYet<V>(c, ks);
    } else {
      HitsAddUp(c, trace[..|trace| - 1], ks);
      OneMoreHit(c, trace, ks);
    }
  }

  /** The keys of a trace, each once. */
  function KeysOf<V>(trace: seq<Demand<V>>): (ks: seq<string>)
    ensures NoRepeats(ks) && forall i :: 0 <= i < |trace| ==> trace[i].key in ks
  {
    if trace == [] then []
    else
      var ks := KeysOf(trace[1..]);
      assert forall i :: 1 <= i < |trace| ==> trace[i] == trace[1..][i - 1];
      if trace[0].key in ks then ks else [trace[0].key] + ks
  }

  lemma {:induction false} AheadAmong<V>(small: Config, large: Config, trace: seq<Demand<V>>, ks: seq<string>)
    requires NoLarger(small.maxSize, large.maxSize) && small.ttl == large.ttl && OrderedTrace(trace)
    ensures HitsAmong(small, trace, ks) <= HitsAmong(large, trace, ks)
  {
    if ks != [] {
      StaysAhead(small, large, trace, ks[0]);
      AheadAmong(small, large, trace, ks[1..]);
    }
  }

  /** More capacity never costs a hit, with or without expiry: for caches of the same ttl
      and traces with a nondecreasing clock. */
  lemma MoreCapacityMoreHits<V>(small: Config, large: Config, trace: seq<Demand<V>>)
    requires NoLarger(small.maxSize, large.maxSize) && small.ttl == large.ttl && OrderedTrace(trace)
    ensures Hits(small, trace) <= Hits(large, trace)
  {
    var ks := KeysOf(trace);
    HitsAddUp(small, trace, ks);
    HitsAddUp(large, trace, ks);
    AheadAmong(small, large, trace, ks);
  }

  // ----------------------------------------------- cleanup is invisible

  lemma {:induction false} FreshLookup<V>(c: Config, l: seq<Item<V>>, key: string, now: int)
    requires Distinct(l)
    ensures Answer(c, Fresh(c, l, now), key, now) == Answer(c, l, key, now)
    ensures Answer(c, l, key, now).Some? ==> Lookup(Fresh(c, l, now), key) == Lookup(l, key)
    ensures Fresh(c, Remove(l, key), now) == Remove(Fresh(c, l, now), key)
    ensures Answer(c, l, key, now).None? ==> Fresh(c, Remove(l, key), now) == Fresh(c, l, now)
  {
    if l != [] {
      FreshLookup(c, l[1..], key, now);
      if l[0].key == key {
        LookupFinds(l[1..], key);
        FreshKeeps(c, l[1..], now);
        LookupFinds(Fresh(c, l[1..], now), key);
        RemoveAbsent(Fresh(c, l[1..], now), key);
      }
    }
  }

  /** Right after a Cleanup every Get and every probe answers as right before it. */
  lemma CleanupUnobserved<V>(c: Config, l: seq<Item<V>>, key: string, now: int)
    requires Distinct(l)
    ensures Answer(c, Act(c, l, Cleanup, now), key, now) == Answer(c, l, key, now)
  {
    FreshLookup(c, l, key, now);
  }

  lemma {:induction false} FreshLater<V>(c: Config, l: seq<Item<V>>, a: int, b: int)
    requires a <= b
    ensures Fresh(c, Fresh(c, l, a), b) == Fresh(c, l, b)
  {
    if l != [] {
      FreshLater(c, l[1..], a, b);
    }
  }

  /** The run with every Cleanup left out. */
  function Uncleaned<V>(run: seq<Timed<V>>): seq<Timed<V>> {
    if run == [] then []
    else
      var e := run[|run| - 1];
      Uncleaned(run[..|run| - 1]) + if e.op.Cleanup? then [] else [e]
  }

  predicate Ordered<V>(run: seq<Timed<V>>) {
    forall i, j :: 0 <= i < j < |run| ==> run[i].at <= run[j].at
  }

  /** With at most one item, or no limit, an operation acts on the unexpired items alone:
      what it pushes out makes no difference. */
  lemma ActOnFresh<V>(c: Config, l: seq<Item<V>>, op: Op<V>, now: int)
    requires c.maxSize <= 1 && Good(c, l) && !op.Cleanup?
    ensures Fresh(c, Act(c, l, op, now), now) == Fresh(c, Act(c, Fresh(c, l, now), op, now), now)
  {
    var f := Fresh(c, l, now);
    FreshLater(c, l, now, now);
    FreshKeeps(c, l, now);
    match op
    case Get(key) =>
      FreshLookup(c, l, key, now);
      FreshLookup(c, f, key, now);
    case Set(key, value) => SetOnFresh(c, l, key, value, now);
    case Delete(key) =>
      FreshLookup(c, l, key, now);
      FreshLookup(c, f, key, now);
    case Clear =>
    case Probe(_) =>
  }

  lemma SetOnFresh<V>(c: Config, l: seq<Item<V>>, key: string, value: V, now: int)
    requires c.maxSize <= 1 && Good(c, l)
    ensures Fresh(c, Act(c, l, Set(key, value), now), now)
         == Fresh(c, Act(c, Fresh(c, l, now), Set(key, value), now), now)
  {
    var f := Fresh(c, l, now);
    FreshKeeps(c, l, now);
    if c.Bounded() {
      SetAlone(c, l, key, value, now);
      SetAlone(c, f, key, value, now);
    } else {
      var item := Item(key, value, c.Stamp(now));
      FreshLater(c, l, now, now);
      FreshLookup(c, l, key, now);
      FreshLookup(c, f, key, now);
      SetUnbounded(c, l, key, value, now);
      SetUnbounded(c, f, key, value, now);
      assert ([item] + Remove(l, key))[1..] == Remove(l, key);
      assert ([item] + Remove(f, key))[1..] == Remove(f, key);
    }
  }

  lemma SetUnbounded<V>(c: Config, l: seq<Item<V>>, key: string, value: V, now: int)
    requires !c.Bounded()
    ensures Act(c, l, Set(key, value), now) == [Item(key, value, c.Stamp(now))] + Remove(l, key)
  {
    if Lookup(l, key).None? {
      RemoveAbsent(l, key);
    }
  }

  /** In a cache of one item a Set leaves just its own. */
  lemma SetAlone<V>(c: Config, l: seq<Item<V>>, key: string, value: V, now: int)
    requires c.maxSize == 1 && Good(c, l)
    ensures Act(c, l, Set(key, value), now) == [Item(key, value, c.Stamp(now))]
  {
    RemoveKeeps(l, key);
    if l != [] { assert l[..|l| - 1] == []; }
  }

  lemma {:induction false} SameFresh<V>(c: Config, run: seq<Timed<V>>, now: int)
    requires c.maxSize <= 1 && Ordered(run) && (run != [] ==> run[|run| - 1].at <= now)
    ensures Fresh(c, After(c, run), now) == Fresh(c, After(c, Uncleaned(run)), now)
  {
    if run != [] {
      var before, e := run[..|run| - 1], run[|run| - 1];
      var l, u := After(c, before), After(c, Uncleaned(before));
      SameFresh(c, before, e.at);
      RunKeeps(c, before);
      RunKeeps(c, Uncleaned(before));
      if e.op.Cleanup? {
        assert Uncleaned(run) == Uncleaned(before);
        FreshLater(c, l, e.at, now);
        FreshLater(c, u, e.at, now);
      } else {
        assert Uncleaned(run)[..|Uncleaned(run)| - 1] == Uncleaned(before);
        ActOnFresh(c, l, e.op, e.at);
        ActOnFresh(c, u, e.op, e.at);
        FreshLater(c, After(c, run), e.at, now);
        FreshLater(c, After(c, Uncleaned(run)), e.at, now);
      }
    }
  }

  lemma {:induction false} NothingExpires<V>(c: Config, l: seq<Item<V>>, now: int)
    requires c.ttl <= 0
    ensures Fresh(c, l, now) == l
  {
    if l != [] { NothingExpires(c, l[1..], now); }
  }

  /** Without expiry a Cleanup does nothing. */
  lemma {:induction false} SameList<V>(c: Config, run: seq<Timed<V>>)
    requires c.ttl <= 0
    ensures After(c, run) == After(c, Uncleaned(run))
  {
    if run != [] {
      var before, e := run[..|run| - 1], run[|run| - 1];
      SameList(c, before);
      if e.op.Cleanup? {
        NothingExpires(c, After(c, before), e.at);
        assert Uncleaned(run) == Uncleaned(before);
      } else {
        assert Uncleaned(run)[..|Uncleaned(run)| - 1] == Uncleaned(before);
      }
    }
  }

  /** The configurations in which no run is ever changed by its cleanups. */
  predicate Indifferent(c: Config) { c.ttl <= 0 || c.maxSize <= 1 }

  /** In such a cache, over every run with a nondecreasing clock, leaving out every Cleanup
      changes no answer. */
  lemma CleanupsNeverObserved<V>(c: Config, run: seq<Timed<V>>, key: string, now: int)
    requires Indifferent(c) && Ordered(run) && (run != [] ==> run[|run| - 1].at <= now)
    ensures Answer(c, After(c, run), key, now) == Answer(c, After(c, Uncleaned(run)), key, now)
  {
    if c.ttl <= 0 {
      SameList(c, run);
    } else {
      SameFresh(c, run, now);
      RunKeeps(c, run);
      RunKeeps(c, Uncleaned(run));
      FreshLookup(c, After(c, run), key, now);
      FreshLookup(c, After(c, Uncleaned(run)), key, now);
    }
  }
}
