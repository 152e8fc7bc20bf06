/** The cache as a list of items, most recently used first: the simple form that
    the map-plus-linked-list cache has to agree with. */
module Recency {

  const SECOND := 1_000_000_000

  datatype Option<T> = None | Some(value: T)

  datatype Item<V> = Item(key: string, value: V, expiresAt: int)

  /** A ttl of zero or less never expires; a size of zero or less is unbounded. */
  datatype Config = Config(ttl: int, maxSize: int) {
    predicate Bounded() { maxSize > 0 }

    predicate Expired(expiresAt: int, now: int) { ttl > 0 && now > expiresAt }

    function Stamp(now: int): int { if ttl > 0 then now + ttl * SECOND else 0 }
  }

  predicate Has<V>(l: seq<Item<V>>, key: string) {
    exists i :: 0 <= i < |l| && l[i].key == key
  }

  predicate Distinct<V>(l: seq<Item<V>>) {
    forall i, j :: 0 <= i < j < |l| ==> l[i].key != l[j].key
  }

  function Lookup<V>(l: seq<Item<V>>, key: string): Option<Item<V>> {
    if l == [] then None else if l[0].key == key then Some(l[0]) else Lookup(l[1..], key)
  }

  function Remove<V>(l: seq<Item<V>>, key: string): seq<Item<V>> {
    if l == [] then [] else if l[0].key == key then l[1..] else [l[0]] + Remove(l[1..], key)
  }

  /** The items that have not expired, in order. */
  function Fresh<V>(c: Config, l: seq<Item<V>>, now: int): seq<Item<V>> {
    if l == [] then []
    else if c.Expired(l[0].expiresAt, now) then Fresh(c, l[1..], now)
    else [l[0]] + Fresh(c, l[1..], now)
  }

  datatype Op<V> =
    | Get(key: string)
    | Set(key: string, value: V)
    | Delete(key: string)
    | Clear
    | Cleanup
    | Probe(key: string)

  datatype Timed<V> = Timed(op: Op<V>, at: int)

  /** The answer to a Get or a Probe: present and not expired. */
  function Answer<V>(c: Config, l: seq<Item<V>>, key: string, now: int): Option<V> {
    match Lookup(l, key)
    case None => None
    case Some(item) => if c.Expired(item.expiresAt, now) then None else Some(item.value)
  }

  function Act<V>(c: Config, l: seq<Item<V>>, op: Op<V>, now: int): seq<Item<V>> {
    match op
    case Get(key) =>
      (match Lookup(l, key)
       case None => l
       case Some(item) =>
         if c.Expired(item.expiresAt, now) then Remove(l, key) else [item] + Remove(l, key))
    case Set(key, value) =>
      var item := Item(key, value, c.Stamp(now));
      if Lookup(l, key).Some? then [item] + Remove(l, key)
      else if c.Bounded() && |l| >= c.maxSize then [item] + l[..|l| - 1]
      else [item] + l
    case Delete(key) => Remove(l, key)
    case Clear => []
    case Cleanup => Fresh(c, l, now)
    case Probe(_) => l
  }

  function After<V>(c: Config, run: seq<Timed<V>>): seq<Item<V>> {
    if run == [] then []
    else Act(c, After(c, run[..|run| - 1]), run[|run| - 1].op, run[|run| - 1].at)
  }

  // ------------------------------------------------- list facts

  lemma {:induction false} LookupFinds<V>(l: seq<Item<V>>, key: string)
    ensures Lookup(l, key).Some? <==> Has(l, key)
    ensures Lookup(l, key).Some? ==> Lookup(l, key).value in l && Lookup(l, key).value.key == key
  {
    if l != [] {
      LookupFinds(l[1..], key);
      if Has(l, key) && l[0].key != key {
        var i :| 0 <= i < |l| && l[i].key == key;
        assert l[1..][i - 1].key == key;
      }
      if Has(l[1..], key) {
        var i :| 0 <= i < |l[1..]| && l[1..][i].key == key;
        assert l[i + 1].key == key;
      }
    }
  }

  lemma {:induction false} RemoveAbsent<V>(l: seq<Item<V>>, key: string)
    requires Lookup(l, key).None?
    ensures Remove(l, key) == l
  {
    if l != [] {
      RemoveAbsent(l[1..], key);
    }
  }

  /** Removing a key keeps the others, in order. */
  lemma {:induction false} RemoveKeeps<V>(l: seq<Item<V>>, key: string)
    requires Distinct(l)
    ensures Distinct(Remove(l, key))
    ensures forall i :: 0 <= i < |Remove(l, key)| ==> Remove(l, key)[i] in l && Remove(l, key)[i].key != key
    ensures |Remove(l, key)| == |l| - if Lookup(l, key).Some? then 1 else 0
  {
    if l != [] && l[0].key != key {
      var rest := Remove(l[1..], key);
      RemoveKeeps(l[1..], key);
      assert forall i :: 0 <= i < |rest| ==> rest[i] in l[1..];
      assert forall item :: item in l[1..] ==> item.key != l[0].key;
    }
  }

  lemma {:induction false} FreshKeeps<V>(c: Config, l: seq<Item<V>>, now: int)
    requires Distinct(l)
    ensures Distinct(Fresh(c, l, now)) && |Fresh(c, l, now)| <= |l|
    ensures forall i :: 0 <= i < |Fresh(c, l, now)| ==>
      Fresh(c, l, now)[i] in l && !c.Expired(Fresh(c, l, now)[i].expiresAt, now)
  {
    if l != [] {
      FreshKeeps(c, l[1..], now);
      assert forall i :: 0 <= i < |Fresh(c, l[1..], now)| ==> Fresh(c, l[1..], now)[i] in l[1..];
      assert forall item :: item in l[1..] ==> item.key != l[0].key;
    }
  }

  // ------------------------------------- invariants of every run

  predicate Good<V>(c: Config, l: seq<Item<V>>) {
    Distinct(l) && (c.Bounded() ==> |l| <= c.maxSize)
  }

  lemma ActKeeps<V>(c: Config, l: seq<Item<V>>, op: Op<V>, now: int)
    requires Good(c, l)
    ensures Good(c, Act(c, l, op, now))
  {
    match op
    case Get(key) => LookupFinds(l, key); RemoveKeeps(l, key);
    case Set(key, _) => LookupFinds(l, key); RemoveKeeps(l, key);
    case Delete(key) => RemoveKeeps(l, key);
    case Clear =>
    case Cleanup => FreshKeeps(c, l, now);
    case Probe(_) =>
  }

  /** Over every run: one item per key and never more than the maximum. */
  lemma {:induction false} RunKeeps<V>(c: Config, run: seq<Timed<V>>)
    ensures Good(c, After(c, run))
  {
    if run != [] {
      RunKeeps(c, run[..|run| - 1]);
      ActKeeps(c, After(c, run[..|run| - 1]), run[|run| - 1].op, run[|run| - 1].at);
    }
  }

  // ------------------------------------- recency read off the history

  /** Whether the operation at the end of a run used the key: a Set of it, or a Get
      that found it. */
  predicate Uses<V>(c: Config, run: seq<Timed<V>>, key: string)
    requires run != []
  {
    var e := run[|run| - 1];
    match e.op
    case Get(k) => k == key && Answer(c, After(c, run[..|run| - 1]), key, e.at).Some?
    case Set(k, _) => k == key
    case _ => false
  }

  /** The position in the run of the last use of a key, or -1. */
  function LastUse<V>(c: Config, run: seq<Timed<V>>, key: string): (r: int)
    ensures -1 <= r < |run|
  {
    if run == [] then -1
    else if Uses(c, run, key) then |run| - 1
    else LastUse(c, run[..|run| - 1], key)
  }

  predicate ByLastUse<V>(c: Config, run: seq<Timed<V>>, l: seq<Item<V>>) {
    && (forall i :: 0 <= i < |l| ==> LastUse(c, run, l[i].key) >= 0)
    && (forall i, j :: 0 <= i < j < |l| ==> LastUse(c, run, l[i].key) > LastUse(c, run, l[j].key))
  }

  /** Any part of the list that keeps the order is ordered by last use as well. */
  ghost predicate Subsequence<V>(a: seq<Item<V>>, b: seq<Item<V>>) {
    a == [] || (b != [] && (if a[0] == b[0] then Subsequence(a[1..], b[1..]) else Subsequence(a, b[1..])))
  }

  lemma {:induction false} SubsequenceIn<V>(a: seq<Item<V>>, b: seq<Item<V>>, x: Item<V>)
    requires Subsequence(a, b) && x in a
    ensures x in b
  {
    if a[0] == b[0] {
      if x != a[0] { SubsequenceIn(a[1..], b[1..], x); }
    } else {
      SubsequenceIn(a, b[1..], x);
    }
  }

  lemma {:induction false} SubsequenceByLastUse<V>(c: Config, run: seq<Timed<V>>, a: seq<Item<V>>, b: seq<Item<V>>)
    requires Subsequence(a, b) && ByLastUse(c, run, b)
    ensures ByLastUse(c, run, a)
    decreases |b|
  {
    if a != [] {
      if a[0] == b[0] {
        SubsequenceByLastUse(c, run, a[1..], b[1..]);
        forall j | 0 < j < |a| ensures LastUse(c, run, a[0].key) > LastUse(c, run, a[j].key) {
          SubsequenceIn(a[1..], b[1..], a[j]);
        }
      } else {
        SubsequenceByLastUse(c, run, a, b[1..]);
      }
    }
  }

  lemma {:induction false} RemoveSubsequence<V>(l: seq<Item<V>>, key: string)
    requires Distinct(l)
    ensures Subsequence(Remove(l, key), l)
  {
    if l != [] {
      if l[0].key == key {
        SubsequenceSelf(l[1..]);
        if |l| > 1 { assert l[1].key != l[0].key; }
      } else {
        RemoveSubsequence(l[1..], key);
        assert Remove(l, key)[1..] == Remove(l[1..], key);
      }
    }
  }

  lemma {:induction false} SubsequenceSelf<V>(l: seq<Item<V>>)
    ensures Subsequence(l, l)
  {
    if l != [] { SubsequenceSelf(l[1..]); }
  }

  lemma {:induction false} PrefixSubsequence<V>(l: seq<Item<V>>, n: nat)
    requires n <= |l|
    ensures Subsequence(l[..n], l)
  {
    if n > 0 {
      PrefixSubsequence(l[1..], n - 1);
      assert l[..n][1..] == l[1..][..n - 1];
    }
  }

  lemma {:induction false} FreshSubsequence<V>(c: Config, l: seq<Item<V>>, now: int)
    requires Distinct(l)
    ensures Subsequence(Fresh(c, l, now), l)
  {
    if l != [] {
      FreshSubsequence(c, l[1..], now);
      if c.Expired(l[0].expiresAt, now) {
        FreshKeeps(c, l[1..], now);
        if Fresh(c, l[1..], now) != [] {
          assert Fresh(c, l[1..], now)[0] in l[1..];
        }
      } else {
        assert Fresh(c, l, now)[1..] == Fresh(c, l[1..], now);
      }
    }
  }

  /** What an operation does to the order: it may put the key it uses in front, and
      what follows is part of the old list without that key. */
  lemma ActOrder<V>(c: Config, run: seq<Timed<V>>)
    requires run != []
    ensures var before, e := After(c, run[..|run| - 1]), run[|run| - 1];
      var l := After(c, run);
      if (e.op.Get? && Answer(c, before, e.op.key, e.at).Some?) || e.op.Set? then
        && l != [] && l[0].key == e.op.key && Uses(c, run, e.op.key)
        && Subsequence(l[1..], before)
        && (forall i :: 1 <= i < |l| ==> l[i].key != e.op.key)
      else
        Subsequence(l, before)
  {
    var before, e := After(c, run[..|run| - 1]), run[|run| - 1];
    var l := After(c, run);
    RunKeeps(c, run[..|run| - 1]);
    RunKeeps(c, run);
    SubsequenceSelf(before);
    match e.op
    case Get(key) =>
      LookupFinds(before, key);
      RemoveSubsequence(before, key);
      RemoveKeeps(before, key);
      if Answer(c, before, key, e.at).Some? { assert l[1..] == Remove(before, key); }
    case Set(key, _) =>
      LookupFinds(before, key);
      RemoveSubsequence(before, key);
      RemoveKeeps(before, key);
      if Lookup(before, key).Some? {
        assert l[1..] == Remove(before, key);
      } else if c.Bounded() && |before| >= c.maxSize {
        PrefixSubsequence(before, |before| - 1);
        assert l[1..] == before[..|before| - 1];
      } else {
        assert l[1..] == before;
      }
    case Delete(key) => RemoveSubsequence(before, key);
    case Clear =>
    case Cleanup => FreshSubsequence(c, before, e.at);
    case Probe(_) =>
  }

  /** Over every run the list is ordered by last use, latest first. */
  lemma {:induction false} OrderedByLastUse<V>(c: Config, run: seq<Timed<V>>)
    ensures ByLastUse(c, run, After(c, run))
  {
    if run != [] {
      var earlier := run[..|run| - 1];
      var before, l, e := After(c, earlier), After(c, run), run[|run| - 1];
      OrderedByLastUse(c, earlier);
      ActOrder(c, run);
      if (e.op.Get? && Answer(c, before, e.op.key, e.at).Some?) || e.op.Set? {
        SubsequenceByLastUse(c, earlier, l[1..], before);
        assert forall i :: 1 <= i < |l| ==> l[i] == l[1..][i - 1];
        assert forall i :: 1 <= i < |l| ==> LastUse(c, run, l[i].key) == LastUse(c, earlier, l[i].key);
      } else {
        SubsequenceByLastUse(c, earlier, l, before);
        assert forall i :: 0 <= i < |l| ==> LastUse(c, run, l[i].key) == LastUse(c, earlier, l[i].key);
      }
    }
  }

  /** A Set of a new key into a full list pushes out the last key and no other. */
  lemma PushesOutLast<V>(c: Config, l: seq<Item<V>>, key: string, value: V, now: int)
    requires Distinct(l) && c.Bounded() && |l| >= c.maxSize && Lookup(l, key).None?
    ensures var l' := Act(c, l, Set(key, value), now);
      && (forall i :: 0 <= i < |l| - 1 ==> Has(l', l[i].key))
      && !Has(l', l[|l| - 1].key)
  {
    var l' := Act(c, l, Set(key, value), now);
    LookupFinds(l, key);
    forall i | 0 <= i < |l| - 1 ensures Has(l', l[i].key) {
      assert l'[i + 1] == l[i];
    }
    forall i | 0 <= i < |l'| ensures l'[i].key != l[|l| - 1].key {
      if i > 0 { assert l'[i] == l[i - 1]; }
    }
  }

  /** The key a Set pushes out is the least recently used of all that were there. */
  lemma VictimIsLeastRecent<V>(c: Config, run: seq<Timed<V>>, key: string, value: V, now: int)
    requires c.Bounded() && |After(c, run)| >= c.maxSize && Lookup(After(c, run), key).None?
    ensures var l := After(c, run);
      var l' := Act(c, l, Set(key, value), now);
      && !Has(l', l[|l| - 1].key)
      && (forall i :: 0 <= i < |l| - 1 ==>
            Has(l', l[i].key) && LastUse(c, run, l[|l| - 1].key) < LastUse(c, run, l[i].key))
  {
    OrderedByLastUse(c, run);
    RunKeeps(c, run);
    PushesOutLast(c, After(c, run), key, value, now);
  }
}
