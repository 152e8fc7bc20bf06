/** The in-memory cache: a map from key to entry and a list of the same entries,
    front most recently used, mutated together by every operation. */
module LruCache {
  import opened Recency

  class Entry<V> {
    const key: string
    var value: V
    var expiresAt: int

    constructor (key: string, value: V, expiresAt: int)
      ensures this.key == key && this.value == value && this.expiresAt == expiresAt
    {
      this.key, this.value, this.expiresAt := key, value, expiresAt;
    }
  }

  /** The list without one of its elements, as unlinking it leaves it. */
  function Unlink<V>(es: seq<Entry<V>>, e: Entry<V>): seq<Entry<V>> {
    if es == [] then [] else if es[0] == e then es[1..] else [es[0]] + Unlink(es[1..], e)
  }

  /** The items that a list of entries stands for. */
  ghost function View<V>(es: seq<Entry<V>>): seq<Item<V>>
    reads es
  {
    if es == [] then [] else [Item(es[0].key, es[0].value, es[0].expiresAt)] + View(es[1..])
  }

  /** The map that a list of entries calls for. */
  function Index<V>(es: seq<Entry<V>>): map<string, Entry<V>> {
    if es == [] then map[] else Index(es[1..])[es[0].key := es[0]]
  }

  /** No two entries have the same key. */
  predicate Keyed<V>(es: seq<Entry<V>>) {
    es != [] ==> es[0].key !in Index(es[1..]) && Keyed(es[1..])
  }

  /** Map and list hold the same entries, one per key. */
  predicate Linked<V>(items: map<string, Entry<V>>, lru: seq<Entry<V>>) {
    Keyed(lru) && items == Index(lru)
  }

  lemma {:induction false} IndexFinds<V>(es: seq<Entry<V>>, key: string)
    requires Keyed(es)
    ensures key in Index(es) ==> Index(es)[key].key == key && Index(es)[key] in es
    ensures |Index(es)| == |es|
  {
    if es != [] {
      IndexFinds(es[1..], key);
      assert Index(es).Keys == Index(es[1..]).Keys + {es[0].key};
    }
  }

  lemma {:induction false} IndexHolds<V>(es: seq<Entry<V>>, e: Entry<V>)
    requires Keyed(es) && e in es
    ensures e.key in Index(es) && Index(es)[e.key] == e
  {
    if es[0] != e {
      assert e in es[1..];
      IndexHolds(es[1..], e);
    }
  }

  /** Unlinking an entry takes its key out of the map. */
  lemma {:induction false} UnlinkIndex<V>(es: seq<Entry<V>>, e: Entry<V>)
    requires Keyed(es) && e in es
    ensures Keyed(Unlink(es, e))
    ensures Index(Unlink(es, e)) == Index(es) - {e.key}
    ensures e !in Unlink(es, e)
  {
    if es[0] == e {
      if e in es[1..] { IndexHolds(es[1..], e); }
      assert Index(es[1..]) == Index(es) - {e.key};
    } else {
      assert e in es[1..];
      UnlinkIndex(es[1..], e);
      IndexHolds(es[1..], e);
      assert Unlink(es, e)[1..] == Unlink(es[1..], e);
      assert Index(Unlink(es, e)) == (Index(es[1..]) - {e.key})[es[0].key := es[0]];
    }
  }

  lemma {:induction false} UnlinkSubset<V>(es: seq<Entry<V>>, e: Entry<V>)
    ensures forall x :: x in Unlink(es, e) ==> x in es
  {
    if es != [] && es[0] != e {
      UnlinkSubset(es[1..], e);
    }
  }

  /** Moving an entry to the front changes the map in nothing. */
  lemma FrontIndex<V>(es: seq<Entry<V>>, e: Entry<V>)
    requires Keyed(es) && e in es
    ensures Keyed([e] + Unlink(es, e)) && Index([e] + Unlink(es, e)) == Index(es)
  {
    UnlinkIndex(es, e);
    IndexHolds(es, e);
    assert ([e] + Unlink(es, e))[1..] == Unlink(es, e);
    assert (Index(es) - {e.key})[e.key := e] == Index(es);
  }

  lemma PushIndex<V>(es: seq<Entry<V>>, e: Entry<V>)
    requires Keyed(es) && e.key !in Index(es)
    ensures Keyed([e] + es) && Index([e] + es) == Index(es)[e.key := e]
  {
    assert ([e] + es)[1..] == es;
  }

  lemma {:induction false} UnlinkBack<V>(es: seq<Entry<V>>)
    requires Keyed(es) && es != []
    ensures Unlink(es, es[|es| - 1]) == es[..|es| - 1]
  {
    if |es| > 1 {
      UnlinkBack(es[1..]);
      if es[0] == es[|es| - 1] { IndexHolds(es[1..], es[|es| - 1]); }
    }
  }

  lemma {:induction false} ViewAt<V>(es: seq<Entry<V>>)
    requires Keyed(es)
    ensures |View(es)| == |es|
    ensures forall i :: 0 <= i < |es| ==> View(es)[i].key in Index(es)
    ensures Distinct(View(es))
  {
    if es != [] {
      ViewAt(es[1..]);
      assert View(es)[1..] == View(es[1..]);
    }
  }

  lemma {:induction false} ViewPrefix<V>(es: seq<Entry<V>>, n: nat)
    requires n <= |es|
    ensures |View(es)| == |es| && View(es[..n]) == View(es)[..n]
  {
    if n > 0 {
      ViewPrefix(es[1..], n - 1);
      assert es[..n][1..] == es[1..][..n - 1];
    } else if es != [] {
      ViewPrefix(es[1..], 0);
    }
  }

  lemma {:induction false} ViewLookup<V>(es: seq<Entry<V>>, key: string)
    requires Keyed(es)
    ensures key !in Index(es) ==> Lookup(View(es), key) == None
    ensures key in Index(es) ==>
      var e := Index(es)[key];
      && Lookup(View(es), key) == Some(Item(key, e.value, e.expiresAt))
      && View(Unlink(es, e)) == Remove(View(es), key)
  {
    if es != [] {
      ViewLookup(es[1..], key);
      IndexFinds(es, key);
      IndexFinds(es[1..], key);
      assert View(es)[1..] == View(es[1..]);
      if key in Index(es) && es[0].key != key {
        var e := Index(es)[key];
        assert Unlink(es, e)[1..] == Unlink(es[1..], e);
      }
    }
  }

  /** Where the cleanup scan stands when it has visited the keys in `seen`. */
  function FreshSoFar<V>(c: Config, l: seq<Item<V>>, now: int, seen: set<string>): seq<Item<V>> {
    if l == [] then []
    else if c.Expired(l[0].expiresAt, now) && l[0].key in seen then FreshSoFar(c, l[1..], now, seen)
    else [l[0]] + FreshSoFar(c, l[1..], now, seen)
  }

  lemma {:induction false} ScanOne<V>(c: Config, l: seq<Item<V>>, now: int, seen: set<string>, key: string)
    requires Distinct(l) && key !in seen && Lookup(l, key).Some?
    ensures Lookup(FreshSoFar(c, l, now, seen), key) == Lookup(l, key)
    ensures FreshSoFar(c, l, now, seen + {key}) ==
      if c.Expired(Lookup(l, key).value.expiresAt, now) then Remove(FreshSoFar(c, l, now, seen), key)
      else FreshSoFar(c, l, now, seen)
  {
    if l[0].key == key {
      ScanOther(c, l[1..], now, seen, key);
    } else {
      ScanOne(c, l[1..], now, seen, key);
    }
  }

  lemma {:induction false} ScanOther<V>(c: Config, l: seq<Item<V>>, now: int, seen: set<string>, key: string)
    requires forall i :: 0 <= i < |l| ==> l[i].key != key
    ensures FreshSoFar(c, l, now, seen + {key}) == FreshSoFar(c, l, now, seen)
  {
    if l != [] { ScanOther(c, l[1..], now, seen, key); }
  }

  lemma {:induction false} ScanNone<V>(c: Config, l: seq<Item<V>>, now: int)
    ensures FreshSoFar(c, l, now, {}) == l
  {
    if l != [] { ScanNone(c, l[1..], now); }
  }

  lemma {:induction false} ScanAll<V>(c: Config, l: seq<Item<V>>, now: int, seen: set<string>)
    requires forall i :: 0 <= i < |l| ==> l[i].key in seen
    ensures FreshSoFar(c, l, now, seen) == Fresh(c, l, now)
  {
    if l != [] { ScanAll(c, l[1..], now, seen); }
  }

  class Cache<V> {
    const c: Config
    var items: map<string, Entry<V>>
    var lru: seq<Entry<V>>

    ghost predicate Valid()
      reads this
    {
      Linked(items, lru)
    }

    /** The list of items the cache stands for. */
    ghost function Contents(): seq<Item<V>>
      reads this, lru
    {
      View(lru)
    }

    constructor (ttl: int, maxSize: int)
      ensures Valid() && Contents() == [] && c == Config(ttl, maxSize) && lru == []
    {
      c := Config(ttl, maxSize);
      items, lru := map[], [];
    }

    /** What the map says about a key is what the list says. */
    lemma Consult(key: string)
      requires Valid()
      ensures key in items ==> items[key] in lru && items[key].key == key
      ensures key in items ==> Lookup(Contents(), key) == Some(Item(key, items[key].value, items[key].expiresAt))
      ensures key in items ==> View(Unlink(lru, items[key])) == Remove(Contents(), key)
      ensures key !in items ==> Lookup(Contents(), key) == None
      ensures |Contents()| == |items| == |lru|
    {
      ViewAt(lru);
      IndexFinds(lru, key);
      ViewLookup(lru, key);
    }

    method RemoveElement(e: Entry<V>)
      requires Valid() && e in lru
      modifies this
      ensures Valid() && Contents() == Remove(old(Contents()), e.key)
      ensures items == old(items) - {e.key} && lru == Unlink(old(lru), e)
      ensures forall x :: x in lru ==> x in old(lru)
    {
      IndexHolds(lru, e);
      Consult(e.key);
      UnlinkIndex(lru, e);
      UnlinkSubset(lru, e);
      lru := Unlink(lru, e);
      items := items - {e.key};
    }

    /** A hit moves to the front; an expired entry is dropped on contact. */
    method Get(key: string, now: int) returns (r: Option<V>)
      requires Valid()
      modifies this
      ensures Valid() && Contents() == Act(c, old(Contents()), Op<V>.Get(key), now)
      ensures r == Answer(c, old(Contents()), key, now)
      ensures forall x :: x in lru ==> x in old(lru)
    {
      Consult(key);
      if key !in items { return None; }
      var item := items[key];
      if c.ttl > 0 && now > item.expiresAt {
        RemoveElement(item);
        return None;
      }
      MoveToFront(item);
      return Some(item.value);
    }

    method MoveToFront(e: Entry<V>)
      requires Valid() && e in lru
      modifies this`lru
      ensures Valid() && lru == [e] + Unlink(old(lru), e)
      ensures Contents() == [Item(e.key, e.value, e.expiresAt)] + Remove(old(Contents()), e.key)
      ensures forall x :: x in lru ==> x in old(lru)
    {
      IndexHolds(lru, e);
      Consult(e.key);
      FrontIndex(lru, e);
      UnlinkSubset(lru, e);
      lru := [e] + Unlink(lru, e);
      assert lru[1..] == Unlink(old(lru), e);
    }

    /** A known key is updated in place and moved to the front; a new key may push
        out the back of the list first. */
    method Set(key: string, value: V, now: int)
      requires Valid()
      modifies this, lru
      ensures Valid() && Contents() == Act(c, old(Contents()), Op.Set(key, value), now)
      ensures forall x :: x in lru ==> x in old(lru) || fresh(x)
    {
      Consult(key);
      if key in items {
        Refresh(items[key], value, now);
      } else {
        Insert(key, value, now);
      }
    }

    method Refresh(e: Entry<V>, value: V, now: int)
      requires Valid() && e in lru
      modifies this`lru, e
      ensures Valid() && Contents() == [Item(e.key, value, c.Stamp(now))] + Remove(old(Contents()), e.key)
      ensures forall x :: x in lru ==> x in old(lru)
    {
      IndexHolds(lru, e);
      Consult(e.key);
      UnlinkIndex(lru, e);
      ghost var rest := Unlink(lru, e);
      e.value := value;
      e.expiresAt := c.Stamp(now);
      assert View(rest) == old(View(rest));
      Consult(e.key);
      MoveToFront(e);
    }

    method Insert(key: string, value: V, now: int)
      requires Valid() && key !in items
      modifies this
      ensures Valid() && Contents() == Act(c, old(Contents()), Op.Set(key, value), now)
      ensures forall x :: x in lru ==> x in old(lru) || fresh(x)
    {
      Consult(key);
      if c.maxSize > 0 && |items| >= c.maxSize {
        Evict();
      }
      PushFront(key, value, now);
    }

    method PushFront(key: string, value: V, now: int)
      requires Valid() && key !in items
      modifies this
      ensures Valid() && Contents() == [Item(key, value, c.Stamp(now))] + old(Contents())
      ensures forall x :: x in lru ==> x in old(lru) || fresh(x)
    {
      var e := new Entry(key, value, c.Stamp(now));
      PushIndex(lru, e);
      ghost var rest := lru;
      lru := [e] + lru;
      items := items[key := e];
      assert lru[1..] == rest;
    }

    method Evict()
      requires Valid() && |items| > 0
      modifies this
      ensures Valid() && lru == old(lru)[..|old(lru)| - 1]
      ensures items == old(items) - {old(lru)[|old(lru)| - 1].key}
      ensures Contents() == old(Contents())[..|old(Contents())| - 1]
    {
      IndexFinds(lru, "");
      var back := lru[|lru| - 1];
      UnlinkBack(lru);
      ViewPrefix(lru, |lru| - 1);
      RemoveElement(back);
    }

    method Delete(key: string)
      requires Valid()
      modifies this
      ensures Valid() && Contents() == Remove(old(Contents()), key)
      ensures forall x :: x in lru ==> x in old(lru)
    {
      Consult(key);
      if key in items {
        RemoveElement(items[key]);
      } else {
        RemoveAbsent(Contents(), key);
      }
    }

    method Clear()
      requires Valid()
      modifies this
      ensures Valid() && Contents() == []
    {
      items, lru := map[], [];
    }

    method Probe(key: string, now: int) returns (present: bool)
      requires Valid()
      ensures present <==> Answer(c, Contents(), key, now).Some?
    {
      Consult(key);
      if key !in items { return false; }
      if c.ttl > 0 && now > items[key].expiresAt { return false; }
      return true;
    }

    /** Scans the map in any order and drops what has expired. */
    method Cleanup(now: int)
      requires Valid()
      modifies this
      ensures Valid() && Contents() == Fresh(c, old(Contents()), now)
      ensures forall x :: x in lru ==> x in old(lru)
    {
      var unseen := items.Keys;
      ghost var all, l := items.Keys, Contents();
      ViewAt(lru);
      ScanNone(c, l, now);
      forall k | k in items ensures Lookup(l, k).Some? {
        Consult(k);
      }
      assert all - unseen == {};
      while unseen != {}
        invariant Valid() && unseen <= items.Keys && unseen <= all
        invariant Contents() == FreshSoFar(c, l, now, all - unseen)
        invariant forall x :: x in lru ==> x in old(lru)
        decreases unseen
      {
        var key :| key in unseen;
        Consult(key);
        ScanOne(c, l, now, all - unseen, key);
        assert all - (unseen - {key}) == (all - unseen) + {key};
        unseen := unseen - {key};
        if c.ttl > 0 && now > items[key].expiresAt {
          RemoveElement(items[key]);
        }
      }
      assert all - unseen == all;
      ScanAll(c, l, now, all);
    }
  }
}
