/** `CacheService`: the ordered dictionary every method updates in place. */
module Cache {
  import opened Bytes
  import opened CacheSpec

  class CacheService {
    var store: Store
    ghost var history: seq<Event>   // every call so far, with the clock it read

    ghost predicate Valid()
      reads this
    {
      store == Run(history) && Monotone(history)
    }

    /** `time.monotonic()` never runs backwards. */
    ghost predicate ClockReads(now: real)
      reads this
    {
      history != [] ==> history[|history| - 1].now <= now
    }

    constructor ()
      ensures Valid() && history == [] && store == []
    {
      store, history := [], [];
    }

    ghost method Record(ev: Event)
      requires Monotone(history) && ClockReads(ev.now) && store == Step(Run(history), ev)
      modifies this`history
      ensures Valid() && history == old(history) + [ev]
    {
      Extend(history, ev);
      hide Run;
      hide Step;
      history := history + [ev];
    }

    /** A hit answers the key's value and moves its entry to the young end. A miss leaves
        no entry of the key: an expired one is dropped. Every other entry stays. The value
        is the latest live one, and a live key misses exactly when crowded out. */
    method Get(key: string, now: real) returns (r: Option<Value>)
      requires Valid() && ClockReads(now)
      modifies this
      ensures Valid() && history == old(history) + [Event(now, Op.Get(key))]
      ensures r == Lookup(old(store), key, now)
      ensures forall v :: r == Some(v) <==>
        exists e :: e in old(store) && e.key == key && e.expires > now && e.value == v
      ensures r.None? ==> forall e :: e in store <==> e in old(store) && e.key != key
      ensures r.Some? ==> forall e :: e in store <==> e in old(store)
      ensures r.Some? ==> Live(old(history), key, now) && r.value == Ideal(old(history))[key].value
      ensures Live(old(history), key, now) ==> (r.None? <==> CrowdedOut(old(history), key))
      ensures r.Some? ==> store != [] && store[|store| - 1].key == key
    {
      EvictionLaw(history, key, now);
      if Live(history, key, now) {
        EvictionLawExact(history, key, now);
      }
      OneEntry(store, history, key);
      hide Run;
      hide Ideal;
      hide CrowdedOut;
      hide Monotone;
      var entry := Find(store, key);
      r := None;
      if entry.Some? {
        if entry.value.expires <= now {
          store := Without(store, key);
        } else {
          store := Without(store, key) + [entry.value];
          r := Some(entry.value.value);
        }
      }
      Record(Event(now, Op.Get(key)));
    }

    /** `popitem(last=False)` until the bound holds. */
    method PopOldest()
      modifies this`store
      ensures store == Trim(old(store))
    {
      while |store| > MAX_ENTRIES
        invariant |store| <= |old(store)| && store == old(store)[|old(store)| - |store|..]
        invariant |store| < |old(store)| ==> |store| >= MAX_ENTRIES
      {
        store := store[1..];
      }
    }

    /** Stores at the young end, then pops from the old end down to the bound. */
    method Set(key: string, value: Value, ttl: real, now: real) returns (ok: bool)
      requires Valid() && ClockReads(now)
      modifies this
      ensures Valid() && history == old(history) + [Event(now, Op.Set(key, value, ttl))]
      ensures ok && 0 < |store| <= MAX_ENTRIES && store[|store| - 1] == Entry(key, now + ttl, value)
    {
      hide Discard;
      hide Run;
      hide Monotone;
      store := Without(store, key) + [Entry(key, now + ttl, value)];
      PopOldest();
      assert store[|store| - 1] == Entry(key, now + ttl, value);
      Record(Event(now, Op.Set(key, value, ttl)));
      ok := true;
    }

    method Delete(key: string, now: real) returns (removed: bool)
      requires Valid() && ClockReads(now)
      modifies this
      ensures Valid() && history == old(history) + [Event(now, Op.Delete(key))]
      ensures removed <==> exists e :: e in old(store) && e.key == key
      ensures forall e :: e in store <==> e in old(store) && e.key != key
    {
      removed := Find(store, key).Some?;
      store := Without(store, key);
      Record(Event(now, Op.Delete(key)));
    }

    /** Collects the matching keys, then deletes them one by one. */
    method DeletePattern(matches: string -> bool, now: real) returns (count: nat)
      requires Valid() && ClockReads(now)
      modifies this
      ensures Valid() && history == old(history) + [Event(now, Op.DeletePattern(matches))]
      ensures |store| + count == |old(store)|
      ensures forall e :: e in store <==> e in old(store) && !matches(e.key)
    {
      hide Run;
      hide Monotone;
      hide Discard;
      var doomed := CollectMatching(store, matches);
      DiscardMatching(store, matches);
      MatchingCount(store, matches);
      DeleteKeys(doomed);
      count := |doomed|;
      Record(Event(now, Op.DeletePattern(matches)));
    }

    method DeleteKeys(doomed: seq<string>)
      modifies this`store
      ensures store == DiscardKeys(old(store), doomed)
    {
      for i := 0 to |doomed|
        invariant store == DiscardKeys(old(store), doomed[..i])
      {
        store := Without(store, doomed[i]);
        assert doomed[..i + 1][..i] == doomed[..i];
      }
      assert doomed[..|doomed|] == doomed;
    }

    method ClearAll(now: real) returns (ok: bool)
      requires Valid() && ClockReads(now)
      modifies this
      ensures Valid() && history == old(history) + [Event(now, Op.ClearAll)]
      ensures ok && store == []
    {
      store := [];
      Record(Event(now, Op.ClearAll));
      ok := true;
    }
  }

  lemma {:induction false} OneEntry(s: Store, h: seq<Event>, key: string)
    requires s == Run(h) && Monotone(h)
    ensures forall e :: e in s && e.key == key ==> Find(s, key) == Some(e)
  {
    InvariantHolds(h);
    OrderedDistinct(h, s);
    hide Run;
    forall e | e in s && e.key == key ensures Find(s, key) == Some(e) {
      var i :| 0 <= i < |s| && s[i] == e;
      assert Find(s, key).Some?;
      var j :| 0 <= j < |s| && s[j] == Find(s, key).value;
      assert i == j;
    }
  }

  // ---------------------------------------------------------------------
  // Deleting key by key is discarding by predicate
  // ---------------------------------------------------------------------

  function Matching(s: Store, matches: string -> bool): seq<string> {
    if s == [] then []
    else
      var init := Matching(s[..|s| - 1], matches);
      if matches(s[|s| - 1].key) then init + [s[|s| - 1].key] else init
  }

  method CollectMatching(s: Store, matches: string -> bool) returns (doomed: seq<string>)
    ensures doomed == Matching(s, matches)
  {
    doomed := [];
    for i := 0 to |s|
      invariant doomed == Matching(s[..i], matches)
    {
      assert s[..i + 1][..i] == s[..i];
      if matches(s[i].key) {
        doomed := doomed + [s[i].key];
      }
    }
    assert s[..|s|] == s;
  }

  function DiscardKeys(s: Store, keys: seq<string>): Store {
    if keys == [] then s else Without(DiscardKeys(s, keys[..|keys| - 1]), keys[|keys| - 1])
  }

  lemma {:induction false} MatchingMembers(s: Store, matches: string -> bool)
    ensures forall k :: k in Matching(s, matches) ==> matches(k)
    ensures forall e :: e in s && matches(e.key) ==> e.key in Matching(s, matches)
  {
    if s != [] {
      MatchingMembers(s[..|s| - 1], matches);
      assert s == s[..|s| - 1] + [s[|s| - 1]];
    }
  }

  lemma {:induction false} DiscardTwice(s: Store, p: string -> bool, q: string -> bool, both: string -> bool)
    requires forall k :: both(k) <==> p(k) || q(k)
    ensures Discard(Discard(s, p), q) == Discard(s, both)
  {
    if s != [] {
      DiscardTwice(s[1..], p, q, both);
    }
  }

  lemma {:induction false} DiscardKeysIs(s: Store, keys: seq<string>)
    ensures DiscardKeys(s, keys) == Discard(s, k => k in keys)
  {
    if keys == [] {
      DiscardSame(s, k => k in keys, k => false);
      DiscardNothing(s);
    } else {
      var init, last := keys[..|keys| - 1], keys[|keys| - 1];
      DiscardKeysIs(s, init);
      assert keys == init + [last];
      DiscardTwice(s, k => k in init, k => k == last, k => k in keys);
    }
  }

  lemma {:induction false} DiscardSame(s: Store, p: string -> bool, q: string -> bool)
    requires forall e :: e in s ==> p(e.key) == q(e.key)
    ensures Discard(s, p) == Discard(s, q)
  {
    if s != [] {
      DiscardSame(s[1..], p, q);
    }
  }

  lemma {:induction false} DiscardMatching(s: Store, matches: string -> bool)
    ensures DiscardKeys(s, Matching(s, matches)) == Discard(s, matches)
  {
    MatchingMembers(s, matches);
    var keys := Matching(s, matches);
    DiscardKeysIs(s, keys);
    DiscardSame(s, k => k in keys, matches);
  }

  lemma {:induction false} MatchingCount(s: Store, matches: string -> bool)
    ensures |Matching(s, matches)| + |Discard(s, matches)| == |s|
  {
    if s != [] {
      var init := s[..|s| - 1];
      MatchingCount(init, matches);
      assert s == init + [s[|s| - 1]];
      DiscardAppend(init, s[|s| - 1], matches);
    }
  }

  lemma {:induction false} DiscardAppend(s: Store, e: Entry, doomed: string -> bool)
    ensures |Discard(s + [e], doomed)| == |Discard(s, doomed)| + if doomed(e.key) then 0 else 1
  {
    if s == [] {
      assert Discard((s + [e])[1..], doomed) == [];
    } else {
      DiscardAppend(s[1..], e, doomed);
      assert (s + [e])[1..] == s[1..] + [e];
    }
  }
}
