/** The in-process cache as a function of its history of calls, next to the plain
    unbounded TTL map it stands in for. */
module CacheSpec {
  import opened Bytes
  import opened Ordering

  const MAX_ENTRIES: nat := 2048

  /** Values are stored by reference, never copied. */
  type Value = int

  datatype Entry = Entry(key: string, expires: real, value: Value)

  /** The OrderedDict, oldest entry first. */
  type Store = seq<Entry>

  function Find(s: Store, key: string): (r: Option<Entry>)
    ensures r.Some? ==> r.value in s && r.value.key == key
    ensures r.None? ==> forall e :: e in s ==> e.key != key
  {
    if s == [] then None
    else if s[0].key == key then Some(s[0])
    else Find(s[1..], key)
  }

  function Discard(s: Store, doomed: string -> bool): (r: Store)
    ensures |r| <= |s|
    ensures forall e :: e in r <==> e in s && !doomed(e.key)
  {
    if s == [] then []
    else
      var rest := Discard(s[1..], doomed);
      assert forall e :: e in s <==> e == s[0] || e in s[1..];
      if doomed(s[0].key) then rest else [s[0]] + rest
  }

  function Without(s: Store, key: string): Store {
    Discard(s, k => k == key)
  }

  /** `popitem(last=False)` until the bound holds. */
  function Trim(s: Store): Store {
    if |s| > MAX_ENTRIES then s[|s| - MAX_ENTRIES..] else s
  }

  datatype Op =
    | Get(key: string)
    | Set(key: string, value: Value, ttl: real)
    | Delete(key: string)
    | DeletePattern(matches: string -> bool)
    | ClearAll

  datatype Event = Event(now: real, op: Op)

  /** What `get` answers. */
  function Lookup(s: Store, key: string, now: real): Option<Value> {
    match Find(s, key)
    case None => None
    case Some(e) => if e.expires <= now then None else Some(e.value)
  }

  function Step(s: Store, ev: Event): Store {
    match ev.op
    case Get(key) =>
      (match Find(s, key)
       case None => s
       case Some(e) => if e.expires <= ev.now then Without(s, key) else Without(s, key) + [e])
    case Set(key, value, ttl) => Trim(Without(s, key) + [Entry(key, ev.now + ttl, value)])
    case Delete(key) => Without(s, key)
    case DeletePattern(matches) => Discard(s, matches)
    case ClearAll => []
  }

  /** The store after a history of calls. */
  function Run(h: seq<Event>): Store {
    if h == [] then [] else Step(Run(h[..|h| - 1]), h[|h| - 1])
  }

  /** The reference: an unbounded map, where an entry past its time is dead. */
  datatype Timed = Timed(expires: real, value: Value)

  function Ideal(h: seq<Event>): map<string, Timed> {
    if h == [] then map[]
    else
      var m, ev := Ideal(h[..|h| - 1]), h[|h| - 1];
      match ev.op
      case Get(_) => m
      case Set(key, value, ttl) => m[key := Timed(ev.now + ttl, value)]
      case Delete(key) => m - {key}
      case DeletePattern(matches) => map k | k in m && !matches(k) :: m[k]
      case ClearAll => map[]
  }

  predicate Live(h: seq<Event>, key: string, now: real) {
    key in Ideal(h) && Ideal(h)[key].expires > now
  }

  ghost predicate Monotone(h: seq<Event>) {
    forall i, j :: 0 <= i < j < |h| ==> h[i].now <= h[j].now
  }

  /** Call `i` set `key`, or asked for it and hit. */
  predicate Touches(h: seq<Event>, i: nat, key: string)
    requires i < |h|
  {
    match h[i].op
    case Set(k, _, _) => k == key
    case Get(k) => k == key && Lookup(Run(h[..i]), key, h[i].now).Some?
    case _ => false
  }

  /** Index of the last call that touched `key`, or -1. */
  function LastTouch(h: seq<Event>, key: string): (t: int)
    ensures -1 <= t < |h|
  {
    if h == [] then -1
    else if Touches(h, |h| - 1, key) then |h| - 1
    else LastTouch(h[..|h| - 1], key)
  }

  /** Call `i` takes `key` out: it deletes it, or asks for it after its time. */
  predicate Removes(h: seq<Event>, i: nat, key: string)
    requires i < |h|
  {
    match h[i].op
    case Get(k) => k == key && key in Ideal(h[..i]) && Ideal(h[..i])[key].expires <= h[i].now
    case Set(_, _, _) => false
    case Delete(k) => k == key
    case DeletePattern(matches) => matches(key)
    case ClearAll => true
  }

  /** No call after `j`, up to and including call `i`, takes `w` out. */
  ghost predicate Unremoved(h: seq<Event>, j: int, i: int, w: string) {
    forall m: nat :: j < m <= i && m < |h| ==> !Removes(h, m, w)
  }

  /** `w` was touched after `key`'s last touch, by call `i`, and not taken out since. */
  ghost predicate Outlives(h: seq<Event>, key: string, i: int, w: string) {
    exists j :: LastTouch(h, key) < j <= i && j < |h| && Touches(h, j, w) && Unremoved(h, j, i, w)
  }

  /** By the time of some `set`, call `i`, a full cache's worth of distinct other
      keys had each been set or hit after `key`'s last touch, and not taken out. */
  ghost predicate Crowd(h: seq<Event>, key: string, i: int, others: set<string>) {
    LastTouch(h, key) < i < |h| && h[i].op.Set? && key !in others && |others| >= MAX_ENTRIES &&
    forall w :: w in others ==> Outlives(h, key, i, w)
  }

  ghost predicate CrowdedOut(h: seq<Event>, key: string) {
    exists i, others :: Crowd(h, key, i, others)
  }

  // ---------------------------------------------------------------------
  // What every history keeps
  // ---------------------------------------------------------------------

  ghost predicate OrderedByTouch(h: seq<Event>, s: Store) {
    (forall i :: 0 <= i < |s| ==> LastTouch(h, s[i].key) >= 0) &&
    forall i, j :: 0 <= i < j < |s| ==> LastTouch(h, s[i].key) < LastTouch(h, s[j].key)
  }

  ghost predicate AgreesWithIdeal(h: seq<Event>, s: Store) {
    forall e :: e in s ==> e.key in Ideal(h) && Ideal(h)[e.key] == Timed(e.expires, e.value)
  }

  ghost predicate Explained(h: seq<Event>, key: string)
    requires key in Ideal(h)
  {
    (h != [] && Ideal(h)[key].expires <= h[|h| - 1].now) || CrowdedOut(h, key)
  }

  ghost predicate MissingExplained(h: seq<Event>) {
    forall k :: k in Ideal(h) && Find(Run(h), k).None? ==> Explained(h, k)
  }

  ghost predicate Invariant(h: seq<Event>) {
    |Run(h)| <= MAX_ENTRIES && OrderedByTouch(h, Run(h)) && AgreesWithIdeal(h, Run(h)) && MissingExplained(h)
  }

  /** What is stored has not been taken out since its last touch. */
  ghost predicate Stands(h: seq<Event>) {
    forall e :: e in Run(h) ==> Unremoved(h, LastTouch(h, e.key), |h| - 1, e.key)
  }

  lemma {:induction false} OrderedDistinct(h: seq<Event>, s: Store)
    requires OrderedByTouch(h, s)
    ensures forall i, j :: 0 <= i < j < |s| ==> s[i].key != s[j].key
  {
  }

  lemma {:induction false} OrderedTail(h: seq<Event>, s: Store)
    requires s != [] && OrderedByTouch(h, s)
    ensures LastTouch(h, s[0].key) >= 0 && OrderedByTouch(h, s[1..])
    ensures forall e :: e in s[1..] ==> LastTouch(h, s[0].key) < LastTouch(h, e.key)
  {
  }

  lemma {:induction false} OrderedCons(h: seq<Event>, e: Entry, s: Store)
    requires LastTouch(h, e.key) >= 0 && OrderedByTouch(h, s)
    requires forall x :: x in s ==> LastTouch(h, e.key) < LastTouch(h, x.key)
    ensures OrderedByTouch(h, [e] + s)
  {
  }

  lemma {:induction false} DiscardKeepsOrder(h: seq<Event>, s: Store, doomed: string -> bool)
    requires OrderedByTouch(h, s)
    ensures OrderedByTouch(h, Discard(s, doomed))
  {
    hide OrderedByTouch;
    if s != [] {
      OrderedTail(h, s);
      DiscardKeepsOrder(h, s[1..], doomed);
      if !doomed(s[0].key) {
        OrderedCons(h, s[0], Discard(s[1..], doomed));
      }
    }
  }

  lemma {:induction false} TouchesPrefix(h: seq<Event>, ev: Event, i: nat, key: string)
    requires i < |h|
    ensures Touches(h + [ev], i, key) == Touches(h, i, key)
  {
    assert (h + [ev])[..i] == h[..i];
  }

  lemma {:induction false} LastTouchTouches(h: seq<Event>, key: string)
    requires LastTouch(h, key) >= 0
    ensures Touches(h, LastTouch(h, key), key)
  {
    if !Touches(h, |h| - 1, key) {
      LastTouchTouches(h[..|h| - 1], key);
      assert h == h[..|h| - 1] + [h[|h| - 1]];
      TouchesPrefix(h[..|h| - 1], h[|h| - 1], LastTouch(h, key), key);
    }
  }

  /** Adding a call that does not touch `key` leaves its last touch where it was. */
  lemma {:induction false} Extend(h: seq<Event>, ev: Event)
    ensures Run(h + [ev]) == Step(Run(h), ev)
    ensures forall k :: LastTouch(h + [ev], k) == if Touches(h + [ev], |h|, k) then |h| else LastTouch(h, k)
    ensures forall k :: Touches(h + [ev], |h|, k) <==>
      (ev.op.Set? && ev.op.key == k) || (ev.op.Get? && ev.op.key == k && Lookup(Run(h), k, ev.now).Some?)
  {
    assert (h + [ev])[..|h|] == h;
  }

  lemma {:induction false} RemovesPrefix(h: seq<Event>, ev: Event, i: nat, key: string)
    requires i < |h|
    ensures Removes(h + [ev], i, key) == Removes(h, i, key)
  {
    assert (h + [ev])[..i] == h[..i];
  }

  lemma {:induction false} UnremovedPrefix(h: seq<Event>, ev: Event, j: int, i: int, w: string)
    requires i < |h|
    ensures Unremoved(h + [ev], j, i, w) == Unremoved(h, j, i, w)
  {
    forall m: nat | m < |h| ensures Removes(h + [ev], m, w) == Removes(h, m, w) {
      RemovesPrefix(h, ev, m, w);
    }
    hide Removes;
  }

  /** Being crowded out is permanent until the key is touched again. */
  lemma {:induction false} CrowdedOutPersists(h: seq<Event>, ev: Event, key: string)
    requires CrowdedOut(h, key) && !Touches(h + [ev], |h|, key)
    ensures CrowdedOut(h + [ev], key)
  {
    Extend(h, ev);
    hide Touches;
    hide Unremoved;
    hide LastTouch;
    var i, others :| Crowd(h, key, i, others);
    forall w | w in others ensures Outlives(h + [ev], key, i, w) {
      var j :| LastTouch(h, key) < j <= i && j < |h| && Touches(h, j, w) && Unremoved(h, j, i, w);
      TouchesPrefix(h, ev, j, w);
      UnremovedPrefix(h, ev, j, i, w);
    }
    assert Crowd(h + [ev], key, i, others);
  }

  lemma {:induction false} ExplainedPersists(h: seq<Event>, ev: Event, key: string)
    requires key in Ideal(h) && Explained(h, key)
    requires key in Ideal(h + [ev]) && Ideal(h + [ev])[key] == Ideal(h)[key]
    requires Monotone(h + [ev]) && !Touches(h + [ev], |h|, key)
    ensures Explained(h + [ev], key)
  {
    if CrowdedOut(h, key) {
      CrowdedOutPersists(h, ev, key);
    } else {
      assert (h + [ev])[|h| - 1].now <= (h + [ev])[|h|].now;
    }
  }

  /** Entries that survive a call untouched stay in the order of their last touch. */
  lemma {:induction false} SurvivorsOrdered(h: seq<Event>, ev: Event, doomed: string -> bool)
    requires OrderedByTouch(h, Run(h))
    requires forall e :: e in Run(h) && !doomed(e.key) ==> !Touches(h + [ev], |h|, e.key)
    ensures OrderedByTouch(h + [ev], Discard(Run(h), doomed))
    ensures forall e :: e in Discard(Run(h), doomed) ==> LastTouch(h + [ev], e.key) < |h|
  {
    Extend(h, ev);
    var r := Discard(Run(h), doomed);
    DiscardKeepsOrder(h, Run(h), doomed);
    forall e | e in r ensures LastTouch(h + [ev], e.key) == LastTouch(h, e.key) {
      assert e in Run(h) && !doomed(e.key);
    }
    forall i | 0 <= i < |r| ensures LastTouch(h + [ev], r[i].key) == LastTouch(h, r[i].key) {
      assert r[i] in r;
    }
  }

  lemma {:induction false} NewestLast(h: seq<Event>, r: Store, e: Entry)
    requires OrderedByTouch(h, r)
    requires forall x :: x in r ==> LastTouch(h, x.key) < LastTouch(h, e.key)
    requires LastTouch(h, e.key) >= 0
    ensures OrderedByTouch(h, r + [e])
  {
    forall i, j | 0 <= i < j < |r + [e]|
      ensures LastTouch(h, (r + [e])[i].key) < LastTouch(h, (r + [e])[j].key)
    {
      assert (r + [e])[i] in r;
    }
  }

  // ---------------------------------------------------------------------
  // The invariant, call by call
  // ---------------------------------------------------------------------

  lemma {:induction false} KeySetSize(s: Store)
    requires forall i, j :: 0 <= i < j < |s| ==> s[i].key != s[j].key
    ensures |set e | e in s :: e.key| == |s|
  {
    if s != [] {
      KeySetSize(s[1..]);
      assert (set e | e in s :: e.key) == {s[0].key} + (set e | e in s[1..] :: e.key);
      assert s[0].key !in (set e | e in s[1..] :: e.key);
    }
  }

  lemma {:induction false} RemovalKeeps(h: seq<Event>, ev: Event, doomed: string -> bool)
    requires Invariant(h) && Monotone(h + [ev])
    requires Step(Run(h), ev) == Discard(Run(h), doomed)
    requires forall k :: !Touches(h + [ev], |h|, k)
    requires forall k :: k in Ideal(h + [ev]) ==> k in Ideal(h) && Ideal(h + [ev])[k] == Ideal(h)[k]
    requires forall k :: k in Ideal(h) && !doomed(k) ==> k in Ideal(h + [ev])
    requires forall k :: k in Ideal(h + [ev]) && doomed(k) && Find(Run(h), k).Some? ==> Ideal(h)[k].expires <= ev.now
    ensures Invariant(h + [ev])
  {
    Extend(h, ev);
    SurvivorsOrdered(h, ev, doomed);
    forall k | k in Ideal(h + [ev]) && Find(Run(h + [ev]), k).None? ensures Explained(h + [ev], k) {
      if Find(Run(h), k).None? {
        ExplainedPersists(h, ev, k);
      } else {
        assert Find(Run(h), k).value in Run(h);
      }
    }
  }

  lemma {:induction false} HitKeeps(h: seq<Event>, ev: Event)
    requires Invariant(h) && Monotone(h + [ev])
    requires ev.op.Get? && Lookup(Run(h), ev.op.key, ev.now).Some?
    ensures Invariant(h + [ev])
  {
    Extend(h, ev);
    var key := ev.op.key;
    var e := Find(Run(h), key).value;
    var r := Without(Run(h), key);
    assert (h + [ev])[..|h|] == h;
    SurvivorsOrdered(h, ev, k => k == key);
    NewestLast(h + [ev], r, e);
    WithoutShrinks(Run(h), e);
    forall k | k in Ideal(h + [ev]) && Find(Run(h + [ev]), k).None? ensures Explained(h + [ev], k) {
      assert e in r + [e];
      assert forall x :: x in Run(h) && x.key != key ==> x in r + [e];
      ExplainedPersists(h, ev, k);
    }
  }

  lemma {:induction false} WithoutShrinks(s: Store, e: Entry)
    requires e in s
    ensures |Without(s, e.key)| < |s|
  {
    if s[0].key != e.key {
      WithoutShrinks(s[1..], e);
    }
  }

  /** The entries after storing `ev.op.key`, before the bound is enforced. */
  function Stored(s: Store, ev: Event): Store
    requires ev.op.Set?
  {
    Without(s, ev.op.key) + [Entry(ev.op.key, ev.now + ev.op.ttl, ev.op.value)]
  }

  lemma {:induction false} StoredOrdered(h: seq<Event>, ev: Event)
    requires |Run(h)| <= MAX_ENTRIES && OrderedByTouch(h, Run(h)) && ev.op.Set?
    ensures OrderedByTouch(h + [ev], Stored(Run(h), ev))
    ensures Run(h + [ev]) == Trim(Stored(Run(h), ev)) && |Stored(Run(h), ev)| <= MAX_ENTRIES + 1
    ensures OrderedByTouch(h + [ev], Run(h + [ev])) && |Run(h + [ev])| <= MAX_ENTRIES
  {
    Extend(h, ev);
    SurvivorsOrdered(h, ev, k => k == ev.op.key);
    var r := Without(Run(h), ev.op.key);
    NewestLast(h + [ev], r, Entry(ev.op.key, ev.now + ev.op.ttl, ev.op.value));
  }

  lemma {:induction false} StoredMembers(s: Store, ev: Event)
    requires ev.op.Set? && |s| <= MAX_ENTRIES
    ensures forall x :: x in Trim(Stored(s, ev)) ==> x in Stored(s, ev)
    ensures forall x :: x in s && x.key != ev.op.key ==> x in Stored(s, ev)
    ensures Entry(ev.op.key, ev.now + ev.op.ttl, ev.op.value) in Trim(Stored(s, ev))
  {
    var t := Stored(s, ev);
    assert Trim(t)[|Trim(t)| - 1] == t[|t| - 1];
  }

  /** Storing a key: the oldest entry goes if the cache was full of others. */
  lemma {:induction false} SetKeeps(h: seq<Event>, ev: Event)
    requires Invariant(h) && Monotone(h + [ev])
    requires ev.op.Set? && Stands(h)
    ensures Invariant(h + [ev])
  {
    hide Run;
    hide Ideal;
    hide OrderedByTouch;
    hide MissingExplained;
    StoredOrdered(h, ev);
    SetAgrees(h, ev);
    SetExplained(h, ev);
  }

  lemma {:induction false} SetAgrees(h: seq<Event>, ev: Event)
    requires |Run(h)| <= MAX_ENTRIES && AgreesWithIdeal(h, Run(h)) && ev.op.Set?
    requires Run(h + [ev]) == Trim(Stored(Run(h), ev))
    ensures AgreesWithIdeal(h + [ev], Run(h + [ev]))
  {
    hide Run;
    assert (h + [ev])[..|h|] == h;
    StoredMembers(Run(h), ev);
    hide Trim;
    assert Ideal(h + [ev]) == Ideal(h)[ev.op.key := Timed(ev.now + ev.op.ttl, ev.op.value)];
  }

  lemma {:induction false} SetExplained(h: seq<Event>, ev: Event)
    requires Invariant(h) && Monotone(h + [ev])
    requires ev.op.Set? && Stands(h)
    ensures MissingExplained(h + [ev])
  {
    Extend(h, ev);
    StoredOrdered(h, ev);
    StoredMembers(Run(h), ev);
    StandsStep(h, ev);
    var h', t := h + [ev], Stored(Run(h), ev);
    assert h'[..|h|] == h;
    forall k | k in Ideal(h') && Find(Run(h'), k).None? ensures Explained(h', k) {
      if Find(Run(h), k).None? {
        ExplainedPersists(h, ev, k);
      } else {
        hide Run;
        var x := Find(Run(h), k).value;
        EvictedIsCrowdedOut(h, ev, t, x);
      }
    }
  }

  lemma {:induction false} PoppedIsFirst(t: Store, x: Entry)
    requires x in t && x !in Trim(t) && |t| <= MAX_ENTRIES + 1
    ensures |t| == MAX_ENTRIES + 1 && t[0] == x && Trim(t) == t[1..]
  {
    assert Trim(t) == t[1..];
    var p :| 0 <= p < |t| && t[p] == x;
    assert forall q :: 0 < q < |t| ==> t[1..][q - 1] == t[q] && t[q] in Trim(t);
  }

  lemma {:induction false} TouchedAt(h: seq<Event>, key: string, w: string)
    requires LastTouch(h, key) < LastTouch(h, w) && Unremoved(h, LastTouch(h, w), |h| - 1, w)
    ensures Outlives(h, key, |h| - 1, w)
  {
    LastTouchTouches(h, w);
    hide Touches;
    hide Unremoved;
  }

  lemma {:induction false} KeyMember(s: Store, w: string) returns (e: Entry)
    requires w in set e | e in s :: e.key
    ensures e in s && e.key == w
  {
    e :| e in s && e.key == w;
  }

  lemma {:induction false} EvictedIsCrowdedOut(h: seq<Event>, ev: Event, t: Store, x: Entry)
    requires ev.op.Set? && OrderedByTouch(h + [ev], t) && Stands(h + [ev]) && Run(h + [ev]) == Trim(t)
    requires x in t && x !in Trim(t) && |t| <= MAX_ENTRIES + 1
    ensures CrowdedOut(h + [ev], x.key)
  {
    PoppedIsFirst(t, x);
    var h', rest := h + [ev], t[1..];
    OrderedTail(h', t);
    OrderedDistinct(h', rest);
    KeySetSize(rest);
    hide OrderedByTouch;
    hide LastTouch;
    hide Run;
    hide Trim;
    hide Unremoved;
    hide Outlives;
    var others := set e | e in rest :: e.key;
    forall w | w in others ensures Outlives(h', x.key, |h|, w) && w != x.key {
      var e := KeyMember(rest, w);
      TouchedAt(h', x.key, w);
    }
    assert Crowd(h', x.key, |h|, others);
  }

  /** What is stored after a call that did not touch it was stored before, and the call
      does not take it out. */
  lemma {:induction false} StepMembers(h: seq<Event>, ev: Event, e: Entry)
    requires AgreesWithIdeal(h, Run(h)) && e in Run(h + [ev]) && !Touches(h + [ev], |h|, e.key)
    ensures e in Run(h) && !Removes(h + [ev], |h|, e.key)
  {
    Extend(h, ev);
    assert (h + [ev])[..|h|] == h;
    hide Run;
    hide Ideal;
  }

  lemma {:induction false} StandsStep(h: seq<Event>, ev: Event)
    requires AgreesWithIdeal(h, Run(h)) && Stands(h)
    ensures Stands(h + [ev])
  {
    Extend(h, ev);
    var h' := h + [ev];
    forall e | e in Run(h') ensures Unremoved(h', LastTouch(h', e.key), |h|, e.key) {
      if !Touches(h', |h|, e.key) {
        StepMembers(h, ev, e);
        UnremovedPrefix(h, ev, LastTouch(h, e.key), |h| - 1, e.key);
        UnremovedLater(h', LastTouch(h, e.key), e.key);
      }
    }
  }

  lemma {:induction false} UnremovedLater(h: seq<Event>, j: int, w: string)
    requires h != [] && Unremoved(h, j, |h| - 2, w) && !Removes(h, |h| - 1, w)
    ensures Unremoved(h, j, |h| - 1, w)
  {
    hide Removes;
  }

  lemma {:induction false} StepKeeps(h: seq<Event>, ev: Event)
    requires Invariant(h) && Monotone(h + [ev]) && Stands(h)
    ensures Invariant(h + [ev])
  {
    Extend(h, ev);
    assert (h + [ev])[..|h|] == h;
    match ev.op
    case Get(key) =>
      if Lookup(Run(h), key, ev.now).Some? {
        HitKeeps(h, ev);
      } else if Find(Run(h), key).None? {
        DiscardNothing(Run(h));
        RemovalKeeps(h, ev, k => false);
      } else {
        assert Find(Run(h), key).value in Run(h);
        RemovalKeeps(h, ev, k => k == key);
      }
    case Set(_, _, _) => SetKeeps(h, ev);
    case Delete(key) => RemovalKeeps(h, ev, k => k == key);
    case DeletePattern(matches) => RemovalKeeps(h, ev, matches);
    case ClearAll =>
      DiscardEverything(Run(h));
      RemovalKeeps(h, ev, k => true);
  }

  lemma {:induction false} DiscardNothing(s: Store)
    ensures Discard(s, k => false) == s
  {
    if s != [] {
      DiscardNothing(s[1..]);
    }
  }

  lemma {:induction false} DiscardEverything(s: Store)
    ensures Discard(s, k => true) == []
  {
    if s != [] {
      DiscardEverything(s[1..]);
    }
  }

  lemma {:induction false} InvariantHolds(h: seq<Event>)
    requires Monotone(h)
    ensures Invariant(h) && Stands(h)
  {
    if h != [] {
      var before, ev := h[..|h| - 1], h[|h| - 1];
      assert before + [ev] == h;
      InvariantHolds(before);
      StepKeeps(before, ev);
      StandsStep(before, ev);
    }
  }

  // ---------------------------------------------------------------------
  // What a caller may rely on
  // ---------------------------------------------------------------------

  /** The cache agrees with the unbounded TTL map up to eviction: a hit is the
      latest live value, never an expired, deleted or overwritten one; a live key
      misses only if it was crowded out since it was last set or hit; and the
      store stays within its bound. */
  lemma {:induction false} EvictionLaw(h: seq<Event>, key: string, now: real)
    requires Monotone(h) && (h != [] ==> h[|h| - 1].now <= now)
    ensures |Run(h)| <= MAX_ENTRIES
    ensures Lookup(Run(h), key, now).Some? ==>
      Live(h, key, now) && Lookup(Run(h), key, now).value == Ideal(h)[key].value
    ensures Live(h, key, now) && Lookup(Run(h), key, now).None? ==> CrowdedOut(h, key)
  {
    InvariantHolds(h);
    var found := Find(Run(h), key);
    if found.Some? {
      assert found.value in Run(h);
    }
  }

  lemma {:induction false} StaysFrom(h: seq<Event>, n: nat)
    requires n <= |h| && Monotone(h)
    ensures Monotone(h[..n])
  {
  }

  /** A stored key was there ever since its last touch. */
  lemma {:induction false} PresentSince(h: seq<Event>, n: nat, key: string)
    requires Monotone(h) && n <= |h| && Find(Run(h), key).Some? && LastTouch(h, key) < n
    ensures Find(Run(h[..n]), key).Some? && LastTouch(h[..n], key) == LastTouch(h, key)
    decreases |h|
  {
    if n == |h| {
      assert h[..n] == h;
    } else {
      var before, ev := h[..|h| - 1], h[|h| - 1];
      assert before + [ev] == h && before[..n] == h[..n];
      hide *;
      StaysFrom(h, |h| - 1);
      InvariantHolds(before);
      InvariantParts(before);
      PresentBefore(before, ev, n, key);
      PresentSince(before, n, key);
    }
  }

  lemma {:induction false} PresentBefore(h: seq<Event>, ev: Event, n: nat, key: string)
    requires AgreesWithIdeal(h, Run(h)) && Find(Run(h + [ev]), key).Some? && LastTouch(h + [ev], key) < n <= |h|
    ensures Find(Run(h), key).Some? && LastTouch(h, key) == LastTouch(h + [ev], key)
  {
    Extend(h, ev);
    StepMembers(h, ev, Find(Run(h + [ev]), key).value);
    hide Run;
    hide Touches;
    hide LastTouch;
  }

  lemma {:induction false} TouchedPresent(h: seq<Event>, ev: Event, w: string)
    requires Touches(h + [ev], |h|, w)
    ensures Find(Run(h + [ev]), w).Some?
  {
    Extend(h, ev);
    hide Run;
    var s' := Step(Run(h), ev);
    assert s' != [] && s'[|s'| - 1].key == w;
    assert s'[|s'| - 1] in s';
  }

  lemma {:induction false} StepSpares(h: seq<Event>, ev: Event, w: string)
    requires AgreesWithIdeal(h, Run(h)) && Find(Run(h), w).Some? && !ev.op.Set?
    requires !Touches(h + [ev], |h|, w) && !Removes(h + [ev], |h|, w)
    ensures Find(Run(h + [ev]), w).Some?
  {
    Extend(h, ev);
    assert (h + [ev])[..|h|] == h;
    var e := Find(Run(h), w).value;
    assert e in Run(h);
    hide Run;
    hide Ideal;
    assert e in Step(Run(h), ev);
  }

  /** A `set` pops nothing younger than a key that stays. */
  lemma {:induction false} SetSpares(h: seq<Event>, ev: Event, key: string, w: string)
    requires ev.op.Set? && |Run(h)| <= MAX_ENTRIES && OrderedByTouch(h, Run(h))
    requires Find(Run(h), w).Some? && w != ev.op.key && Find(Run(h + [ev]), key).Some?
    requires LastTouch(h + [ev], key) < LastTouch(h + [ev], w)
    ensures Find(Run(h + [ev]), w).Some?
  {
    var t, x := Stored(Run(h), ev), Find(Run(h), w).value;
    StoredOrdered(h, ev);
    StoredMembers(Run(h), ev);
    assert x in Run(h) && x in t;
    var y := Find(Run(h + [ev]), key).value;
    assert y in Trim(t);
    if x !in Trim(t) {
      PoppedIsOldest(h + [ev], t, x, y);
    }
    hide Run;
  }

  lemma {:induction false} PoppedIsOldest(h: seq<Event>, t: Store, x: Entry, y: Entry)
    requires OrderedByTouch(h, t) && |t| <= MAX_ENTRIES + 1
    requires x in t && x !in Trim(t) && y in Trim(t)
    ensures LastTouch(h, x.key) < LastTouch(h, y.key)
  {
    PoppedIsFirst(t, x);
    OrderedTail(h, t);
  }

  /** Behind a stored key, what was touched later and not taken out is stored too. */
  lemma {:induction false} StaysBehind(h: seq<Event>, key: string, w: string, j: nat)
    requires Monotone(h) && Find(Run(h), key).Some? && LastTouch(h, key) < j < |h|
    requires Touches(h, j, w) && Unremoved(h, j, |h| - 1, w)
    ensures Find(Run(h), w).Some?
    decreases |h|
  {
    var before, ev := h[..|h| - 1], h[|h| - 1];
    assert before + [ev] == h;
    if Touches(h, |h| - 1, w) {
      hide *;
      TouchedPresent(before, ev, w);
    } else {
      LastTouchIsLast(h, j, w);
      assert j < |h| - 1 && !Removes(h, |h| - 1, w);
      hide *;
      PresentSince(h, |h| - 1, key);
      StaysFrom(h, |h| - 1);
      InvariantHolds(before);
      InvariantParts(before);
      TouchesPrefix(before, ev, j, w);
      UnremovedPrefix(before, ev, j, |h| - 2, w);
      UnremovedShorter(h, j, w);
      StaysBehind(before, key, w, j);
      if ev.op.Set? {
        SetTouches(before, ev, w);
        SetSpares(before, ev, key, w);
      } else {
        StepSpares(before, ev, w);
      }
    }
  }

  lemma {:induction false} UnremovedShorter(h: seq<Event>, j: int, w: string)
    requires Unremoved(h, j, |h| - 1, w)
    ensures Unremoved(h, j, |h| - 2, w)
  {
    hide Removes;
  }

  lemma {:induction false} InvariantParts(h: seq<Event>)
    requires Invariant(h)
    ensures |Run(h)| <= MAX_ENTRIES && OrderedByTouch(h, Run(h)) && AgreesWithIdeal(h, Run(h))
  {
    hide Run;
    hide OrderedByTouch;
    hide AgreesWithIdeal;
    hide MissingExplained;
  }

  lemma {:induction false} SetTouches(h: seq<Event>, ev: Event, w: string)
    requires ev.op.Set? && !Touches(h + [ev], |h|, w)
    ensures w != ev.op.key
  {
  }

  lemma {:induction false} LastTouchIsLast(h: seq<Event>, j: nat, w: string)
    requires j < |h| && Touches(h, j, w)
    ensures LastTouch(h, w) >= j
  {
    if !Touches(h, |h| - 1, w) {
      var before := h[..|h| - 1];
      assert before + [h[|h| - 1]] == h;
      TouchesPrefix(before, h[|h| - 1], j, w);
      LastTouchIsLast(before, j, w);
    }
  }

  lemma {:induction false} OutlivesPrefix(h: seq<Event>, key: string, i: nat, w: string) returns (j: nat)
    requires i < |h| && Outlives(h, key, i, w) && LastTouch(h[..i + 1], key) == LastTouch(h, key)
    ensures LastTouch(h[..i + 1], key) < j <= i && Touches(h[..i + 1], j, w) && Unremoved(h[..i + 1], j, i, w)
  {
    var g := h[..i + 1];
    assert LastTouch(h, key) >= -1;
    j :| LastTouch(h, key) < j <= i && j < |h| && Touches(h, j, w) && Unremoved(h, j, i, w);
    assert g[..j] == h[..j];
    forall m: nat | m < |g| ensures Removes(g, m, w) == Removes(h, m, w) {
      assert g[..m] == h[..m];
    }
    hide Removes;
    hide LastTouch;
  }

  /** A crowd after a stored key's last touch would all be stored with it. */
  lemma {:induction false} CrowdTooSmall(h: seq<Event>, key: string, i: nat, others: set<string>)
    requires Monotone(h) && Find(Run(h), key).Some? && LastTouch(h, key) < i < |h|
    requires key !in others && forall w :: w in others ==> Outlives(h, key, i, w)
    ensures |others| < MAX_ENTRIES
  {
    var g := h[..i + 1];
    PresentSince(h, i + 1, key);
    StaysFrom(h, i + 1);
    InvariantHolds(g);
    OrderedDistinct(g, Run(g));
    KeySetSize(Run(g));
    hide Run;
    hide LastTouch;
    hide Touches;
    hide Unremoved;
    hide OrderedByTouch;
    var keys := set e | e in Run(g) :: e.key;
    assert Find(Run(g), key).value.key in keys;
    forall w | w in others ensures w in keys - {key} {
      var j := OutlivesPrefix(h, key, i, w);
      StaysBehind(g, key, w, j);
      assert Find(Run(g), w).value.key in keys;
    }
    SubsetSize(others, keys - {key});
  }

  /** Over every history the law is exact: a live key misses if and only if it was
      crowded out. What was deleted, or met after its time, makes no crowd. */
  lemma {:induction false} EvictionLawExact(h: seq<Event>, key: string, now: real)
    requires Monotone(h) && (h != [] ==> h[|h| - 1].now <= now)
    requires Live(h, key, now)
    ensures Lookup(Run(h), key, now).None? <==> CrowdedOut(h, key)
  {
    EvictionLaw(h, key, now);
    InvariantHolds(h);
    if Find(Run(h), key).Some? {
      assert Find(Run(h), key).value in Run(h);
      forall i, others ensures !Crowd(h, key, i, others) {
        if LastTouch(h, key) < i < |h| && key !in others && forall w :: w in others ==> Outlives(h, key, i, w) {
          CrowdTooSmall(h, key, i, others);
        }
      }
    }
  }
}
