/**
 * `count_by` (kastats.py:34-42): one pass over the events, counting how many
 * events give each tuple of extracted values.
 */
module CountBy {
  import opened Wrappers
  import opened JsonValue
  import opened DeepFetch
  import opened PyDict

  /** The tuple `count_by` builds for one event: `dict_fetch(ev, k)` for each `k` of `keys`, in order. */
  function Extract(ev: Json, keys: seq<string>): (t: Key)
    ensures |t| == |keys|
    ensures forall i :: 0 <= i < |keys| && t[i] != Null ==> Resolve(ev, Split(keys[i])) == Some(t[i])
  {
    seq(|keys|, i requires 0 <= i < |keys| => Fetch(ev, keys[i]))
  }

  /** The tuples of all events, in event order. */
  function Tuples(events: seq<Json>, keys: seq<string>): seq<Key> {
    seq(|events|, j requires 0 <= j < |events| => Extract(events[j], keys))
  }

  function OccCanon(ts: seq<Key>, c: seq<Json>): nat {
    if ts == [] then 0
    else OccCanon(ts[..|ts| - 1], c) + (if CanonKey(ts[|ts| - 1]) == c then 1 else 0)
  }

  /** How many tuples of `ts` are Python-equal to `k`. */
  function Occurrences(ts: seq<Key>, k: Key): nat {
    OccCanon(ts, CanonKey(k))
  }

  function FirstCanon(ts: seq<Key>, c: seq<Json>): (r: nat)
    ensures r <= |ts|
    ensures r < |ts| ==> CanonKey(ts[r]) == c
    ensures forall j :: 0 <= j < r ==> CanonKey(ts[j]) != c
  {
    if ts == [] then 0
    else
      var f := FirstCanon(ts[..|ts| - 1], c);
      if f < |ts| - 1 then f
      else if CanonKey(ts[|ts| - 1]) == c then |ts| - 1
      else |ts|
  }

  /** Index of the first tuple of `ts` that is Python-equal to `k`, or `|ts|` when there is none. */
  function FirstIndex(ts: seq<Key>, k: Key): nat {
    FirstCanon(ts, CanonKey(k))
  }

  /**
   * The dictionary `count_by` returns for the tuples `ts`: each tuple in turn
   * is stored with `result.get(comp_key, 0) + 1`.
   */
  function Tally(ts: seq<Key>): (r: Dict)
    ensures Unique(r) && |r| <= |ts|
  {
    if ts == [] then []
    else
      var d := Tally(ts[..|ts| - 1]);
      var t := ts[|ts| - 1];
      StoreUnique(d, t, Get(d, t) + 1);
      Store(d, t, Get(d, t) + 1)
  }

  /** A tuple occurs in `ts` exactly when it has a first occurrence. */
  lemma {:induction false} FirstIndexOccurs(ts: seq<Key>, c: seq<Json>)
    ensures FirstCanon(ts, c) < |ts| <==> OccCanon(ts, c) > 0
  {
    if ts != [] {
      FirstIndexOccurs(ts[..|ts| - 1], c);
    }
  }

  /**
   * `count_by` counts correctly: for every tuple, `result.get(t, 0)` is the
   * number of events whose tuple equals it, so tuples that never occur are
   * absent.
   */
  lemma {:induction false} TallyCounts(ts: seq<Key>)
    ensures forall k :: Get(Tally(ts), k) == Occurrences(ts, k)
  {
    if ts != [] {
      var p := ts[..|ts| - 1];
      var t := ts[|ts| - 1];
      TallyCounts(p);
      forall k ensures Get(Tally(ts), k) == Occurrences(ts, k) {
        GetStore(Tally(p), t, Get(Tally(p), t) + 1, k);
      }
    }
  }

  /**
   * The shape of `count_by`'s dictionary: no two keys are equal, every count
   * is at least 1, every key is the tuple of the first event that produced
   * it, and keys appear in the order in which they were first seen.
   */
  lemma {:induction false} TallyFirstSeen(ts: seq<Key>)
    ensures var d := Tally(ts);
      Unique(d) &&
      (forall i :: 0 <= i < |d| ==>
         d[i].count >= 1 && FirstIndex(ts, d[i].key) < |ts| && ts[FirstIndex(ts, d[i].key)] == d[i].key) &&
      (forall i, j :: 0 <= i < j < |d| ==> FirstIndex(ts, d[i].key) < FirstIndex(ts, d[j].key))
  {
    if ts != [] {
      var p := ts[..|ts| - 1];
      var t := ts[|ts| - 1];
      var dp := Tally(p);
      var d := Tally(ts);
      TallyFirstSeen(p);
      TallyCounts(p);
      StoreUnique(dp, t, Get(dp, t) + 1);
      forall i | 0 <= i < |dp|
        ensures FirstIndex(ts, d[i].key) == FirstIndex(p, dp[i].key) < |p|
        ensures ts[FirstIndex(ts, d[i].key)] == d[i].key
        ensures d[i].count >= 1
      {
      }
      if |d| > |dp| {
        assert Get(dp, t) == 0;
        FirstIndexOccurs(p, CanonKey(t));
        assert FirstIndex(ts, d[|dp|].key) == |p|;
      }
    }
  }

  /** The counts add up to the number of events. */
  lemma {:induction false} TallyTotal(ts: seq<Key>)
    ensures Total(Tally(ts)) == |ts|
  {
    if ts != [] {
      var p := ts[..|ts| - 1];
      var t := ts[|ts| - 1];
      TallyTotal(p);
      TotalStore(Tally(p), t, Get(Tally(p), t) + 1);
    }
  }

  /** Processing one more event stores its tuple with its count bumped by one. */
  lemma {:induction false} TallyNextEvent(events: seq<Json>, keys: seq<string>, n: nat)
    requires n < |events|
    ensures var d := Tally(Tuples(events[..n], keys)); var t := Extract(events[n], keys);
      Tally(Tuples(events[..n + 1], keys)) == Store(d, t, Get(d, t) + 1)
  {
    var ts := Tuples(events[..n + 1], keys);
    assert ts[..n] == Tuples(events[..n], keys) && ts[n] == Extract(events[n], keys);
  }

  /** The inner loop of `count_by`: appends `dict_fetch(ev, k)` for each dotted key `k`, in order. */
  method CompKey(ev: Json, keys: seq<string>) returns (compKey: Key)
    ensures compKey == Extract(ev, keys)
  {
    compKey := [];
    for i := 0 to |keys|
      invariant compKey == Extract(ev, keys[..i])
    {
      var v := DictFetch(ev, keys[i]);
      compKey := compKey + [v];
    }
    assert keys[..|keys|] == keys;
  }

  /**
   * `count_by`: builds each event's tuple with the inner loop (`CompKey`),
   * then bumps that tuple's count. A tuple holding a list or an object
   * cannot be hashed and the `TypeError` ends the call.
   */
  method CountBy(events: seq<Json>, keys: seq<string>) returns (r: Result<Dict>)
    ensures r.Ok? <==> forall j :: 0 <= j < |events| ==> HashableKey(Extract(events[j], keys))
    ensures r.Err? ==> r.error == TypeError
    ensures r.Ok? ==> r.value == Tally(Tuples(events, keys))
  {
    var result: Dict := [];
    for n := 0 to |events|
      invariant result == Tally(Tuples(events[..n], keys))
      invariant forall j :: 0 <= j < n ==> HashableKey(Extract(events[j], keys))
    {
      var compKey := CompKey(events[n], keys);
      if !HashableKey(compKey) {
        return Err(TypeError);
      }
      assert forall j :: 0 <= j < n + 1 ==> HashableKey(Extract(events[j], keys));
      TallyNextEvent(events, keys, n);
      result := Store(result, compKey, Get(result, compKey) + 1);
    }
    assert events[..|events|] == events;
    return Ok(result);
  }

  /**
   * What `count_by(events, keys)` returns, when it returns: one entry per
   * distinct tuple, whose key has one value per dotted key and is the tuple of
   * some event, whose count is the number of events giving that tuple, with
   * counts adding up to the number of events.
   */
  lemma {:induction false} CountByResult(events: seq<Json>, keys: seq<string>)
    ensures var ts := Tuples(events, keys); var d := Tally(ts);
      Unique(d) && Total(d) == |events| && (events == [] <==> d == []) &&
      (forall i :: 0 <= i < |d| ==>
         d[i].count == Occurrences(ts, d[i].key) >= 1 &&
         FirstIndex(ts, d[i].key) < |events| &&
         d[i].key == Extract(events[FirstIndex(ts, d[i].key)], keys)) &&
      (forall k :: Find(d, k).Some? <==> Occurrences(ts, k) > 0)
  {
    var ts := Tuples(events, keys);
    var d := Tally(ts);
    TallyCounts(ts);
    TallyFirstSeen(ts);
    TallyTotal(ts);
    forall i | 0 <= i < |d| ensures d[i].count == Occurrences(ts, d[i].key) {
      FindUnique(d, i);
    }
    forall k ensures Find(d, k).Some? <==> Occurrences(ts, k) > 0 {
      assert Get(d, k) == Occurrences(ts, k);
    }
  }
}
