/**
 * The Python dictionary that `count_by` fills: keys are tuples of extracted
 * values, values are counts. A Python dict remembers insertion order, which
 * `display` relies on to break ties, so it is modelled as the sequence of its
 * entries in insertion order.
 */
module PyDict {
  import opened Wrappers
  import opened JsonValue

  /** A group key: one extracted value per requested dotted key. */
  type Key = seq<Json>

  datatype Entry = Entry(key: Key, count: nat)

  /** Entries in insertion order. */
  type Dict = seq<Entry>

  /** The tuple of the representatives of a key's values under Python's `==`. */
  function CanonKey(k: Key): seq<Json> {
    seq(|k|, i requires 0 <= i < |k| => Canon(k[i]))
  }

  /** Python's `==` on hashable tuples. */
  predicate SameKey(a: Key, b: Key) {
    CanonKey(a) == CanonKey(b)
  }

  /** `hash(k)` succeeds: no element is a list or a dict. */
  predicate HashableKey(k: Key) {
    forall i :: 0 <= i < |k| ==> Hashable(k[i])
  }

  /** No two entries hold Python-equal keys. */
  predicate Unique(d: Dict) {
    forall i, j :: 0 <= i < j < |d| ==> !SameKey(d[i].key, d[j].key)
  }

  /** Position of the entry whose key has canonical form `c`. */
  function FindCanon(d: Dict, c: seq<Json>): (r: Option<nat>)
    ensures r.Some? ==> r.value < |d| && CanonKey(d[r.value].key) == c
    ensures r.None? ==> forall i :: 0 <= i < |d| ==> CanonKey(d[i].key) != c
  {
    if |d| == 0 then None
    else if CanonKey(d[0].key) == c then Some(0)
    else
      match FindCanon(d[1..], c)
      case None => None
      case Some(i) => Some(i + 1)
  }

  /** Dictionary lookup of `k`: the entry holding a key equal to `k`, if any. */
  function Find(d: Dict, k: Key): Option<nat> {
    FindCanon(d, CanonKey(k))
  }

  /** `d.get(k, 0)`: the count of the entry whose key equals `k`, or 0 when there is none; never more than the sum of all counts. */
  function Get(d: Dict, k: Key): (r: nat)
    ensures r <= Total(d)
  {
    match Find(d, k)
    case Some(i) => d[i].count
    case None => 0
  }

  /**
   * `d[k] = v`: an existing equal key keeps its place and its original key
   * object and gets the new count; otherwise the pair is appended.
   */
  function Store(d: Dict, k: Key, v: nat): (r: Dict)
    ensures |r| == |d| <==> Find(d, k).Some?
    ensures |r| == |d| || |r| == |d| + 1
    ensures forall i :: 0 <= i < |d| ==> r[i].key == d[i].key
    ensures |r| != |d| ==> r == d + [Entry(k, v)]
    ensures forall i :: 0 <= i < |d| && !SameKey(d[i].key, k) ==> r[i] == d[i]
    ensures Unique(d) ==> forall i :: 0 <= i < |r| && SameKey(r[i].key, k) ==> r[i].count == v
  {
    match Find(d, k)
    case Some(i) => d[i := Entry(d[i].key, v)]
    case None => d + [Entry(k, v)]
  }

  /** `sum(d.values())`: no single count exceeds it. */
  function Total(d: Dict): (r: nat)
    ensures forall i :: 0 <= i < |d| ==> d[i].count <= r
  {
    if d == [] then 0 else d[0].count + Total(d[1..])
  }

  /** Lookup depends only on the keys, in order. */
  lemma {:induction false} FindSameKeys(d: Dict, e: Dict, c: seq<Json>)
    requires |d| == |e|
    requires forall i :: 0 <= i < |d| ==> d[i].key == e[i].key
    ensures FindCanon(d, c) == FindCanon(e, c)
  {
    if |d| > 0 {
      FindSameKeys(d[1..], e[1..], c);
    }
  }

  /** Lookup in a dictionary with one more entry at the end. */
  lemma {:induction false} FindAppend(d: Dict, x: Entry, c: seq<Json>)
    ensures FindCanon(d + [x], c) ==
      if FindCanon(d, c).Some? then FindCanon(d, c)
      else if CanonKey(x.key) == c then Some(|d|)
      else None
  {
    if |d| > 0 {
      assert (d + [x])[1..] == d[1..] + [x];
      FindAppend(d[1..], x, c);
    } else {
      assert (d + [x])[1..] == [];
    }
  }

  /**
   * `d.get(k, 0)` is 0 when no key equals `k`; in a dictionary without
   * duplicate keys it is the count of the entry whose key equals `k`.
   */
  lemma {:induction false} GetMeaning(d: Dict, k: Key)
    ensures (forall i :: 0 <= i < |d| ==> !SameKey(d[i].key, k)) ==> Get(d, k) == 0
    ensures Unique(d) ==> forall i :: 0 <= i < |d| && SameKey(d[i].key, k) ==> Get(d, k) == d[i].count
  {
  }

  /** In a dictionary without duplicate keys, each entry is found at its own place. */
  lemma {:induction false} FindUnique(d: Dict, i: nat)
    requires Unique(d) && i < |d|
    ensures Find(d, d[i].key) == Some(i)
  {
  }

  /** After `d[k] = v`, `d.get(k2, 0)` is `v` for keys equal to `k` and unchanged for the others. */
  lemma {:induction false} GetStore(d: Dict, k: Key, v: nat, k2: Key)
    ensures Get(Store(d, k, v), k2) == if SameKey(k, k2) then v else Get(d, k2)
  {
    var c2 := CanonKey(k2);
    match Find(d, k)
    case Some(i) =>
      var e := d[i := Entry(d[i].key, v)];
      FindSameKeys(d, e, c2);
    case None =>
      FindAppend(d, Entry(k, v), c2);
  }

  /** Storing never creates two equal keys. */
  lemma {:induction false} StoreUnique(d: Dict, k: Key, v: nat)
    requires Unique(d)
    ensures Unique(Store(d, k, v))
  {
  }

  lemma {:induction false} TotalAppend(d: Dict, x: Entry)
    ensures Total(d + [x]) == Total(d) + x.count
  {
    if d != [] {
      assert (d + [x])[1..] == d[1..] + [x];
      TotalAppend(d[1..], x);
    } else {
      assert [x][1..] == [];
    }
  }

  lemma {:induction false} TotalUpdate(d: Dict, i: nat, x: Entry)
    requires i < |d|
    ensures Total(d[i := x]) + d[i].count == Total(d) + x.count
  {
    if i > 0 {
      assert d[i := x][1..] == d[1..][i - 1 := x];
      TotalUpdate(d[1..], i - 1, x);
    } else {
      assert d[i := x][1..] == d[1..];
    }
  }

  /** `d[k] = v` changes the sum of the counts by `v - d.get(k, 0)`. */
  lemma {:induction false} TotalStore(d: Dict, k: Key, v: nat)
    ensures Total(Store(d, k, v)) + Get(d, k) == Total(d) + v
  {
    match Find(d, k)
    case Some(i) => TotalUpdate(d, i, Entry(d[i].key, v));
    case None => TotalAppend(d, Entry(k, v));
  }
}
