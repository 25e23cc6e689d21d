/**
 * The table-building part of `display` (kastats.py:44-55): the total, the
 * entries ranked by count, and one row per entry. Rendering the table with
 * `tabulate` and printing are not part of this model.
 */
module Display {
  import opened Wrappers
  import opened JsonValue
  import opened PyDict
  import opened CountBy

  /** Put `e` after the entries of `s` with a larger count and before all the others. */
  function Insert(e: Entry, s: Dict): (r: Dict)
    ensures |r| == |s| + 1
  {
    if s == [] || s[0].count <= e.count then [e] + s
    else [s[0]] + Insert(e, s[1..])
  }

  /**
   * `sorted(results.items(), key=lambda x: x[1], reverse=True)`: Python's
   * sort is stable, also with `reverse=True`, so this is a stable sort by
   * count, largest first (an insertion sort from the back).
   */
  function Rank(d: Dict): (r: Dict)
    ensures |r| == |d|
  {
    if d == [] then [] else Insert(d[0], Rank(d[1..]))
  }

  /** Counts never go up from one entry to a later one. */
  predicate NonIncreasing(s: Dict) {
    forall i, j :: 0 <= i < j < |s| ==> s[i].count >= s[j].count
  }

  /** The entries of `s` whose count is `c`, in their order in `s`. */
  function WithCount(s: Dict, c: nat): (r: Dict)
    ensures forall x :: x in r ==> x in s && x.count == c
  {
    if s == [] then []
    else (if s[0].count == c then [s[0]] else []) + WithCount(s[1..], c)
  }

  lemma {:induction false} InsertPermutation(e: Entry, s: Dict)
    ensures multiset(Insert(e, s)) == multiset(s) + multiset{e}
  {
    if s != [] && s[0].count > e.count {
      InsertPermutation(e, s[1..]);
      assert s == [s[0]] + s[1..];
    }
  }

  /** Inserting an entry under a bound on the counts keeps the bound. */
  lemma {:induction false} InsertBounded(e: Entry, s: Dict, m: nat)
    requires e.count <= m && forall x :: x in s ==> x.count <= m
    ensures forall x :: x in Insert(e, s) ==> x.count <= m
  {
    InsertPermutation(e, s);
    forall x | x in Insert(e, s) ensures x.count <= m {
      assert x in multiset(Insert(e, s));
    }
  }

  lemma {:induction false} InsertNonIncreasing(e: Entry, s: Dict)
    requires NonIncreasing(s)
    ensures NonIncreasing(Insert(e, s))
  {
    if s != [] && s[0].count > e.count {
      var rest := s[1..];
      InsertNonIncreasing(e, rest);
      forall x | x in rest ensures x.count <= s[0].count {
        var k :| 0 <= k < |rest| && rest[k] == x;
        assert s[k + 1] == x;
      }
      InsertBounded(e, rest, s[0].count);
      var t := Insert(e, rest);
      var r := Insert(e, s);
      assert r == [s[0]] + t;
      forall i, j | 0 <= i < j < |r| ensures r[i].count >= r[j].count {
        assert r[j] == t[j - 1];
        if i == 0 {
          assert t[j - 1] in t;
        } else {
          assert r[i] == t[i - 1];
        }
      }
    }
  }

  lemma {:induction false} InsertWithCount(e: Entry, s: Dict, c: nat)
    ensures WithCount(Insert(e, s), c) ==
      if e.count == c then [e] + WithCount(s, c) else WithCount(s, c)
  {
    if s == [] || s[0].count <= e.count {
      assert ([e] + s)[1..] == s;
    } else {
      InsertWithCount(e, s[1..], c);
      assert ([s[0]] + Insert(e, s[1..]))[1..] == Insert(e, s[1..]);
    }
  }

  lemma {:induction false} InsertTotal(e: Entry, s: Dict)
    ensures Total(Insert(e, s)) == e.count + Total(s)
  {
    if s == [] || s[0].count <= e.count {
      assert ([e] + s)[1..] == s;
    } else {
      InsertTotal(e, s[1..]);
      assert ([s[0]] + Insert(e, s[1..]))[1..] == Insert(e, s[1..]);
    }
  }

  lemma {:induction false} RankTotal(d: Dict)
    ensures Total(Rank(d)) == Total(d)
  {
    if d != [] {
      RankTotal(d[1..]);
      InsertTotal(d[0], Rank(d[1..]));
    }
  }

  /** The ranked entries are exactly the dictionary's entries, rearranged. */
  lemma {:induction false} RankPermutation(d: Dict)
    ensures multiset(Rank(d)) == multiset(d) && Total(Rank(d)) == Total(d)
  {
    RankTotal(d);
    if d != [] {
      var rest := Rank(d[1..]);
      RankPermutation(d[1..]);
      InsertPermutation(d[0], rest);
      assert Rank(d) == Insert(d[0], rest);
      calc {
        multiset(Rank(d));
        multiset(rest) + multiset{d[0]};
        multiset(d[1..]) + multiset{d[0]};
        { assert d == [d[0]] + d[1..]; }
        multiset(d);
      }
    }
  }

  /** The ranked entries go from the largest count to the smallest. */
  lemma {:induction false} RankNonIncreasing(d: Dict)
    ensures NonIncreasing(Rank(d))
  {
    if d != [] {
      RankNonIncreasing(d[1..]);
      InsertNonIncreasing(d[0], Rank(d[1..]));
    }
  }

  /**
   * The sort is stable: for every count, the entries with that count come
   * out in the order they had in the dictionary.
   */
  lemma {:induction false} RankStable(d: Dict)
    ensures forall c :: WithCount(Rank(d), c) == WithCount(d, c)
  {
    if d != [] {
      RankStable(d[1..]);
      forall c ensures WithCount(Rank(d), c) == WithCount(d, c) {
        InsertWithCount(d[0], Rank(d[1..]), c);
      }
    }
  }

  lemma {:induction false} WithCountAppend(a: Dict, b: Dict, c: nat)
    ensures WithCount(a + b, c) == WithCount(a, c) + WithCount(b, c)
  {
    if a != [] {
      WithCountAppend(a[1..], b, c);
      assert (a + b)[0] == a[0] && (a + b)[1..] == a[1..] + b;
      var h := if a[0].count == c then [a[0]] else [];
      calc {
        WithCount(a + b, c);
        h + WithCount(a[1..] + b, c);
        h + (WithCount(a[1..], c) + WithCount(b, c));
        (h + WithCount(a[1..], c)) + WithCount(b, c);
        WithCount(a, c) + WithCount(b, c);
      }
    } else {
      assert a + b == b;
    }
  }

  /** Entry `i` of `s`, when its count is `c`, sits at position `|WithCount(s[..i], c)|` of `WithCount(s, c)`. */
  lemma {:induction false} WithCountAt(s: Dict, c: nat, i: nat)
    requires i < |s| && s[i].count == c
    ensures |WithCount(s[..i], c)| < |WithCount(s, c)|
    ensures WithCount(s, c)[|WithCount(s[..i], c)|] == s[i]
  {
    assert s == s[..i] + s[i..];
    WithCountAppend(s[..i], s[i..], c);
    assert WithCount(s[i..], c)[0] == s[i] by {
      assert s[i..][0] == s[i];
    }
  }

  /** Of two entries with count `c`, the earlier one comes earlier in `WithCount(s, c)`. */
  lemma {:induction false} WithCountOrder(s: Dict, c: nat, i: nat, j: nat)
    requires i < j <= |s| && s[i].count == c
    ensures |WithCount(s[..i], c)| < |WithCount(s[..j], c)|
  {
    assert s[..j] == s[..i] + s[i..j];
    WithCountAppend(s[..i], s[i..j], c);
    assert s[i..j] == [s[i]] + s[i + 1..j];
  }

  /** The measure `f` grows strictly from each entry of `s` to every later one. */
  ghost predicate IncreasingBy(s: Dict, f: Entry -> int) {
    forall i, j :: 0 <= i < j < |s| ==> f(s[i]) < f(s[j])
  }

  /** Among entries with equal counts, `f` grows strictly from each to every later one. */
  ghost predicate TiesOrderedBy(s: Dict, f: Entry -> int) {
    forall i, j :: 0 <= i < j < |s| && s[i].count == s[j].count ==> f(s[i]) < f(s[j])
  }

  /** Under a strictly increasing measure, the first entry is below every entry kept from the rest. */
  lemma {:induction false} WithCountAfterHead(s: Dict, c: nat, f: Entry -> int)
    requires s != [] && IncreasingBy(s, f)
    ensures var rest := WithCount(s[1..], c);
      forall j :: 0 <= j < |rest| ==> f(s[0]) < f(rest[j])
  {
    var rest := WithCount(s[1..], c);
    forall j | 0 <= j < |rest| ensures f(s[0]) < f(rest[j]) {
      assert rest[j] in rest;
      var k :| 0 <= k < |s[1..]| && s[1..][k] == rest[j];
      assert s[k + 1] == rest[j];
    }
  }

  /** Keeping only some entries keeps a strictly increasing measure strictly increasing. */
  lemma {:induction false} WithCountIncreasing(s: Dict, c: nat, f: Entry -> int)
    requires IncreasingBy(s, f)
    ensures IncreasingBy(WithCount(s, c), f)
  {
    if s != [] {
      var w := WithCount(s, c);
      var rest := WithCount(s[1..], c);
      WithCountIncreasing(s[1..], c, f);
      WithCountAfterHead(s, c, f);
      if s[0].count == c {
        assert w == [s[0]] + rest;
        forall i, j | 0 <= i < j < |w| ensures f(w[i]) < f(w[j]) {
          assert w[j] == rest[j - 1];
          if i > 0 {
            assert w[i] == rest[i - 1];
          }
        }
      } else {
        assert w == rest;
      }
    }
  }

  /**
   * Ties keep insertion order: when a measure `f` grows strictly along the
   * dictionary, it grows along every pair of ranked entries with equal counts.
   */
  lemma {:induction false} RankTiesKeepOrder(d: Dict, f: Entry -> int)
    requires IncreasingBy(d, f)
    ensures TiesOrderedBy(Rank(d), f)
  {
    var r := Rank(d);
    RankStable(d);
    forall i, j | 0 <= i < j < |r| && r[i].count == r[j].count ensures f(r[i]) < f(r[j]) {
      var c := r[i].count;
      WithCountAt(r, c, i);
      WithCountAt(r, c, j);
      WithCountOrder(r, c, i, j);
      WithCountIncreasing(d, c, f);
      assert WithCount(r, c) == WithCount(d, c);
    }
  }

  /** The percent column: `v / total_cnt * 100`, as an exact ratio. */
  function Percent(count: nat, total: nat): (r: real)
    requires total > 0
    ensures 0.0 <= r
    ensures count <= total ==> r <= 100.0
    ensures count == total ==> r == 100.0
  {
    count as real / total as real * 100.0
  }

  /** One cell of the table: a key value, the count, or the percent. */
  datatype Cell = Value(v: Json) | Count(n: nat) | Ratio(p: real)

  /** `k + (v, percent)`: the key tuple followed by the count and the percent. */
  function RowOf(e: Entry, total: nat): (r: seq<Cell>)
    requires total > 0
    ensures |r| == |e.key| + 2
    ensures forall i :: 0 <= i < |e.key| ==> r[i] == Value(e.key[i])
    ensures r[|e.key|] == Count(e.count) && r[|e.key| + 1].Ratio?
  {
    seq(|e.key|, i requires 0 <= i < |e.key| => Value(e.key[i])) + [Count(e.count), Ratio(Percent(e.count, total))]
  }

  /** What `display` hands to `tabulate` and prints after it. */
  datatype Report = Report(headers: seq<string>, table: seq<seq<Cell>>, total: nat)

  /** The percents of the entries of `s` added up. */
  function PercentSum(s: Dict, total: nat): real
    requires total > 0
  {
    if s == [] then 0.0 else Percent(s[0].count, total) + PercentSum(s[1..], total)
  }

  /** The percents of the entries of `s` add up to the percent of their total count. */
  lemma {:induction false} PercentsAddUp(s: Dict, total: nat)
    requires total > 0
    ensures PercentSum(s, total) == Total(s) as real * 100.0 / total as real
  {
    if s != [] {
      PercentsAddUp(s[1..], total);
      AddPercents(s[0].count as real, Total(s[1..]) as real, total as real);
    }
  }

  /** Two percents of the same total add up like their counts. */
  lemma AddPercents(a: real, b: real, t: real)
    requires t > 0.0
    ensures a / t * 100.0 + b * 100.0 / t == (a + b) * 100.0 / t
  {
    calc {
      a / t * 100.0 + b * 100.0 / t;
      a * 100.0 / t + b * 100.0 / t;
      (a * 100.0 + b * 100.0) / t;
      (a + b) * 100.0 / t;
    }
  }

  /** Measured against their own total, the percents of the entries add up to 100. */
  lemma {:induction false} PercentsOfTotal(s: Dict)
    requires Total(s) > 0
    ensures PercentSum(s, Total(s)) == 100.0
  {
    var n := Total(s);
    PercentsAddUp(s, n);
    assert n as real * 100.0 / n as real == 100.0;
  }

  /**
   * `display`: the total, the headers and one row per entry in ranked order.
   * A non-empty result whose counts add up to 0 makes `v / total_cnt` raise.
   */
  method Display(results: Dict, keysT: seq<string>) returns (r: Result<Report>)
    ensures r.Err? <==> results != [] && Total(results) == 0
    ensures r.Err? ==> r.error == ZeroDivisionError
    ensures r.Ok? ==> r.value.total == Total(results) && r.value.headers == keysT + ["count", "percent"]
    ensures r.Ok? ==> |r.value.table| == |results|
    ensures r.Ok? ==> forall i :: 0 <= i < |results| ==>
      Total(results) > 0 && r.value.table[i] == RowOf(Rank(results)[i], Total(results))
  {
    var total := Total(results);
    var headers := keysT + ["count", "percent"];
    var table: seq<seq<Cell>> := [];
    var ranked := Rank(results);
    RankPermutation(results);
    for i := 0 to |ranked|
      invariant |table| == i
      invariant forall m :: 0 <= m < i ==> total > 0 && table[m] == RowOf(ranked[m], total)
    {
      if total == 0 {
        return Err(ZeroDivisionError);
      }
      var e := ranked[i];
      var percent := e.count as real / total as real * 100.0;
      table := table + [seq(|e.key|, j requires 0 <= j < |e.key| => Value(e.key[j])) + [Count(e.count), Ratio(percent)]];
    }
    return Ok(Report(headers, table, total));
  }

  /**
   * Rows with equal counts come in the order in which `count_by` first met
   * their tuples.
   */
  lemma {:induction false} TiesInFirstSeenOrder(ts: seq<Key>)
    ensures var r := Rank(Tally(ts));
      forall i, j :: 0 <= i < j < |r| && r[i].count == r[j].count ==>
        FirstIndex(ts, r[i].key) < FirstIndex(ts, r[j].key)
  {
    var d := Tally(ts);
    var r := Rank(d);
    var f := (e: Entry) => FirstIndex(ts, e.key);
    TallyFirstSeen(ts);
    assert IncreasingBy(d, f) by {
      forall i, j | 0 <= i < j < |d| ensures f(d[i]) < f(d[j]) {
        assert FirstIndex(ts, d[i].key) < FirstIndex(ts, d[j].key);
      }
    }
    RankTiesKeepOrder(d, f);
    forall i, j | 0 <= i < j < |r| && r[i].count == r[j].count
      ensures FirstIndex(ts, r[i].key) < FirstIndex(ts, r[j].key)
    {
      assert TiesOrderedBy(r, f);
      assert f(r[i]) < f(r[j]);
    }
  }

  /**
   * The statistics that kastats.py reports for `events` grouped by `keys`:
   * the total is the number of events, there is one row per distinct tuple,
   * rows go from the largest count down, equal counts keep the order in which
   * their tuples were first seen, and the percents add up to 100.
   */
  lemma {:induction false} RankedStats(events: seq<Json>, keys: seq<string>)
    ensures var ts := Tuples(events, keys); var d := Tally(ts); var r := Rank(d);
      Total(d) == |events| && (d != [] ==> Total(d) > 0) &&
      |r| == |d| && multiset(r) == multiset(d) && NonIncreasing(r) &&
      (forall i, j :: 0 <= i < j < |r| && r[i].count == r[j].count ==>
         FirstIndex(ts, r[i].key) < FirstIndex(ts, r[j].key)) &&
      (events != [] ==> PercentSum(r, |events|) == 100.0)
  {
    var ts := Tuples(events, keys);
    var d := Tally(ts);
    var r := Rank(d);
    TallyTotal(ts);
    if events == [] {
      assert ts == [];
    }
    RankPermutation(d);
    RankNonIncreasing(d);
    TiesInFirstSeenOrder(ts);
    if events != [] {
      PercentsOfTotal(r);
    }
  }

  /** The tuples of the three events of the example below. */
  lemma {:induction false} VerbTuples()
    ensures var get := Obj(map["verb" := Str("get")]);
      var list := Obj(map["verb" := Str("list")]);
      Tuples([get, get, list], ["verb"]) == [[Str("get")], [Str("get")], [Str("list")]]
  {
    var get := Obj(map["verb" := Str("get")]);
    var list := Obj(map["verb" := Str("list")]);
    DeepFetch.SplitJoin(["verb"]);
    assert DeepFetch.Split("verb") == ["verb"];
    assert DeepFetch.Fetch(get, "verb") == Str("get");
    assert DeepFetch.Fetch(list, "verb") == Str("list");
    assert Extract(get, ["verb"]) == [Str("get")] && Extract(list, ["verb"]) == [Str("list")];
  }

  /** The three events of the example below, grouped by `verb`, in event order. */
  lemma {:induction false} VerbTally()
    ensures var get := Obj(map["verb" := Str("get")]);
      var list := Obj(map["verb" := Str("list")]);
      Tally(Tuples([get, get, list], ["verb"])) == [Entry([Str("get")], 2), Entry([Str("list")], 1)]
  {
    VerbTuples();
    var g := [Str("get")];
    var l := [Str("list")];
    var ts := [g, g, l];
    assert CanonKey(g) == g && CanonKey(l) == l;
    assert ts[..2] == [g, g] && [g, g][..1] == [g] && [g][..0] == [];
    var d1 := Tally([g]);
    assert Tally([g][..0]) == [];
    assert Get([], g) == 0;
    assert d1 == [Entry(g, 1)];
    var d2 := Tally([g, g]);
    assert Find(d1, g) == Some(0);
    assert d2 == [Entry(g, 2)];
    assert Find(d2, l) == None;
  }

  /** The example's dictionary is already in ranked order and counts 3 events. */
  lemma {:induction false} VerbRanked()
    ensures var d := [Entry([Str("get")], 2), Entry([Str("list")], 1)];
      Rank(d) == d && Total(d) == 3
  {
    var l := Entry([Str("list")], 1);
    var d := [Entry([Str("get")], 2), l];
    assert d[1..] == [l] && [l][1..] == [];
    assert Total([l]) == 1;
    assert Rank([l]) == [l];
  }

  /**
   * Three events whose `verb` is "get", "get" and "list", grouped by `verb`:
   * the total is 3 and the rows are ("get", 2, 200/3) then ("list", 1, 100/3).
   */
  lemma {:induction false} VerbExample()
    ensures var get := Obj(map["verb" := Str("get")]);
      var list := Obj(map["verb" := Str("list")]);
      var d := Tally(Tuples([get, get, list], ["verb"]));
      Total(d) == 3 && |Rank(d)| == 2 &&
      RowOf(Rank(d)[0], 3) == [Value(Str("get")), Count(2), Ratio(200.0 / 3.0)] &&
      RowOf(Rank(d)[1], 3) == [Value(Str("list")), Count(1), Ratio(100.0 / 3.0)]
  {
    VerbTally();
    VerbRanked();
    var g := Entry([Str("get")], 2);
    var l := Entry([Str("list")], 1);
    assert Percent(2, 3) == 200.0 / 3.0 && Percent(1, 3) == 100.0 / 3.0;
    assert RowOf(g, 3) == [Value(Str("get")), Count(2), Ratio(200.0 / 3.0)];
    assert RowOf(l, 3) == [Value(Str("list")), Count(1), Ratio(100.0 / 3.0)];
  }
}
