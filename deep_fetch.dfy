/**
 * `dict_fetch` (kastats.py:25-32): follow a dotted key such as
 * `objectRef.resource` through nested JSON objects.
 */
module DeepFetch {
  import opened Wrappers
  import opened JsonValue

  /** Python's `s.split(".")`: the dot-free pieces between the dots, at least one. */
  function Split(s: string): (r: seq<string>)
    ensures |r| >= 1
    ensures forall i :: 0 <= i < |r| ==> '.' !in r[i]
  {
    if |s| == 0 then [""]
    else
      var rest := Split(s[1..]);
      if s[0] == '.' then [""] + rest
      else [[s[0]] + rest[0]] + rest[1..]
  }

  /** Python's `".".join(parts)`. */
  function Join(parts: seq<string>): string
    requires |parts| >= 1
    decreases |parts|
  {
    if |parts| == 1 then parts[0] else parts[0] + "." + Join(parts[1..])
  }

  /** Joining the pieces back with dots gives the dotted key again. */
  lemma {:induction false} JoinSplit(s: string)
    ensures Join(Split(s)) == s
  {
    if |s| > 0 {
      var rest := Split(s[1..]);
      JoinSplit(s[1..]);
      if s[0] == '.' {
        assert Split(s) == [""] + rest;
        assert Join(Split(s)) == "" + "." + Join(rest);
        assert s == "." + s[1..];
      } else if |rest| == 1 {
        assert Join(Split(s)) == [s[0]] + rest[0];
        assert s == [s[0]] + s[1..];
      } else {
        assert Join(rest) == rest[0] + "." + Join(rest[1..]);
        assert Join(Split(s)) == [s[0]] + rest[0] + "." + Join(rest[1..]);
        assert s == [s[0]] + s[1..];
      }
    }
  }

  /** A dot-free prefix sticks to the first piece of what follows it. */
  lemma {:induction false} SplitDotFreePrefix(w: string, t: string)
    requires '.' !in w
    ensures Split(w + t) == [w + Split(t)[0]] + Split(t)[1..]
  {
    if |w| > 0 {
      SplitDotFreePrefix(w[1..], t);
      assert (w + t)[1..] == w[1..] + t;
      assert [w[0]] + (w[1..] + Split(t)[0]) == w + Split(t)[0];
    } else {
      var st := Split(t);
      assert w + t == t && w + st[0] == st[0];
      assert [st[0]] + st[1..] == st;
    }
  }

  /** Splitting the dotted join of dot-free pieces gives the pieces back. */
  lemma {:induction false} SplitJoin(parts: seq<string>)
    requires |parts| >= 1
    requires forall i :: 0 <= i < |parts| ==> '.' !in parts[i]
    ensures Split(Join(parts)) == parts
    decreases |parts|
  {
    if |parts| == 1 {
      SplitDotFreePrefix(parts[0], "");
      assert parts[0] + "" == parts[0];
    } else {
      var j := Join(parts[1..]);
      SplitJoin(parts[1..]);
      assert Split("." + j) == [""] + Split(j) by {
        assert ("." + j)[1..] == j;
      }
      assert Join(parts) == parts[0] + ("." + j);
      SplitDotFreePrefix(parts[0], "." + j);
      assert Split("." + j)[0] == "" && Split("." + j)[1..] == parts[1..];
      assert parts[0] + "" == parts[0];
      assert parts == [parts[0]] + parts[1..];
    }
  }

  /**
   * The value reached from `h` by indexing with each segment of `path` in
   * turn, or None as soon as a step would raise (a missing key, or a value
   * that is not an object).
   */
  function Resolve(h: Json, path: seq<string>): (r: Option<Json>)
    ensures path == [] ==> r == Some(h)
    ensures path != [] && r.Some? ==> h.Obj? && path[0] in h.fields
    decreases |path|
  {
    if path == [] then Some(h)
    else
      match h
      case Obj(m) => if path[0] in m then Resolve(m[path[0]], path[1..]) else None
      case _ => None
  }

  /**
   * What `dict_fetch(initial_dict, deep_key)` returns: the value reached, or
   * Python's `None` when some step raised. A JSON null found at the end of
   * the walk is the same `None`.
   */
  function Fetch(h: Json, deepKey: string): (r: Json)
    ensures r != Null ==> Resolve(h, Split(deepKey)) == Some(r)
  {
    Resolve(h, Split(deepKey)).GetOr(Null)
  }

  /** `dict_fetch`: reassigns `h` once per segment; the bare `except` turns any failing step into `None`. */
  method DictFetch(initialDict: Json, deepKey: string) returns (r: Json)
    ensures r == Fetch(initialDict, deepKey)
  {
    var h := initialDict;
    var segments := Split(deepKey);
    for i := 0 to |segments|
      invariant Resolve(initialDict, segments) == Resolve(h, segments[i..])
    {
      var k := segments[i];
      assert segments[i..][1..] == segments[i + 1..];
      if h.Obj? && k in h.fields {
        h := h.fields[k];
      } else {
        return Null;
      }
    }
    assert segments[|segments|..] == [];
    return h;
  }

  /** Resolving `p + q` resolves `p` first and then `q` from where `p` ended. */
  lemma {:induction false} ResolveAppend(h: Json, p: seq<string>, q: seq<string>)
    ensures Resolve(h, p + q) ==
      match Resolve(h, p)
      case Some(x) => Resolve(x, q)
      case None => None
    decreases |p|
  {
    if p != [] {
      assert (p + q)[0] == p[0];
      assert (p + q)[1..] == p[1..] + q;
      if h.Obj? && p[0] in h.fields {
        ResolveAppend(h.fields[p[0]], p[1..], q);
      }
    } else {
      assert p + q == q;
    }
  }

  /**
   * `hs` lists the values visited while indexing `h` with `path`: every
   * intermediate value is an object that holds the next segment.
   */
  ghost predicate IsWalk(h: Json, path: seq<string>, hs: seq<Json>) {
    |hs| == |path| + 1 && hs[0] == h &&
    forall i :: 0 <= i < |path| ==>
      hs[i].Obj? && path[i] in hs[i].fields && hs[i].fields[path[i]] == hs[i + 1]
  }

  /** Along a complete walk, resolution ends at the walk's last value. */
  lemma {:induction false} ResolveWalk(h: Json, path: seq<string>, hs: seq<Json>)
    requires IsWalk(h, path, hs)
    ensures Resolve(h, path) == Some(hs[|path|])
    decreases |path|
  {
    if path != [] {
      assert IsWalk(hs[1], path[1..], hs[1..]) by {
        forall i | 0 <= i < |path[1..]|
          ensures hs[1..][i].Obj? && path[1..][i] in hs[1..][i].fields
            && hs[1..][i].fields[path[1..][i]] == hs[1..][i + 1]
        {
          assert hs[1..][i] == hs[i + 1] && path[1..][i] == path[i + 1];
        }
      }
      ResolveWalk(hs[1], path[1..], hs[1..]);
    }
  }

  /** Conversely, a successful resolution has a walk that ends at its value. */
  lemma {:induction false} WalkOf(h: Json, path: seq<string>) returns (hs: seq<Json>)
    requires Resolve(h, path).Some?
    ensures IsWalk(h, path, hs) && hs[|path|] == Resolve(h, path).value
    decreases |path|
  {
    if path == [] {
      hs := [h];
    } else {
      var next := h.fields[path[0]];
      var tail := WalkOf(next, path[1..]);
      hs := [h] + tail;
      forall i | 0 <= i < |path|
        ensures hs[i].Obj? && path[i] in hs[i].fields && hs[i].fields[path[i]] == hs[i + 1]
      {
        if i > 0 {
          assert hs[i] == tail[i - 1] && hs[i + 1] == tail[i] && path[i] == path[1..][i - 1];
        }
      }
    }
  }

  /**
   * When every intermediate value is an object holding the next segment of
   * `deepKey`, `dict_fetch` returns the value that indexing reaches.
   */
  lemma {:induction false} FetchFollowsWalk(h: Json, deepKey: string, hs: seq<Json>)
    requires IsWalk(h, Split(deepKey), hs)
    ensures Fetch(h, deepKey) == hs[|hs| - 1]
  {
    ResolveWalk(h, Split(deepKey), hs);
  }

  /**
   * When the walk gets as far as segment `i` and the value there is not an
   * object holding that segment (a missing key, or a list, string, number,
   * boolean or null), `dict_fetch` returns `None` rather than raising.
   */
  lemma {:induction false} FetchFailsOnBrokenWalk(h: Json, deepKey: string, hs: seq<Json>, i: nat)
    requires i < |Split(deepKey)|
    requires IsWalk(h, Split(deepKey)[..i], hs)
    requires !(hs[i].Obj? && Split(deepKey)[i] in hs[i].fields)
    ensures Fetch(h, deepKey) == Null
  {
    var path := Split(deepKey);
    ResolveWalk(h, path[..i], hs);
    assert path == path[..i] + path[i..];
    ResolveAppend(h, path[..i], path[i..]);
    assert path[i..][0] == path[i];
  }

  /**
   * `dict_fetch` gives `None` exactly when the walk fails or reaches a JSON
   * null: the caller cannot tell a present null from a missing field.
   */
  lemma NullMeansMissingOrNull(h: Json, deepKey: string)
    ensures Fetch(h, deepKey) == Null <==>
      Resolve(h, Split(deepKey)) == None || Resolve(h, Split(deepKey)) == Some(Null)
  {
  }

  /** A concrete instance: `{"user": null}` fetched at `user` and at the absent `group`. */
  lemma {:induction false} PresentNullEqualsMissing()
    ensures var ev := Obj(map["user" := Null]);
      Resolve(ev, Split("user")) == Some(Null) && Resolve(ev, Split("group")) == None &&
      Fetch(ev, "user") == Null && Fetch(ev, "group") == Null
  {
    var ev := Obj(map["user" := Null]);
    SplitJoin(["user"]);
    SplitJoin(["group"]);
    assert Split("user") == ["user"];
    assert Split("group") == ["group"];
  }
}
