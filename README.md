# kastats statistics core, in Dafny

`kastats.py` reads a Kubernetes audit log, one JSON event per line. It groups
the events by one or more dotted keys such as `verb` or `objectRef.resource`
and prints a table: one row per distinct group, with its count and its share
of all events, ranked by count. This project models the three parts of that
script that compute something, and proves what they promise:

- `dict_fetch` (module `DeepFetch`). It splits a dotted key on `.` and indexes
  nested JSON objects one segment at a time. Any failing step gives Python's
  `None`. `Resolve` is the reference walk and `Fetch` is what `dict_fetch`
  returns. The method `DictFetch` keeps the source's loop that reassigns `h`.
  Python's `None` is also JSON `null`, so `Fetch` returns `Null` both for a
  failed walk and for a present null. `NullMeansMissingOrNull` and
  `PresentNullEqualsMissing` state this.
- `count_by` (modules `PyDict` and `CountBy`).
  - The Python dict is modelled as its entries in insertion order, because
    `display` breaks ties by that order.
  - Keys are compared with Python's `==`, so `True == 1` and `1 == 1.0` are
    the same key.
  - `d[k] = v` keeps the first key object and its position.
  - A tuple that holds a list or an object cannot be hashed, and the
    resulting `TypeError` ends `count_by`.
  - `Tally` is the dictionary that the loop builds.
  - `CountBy` is the nested loop itself, proved equal to `Tally`.
- The table-building part of `display` (module `Display`).
  - `Rank` is Python's stable `sorted(..., reverse=True)` on the counts.
  - `RowOf` is `k + (v, percent)`, and the percent is the exact ratio
    `v / total * 100`.
  - The method `Display` builds the headers, the rows and the total.
  - A non-empty result whose counts add up to 0 raises `ZeroDivisionError`.
  - `RankedStats` ties `count_by` and `display` together. The total is the
    number of events. Rows run from the largest count down, equal counts
    keep first-seen order, and the percents add up to 100.

Events are taken as already decoded JSON values (`JsonValue.Json`).
`kastats.py` has no filter expressions, no dump mode and no row limit. A
missing field and a present JSON null both give `None`, so both land in the
same group.

## Model

| member | source | states |
|---|---|---|
| `DeepFetch.Split` | kastats.py:28 | `deep_key.split(".")` gives at least one piece, and no piece contains a dot |
| `DeepFetch.JoinSplit` | kastats.py:28 | joining the pieces of a key with "." gives the key back |
| `DeepFetch.SplitJoin` | kastats.py:28 | splitting the dotted join of dot-free pieces gives the same pieces back |
| `DeepFetch.DictFetch` | kastats.py:25-32 | the loop returns the value reached by indexing with each segment in turn, and `None` (JSON null) as soon as a step would raise; it never fails |
| `DeepFetch.Resolve` | kastats.py:26-30 | the empty path gives the event itself, and a walk that succeeds on a non-empty path starts at an object holding the first segment |
| `DeepFetch.Fetch` | kastats.py:25-32 | a result other than `None` is the value reached by indexing with every segment of the dotted key |
| `DeepFetch.ResolveAppend` | kastats.py:28-29 | indexing with a path `p + q` is indexing with `p` and then with `q` from the value reached |
| `DeepFetch.ResolveWalk` | kastats.py:26-30 | along a chain of objects that each hold the next segment, the walk ends at the chain's last value |
| `DeepFetch.WalkOf` | kastats.py:26-30 | a successful walk has such a chain of objects, ending at the value returned |
| `DeepFetch.FetchFollowsWalk` | kastats.py:26-30 | when every intermediate value is an object holding the next segment, `dict_fetch` returns the value reached |
| `DeepFetch.FetchFailsOnBrokenWalk` | kastats.py:27-32 | when a segment is missing, or an intermediate value is a list, string, number, boolean or null, `dict_fetch` returns `None` |
| `DeepFetch.NullMeansMissingOrNull` | kastats.py:29-32 | `dict_fetch` returns `None` exactly when the walk fails or reaches a present JSON null |
| `DeepFetch.PresentNullEqualsMissing` | kastats.py:29-32 | on `{"user": null}`, the present `user` and the missing `group` both give `None` |
| `PyDict.FindCanon` | kastats.py:41 | dictionary lookup finds an entry whose key is Python-equal to the one asked for, or reports that no entry has one |
| `PyDict.FindUnique` | kastats.py:41 | in a dict without duplicate keys, each entry's own key finds that entry |
| `PyDict.Get` | kastats.py:41 | `result.get(comp_key, 0)` never exceeds the sum of all counts |
| `PyDict.GetMeaning` | kastats.py:41 | `d.get(k, 0)` is 0 when no key equals `k`; in a dict without duplicate keys it is the count of the entry whose key equals `k` |
| `PyDict.Store` | kastats.py:41 | `d[k] = v` keeps every key object in its place and leaves every entry with a different key unchanged. An equal key keeps its original key object and its place and, in a dict without duplicate keys, gets the new count. Otherwise the pair is appended at the end |
| `PyDict.Total` | kastats.py:48 | `sum(results.values())` is at least every single count |
| `PyDict.GetStore` | kastats.py:41 | after `d[k] = v`, `d.get(k2, 0)` is `v` for keys equal to `k` and unchanged for every other key |
| `PyDict.TotalStore` | kastats.py:41 | `d[k] = v` changes the sum of the counts by `v - d.get(k, 0)` |
| `CountBy.Extract` | kastats.py:37-40 | the tuple has one value per dotted key, and every value other than `None` is the one reached by walking that key's segments |
| `CountBy.CompKey` | kastats.py:37-40 | the inner loop builds exactly the tuple `Extract` describes, one `dict_fetch` per key, in order |
| `CountBy.Tally` | kastats.py:35-41 | the dictionary built from the tuples has no two equal keys and at most one entry per event |
| `CountBy.TallyNextEvent` | kastats.py:36-41 | handling one more event stores its tuple with `get(comp_key, 0) + 1` in the dictionary built from the earlier events |
| `CountBy.CountBy` | kastats.py:34-42 | the nested loops return the dictionary built by bumping each event's tuple in turn. They fail with `TypeError` exactly when some event's tuple holds a list or an object |
| `CountBy.TallyCounts` | kastats.py:35-41 | for every tuple, `result.get(t, 0)` is the number of events whose tuple equals it, so tuples that never occur are absent |
| `CountBy.TallyFirstSeen` | kastats.py:35-41 | keys are pairwise distinct and every count is at least 1. Each key is the tuple of the first event that produced it, and keys are in first-seen order |
| `CountBy.TallyTotal` | kastats.py:35-42 | the counts add up to the number of events |
| `CountBy.CountByResult` | kastats.py:34-42 | one entry per distinct tuple, and an empty result exactly for no events. Each key is `dict_fetch(ev, k)` for each `k`, for some event `ev`. Each count is the number of matching events, at least 1, and the counts add up to `len(events)` |
| `Display.Rank` | kastats.py:51 | the ranking has exactly as many entries as the dictionary |
| `Display.RankPermutation` | kastats.py:51 | the ranked entries are the dictionary's entries rearranged, with the same total |
| `Display.RankTotal` | kastats.py:48-51 | ranking does not change the sum of the counts |
| `Display.RankNonIncreasing` | kastats.py:51 | ranked entries go from the largest count to the smallest |
| `Display.RankStable` | kastats.py:51 | for every count, the entries with that count keep their dictionary order (stable sort) |
| `Display.RankTiesKeepOrder` | kastats.py:51 | any measure that grows strictly along the dictionary grows along every pair of equal-count ranked entries |
| `Display.TiesInFirstSeenOrder` | kastats.py:51 | rows with equal counts come in the order in which `count_by` first met their tuples |
| `Display.Percent` | kastats.py:52 | the percent is never negative, at most 100 when the count is at most the total, and exactly 100 when the count is the total |
| `Display.RowOf` | kastats.py:53 | a row is the key's values in order, then the count, then the percent cell |
| `Display.PercentsAddUp` | kastats.py:52 | the percents of a list of entries add up to their total count times 100 divided by `total_cnt` |
| `Display.PercentsOfTotal` | kastats.py:48-52 | measured against their own total, the percents add up to exactly 100 |
| `Display.Display` | kastats.py:44-53 | `total_cnt` is the sum of the counts and the headers are the keys plus `count` and `percent`. There is one row per entry in ranked order, each the key tuple plus count and percent, with no truncation. Non-empty results with a zero total raise `ZeroDivisionError` |
| `Display.RankedStats` | kastats.py:34-53 | for the events of a log, the total is the number of events. Rows go from the largest count down, equal counts keep first-seen order, and the percents add up to 100 |
| `Display.VerbTally` | kastats.py:34-42 | for events with `verb` "get", "get", "list", `count_by` returns ("get",) with 2 and then ("list",) with 1, in first-seen order |
| `Display.VerbExample` | kastats.py:44-53 | for the same events, the total is 3 and the two rows are ("get", 2, 200/3) then ("list", 1, 100/3) |

## Left out

- `parse_logs` (kastats.py:18-23) opens a file and decodes each line with `json.loads`. That is I/O plus a foreign library, so the model starts from a sequence of decoded JSON values.
- `main` and its `click` decorators (kastats.py:57-67) only parse the command line. Only their composition of `count_by` and `display` is stated, as `Display.RankedStats`.
- `tabulate(...)` and the two `print` calls (kastats.py:54-55) are a third-party renderer and standard output. `Display.Display` returns what they would be given.
- Display.Display: the percent cell is the exact ratio `v / total * 100`. The float arithmetic and the `:.2f` text formatting are not modelled.
- JSON numbers are exact reals (`Num(n: real)`). Python's distinction between `int` and `float` only changes how a value prints. Float rounding, `NaN` and the infinities are not modelled.
- `dict_fetch`'s bare `except` also catches exceptions unrelated to indexing, such as `KeyboardInterrupt`. Only the `KeyError` and `TypeError` of a failing step are modelled.
