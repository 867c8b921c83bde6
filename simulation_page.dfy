/** src/app/assignment-simulation.js: the page that tallies how many cadets
    list each AFSC, sorts the tally from most to least listed, and keys the
    cadets and AFSCs by name before handing them to `CadetAssignment`. */
module SimulationPage {
  import opened Dicts
  import opened CadetModel
  import opened AfscModel

  // ---------------------------------------------------------------------------
  // The preference tally

  /** AFSC code -> number of cadets listing it. */
  type Counts = Dict<int>

  /** `if (prefCount[afsc]) prefCount[afsc]++; else prefCount[afsc] = 1;`: a
      missing key and a count of 0 are both falsy. */
  function Bump(t: Counts, afsc: string): Counts {
    match Get(t, afsc)
    case Some(n) => if n != 0 then Put(t, afsc, n + 1) else Put(t, afsc, 1)
    case None => Put(t, afsc, 1)
  }

  /** The inner loop: every key of one cadet's preference object, in order. */
  function BumpAll(t: Counts, keys: seq<string>): Counts {
    if keys == [] then t else Bump(BumpAll(t, keys[..|keys| - 1]), keys[|keys| - 1])
  }

  /** The tally after the outer loop has visited `cadets`. */
  function TallyOf(cadets: seq<AppCadet>): Counts {
    if cadets == [] then []
    else BumpAll(TallyOf(cadets[..|cadets| - 1]), Keys(cadets[|cadets| - 1].cadetPreferences))
  }

  /** Lines 24-34: the nested loop over the cadets and the keys of their preference objects. */
  method Tally(cadets: seq<AppCadet>) returns (prefCount: Counts)
    ensures prefCount == TallyOf(cadets)
  {
    prefCount := [];
    for i := 0 to |cadets|
      invariant prefCount == TallyOf(cadets[..i])
    {
      var keys := Keys(cadets[i].cadetPreferences);
      for j := 0 to |keys|
        invariant prefCount == BumpAll(TallyOf(cadets[..i]), keys[..j])
      {
        var afsc := keys[j];
        assert keys[..j + 1][..j] == keys[..j];
        var current := Get(prefCount, afsc);
        if current.Some? && current.value != 0 {
          prefCount := Put(prefCount, afsc, current.value + 1);
        } else {
          prefCount := Put(prefCount, afsc, 1);
        }
      }
      assert keys[..|keys|] == keys;
      assert cadets[..i + 1][..i] == cadets[..i];
    }
    assert cadets[..|cadets|] == cadets;
  }

  /** The number of cadets whose preference object has the key `afsc`. */
  function CadetsWith(cadets: seq<AppCadet>, afsc: string): nat {
    if cadets == [] then 0
    else CadetsWith(cadets[..|cadets| - 1], afsc) + if afsc in Keys(cadets[|cadets| - 1].cadetPreferences) then 1 else 0
  }

  /** Some cadet lists `afsc` exactly when the count is positive. */
  lemma {:induction false} CadetsWithPositive(cadets: seq<AppCadet>, afsc: string)
    ensures CadetsWith(cadets, afsc) > 0 <==> exists i :: 0 <= i < |cadets| && afsc in Keys(cadets[i].cadetPreferences)
  {
    if cadets != [] {
      var init := cadets[..|cadets| - 1];
      CadetsWithPositive(init, afsc);
      if exists i :: 0 <= i < |init| && afsc in Keys(init[i].cadetPreferences) {
        var i :| 0 <= i < |init| && afsc in Keys(init[i].cadetPreferences);
        assert cadets[i] == init[i];
      }
      if exists i :: 0 <= i < |cadets| && afsc in Keys(cadets[i].cadetPreferences) {
        var i :| 0 <= i < |cadets| && afsc in Keys(cadets[i].cadetPreferences);
        if i < |init| {
          assert init[i] == cadets[i];
        }
      }
    }
  }

  /** How often `afsc` occurs in `keys`. */
  function Occurrences(keys: seq<string>, afsc: string): nat {
    if keys == [] then 0 else Occurrences(keys[..|keys| - 1], afsc) + if keys[|keys| - 1] == afsc then 1 else 0
  }

  /** The count a tally holds for `afsc`, 0 when it has none. */
  function CountIn(t: Counts, afsc: string): int {
    if Get(t, afsc).Some? then Get(t, afsc).value else 0
  }

  /** The inner loop adds the key's occurrences to its count, whatever the
      count was (a falsy count becomes 1, which is 0 + 1). */
  lemma {:induction false} BumpAllCount(t: Counts, keys: seq<string>, afsc: string)
    ensures CountIn(BumpAll(t, keys), afsc) == CountIn(t, afsc) + Occurrences(keys, afsc)
  {
    if keys != [] {
      var init := keys[..|keys| - 1];
      var k := keys[|keys| - 1];
      assert BumpAll(t, keys) == Bump(BumpAll(t, init), k);
      assert Occurrences(keys, afsc) == Occurrences(init, afsc) + if k == afsc then 1 else 0;
      BumpAllCount(t, init, afsc);
      BumpCount(BumpAll(t, init), k, afsc);
    }
  }

  /** After the inner loop a key is present when it was before or was visited. */
  lemma {:induction false} BumpAllPresent(t: Counts, keys: seq<string>, afsc: string)
    ensures Get(BumpAll(t, keys), afsc).Some? <==> Get(t, afsc).Some? || Occurrences(keys, afsc) > 0
  {
    if keys != [] {
      var init := keys[..|keys| - 1];
      var k := keys[|keys| - 1];
      assert BumpAll(t, keys) == Bump(BumpAll(t, init), k);
      assert Occurrences(keys, afsc) == Occurrences(init, afsc) + if k == afsc then 1 else 0;
      BumpAllPresent(t, init, afsc);
      BumpPresent(BumpAll(t, init), k, afsc);
    }
  }

  /** One visit of `k` adds one to its count and leaves the other counts alone. */
  lemma BumpCount(t: Counts, k: string, afsc: string)
    ensures CountIn(Bump(t, k), afsc) == CountIn(t, afsc) + if k == afsc then 1 else 0
  {
    var n := CountIn(t, k);
    var v := if n != 0 then n + 1 else 1;
    assert Bump(t, k) == Put(t, k, v);
    PutGet(t, k, v);
    if k != afsc {
      assert Get(Put(t, k, v), afsc) == Get(t, afsc);
    }
  }

  /** One visit of `k` makes `k` present and leaves the other keys as they were. */
  lemma BumpPresent(t: Counts, k: string, afsc: string)
    ensures Get(Bump(t, k), afsc).Some? <==> Get(t, afsc).Some? || k == afsc
  {
    var n := CountIn(t, k);
    PutGet(t, k, if n != 0 then n + 1 else 1);
  }

  /** In a preference object a key occurs at most once. */
  lemma {:induction false} DistinctOccurrences<V>(d: Dict<V>, afsc: string)
    requires DistinctKeys(d)
    ensures Occurrences(Keys(d), afsc) == if afsc in Keys(d) then 1 else 0
  {
    if d != [] {
      var init := d[..|d| - 1];
      assert DistinctKeys(init);
      assert Keys(init) == Keys(d)[..|d| - 1];
      DistinctOccurrences(init, afsc);
      assert Keys(d) == Keys(init) + [d[|d| - 1].0];
      if d[|d| - 1].0 == afsc {
        assert afsc !in Keys(init) by {
          forall i | 0 <= i < |init| ensures Keys(init)[i] != afsc {
            assert init[i] == d[i];
          }
        }
      }
    }
  }

  /** Every cadet's preferences form a JavaScript object, so no key repeats. */
  predicate WellFormed(cadets: seq<AppCadet>) {
    forall i :: 0 <= i < |cadets| ==> DistinctKeys(cadets[i].cadetPreferences)
  }

  /** The tally counts, for every AFSC, the cadets that list it; an AFSC no
      cadet lists is absent, so every count present is at least 1. */
  lemma {:induction false} TallyCounts(cadets: seq<AppCadet>, afsc: string)
    requires WellFormed(cadets)
    ensures Get(TallyOf(cadets), afsc)
            == if CadetsWith(cadets, afsc) == 0 then None else Some(CadetsWith(cadets, afsc) as int)
  {
    if cadets != [] {
      var init := cadets[..|cadets| - 1];
      var last := cadets[|cadets| - 1].cadetPreferences;
      assert WellFormed(init) by {
        forall i | 0 <= i < |init| ensures DistinctKeys(init[i].cadetPreferences) {
          assert init[i] == cadets[i];
        }
      }
      var before := TallyOf(init);
      var after := BumpAll(before, Keys(last));
      assert TallyOf(cadets) == after;
      assert CadetsWith(cadets, afsc) == CadetsWith(init, afsc) + if afsc in Keys(last) then 1 else 0;
      TallyCounts(init, afsc);
      BumpAllCount(before, Keys(last), afsc);
      BumpAllPresent(before, Keys(last), afsc);
      DistinctOccurrences(last, afsc);
      if Get(after, afsc).Some? {
        assert Get(after, afsc) == Some(CountIn(after, afsc));
      }
    }
  }

  /** The sum of the counts of a tally. */
  function Total(t: Counts): int {
    if t == [] then 0 else t[0].1 + Total(t[1..])
  }

  lemma {:induction false} TotalPut(t: Counts, afsc: string, n: int)
    ensures Total(Put(t, afsc, n)) == Total(t) - CountIn(t, afsc) + n
  {
    if t != [] && t[0].0 != afsc {
      TotalPut(t[1..], afsc, n);
      assert Put(t, afsc, n)[1..] == Put(t[1..], afsc, n);
    } else if t != [] {
      assert Put(t, afsc, n)[1..] == t[1..];
    }
  }

  /** Each key visited adds one to the sum, whatever the count was. */
  lemma {:induction false} TotalBumpAll(t: Counts, keys: seq<string>)
    ensures Total(BumpAll(t, keys)) == Total(t) + |keys|
  {
    if keys != [] {
      var prev := BumpAll(t, keys[..|keys| - 1]);
      var k := keys[|keys| - 1];
      TotalBumpAll(t, keys[..|keys| - 1]);
      var n := CountIn(prev, k);
      TotalPut(prev, k, if n != 0 then n + 1 else 1);
    }
  }

  /** The number of preference keys of all cadets together. */
  function KeyCount(cadets: seq<AppCadet>): nat {
    if cadets == [] then 0 else KeyCount(cadets[..|cadets| - 1]) + |cadets[|cadets| - 1].cadetPreferences|
  }

  /** The counts add up to the number of preference keys across all cadets. */
  lemma {:induction false} TallyTotal(cadets: seq<AppCadet>)
    ensures Total(TallyOf(cadets)) == KeyCount(cadets)
  {
    if cadets != [] {
      var init := cadets[..|cadets| - 1];
      TallyTotal(init);
      TotalBumpAll(TallyOf(init), Keys(cadets[|cadets| - 1].cadetPreferences));
    }
  }

  /** The tally is a JavaScript object: no key is listed twice. */
  lemma {:induction false} TallyDistinct(cadets: seq<AppCadet>)
    ensures DistinctKeys(TallyOf(cadets))
  {
    if cadets != [] {
      TallyDistinct(cadets[..|cadets| - 1]);
      BumpAllDistinct(TallyOf(cadets[..|cadets| - 1]), Keys(cadets[|cadets| - 1].cadetPreferences));
    }
  }

  lemma {:induction false} BumpAllDistinct(t: Counts, keys: seq<string>)
    requires DistinctKeys(t)
    ensures DistinctKeys(BumpAll(t, keys))
  {
    if keys != [] {
      var prev := BumpAll(t, keys[..|keys| - 1]);
      var k := keys[|keys| - 1];
      BumpAllDistinct(t, keys[..|keys| - 1]);
      var n := CountIn(prev, k);
      PutDistinct(prev, k, if n != 0 then n + 1 else 1);
    }
  }

  // ---------------------------------------------------------------------------
  // Sorting the tally

  /** Counts never increase from one entry to the next. */
  predicate Descending(s: seq<(string, int)>) {
    forall i, j :: 0 <= i < j < |s| ==> s[i].1 >= s[j].1
  }

  /** `x` placed after every entry whose count is at least its own. */
  function InsertByCount(sorted: seq<(string, int)>, x: (string, int)): (r: seq<(string, int)>)
    ensures |r| == |sorted| + 1
  {
    if sorted == [] then [x]
    else if sorted[0].1 >= x.1 then [sorted[0]] + InsertByCount(sorted[1..], x)
    else [x] + sorted
  }

  /** `entries.sort((a, b) => b[1] - a[1])`: a stable sort by descending count,
      written as an insertion sort. */
  function SortByCount(entries: seq<(string, int)>): seq<(string, int)> {
    if entries == [] then []
    else InsertByCount(SortByCount(entries[..|entries| - 1]), entries[|entries| - 1])
  }

  lemma {:induction false} InsertByCountPermutes(sorted: seq<(string, int)>, x: (string, int))
    ensures multiset(InsertByCount(sorted, x)) == multiset(sorted) + multiset{x}
  {
    if sorted != [] && sorted[0].1 >= x.1 {
      InsertByCountPermutes(sorted[1..], x);
      assert sorted == [sorted[0]] + sorted[1..];
    }
  }

  /** Inserting under a bound that every entry and `x` respect keeps every
      count under it. */
  lemma {:induction false} InsertByCountBounded(sorted: seq<(string, int)>, x: (string, int), b: int)
    requires x.1 <= b
    requires forall k :: 0 <= k < |sorted| ==> sorted[k].1 <= b
    ensures forall k :: 0 <= k < |InsertByCount(sorted, x)| ==> InsertByCount(sorted, x)[k].1 <= b
  {
    if sorted != [] && sorted[0].1 >= x.1 {
      var tail := sorted[1..];
      InsertByCountBounded(tail, x, b);
      var r := InsertByCount(sorted, x);
      assert r == [sorted[0]] + InsertByCount(tail, x);
      forall k | 1 <= k < |r| ensures r[k].1 <= b {
        assert r[k] == InsertByCount(tail, x)[k - 1];
      }
    }
  }

  lemma {:induction false} InsertByCountSorted(sorted: seq<(string, int)>, x: (string, int))
    requires Descending(sorted)
    ensures Descending(InsertByCount(sorted, x))
  {
    if sorted != [] && sorted[0].1 >= x.1 {
      var tail := sorted[1..];
      var rest := InsertByCount(tail, x);
      assert Descending(tail);
      InsertByCountSorted(tail, x);
      assert forall k :: 0 <= k < |tail| ==> tail[k].1 <= sorted[0].1 by {
        forall k | 0 <= k < |tail| ensures tail[k].1 <= sorted[0].1 {
          assert tail[k] == sorted[k + 1];
        }
      }
      InsertByCountBounded(tail, x, sorted[0].1);
      var r := [sorted[0]] + rest;
      forall i, j | 0 <= i < j < |r| ensures r[i].1 >= r[j].1 {
        assert r[j] == rest[j - 1];
        if i > 0 {
          assert r[i] == rest[i - 1];
        }
      }
    }
  }

  /** The sorted entries are the tally's entries, from most listed to least listed. */
  lemma {:induction false} SortByCountSorted(entries: seq<(string, int)>)
    ensures Descending(SortByCount(entries))
    ensures multiset(SortByCount(entries)) == multiset(entries)
  {
    if entries != [] {
      var init := entries[..|entries| - 1];
      SortByCountSorted(init);
      InsertByCountSorted(SortByCount(init), entries[|entries| - 1]);
      InsertByCountPermutes(SortByCount(init), entries[|entries| - 1]);
      assert entries == init + [entries[|entries| - 1]];
    }
  }

  /** Sorting entries with distinct keys keeps the keys distinct. */
  lemma SortByCountDistinct(entries: seq<(string, int)>)
    requires DistinctKeys(entries)
    ensures DistinctKeys(SortByCount(entries))
  {
    var r := SortByCount(entries);
    SortByCountSorted(entries);
    forall i, j | 0 <= i < j < |r| ensures r[i].0 != r[j].0 {
      assert r[i] in multiset(entries) && r[j] in multiset(entries);
      var a :| 0 <= a < |entries| && entries[a] == r[i];
      var b :| 0 <= b < |entries| && entries[b] == r[j];
      if a == b {
        assert multiset(r)[r[i]] >= 2 by {
          assert r == r[..j] + r[j..];
          assert r[i] in r[..j] && r[j..][0] == r[i];
          assert multiset(r) == multiset(r[..j]) + multiset(r[j..]);
        }
        OnceInDistinct(entries, a);
      }
    }
  }

  /** In a list of entries with distinct keys every entry occurs once. */
  lemma {:induction false} OnceInDistinct(entries: seq<(string, int)>, a: nat)
    requires DistinctKeys(entries) && a < |entries|
    ensures multiset(entries)[entries[a]] == 1
  {
    var n := |entries| - 1;
    var init := entries[..n];
    assert entries == init + [entries[n]];
    assert DistinctKeys(init);
    if a < n {
      OnceInDistinct(init, a);
      assert init[a] == entries[a];
      assert entries[n] != entries[a];
    } else {
      assert entries[a] !in init by {
        forall i | 0 <= i < n ensures init[i] != entries[a] {
          assert init[i] == entries[i];
        }
      }
    }
  }

  /** The `preferenceCount` state after the effect: `{}` when there are no
      cadets, otherwise `Object.fromEntries` of the sorted tally. */
  function PreferenceCount(cadets: seq<AppCadet>): Counts {
    if |cadets| < 1 then [] else FromEntries(SortByCount(TallyOf(cadets)))
  }

  /** With no cadets the page keeps the empty object. */
  lemma NoCadetsNoCounts(cadets: seq<AppCadet>)
    requires |cadets| == 0
    ensures PreferenceCount(cadets) == []
  {
  }

  /** No cadet lists an integer-like AFSC key. Only then does a JavaScript
      object keep its keys in insertion order. */
  predicate NoIntegerLikeKeys(cadets: seq<AppCadet>) {
    forall i, k :: 0 <= i < |cadets| && 0 <= k < |cadets[i].cadetPreferences|
      ==> !IntegerLike(cadets[i].cadetPreferences[k].0)
  }

  /** The page shows every AFSC some cadet lists, with the number of cadets
      listing it, and nothing else. When no key is integer-like, the AFSCs
      come in order of descending count; otherwise JavaScript lists the
      integer-like keys first, which this model does not represent. */
  lemma PreferenceCountShown(cadets: seq<AppCadet>, afsc: string)
    requires WellFormed(cadets)
    ensures Get(PreferenceCount(cadets), afsc)
            == if CadetsWith(cadets, afsc) == 0 then None else Some(CadetsWith(cadets, afsc) as int)
    ensures NoIntegerLikeKeys(cadets) ==> Descending(PreferenceCount(cadets))
  {
    TallyCounts(cadets, afsc);
    if |cadets| >= 1 {
      var t := TallyOf(cadets);
      var sorted := SortByCount(t);
      TallyDistinct(cadets);
      SortByCountSorted(t);
      SortByCountDistinct(t);
      FromDistinctEntries(sorted);
      assert forall e :: e in sorted <==> e in t by {
        forall e ensures e in sorted <==> e in t {
          assert e in sorted <==> e in multiset(sorted);
          assert e in t <==> e in multiset(t);
        }
      }
      SameEntriesGet(sorted, t, afsc);
    }
  }

  // ---------------------------------------------------------------------------
  // RunSimulation

  /** Lines 53-60: `for (let x of xs) data[key(x)] = x;`. */
  function KeyedBy<T>(xs: seq<T>, key: T -> string): Dict<T> {
    if xs == [] then [] else Put(KeyedBy(xs[..|xs| - 1], key), key(xs[|xs| - 1]), xs[|xs| - 1])
  }

  method KeyBy<T>(xs: seq<T>, key: T -> string) returns (data: Dict<T>)
    ensures data == KeyedBy(xs, key)
  {
    data := [];
    for i := 0 to |xs|
      invariant data == KeyedBy(xs[..i], key)
    {
      assert xs[..i + 1][..i] == xs[..i];
      data := Put(data, key(xs[i]), xs[i]);
    }
    assert xs[..|xs|] == xs;
  }

  /** The last element of `xs` whose key is `k`. */
  function LastWith<T>(xs: seq<T>, key: T -> string, k: string): Option<T> {
    if xs == [] then None
    else if key(xs[|xs| - 1]) == k then Some(xs[|xs| - 1])
    else LastWith(xs[..|xs| - 1], key, k)
  }

  /** Every name reads the last element with that name: a later duplicate
      overwrites an earlier one, and a name no element has is absent. */
  lemma {:induction false} KeyedByGet<T>(xs: seq<T>, key: T -> string, k: string)
    ensures Get(KeyedBy(xs, key), k) == LastWith(xs, key, k)
  {
    if xs != [] {
      var init := xs[..|xs| - 1];
      KeyedByGet(init, key, k);
      PutGet(KeyedBy(init, key), key(xs[|xs| - 1]), xs[|xs| - 1]);
    }
  }

  /** The element found for `k` has key `k` and no later element has. */
  lemma {:induction false} LastWithIndex<T>(xs: seq<T>, key: T -> string, k: string) returns (i: nat)
    requires LastWith(xs, key, k).Some?
    ensures i < |xs| && LastWith(xs, key, k) == Some(xs[i]) && key(xs[i]) == k
    ensures forall j :: i < j < |xs| ==> key(xs[j]) != k
  {
    var n := |xs| - 1;
    if key(xs[n]) == k {
      i := n;
    } else {
      i := LastWithIndex(xs[..n], key, k);
    }
  }

  /** An element with key `k` is always found. */
  lemma {:induction false} LastWithFound<T>(xs: seq<T>, key: T -> string, i: nat)
    requires i < |xs|
    ensures LastWith(xs, key, key(xs[i])).Some?
  {
    var n := |xs| - 1;
    if i < n && key(xs[n]) != key(xs[i]) {
      LastWithFound(xs[..n], key, i);
    }
  }

  lemma {:induction false} KeyedByDistinct<T>(xs: seq<T>, key: T -> string)
    ensures DistinctKeys(KeyedBy(xs, key))
  {
    if xs != [] {
      KeyedByDistinct(xs[..|xs| - 1], key);
      PutDistinct(KeyedBy(xs[..|xs| - 1], key), key(xs[|xs| - 1]), xs[|xs| - 1]);
    }
  }

  function CadetName(c: AppCadet): string { c.name }

  function AfscCode(a: Afsc): string { a.afsc }

  /** `const deviationPenalty = -50000;` */
  const DeviationPenalty: real := -50000.0

  /** The arguments `RunSimulation` passes to `new CadetAssignment(...)`
      (the solver instance aside). */
  datatype SimulationRun = SimulationRun(cadetData: Dict<AppCadet>, afscData: Dict<Afsc>, deviationPenalty: real)

  /** `RunSimulation()`: nothing happens while the solver is still loading;
      otherwise cadets are keyed by name and AFSCs by code. */
  method RunSimulation(solverLoaded: bool, cadets: seq<AppCadet>, afscs: seq<Afsc>) returns (r: Option<SimulationRun>)
    ensures r.None? <==> !solverLoaded
    ensures r.Some? ==> r.value.cadetData == KeyedBy(cadets, CadetName)
    ensures r.Some? ==> r.value.afscData == KeyedBy(afscs, AfscCode)
    ensures r.Some? ==> r.value.deviationPenalty == -50000.0
  {
    if !solverLoaded {
      return None;
    }
    var cadetData := KeyBy(cadets, CadetName);
    var afscData := KeyBy(afscs, AfscCode);
    r := Some(SimulationRun(cadetData, afscData, DeviationPenalty));
  }
}
