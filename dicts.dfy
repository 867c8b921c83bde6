/** JavaScript plain objects used as dictionaries (`{}`, `obj[key] = value`,
    `Object.keys`, `Object.entries`, `Object.fromEntries`). An object is modelled
    by its entries in enumeration order; assigning to a key that is present
    replaces its value in place, assigning to a new key appends it. */
module Dicts {

  datatype Option<T> = None | Some(value: T)

  /** An object's entries, in enumeration order. */
  type Dict<V> = seq<(string, V)>

  /** `Object.keys(d)`. */
  function Keys<V>(d: Dict<V>): (ks: seq<string>)
    ensures |ks| == |d|
    ensures forall i :: 0 <= i < |d| ==> ks[i] == d[i].0
  {
    seq(|d|, i requires 0 <= i < |d| => d[i].0)
  }

  predicate AllDigits(s: string) {
    forall i :: 0 <= i < |s| ==> '0' <= s[i] <= '9'
  }

  /** The number a string of decimal digits spells. */
  function DigitsValue(s: string): nat
    requires AllDigits(s)
  {
    if s == [] then 0 else DigitsValue(s[..|s| - 1]) * 10 + (s[|s| - 1] as int - '0' as int)
  }

  /** An array-index key ("0", "1", … up to 2^32 - 2, no leading zero): a
      JavaScript object enumerates such keys first, in numeric order, ahead
      of its other keys in insertion order. */
  predicate IntegerLike(k: string) {
    && |k| >= 1 && AllDigits(k)
    && (k[0] == '0' ==> |k| == 1)
    && DigitsValue(k) < 0xFFFF_FFFF
  }

  /** Every key occurs once, as in any JavaScript object. */
  predicate DistinctKeys<V>(d: Dict<V>) {
    forall i, j :: 0 <= i < j < |d| ==> d[i].0 != d[j].0
  }

  /** `d[key]`: the value of the first entry with that key, or `None` for
      `undefined` (no such key). */
  function Get<V>(d: Dict<V>, key: string): (r: Option<V>)
    ensures r.Some? <==> key in Keys(d)
  {
    if d == [] then None
    else if d[0].0 == key then Some(d[0].1)
    else
      assert Keys(d) == [d[0].0] + Keys(d[1..]);
      Get(d[1..], key)
  }

  /** `d[key] = value`: the first entry with that key gets the new value, or
      a new entry is appended. */
  function Put<V>(d: Dict<V>, key: string, value: V): Dict<V> {
    if d == [] then [(key, value)]
    else if d[0].0 == key then [(key, value)] + d[1..]
    else [d[0]] + Put(d[1..], key, value)
  }

  /** After the assignment the key reads the new value and every other key
      reads what it read before. */
  lemma {:induction false} PutGet<V>(d: Dict<V>, key: string, value: V)
    ensures Get(Put(d, key, value), key) == Some(value)
    ensures forall k {:trigger Get(Put(d, key, value), k)} :: k != key ==> Get(Put(d, key, value), k) == Get(d, k)
  {
    var r := Put(d, key, value);
    if d != [] && d[0].0 != key {
      PutGet(d[1..], key, value);
      assert r[1..] == Put(d[1..], key, value);
    } else if d != [] {
      assert r[1..] == d[1..];
    }
  }

  /** The assignment keeps the keys and their order, and appends a key the
      object lacked. */
  lemma {:induction false} PutKeys<V>(d: Dict<V>, key: string, value: V)
    ensures Keys(Put(d, key, value)) == if key in Keys(d) then Keys(d) else Keys(d) + [key]
  {
    if d != [] {
      KeysCons(d);
      if d[0].0 == key {
        SameKeys(d, Put(d, key, value));
      } else {
        var t := Put(d[1..], key, value);
        PutKeys(d[1..], key, value);
        KeysCons([d[0]] + t);
        assert ([d[0]] + t)[1..] == t;
      }
    }
  }

  /** The assignment adds an entry exactly when the key is new. */
  lemma PutLength<V>(d: Dict<V>, key: string, value: V)
    ensures |Put(d, key, value)| == if key in Keys(d) then |d| else |d| + 1
  {
    PutKeys(d, key, value);
    assert |Keys(Put(d, key, value))| == |Put(d, key, value)|;
  }

  lemma ConsSplit<T>(s: seq<T>)
    requires s != []
    ensures s == [s[0]] + s[1..]
  {
  }

  lemma KeysCons<V>(d: Dict<V>)
    requires d != []
    ensures Keys(d) == [d[0].0] + Keys(d[1..])
  {
  }

  lemma SameKeys<V>(d: Dict<V>, r: Dict<V>)
    requires |d| == |r| && forall i :: 0 <= i < |d| ==> d[i].0 == r[i].0
    ensures Keys(d) == Keys(r)
  {
  }

  /** The assignment never gives an object two entries with the same key. */
  lemma PutDistinct<V>(d: Dict<V>, key: string, value: V)
    requires DistinctKeys(d)
    ensures DistinctKeys(Put(d, key, value))
  {
    var r := Put(d, key, value);
    PutKeys(d, key, value);
    var ks := Keys(r);
    forall i, j | 0 <= i < j < |r| ensures r[i].0 != r[j].0 {
      assert ks[i] == r[i].0 && ks[j] == r[j].0;
    }
  }

  /** In an object with distinct keys, looking up the key of entry `i` finds entry `i`. */
  lemma {:induction false} GetEntry<V>(d: Dict<V>, i: nat)
    requires DistinctKeys(d) && i < |d|
    ensures Get(d, d[i].0) == Some(d[i].1)
  {
    if i > 0 {
      assert DistinctKeys(d[1..]);
      assert d[1..][i - 1] == d[i];
      GetEntry(d[1..], i - 1);
    }
  }

  /** In an object with distinct keys, reading `v` under `k` means holding the entry `(k, v)`. */
  lemma {:induction false} GetMember<V>(d: Dict<V>, k: string, v: V)
    requires DistinctKeys(d)
    ensures Get(d, k) == Some(v) <==> (k, v) in d
  {
    if d != [] {
      assert DistinctKeys(d[1..]);
      GetMember(d[1..], k, v);
      assert d == [d[0]] + d[1..];
    }
  }

  /** Two objects with distinct keys and the same entries read alike. */
  lemma SameEntriesGet<V>(a: Dict<V>, b: Dict<V>, k: string)
    requires DistinctKeys(a) && DistinctKeys(b)
    requires forall e :: e in a <==> e in b
    ensures Get(a, k) == Get(b, k)
  {
    if Get(a, k).Some? {
      GetMember(a, k, Get(a, k).value);
      GetMember(b, k, Get(a, k).value);
    } else if Get(b, k).Some? {
      GetMember(a, k, Get(b, k).value);
      GetMember(b, k, Get(b, k).value);
    }
  }

  /** `Object.fromEntries(es)`: the entries assigned one after another. */
  function FromEntries<V>(es: seq<(string, V)>): Dict<V>
  {
    if es == [] then [] else Put(FromEntries(es[..|es| - 1]), es[|es| - 1].0, es[|es| - 1].1)
  }

  /** Entries with distinct keys are rebuilt as they are by `Object.fromEntries`. */
  lemma {:induction false} FromDistinctEntries<V>(es: seq<(string, V)>)
    requires DistinctKeys(es)
    ensures FromEntries(es) == es
  {
    if es != [] {
      var init := es[..|es| - 1];
      var last := es[|es| - 1];
      assert DistinctKeys(init);
      FromDistinctEntries(init);
      assert last.0 !in Keys(init);
      PutNewKey(init, last.0, last.1);
      assert init + [last] == es;
    }
  }

  /** Assigning to a key the object lacks appends exactly one entry. */
  lemma {:induction false} PutNewKey<V>(d: Dict<V>, key: string, value: V)
    requires key !in Keys(d)
    ensures Put(d, key, value) == d + [(key, value)]
  {
    if d != [] {
      KeysCons(d);
      PutNewKey(d[1..], key, value);
      ConsSplit(d);
    }
  }

  /** Assigning to a key the object has changes that entry's value and nothing else. */
  lemma {:induction false} PutExistingKey<V>(d: Dict<V>, key: string, value: V, i: nat)
    requires DistinctKeys(d) && i < |d| && d[i].0 == key
    ensures Put(d, key, value) == d[i := (key, value)]
  {
    if i > 0 {
      assert DistinctKeys(d[1..]);
      assert d[1..][i - 1] == d[i];
      PutExistingKey(d[1..], key, value, i - 1);
      assert d[i := (key, value)] == [d[0]] + d[1..][i - 1 := (key, value)];
    }
  }
}
