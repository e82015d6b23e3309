/** Python's `dict` with string keys: an association sequence in insertion
    order. Assigning to a present key replaces its value in place (the key
    keeps its first slot); assigning to a new key appends it. */
module Dicts {
  import opened Wrappers

  type Dict<V> = seq<(string, V)>

  function Keys<V>(d: Dict<V>): (ks: seq<string>)
    ensures |ks| == |d|
    ensures forall i :: 0 <= i < |d| ==> ks[i] == d[i].0
  {
    if d == [] then [] else [d[0].0] + Keys(d[1..])
  }

  /** `d.values()`, in insertion order. */
  function Values<V>(d: Dict<V>): (vs: seq<V>)
    ensures |vs| == |d|
    ensures forall i :: 0 <= i < |d| ==> vs[i] == d[i].1
  {
    if d == [] then [] else [d[0].1] + Values(d[1..])
  }

  /** What every dict satisfies: no key appears twice. */
  ghost predicate UniqueKeys<V>(d: Dict<V>) {
    forall i, j :: 0 <= i < j < |d| ==> d[i].0 != d[j].0
  }

  /** `d.get(k)`. */
  function Get<V>(d: Dict<V>, k: string): (r: Option<V>)
    ensures r.Some? <==> k in Keys(d)
  {
    if d == [] then None
    else if d[0].0 == k then Some(d[0].1)
    else
      assert Keys(d) == [d[0].0] + Keys(d[1..]);
      Get(d[1..], k)
  }

  /** `d[k] = v`. */
  function Put<V>(d: Dict<V>, k: string, v: V): (r: Dict<V>)
    ensures Keys(r) == if k in Keys(d) then Keys(d) else Keys(d) + [k]
    ensures k !in Keys(d) ==> r == d + [(k, v)]
  {
    if d == [] then [(k, v)]
    else if d[0].0 == k then
      assert ([(k, v)] + d[1..])[1..] == d[1..];
      [(k, v)] + d[1..]
    else
      assert Keys(d) == [d[0].0] + Keys(d[1..]);
      var rest := Put(d[1..], k, v);
      assert ([d[0]] + rest)[1..] == rest;
      assert k !in Keys(d) ==> [d[0]] + rest == d + [(k, v)] by {
        if k !in Keys(d) {
          assert [d[0]] + (d[1..] + [(k, v)]) == d + [(k, v)];
        }
      }
      [d[0]] + rest
  }

  /** The keys after `d[k] = v` are the old ones and `k`. */
  lemma PutKeys<V>(d: Dict<V>, k: string, v: V)
    ensures forall x :: x in Keys(Put(d, k, v)) <==> x in Keys(d) || x == k
  {
  }

  /** After `d[k] = v`, looking up `k` gives `v` and every other key is untouched. */
  lemma {:induction false} GetPut<V>(d: Dict<V>, k: string, v: V, k': string)
    ensures Get(Put(d, k, v), k') == if k' == k then Some(v) else Get(d, k')
  {
    if d != [] && d[0].0 != k {
      GetPut(d[1..], k, v, k');
    }
  }

  /** Assigning to a present key rewrites its slot in place; nothing moves. */
  lemma {:induction false} PutInPlace<V>(d: Dict<V>, k: string, v: V)
    requires UniqueKeys(d) && k in Keys(d)
    ensures UniqueKeys(Put(d, k, v))
    ensures |Put(d, k, v)| == |d|
    ensures forall i :: 0 <= i < |d| ==> Put(d, k, v)[i] == (if d[i].0 == k then (k, v) else d[i])
  {
    var r := Put(d, k, v);
    assert |r| == |d|;
    if d[0].0 != k {
      var rest := Put(d[1..], k, v);
      assert r == [d[0]] + rest;
      assert k in Keys(d[1..]) by {
        assert Keys(d) == [d[0].0] + Keys(d[1..]);
      }
      PutInPlace(d[1..], k, v);
      forall i | 0 < i < |d|
        ensures r[i] == (if d[i].0 == k then (k, v) else d[i])
      {
        assert r[i] == rest[i - 1];
        assert d[1..][i - 1] == d[i];
      }
    } else {
      forall i | 0 < i < |d| ensures d[i].0 != k { }
    }
    SameKeysUnique(d, r);
  }

  /** A dict whose slots carry the same keys as a dict's has no key twice either. */
  lemma SameKeysUnique<V>(d: Dict<V>, r: Dict<V>)
    requires UniqueKeys(d) && |r| == |d|
    requires forall i :: 0 <= i < |d| ==> r[i].0 == d[i].0
    ensures UniqueKeys(r)
  {
  }

  lemma UniqueKeysPut<V>(d: Dict<V>, k: string, v: V)
    requires UniqueKeys(d)
    ensures UniqueKeys(Put(d, k, v))
  {
    if k in Keys(d) {
      PutInPlace(d, k, v);
    } else {
      var r := Put(d, k, v);
      forall i, j | 0 <= i < j < |r| ensures r[i].0 != r[j].0 {
        if j == |d| { assert r[j].0 == k; assert r[i].0 == Keys(d)[i]; }
      }
    }
  }

  /** Every slot after `d[k] = v` holds either the new entry or what the
      same slot held before. */
  lemma {:induction false} PutSlots<V>(d: Dict<V>, k: string, v: V)
    ensures forall i :: 0 <= i < |Put(d, k, v)| ==> Put(d, k, v)[i] == (k, v) || (i < |d| && Put(d, k, v)[i] == d[i])
  {
    if d != [] && d[0].0 != k {
      PutSlots(d[1..], k, v);
      var r := Put(d, k, v);
      forall i | 0 < i < |r|
        ensures r[i] == (k, v) || (i < |d| && r[i] == d[i])
      {
        assert r[i] == Put(d[1..], k, v)[i - 1];
      }
    }
  }

  /** The value the LAST entry with key `k` carries, if any: a reference
      definition of "a later assignment overwrites an earlier one". */
  function LastValue<V>(entries: seq<(string, V)>, k: string): (r: Option<V>)
  {
    if entries == [] then None
    else if entries[|entries| - 1].0 == k then Some(entries[|entries| - 1].1)
    else LastValue(entries[..|entries| - 1], k)
  }

  /** `d = {}; for k, v in entries: d[k] = v`. */
  function FromSeq<V>(entries: seq<(string, V)>): (r: Dict<V>)
    ensures forall k :: k in Keys(r) <==> k in Keys(entries)
  {
    if entries == [] then []
    else
      var n := |entries| - 1;
      assert Keys(entries) == Keys(entries[..n]) + [entries[n].0];
      Put(FromSeq(entries[..n]), entries[n].0, entries[n].1)
  }

  lemma {:induction false} FromSeqUnique<V>(entries: seq<(string, V)>)
    ensures UniqueKeys(FromSeq(entries))
  {
    if entries != [] {
      var n := |entries| - 1;
      FromSeqUnique(entries[..n]);
      UniqueKeysPut(FromSeq(entries[..n]), entries[n].0, entries[n].1);
    }
  }

  /** Looking a key up in the built dict finds the value of its LAST entry. */
  lemma {:induction false} FromSeqGet<V>(entries: seq<(string, V)>, k: string)
    ensures Get(FromSeq(entries), k) == LastValue(entries, k)
  {
    if entries != [] {
      var n := |entries| - 1;
      FromSeqGet(entries[..n], k);
      GetPut(FromSeq(entries[..n]), entries[n].0, entries[n].1, k);
    }
  }

  /** Entries whose keys are already distinct go in unchanged and in order. */
  lemma {:induction false} FromSeqDistinct<V>(entries: seq<(string, V)>)
    requires UniqueKeys(entries)
    ensures FromSeq(entries) == entries
  {
    if entries != [] {
      var n := |entries| - 1;
      FromSeqDistinct(entries[..n]);
      assert entries[n].0 !in Keys(entries[..n]);
      assert entries[..n] + [entries[n]] == entries;
    }
  }

  /** Applies `f` to every value, keeping keys and order. */
  function MapValues<V, W>(d: Dict<V>, f: V -> W): (r: Dict<W>)
    ensures |r| == |d|
    ensures forall i :: 0 <= i < |d| ==> r[i] == (d[i].0, f(d[i].1))
  {
    seq(|d|, i requires 0 <= i < |d| => (d[i].0, f(d[i].1)))
  }

  /** Converting values before or after building a dict gives the same dict. */
  lemma {:induction false} MapValuesFromSeq<V, W>(entries: seq<(string, V)>, f: V -> W)
    ensures MapValues(FromSeq(entries), f) == FromSeq(MapValues(entries, f))
  {
    if entries != [] {
      var n := |entries| - 1;
      assert MapValues(entries, f)[..n] == MapValues(entries[..n], f);
      MapValuesFromSeq(entries[..n], f);
      MapValuesPut(FromSeq(entries[..n]), entries[n].0, entries[n].1, f);
    }
  }

  lemma {:induction false} MapValuesPut<V, W>(d: Dict<V>, k: string, v: V, f: V -> W)
    ensures MapValues(Put(d, k, v), f) == Put(MapValues(d, f), k, f(v))
  {
    if d != [] {
      assert d == [d[0]] + d[1..];
      MapValuesCons(d[0], d[1..], f);
      var md := MapValues(d, f);
      if d[0].0 != k {
        var rest := Put(d[1..], k, v);
        MapValuesPut(d[1..], k, v, f);
        MapValuesCons(d[0], rest, f);
        assert Put(md, k, f(v)) == [md[0]] + Put(md[1..], k, f(v));
      } else {
        MapValuesCons((k, v), d[1..], f);
      }
    }
  }

  lemma MapValuesCons<V, W>(x: (string, V), rest: Dict<V>, f: V -> W)
    ensures MapValues([x] + rest, f) == [(x.0, f(x.1))] + MapValues(rest, f)
  {
    var l, r := MapValues([x] + rest, f), [(x.0, f(x.1))] + MapValues(rest, f);
    forall i | 0 <= i < |l| ensures l[i] == r[i] {
      if i > 0 { assert ([x] + rest)[i] == rest[i - 1]; }
    }
  }

  /** Every entry of `d` satisfies `p`. */
  ghost predicate All<V>(d: Dict<V>, p: ((string, V)) -> bool) {
    forall i :: 0 <= i < |d| ==> p(d[i])
  }

  /** An assignment keeps a property every entry has, when the new entry has it too. */
  lemma {:induction false} AllPut<V>(d: Dict<V>, k: string, v: V, p: ((string, V)) -> bool)
    requires All(d, p) && p((k, v))
    ensures All(Put(d, k, v), p)
  {
    if d != [] && d[0].0 != k {
      AllPut(d[1..], k, v, p);
    }
  }

  /** A property of every entry holds of every slot of the dict built from them. */
  lemma {:induction false} FromSeqAll<V>(e: seq<(string, V)>, p: ((string, V)) -> bool)
    requires All(e, p)
    ensures All(FromSeq(e), p)
  {
    if e != [] {
      var n := |e| - 1;
      FromSeqAll(e[..n], p);
      AllPut(FromSeq(e[..n]), e[n].0, e[n].1, p);
    }
  }

  /** A value `Get` finds is stored beside its key in some slot. */
  lemma {:induction false} GetIndex<V>(d: Dict<V>, k: string) returns (i: nat)
    requires Get(d, k).Some?
    ensures i < |d| && d[i] == (k, Get(d, k).value)
  {
    if d[0].0 == k {
      i := 0;
    } else {
      var j := GetIndex(d[1..], k);
      i := j + 1;
    }
  }
}
