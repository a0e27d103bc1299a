/**
 * `transform_dict`: regroup a table keyed by histories of length L into a table
 * keyed by their length-(L - 1) prefixes, each entry of which maps the last
 * component of the original key to the original entry.
 */
module Regroup {
  import opened Tables

  /** `key[:-1]`. */
  function Prefix(k: History): (p: History)
    requires |k| > 0
    ensures |p| == |k| - 1
  {
    k[..|k| - 1]
  }

  /** `key[-1]`. */
  function Last(k: History): (l: real)
    requires |k| > 0
    ensures l in k
  {
    k[|k| - 1]
  }

  lemma PrefixLast(k: History)
    requires |k| > 0
    ensures Prefix(k) + [Last(k)] == k
  {
  }

  lemma PrefixLastOf(o: History, i: real)
    ensures Prefix(o + [i]) == o && Last(o + [i]) == i
  {
    assert (o + [i])[..|o|] == o;
  }

  /** A table regrouped by its last key component. */
  type Grouped = Dict<History, Dict<real, Conts>>

  /** The outer dictionary and every inner dictionary are well formed. */
  ghost predicate ValidGrouped(g: Grouped) {
    g.Valid() && forall o :: o in g.vals ==> g.vals[o].Valid()
  }

  ghost predicate NonEmptyKeys(ks: seq<History>) {
    forall k :: k in ks ==> |k| > 0
  }

  /** The distinct prefixes of the keys `ks`, in the order of their first appearance. */
  function Outers(ks: seq<History>): (r: seq<History>)
    requires NonEmptyKeys(ks)
    ensures Distinct(r)
    ensures forall o :: o in r <==> exists k :: k in ks && Prefix(k) == o
  {
    if ks == [] then []
    else
      var init := ks[..|ks| - 1];
      var p := Prefix(ks[|ks| - 1]);
      assert forall k :: k in ks <==> k in init || k == ks[|ks| - 1];
      var o := Outers(init);
      if p in o then o else o + [p]
  }

  /** The last components of those keys of `ks` whose prefix is `o`, in order. */
  function Lasts(ks: seq<History>, o: History): (r: seq<real>)
    requires NonEmptyKeys(ks)
    ensures forall i :: i in r <==> o + [i] in ks
  {
    if ks == [] then []
    else
      var init := ks[..|ks| - 1];
      var k := ks[|ks| - 1];
      assert forall k' :: k' in ks <==> k' in init || k' == k;
      PrefixLast(k);
      var r0 := Lasts(init, o);
      if Prefix(k) == o then
        r0 + [Last(k)]
      else
        forall i ensures o + [i] != k {
          PrefixLastOf(o, i);
        }
        r0
  }

  lemma OutersSnoc(ks: seq<History>, k: History)
    requires NonEmptyKeys(ks) && |k| > 0
    ensures NonEmptyKeys(ks + [k])
    ensures Outers(ks + [k]) == if Prefix(k) in Outers(ks) then Outers(ks) else Outers(ks) + [Prefix(k)]
  {
    assert (ks + [k])[..|ks|] == ks;
  }

  lemma LastsSnoc(ks: seq<History>, k: History, o: History)
    requires NonEmptyKeys(ks) && |k| > 0
    ensures NonEmptyKeys(ks + [k])
    ensures Lasts(ks + [k], o) == Lasts(ks, o) + if Prefix(k) == o then [Last(k)] else []
  {
    assert (ks + [k])[..|ks|] == ks;
  }

  lemma LastsEmpty(ks: seq<History>, o: History)
    requires NonEmptyKeys(ks)
    requires forall i :: o + [i] !in ks
    ensures Lasts(ks, o) == []
  {
  }

  /**
   * `g` is `d` regrouped: the outer keys are the distinct prefixes of `d`'s keys in
   * order of first appearance, each inner dictionary lists the last components in
   * key order, and no entry is lost or invented.
   */
  ghost predicate IsRegroupingOf(g: Grouped, d: Dict<History, Conts>)
    requires NonEmptyKeys(d.keys)
  {
    && ValidGrouped(g)
    && g.keys == Outers(d.keys)
    && (forall o :: o in g.vals ==> g.vals[o].keys == Lasts(d.keys, o))
    && Lossless(g, d)
  }

  /**
   * The pair (outer, inner) is present in `g` exactly when `outer + [inner]` is a key
   * of `d`, and it then holds that key's entry.
   */
  ghost predicate Lossless(g: Grouped, d: Dict<History, Conts>) {
    && (forall o, i :: o + [i] in d.vals <==> o in g.vals && i in g.vals[o].vals)
    && (forall o, i :: o in g.vals && i in g.vals[o].vals ==> g.vals[o].vals[i] == d.vals[o + [i]])
  }

  /** Every key of `d` is found under `key[:-1]` and `key[-1]`, with its entry. */
  lemma RegroupLossless(g: Grouped, d: Dict<History, Conts>, k: History)
    requires Lossless(g, d)
    requires k in d.vals && |k| > 0
    ensures Prefix(k) in g.vals && Last(k) in g.vals[Prefix(k)].vals
    ensures g.vals[Prefix(k)].vals[Last(k)] == d.vals[k]
  {
    PrefixLast(k);
  }

  /** The keys `outer + [inner]` of a regrouped table. */
  function FlatKeys(g: Grouped): (ks: set<History>) {
    set o, i | o in g.vals && i in g.vals[o].vals :: o + [i]
  }

  /** The inverse of the regrouping: entry `g[o][i]` goes back under the key `o + [i]`. */
  function Flatten(g: Grouped): (d: map<History, Conts>) {
    map k | k in FlatKeys(g) && |k| > 0 && Prefix(k) in g.vals && Last(k) in g.vals[Prefix(k)].vals
          :: g.vals[Prefix(k)].vals[Last(k)]
  }

  /** Regrouping loses nothing: flattening it gives back the original table. */
  lemma RegroupRoundTrip(g: Grouped, d: Dict<History, Conts>)
    requires d.Valid() && NonEmptyKeys(d.keys)
    requires Lossless(g, d)
    ensures Flatten(g) == d.vals
  {
    FlattenCovers(g, d);
    FlattenWithin(g, d);
    SameEntries(Flatten(g), d.vals);
  }

  lemma SameEntries<K, V>(a: map<K, V>, b: map<K, V>)
    requires forall k :: k in b ==> k in a && a[k] == b[k]
    requires forall k :: k in a ==> k in b
    ensures a == b
  {
  }

  lemma FlattenCovers(g: Grouped, d: Dict<History, Conts>)
    requires d.Valid() && NonEmptyKeys(d.keys)
    requires Lossless(g, d)
    ensures forall k :: k in d.vals ==> k in Flatten(g) && Flatten(g)[k] == d.vals[k]
  {
    forall k | k in d.vals ensures k in Flatten(g) && Flatten(g)[k] == d.vals[k] {
      assert |k| > 0;
      RegroupLossless(g, d, k);
      PrefixLast(k);
      var o, i := Prefix(k), Last(k);
      assert o in g.vals && i in g.vals[o].vals;
      assert o + [i] in FlatKeys(g);
    }
  }

  lemma FlattenWithin(g: Grouped, d: Dict<History, Conts>)
    requires Lossless(g, d)
    ensures forall k :: k in Flatten(g) ==> k in d.vals
  {
    forall k | k in Flatten(g) ensures k in d.vals {
      PrefixLast(k);
      var o, i := Prefix(k), Last(k);
      assert o + [i] in d.vals;
    }
  }

  /** Lines 85-88 for one key: create the inner dictionary on first use, then file the entry. */
  function File(g: Grouped, key: History, v: Conts): (r: Grouped)
    requires ValidGrouped(g) && |key| > 0
    ensures Prefix(key) in r.vals && Last(key) in r.vals[Prefix(key)].vals
    ensures r.vals[Prefix(key)].vals[Last(key)] == v
  {
    var g1 := if Prefix(key) in g.vals then g else g.Insert(Prefix(key), Empty());
    g1.Insert(Prefix(key), g1.vals[Prefix(key)].Insert(Last(key), v))
  }

  /** `g` lists the outer keys of `ks`, and each inner dictionary its last components, in order of first appearance. */
  ghost predicate Ordered(ks: seq<History>, g: Grouped)
    requires NonEmptyKeys(ks)
  {
    && ValidGrouped(g)
    && g.keys == Outers(ks)
    && (forall o :: o in g.vals ==> g.vals[o].keys == Lasts(ks, o))
  }

  /** The pair (outer, inner) is in `g` exactly when `outer + [inner]` is one of `ks`. */
  ghost predicate Pairs(ks: seq<History>, g: Grouped) {
    forall o, i :: o + [i] in ks <==> o in g.vals && i in g.vals[o].vals
  }

  /** Every entry of `g` is the entry of `ds` under `outer + [inner]`. */
  ghost predicate Entries(ds: map<History, Conts>, g: Grouped) {
    forall o, i :: o in g.vals && i in g.vals[o].vals ==> o + [i] in ds && g.vals[o].vals[i] == ds[o + [i]]
  }

  /** What `TransformDict` has built after filing the first `n` keys of `d`. */
  ghost predicate Filed(d: Dict<History, Conts>, n: nat, g: Grouped)
    requires d.Valid() && NonEmptyKeys(d.keys) && n <= |d.keys|
  {
    Ordered(d.keys[..n], g) && Pairs(d.keys[..n], g) && Entries(d.vals, g)
  }

  lemma FileStep(d: Dict<History, Conts>, n: nat, g: Grouped)
    requires d.Valid() && NonEmptyKeys(d.keys) && n < |d.keys|
    requires Filed(d, n, g)
    ensures Filed(d, n + 1, File(g, d.keys[n], d.vals[d.keys[n]]))
  {
    FileStepShape(d, n, g);
    FileStepOrder(d, n, g);
    FileStepPairs(d, n, g);
    FileValues(g, d.keys[n], d.vals);
  }

  lemma FileStepShape(d: Dict<History, Conts>, n: nat, g: Grouped)
    requires d.Valid() && NonEmptyKeys(d.keys) && n < |d.keys|
    requires Filed(d, n, g)
    ensures ValidGrouped(File(g, d.keys[n], d.vals[d.keys[n]]))
    ensures File(g, d.keys[n], d.vals[d.keys[n]]).keys == Outers(d.keys[..n + 1])
  {
    Step(d.keys, n, g);
    OutersSnoc(d.keys[..n], d.keys[n]);
  }

  lemma FileStepOrder(d: Dict<History, Conts>, n: nat, g: Grouped)
    requires d.Valid() && NonEmptyKeys(d.keys) && n < |d.keys|
    requires Filed(d, n, g)
    ensures var g' := File(g, d.keys[n], d.vals[d.keys[n]]);
      forall o :: o in g'.vals ==> g'.vals[o].keys == Lasts(d.keys[..n + 1], o)
  {
    var key := d.keys[n];
    Step(d.keys, n, g);
    if Prefix(key) !in g.vals {
      LastsEmpty(d.keys[..n], Prefix(key));
    }
    var g' := File(g, key, d.vals[key]);
    forall o | o in g'.vals ensures g'.vals[o].keys == Lasts(d.keys[..n + 1], o) {
      LastsSnoc(d.keys[..n], key, o);
    }
  }

  lemma FileStepPairs(d: Dict<History, Conts>, n: nat, g: Grouped)
    requires d.Valid() && NonEmptyKeys(d.keys) && n < |d.keys|
    requires Filed(d, n, g)
    ensures Pairs(d.keys[..n + 1], File(g, d.keys[n], d.vals[d.keys[n]]))
  {
    var key := d.keys[n];
    Step(d.keys, n, g);
    var g' := File(g, key, d.vals[key]);
    forall o, i ensures o + [i] in d.keys[..n + 1] <==> o in g'.vals && i in g'.vals[o].vals {
      FileEntry(g, key, d.vals[key], o, i);
    }
  }

  /** Filing `key` with `ds[key]` keeps every entry equal to the one of `ds` it came from. */
  lemma FileValues(g: Grouped, key: History, ds: map<History, Conts>)
    requires ValidGrouped(g) && |key| > 0 && key in ds
    requires Entries(ds, g)
    ensures Entries(ds, File(g, key, ds[key]))
  {
    var g' := File(g, key, ds[key]);
    PrefixLast(key);
    forall o, i | o in g'.vals && i in g'.vals[o].vals ensures o + [i] in ds && g'.vals[o].vals[i] == ds[o + [i]] {
      FileEntry(g, key, ds[key], o, i);
    }
  }

  /** Filing `key` adds the pair (`key[:-1]`, `key[-1]`) with entry `v` and leaves every other pair as it was. */
  lemma FileEntry(g: Grouped, key: History, v: Conts, o: History, i: real)
    requires ValidGrouped(g) && |key| > 0
    ensures var g' := File(g, key, v);
      o in g'.vals && i in g'.vals[o].vals <==> (o in g.vals && i in g.vals[o].vals) || (o == Prefix(key) && i == Last(key))
    ensures var g' := File(g, key, v);
      o in g'.vals && i in g'.vals[o].vals ==>
        g'.vals[o].vals[i] == if o == Prefix(key) && i == Last(key) then v else g.vals[o].vals[i]
  {
  }

  lemma FiledAll(d: Dict<History, Conts>, g: Grouped)
    requires d.Valid() && NonEmptyKeys(d.keys)
    requires Filed(d, |d.keys|, g)
    ensures IsRegroupingOf(g, d)
  {
    assert d.keys[..|d.keys|] == d.keys;
  }

  /**
   * `transform_dict(d)`. Lines 81-88 visit the keys in order and file each entry
   * under `key[:-1]` and then `key[-1]`, creating the inner dictionary on first use.
   */
  method TransformDict(d: Dict<History, Conts>) returns (newDict: Grouped)
    requires d.Valid()
    requires NonEmptyKeys(d.keys)
    ensures IsRegroupingOf(newDict, d)
    ensures Flatten(newDict) == d.vals
  {
    newDict := Empty();
    for n := 0 to |d.keys|
      invariant Filed(d, n, newDict)
    {
      var key := d.keys[n];
      var outerKey, innerKey := key[..|key| - 1], key[|key| - 1];
      ghost var before := newDict;
      if outerKey !in newDict.vals {
        newDict := newDict.Insert(outerKey, Empty());
      }
      newDict := newDict.Insert(outerKey, newDict.vals[outerKey].Insert(innerKey, d.vals[key]));
      FileStep(d, n, before);
      assert newDict == File(before, key, d.vals[key]);
    }
    FiledAll(d, newDict);
    RegroupRoundTrip(newDict, d);
  }

  /** The facts about key `ks[n]` that filing it needs. */
  lemma Step(ks: seq<History>, n: nat, g: Grouped)
    requires n < |ks| && Distinct(ks) && NonEmptyKeys(ks)
    requires forall o, i :: o + [i] in ks[..n] <==> o in g.vals && i in g.vals[o].vals
    ensures ks[..n + 1] == ks[..n] + [ks[n]]
    ensures ks[n] == Prefix(ks[n]) + [Last(ks[n])]
    ensures Prefix(ks[n]) in g.vals ==> Last(ks[n]) !in g.vals[Prefix(ks[n])].vals
    ensures forall o, i :: o + [i] in ks[..n + 1] <==> o + [i] in ks[..n] || (o == Prefix(ks[n]) && i == Last(ks[n]))
  {
    var k := ks[n];
    PrefixLast(k);
    assert k !in ks[..n];
    forall o, i ensures o + [i] == k <==> o == Prefix(k) && i == Last(k) {
      PrefixLastOf(o, i);
    }
  }
}
