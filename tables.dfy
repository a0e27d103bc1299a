/** Histories, continuation lists and the insertion-ordered dictionaries the solver keeps them in. */
module Tables {

  /** The choices made so far, in the order the players moved. */
  type History = seq<real>

  /** A list of continuations: each one is the sequence of choices of the players still to move. */
  type Conts = seq<seq<real>>

  /** True iff no value occurs twice in `s`. */
  ghost predicate Distinct<T>(s: seq<T>) {
    forall i, j :: 0 <= i < j < |s| ==> s[i] != s[j]
  }

  /** True iff every value of `s` lies in the closed unit interval. */
  ghost predicate InUnit(s: seq<real>) {
    forall j :: 0 <= j < |s| ==> 0.0 <= s[j] <= 1.0
  }

  /**
   * A dictionary that remembers the order in which its keys were first inserted,
   * as a Python `dict` does: `keys` is that order, `vals` the entries.
   */
  datatype Dict<K(!new), V> = Dict(keys: seq<K>, vals: map<K, V>) {

    /** Every key is listed exactly once, and the listed keys are the keys of the entries. */
    ghost predicate Valid() {
      Distinct(keys) && forall k :: k in vals <==> k in keys
    }

    /** `d[k] = v`: a new key goes to the end of the order, an existing key keeps its place. */
    function Insert(k: K, v: V): (r: Dict<K, V>)
      requires Valid()
      ensures r.Valid()
      ensures r.vals == vals[k := v]
      ensures k in vals ==> r.keys == keys
      ensures k !in vals ==> r.keys == keys + [k]
    {
      if k in vals then Dict(keys, vals[k := v]) else Dict(keys + [k], vals[k := v])
    }
  }

  /** The empty dictionary `{}`. */
  function Empty<K(!new), V>(): (r: Dict<K, V>)
    ensures r.Valid() && r.keys == [] && r.vals == map[]
  {
    Dict([], map[])
  }
}
