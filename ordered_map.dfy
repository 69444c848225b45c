/**
 A plain JavaScript object seen through its own enumerable string-keyed
 properties: an insertion-ordered map from property names to values, and the
 one mutation every helper of the model performs on it, `result[k] = v`.
 */
module OrderedMaps {
  import opened Sequences

  /** `keys` is the enumeration order (what `Object.keys` returns) and `vals`
      maps each own property name to its value. */
  datatype OMap<V> = OMap(keys: seq<string>, vals: map<string, V>) {
    /** Every own property is enumerated exactly once. */
    ghost predicate Valid() {
      Distinct(keys) && forall k :: k in vals <==> k in keys
    }
  }

  /** The object literal `{}`. */
  function Empty<V>(): OMap<V> {
    OMap([], map[])
  }

  /** `m[k] = v`: afterwards `k` holds `v`; every other property keeps its value;
      an existing name keeps its position and a new name is enumerated last. */
  function Assign<V>(m: OMap<V>, k: string, v: V): (r: OMap<V>)
    ensures k in r.vals && r.vals[k] == v
    ensures forall j :: j != k ==> (j in r.vals <==> j in m.vals)
    ensures forall j :: j != k && j in m.vals ==> r.vals[j] == m.vals[j]
    ensures |r.keys| == |m.keys| + (if k in m.vals then 0 else 1)
    ensures forall i :: 0 <= i < |m.keys| ==> r.keys[i] == m.keys[i]
    ensures k !in m.vals ==> r.keys[|m.keys|] == k
  {
    if k in m.vals then OMap(m.keys, m.vals[k := v])
    else OMap(m.keys + [k], m.vals[k := v])
  }

  /** Assignment keeps an object well formed. */
  lemma AssignValid<V>(m: OMap<V>, k: string, v: V)
    requires m.Valid()
    ensures Assign(m, k, v).Valid()
  {
    if k !in m.vals {
      DistinctConcat(m.keys, [k]);
    }
  }

  /** The object holding the first `n` properties of `m`, in `m`'s order. */
  function Take<V>(m: OMap<V>, n: nat): OMap<V>
    requires n <= |m.keys|
  {
    OMap(m.keys[..n], map k | k in m.keys[..n] && k in m.vals :: m.vals[k])
  }

  /** Assigning the same name twice leaves only the second value, at the
      position the first assignment gave the name. */
  lemma AssignTwice<V>(m: OMap<V>, k: string, v: V, w: V)
    ensures Assign(Assign(m, k, v), k, w) == Assign(m, k, w)
  {
  }

  /** A prefix of a well-formed object is well formed. */
  lemma TakeValid<V>(m: OMap<V>, n: nat)
    requires m.Valid() && n <= |m.keys|
    ensures Take(m, n).Valid()
  {
    forall k | k in m.keys[..n] ensures k in m.vals {
      assert k == m.keys[IndexOf(m.keys[..n], k)];
    }
  }

  lemma TakeZero<V>(m: OMap<V>)
    ensures Take(m, 0) == Empty()
  {
    assert Take(m, 0).vals == map[];
  }

  lemma TakeAll<V>(m: OMap<V>)
    requires m.Valid()
    ensures Take(m, |m.keys|) == m
  {
    assert m.keys[..|m.keys|] == m.keys;
  }

  lemma TakeStepKeys<V>(m: OMap<V>, n: nat)
    requires m.Valid() && n < |m.keys|
    ensures Take(m, n + 1).keys == Take(m, n).keys + [m.keys[n]]
    ensures m.keys[n] !in Take(m, n).keys
  {
    assert m.keys[..n + 1] == m.keys[..n] + [m.keys[n]];
  }

  lemma TakeStepVals<V>(m: OMap<V>, n: nat)
    requires m.Valid() && n < |m.keys|
    ensures Take(m, n + 1).vals == Take(m, n).vals[m.keys[n] := m.vals[m.keys[n]]]
  {
    TakeStepKeys(m, n);
  }

  /** Copying property number `n` onto the first `n` properties gives the first `n + 1`. */
  lemma TakeStep<V>(m: OMap<V>, n: nat)
    requires m.Valid() && n < |m.keys|
    ensures Take(m, n + 1) == Assign(Take(m, n), m.keys[n], m.vals[m.keys[n]])
  {
    TakeStepKeys(m, n);
    TakeStepVals(m, n);
  }
}
