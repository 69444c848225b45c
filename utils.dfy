/**
 The four object helpers of src/utils.js. Each helper starts from a fresh `{}`
 and fills it with `result[k] = v` inside `for` loops; each is written here as
 a method with those loops, proved equal to a reference function, and the
 reference functions carry the lemmas.

 Property membership is own-key membership throughout; in particular `pick`'s
 `keys[i] in obj` also sees inherited properties in JavaScript, which this
 model does not have.
 */
module Utils {
  import opened Sequences
  import opened OrderedMaps

  // ---------------------------------------------------------------- mapObj

  /** What `mapObj(fn, obj)` returns: `obj`'s keys in `obj`'s order, each value
      replaced by `fn(value, key, obj)`. */
  function MapObjSpec<V, W>(fn: (V, string, OMap<V>) -> W, obj: OMap<V>): OMap<W> {
    OMap(obj.keys, map k | k in obj.vals :: fn(obj.vals[k], k, obj))
  }

  /** `mapObj`. `calls` records the (value, key) arguments of every call of `fn`,
      in the order the calls happen. */
  method MapObj<V, W>(fn: (V, string, OMap<V>) -> W, obj: OMap<V>)
    returns (result: OMap<W>, ghost calls: seq<(V, string)>)
    requires obj.Valid()
    ensures result.Valid()
    ensures result.keys == obj.keys
    ensures forall k :: k in obj.vals ==> k in result.vals && result.vals[k] == fn(obj.vals[k], k, obj)
    ensures result == MapObjSpec(fn, obj)
    ensures |calls| == |obj.keys|
    ensures forall i :: 0 <= i < |calls| ==> calls[i] == (obj.vals[obj.keys[i]], obj.keys[i])
  {
    ghost var spec := MapObjSpec(fn, obj);
    MapObjValid(fn, obj);
    TakeZero(spec);
    result := Empty();
    calls := [];
    var keys := obj.keys;
    var i := 0;
    while i < |keys|
      invariant i <= |keys|
      invariant result == Take(spec, i)
      invariant |calls| == i
      invariant forall c :: 0 <= c < i ==> calls[c] == (obj.vals[keys[c]], keys[c])
    {
      TakeStep(spec, i);
      assert spec.keys[i] == keys[i] && spec.vals[keys[i]] == fn(obj.vals[keys[i]], keys[i], obj);
      result := Assign(result, keys[i], fn(obj.vals[keys[i]], keys[i], obj));
      calls := calls + [(obj.vals[keys[i]], keys[i])];
      i := i + 1;
    }
    TakeAll(spec);
  }

  /** The mapped object is well formed. */
  lemma MapObjValid<V, W>(fn: (V, string, OMap<V>) -> W, obj: OMap<V>)
    requires obj.Valid()
    ensures MapObjSpec(fn, obj).Valid()
  {
  }

  /** An object without properties maps to an object without properties. */
  lemma MapObjEmpty<V, W>(fn: (V, string, OMap<V>) -> W)
    ensures MapObjSpec(fn, Empty()) == Empty()
  {
    assert MapObjSpec(fn, Empty()).vals == map[];
  }

  /** Mapping with `(v) => v` copies the object: same keys, same order, same values. */
  lemma MapObjIdentity<V>(obj: OMap<V>)
    requires obj.Valid()
    ensures MapObjSpec((v: V, k: string, o: OMap<V>) => v, obj) == obj
  {
    var r := MapObjSpec((v: V, k: string, o: OMap<V>) => v, obj);
    assert r.vals == obj.vals;
  }

  // ------------------------------------------------------------------ pick

  /** What `pick(keys, obj)` returns: the listed names that are keys of `obj`,
      each once, in the order of `keys`, with `obj`'s values. */
  function PickSpec<V>(keys: seq<string>, obj: OMap<V>): OMap<V> {
    OMap(Keep(Dedup(keys), obj.vals.Keys), map k | k in keys && k in obj.vals :: obj.vals[k])
  }

  lemma PickStepKeys<V>(keys: seq<string>, x: string, obj: OMap<V>)
    ensures PickSpec(keys + [x], obj).keys
         == PickSpec(keys, obj).keys + (if x in obj.vals && x !in keys then [x] else [])
  {
    DedupSnoc(keys, x);
    if x !in keys {
      KeepSnoc(Dedup(keys), x, obj.vals.Keys);
    }
  }

  lemma PickStepVals<V>(keys: seq<string>, x: string, obj: OMap<V>)
    ensures PickSpec(keys + [x], obj).vals
         == if x in obj.vals then PickSpec(keys, obj).vals[x := obj.vals[x]] else PickSpec(keys, obj).vals
  {
  }

  /** One more listed name either copies that property or changes nothing. */
  lemma PickStep<V>(keys: seq<string>, x: string, obj: OMap<V>)
    ensures PickSpec(keys + [x], obj)
         == if x in obj.vals then Assign(PickSpec(keys, obj), x, obj.vals[x]) else PickSpec(keys, obj)
  {
    PickStepKeys(keys, x, obj);
    PickStepVals(keys, x, obj);
  }

  /** `pick`. */
  method Pick<V>(keys: seq<string>, obj: OMap<V>) returns (result: OMap<V>)
    ensures result.Valid()
    ensures forall k :: k in result.vals <==> k in keys && k in obj.vals
    ensures forall k :: k in result.vals ==> result.vals[k] == obj.vals[k]
    ensures result.keys == Keep(Dedup(keys), obj.vals.Keys)
    ensures result == PickSpec(keys, obj)
  {
    result := Empty();
    PickPrefixStart(keys, obj);
    var i := 0;
    while i < |keys|
      invariant i <= |keys|
      invariant result == PickSpec(keys[..i], obj)
    {
      PickPrefixStep(keys, i, obj);
      // The source's `keys[i] in obj` also accepts inherited properties.
      if keys[i] in obj.vals {
        result := Assign(result, keys[i], obj.vals[keys[i]]);
      }
      i := i + 1;
    }
    PickPrefixAll(keys, obj);
    PickFacts(keys, obj);
  }

  lemma PickPrefixStart<V>(keys: seq<string>, obj: OMap<V>)
    ensures PickSpec(keys[..0], obj) == Empty()
  {
    assert keys[..0] == [];
    PickEmpty(obj);
  }

  lemma PickPrefixStep<V>(keys: seq<string>, i: nat, obj: OMap<V>)
    requires i < |keys|
    ensures PickSpec(keys[..i + 1], obj)
         == if keys[i] in obj.vals then Assign(PickSpec(keys[..i], obj), keys[i], obj.vals[keys[i]])
            else PickSpec(keys[..i], obj)
  {
    assert keys[..i + 1] == keys[..i] + [keys[i]];
    PickStep(keys[..i], keys[i], obj);
  }

  lemma PickPrefixAll<V>(keys: seq<string>, obj: OMap<V>)
    ensures PickSpec(keys[..|keys|], obj) == PickSpec(keys, obj)
  {
    assert keys[..|keys|] == keys;
  }

  /** What the picked object holds: exactly the listed own keys, with `obj`'s values. */
  lemma PickFacts<V>(keys: seq<string>, obj: OMap<V>)
    ensures PickSpec(keys, obj).Valid()
    ensures forall k :: k in PickSpec(keys, obj).vals <==> k in keys && k in obj.vals
    ensures forall k :: k in PickSpec(keys, obj).vals ==> PickSpec(keys, obj).vals[k] == obj.vals[k]
    ensures PickSpec(keys, obj).keys == Keep(Dedup(keys), obj.vals.Keys)
  {
    PickValid(keys, obj);
  }

  /** The picked object is well formed, whatever the key list. */
  lemma PickValid<V>(keys: seq<string>, obj: OMap<V>)
    ensures PickSpec(keys, obj).Valid()
  {
    DedupDistinct(keys);
    KeepDistinct(Dedup(keys), obj.vals.Keys);
  }

  /** The result lists its keys in the order of their first occurrence in `keys`. */
  lemma PickOrder<V>(keys: seq<string>, obj: OMap<V>)
    ensures InFirstOccurrenceOrder(PickSpec(keys, obj).keys, keys)
  {
    DedupOrder(keys);
    KeepOrder(Dedup(keys), keys, obj.vals.Keys);
  }

  /** Listing a name again, anywhere after its first listing, adds nothing:
      duplicates collapse to one entry. */
  lemma PickRepeat<V>(k1: seq<string>, x: string, k2: seq<string>, obj: OMap<V>)
    requires x in k1
    ensures PickSpec(k1 + [x] + k2, obj) == PickSpec(k1 + k2, obj)
  {
    DedupRepeat(k1, x, k2);
  }

  /** Without repeated names the result order is exactly the order of `keys`. */
  lemma PickDistinct<V>(keys: seq<string>, obj: OMap<V>)
    requires Distinct(keys)
    ensures PickSpec(keys, obj).keys == Keep(keys, obj.vals.Keys)
  {
    DedupOfDistinct(keys);
  }

  /** An empty key list picks nothing, whatever the object. */
  lemma PickEmpty<V>(obj: OMap<V>)
    ensures PickSpec([], obj) == Empty()
  {
    assert PickSpec([], obj).vals == map[];
  }

  // ----------------------------------------------------------------- merge

  /** Growing the second object by a fresh name `x` adds `x` to the appended
      tail exactly when the first object lacks it. */
  lemma KeepGrow(t: seq<string>, x: string, d: set<string>, m: set<string>)
    requires x !in t
    requires forall y :: y in t ==> y in d
    ensures Keep(t + [x], (d + {x}) - m) == Keep(t, d - m) + (if x in m then [] else [x])
  {
    KeepSnoc(t, x, (d + {x}) - m);
    KeepSameOn(t, (d + {x}) - m, d - m);
  }

  /** What `merge(a, b)` returns: `a`'s keys, then `b`'s keys that `a` lacks in
      `b`'s order; `b`'s values win. */
  function MergeSpec<V>(a: OMap<V>, b: OMap<V>): OMap<V> {
    OMap(a.keys + Keep(b.keys, b.vals.Keys - a.vals.Keys), a.vals + b.vals)
  }

  /** Merging two well-formed objects gives a well-formed object. */
  lemma MergeValid<V>(a: OMap<V>, b: OMap<V>)
    requires a.Valid() && b.Valid()
    ensures MergeSpec(a, b).Valid()
  {
    var tail := Keep(b.keys, b.vals.Keys - a.vals.Keys);
    KeepDistinct(b.keys, b.vals.Keys - a.vals.Keys);
    DistinctConcat(a.keys, tail);
  }

  lemma MergeGrowKeys<V>(m: OMap<V>, t: OMap<V>, t1: OMap<V>, x: string)
    requires t1.keys == t.keys + [x] && x !in t.keys
    requires t1.vals.Keys == t.vals.Keys + {x}
    requires forall y :: y in t.keys ==> y in t.vals
    ensures MergeSpec(m, t1).keys == MergeSpec(m, t).keys + (if x in m.vals then [] else [x])
  {
    KeepGrow(t.keys, x, t.vals.Keys, m.vals.Keys);
  }

  lemma MergeStepKeys<V>(m: OMap<V>, b: OMap<V>, j: nat)
    requires b.Valid() && j < |b.keys|
    ensures MergeSpec(m, Take(b, j + 1)).keys
         == MergeSpec(m, Take(b, j)).keys + (if b.keys[j] in m.vals then [] else [b.keys[j]])
  {
    var x, t, t1 := b.keys[j], Take(b, j), Take(b, j + 1);
    TakeStepKeys(b, j);
    TakeStepVals(b, j);
    assert t1.vals.Keys == t.vals.Keys + {x};
    TakeValid(b, j);
    MergeGrowKeys(m, t, t1, x);
  }

  /** Map facts stated on bare maps, so that they are proved apart from the
      objects they are used about. */
  lemma MapUnionUpdate<V>(m: map<string, V>, t: map<string, V>, x: string, v: V)
    ensures m + t[x := v] == (m + t)[x := v]
  {
  }

  lemma MapUnionAssoc<V>(a: map<string, V>, b: map<string, V>, c: map<string, V>)
    ensures (a + b) + c == a + (b + c)
  {
  }

  lemma MergeStepVals<V>(m: OMap<V>, b: OMap<V>, j: nat)
    requires b.Valid() && j < |b.keys|
    ensures MergeSpec(m, Take(b, j + 1)).vals == MergeSpec(m, Take(b, j)).vals[b.keys[j] := b.vals[b.keys[j]]]
  {
    TakeStepVals(b, j);
    MapUnionUpdate(m.vals, Take(b, j).vals, b.keys[j], b.vals[b.keys[j]]);
  }

  /** Copying property number `j` of `b` onto `merge(m, first j of b)`. */
  lemma MergeStep<V>(m: OMap<V>, b: OMap<V>, j: nat)
    requires b.Valid() && j < |b.keys|
    ensures MergeSpec(m, Take(b, j + 1)) == Assign(MergeSpec(m, Take(b, j)), b.keys[j], b.vals[b.keys[j]])
  {
    TakeStepKeys(b, j);
    MergeStepKeys(m, b, j);
    MergeStepVals(m, b, j);
  }

  /** `merge(a, {})` is a copy of `a`. */
  lemma MergeEmptyRight<V>(a: OMap<V>)
    ensures MergeSpec(a, Empty()) == a
  {
    assert a.vals + map[] == a.vals;
  }

  lemma MergeEmptyLeftKeys<V>(b: OMap<V>)
    requires b.Valid()
    ensures MergeSpec(Empty(), b).keys == b.keys
  {
    KeepAll(b.keys, b.vals.Keys - Empty<V>().vals.Keys);
  }

  lemma MergeEmptyLeftVals<V>(b: OMap<V>)
    ensures MergeSpec(Empty(), b).vals == b.vals
  {
    assert map[] + b.vals == b.vals;
  }

  /** The state of a loop that copies the first `n` properties of `b`, one
      `m[k] = b[k]` at a time, onto `m`. */
  function CopyFrom<V>(m: OMap<V>, b: OMap<V>, n: nat): OMap<V>
    requires b.Valid() && n <= |b.keys|
  {
    if n == 0 then m
    else Assign(CopyFrom(m, b, n - 1), b.keys[n - 1], b.vals[b.keys[n - 1]])
  }

  /** Copying the first `n` properties of `b` onto `m` merges them into `m`. */
  lemma {:induction false} CopyFromMerge<V>(m: OMap<V>, b: OMap<V>, n: nat)
    requires b.Valid() && n <= |b.keys|
    ensures CopyFrom(m, b, n) == MergeSpec(m, Take(b, n))
  {
    if n == 0 {
      MergeStart(m, b);
    } else {
      var p := n - 1;
      var k := b.keys[p];
      calc {
        CopyFrom(m, b, n);
        Assign(CopyFrom(m, b, p), k, b.vals[k]);
        { CopyFromMerge(m, b, p); }
        Assign(MergeSpec(m, Take(b, p)), k, b.vals[k]);
        { MergeStep(m, b, p); }
        MergeSpec(m, Take(b, n));
      }
    }
  }

  /** Copying every property of `b` onto `m` is `merge(m, b)`. */
  lemma CopyFromAll<V>(m: OMap<V>, b: OMap<V>)
    requires b.Valid()
    ensures CopyFrom(m, b, |b.keys|) == MergeSpec(m, b)
  {
    CopyFromMerge(m, b, |b.keys|);
    TakeAll(b);
  }

  /** `merge({}, b)` is a copy of `b`. */
  lemma MergeEmptyLeft<V>(b: OMap<V>)
    requires b.Valid()
    ensures MergeSpec(Empty(), b) == b
  {
    MergeEmptyLeftKeys(b);
    MergeEmptyLeftVals(b);
  }

  /** `merge`: copies `a`, then `b`. */
  method Merge<V>(a: OMap<V>, b: OMap<V>) returns (result: OMap<V>)
    requires a.Valid() && b.Valid()
    ensures result.Valid()
    ensures forall k :: k in result.vals <==> k in a.vals || k in b.vals
    ensures forall k :: k in b.vals ==> result.vals[k] == b.vals[k]
    ensures forall k :: k in a.vals && k !in b.vals ==> result.vals[k] == a.vals[k]
    ensures result.keys == a.keys + Keep(b.keys, b.vals.Keys - a.vals.Keys)
    ensures result == MergeSpec(a, b)
  {
    result := Empty();
    TakeZero(a);
    MergeEmptyRight(Empty<V>());
    var keys := a.keys;
    var i := 0;
    while i < |keys|
      invariant i <= |keys|
      invariant result == MergeSpec(Empty(), Take(a, i))
    {
      MergeStep(Empty(), a, i);
      result := Assign(result, keys[i], a.vals[keys[i]]);
      i := i + 1;
    }
    TakeAll(a);
    MergeEmptyLeft(a);
    TakeZero(b);
    MergeEmptyRight(a);
    keys := b.keys;
    var j := 0;
    while j < |keys|
      invariant j <= |keys|
      invariant result == MergeSpec(a, Take(b, j))
    {
      MergeStep(a, b, j);
      result := Assign(result, keys[j], b.vals[keys[j]]);
      j := j + 1;
    }
    TakeAll(b);
    MergeFacts(a, b);
  }


  /** What the merged object holds: the keys of both, `b`'s values winning. */
  lemma MergeFacts<V>(a: OMap<V>, b: OMap<V>)
    requires a.Valid() && b.Valid()
    ensures MergeSpec(a, b).Valid()
    ensures forall k :: k in MergeSpec(a, b).vals <==> k in a.vals || k in b.vals
    ensures forall k :: k in b.vals ==> MergeSpec(a, b).vals[k] == b.vals[k]
    ensures forall k :: k in a.vals && k !in b.vals ==> MergeSpec(a, b).vals[k] == a.vals[k]
  {
    MergeValid(a, b);
  }

  lemma MergeKeySet<V>(a: OMap<V>, b: OMap<V>)
    ensures MergeSpec(a, b).vals.Keys == a.vals.Keys + b.vals.Keys
  {
  }

  lemma MergeAssocLeftKeys<V>(a: OMap<V>, b: OMap<V>, c: OMap<V>)
    ensures MergeSpec(MergeSpec(a, b), c).keys
         == a.keys + Keep(b.keys, b.vals.Keys - a.vals.Keys)
                   + Keep(c.keys, c.vals.Keys - (a.vals.Keys + b.vals.Keys))
  {
    MergeKeySet(a, b);
  }

  lemma MergeAssocRightKeys<V>(a: OMap<V>, b: OMap<V>, c: OMap<V>)
    requires b.Valid()
    ensures MergeSpec(a, MergeSpec(b, c)).keys
         == a.keys + (Keep(b.keys, b.vals.Keys - a.vals.Keys)
                   + Keep(c.keys, c.vals.Keys - (a.vals.Keys + b.vals.Keys)))
  {
    var A, B, C := a.vals.Keys, b.vals.Keys, c.vals.Keys;
    MergeKeySet(b, c);
    KeepConcat(b.keys, Keep(c.keys, C - B), (B + C) - A);
    KeepSameOn(b.keys, (B + C) - A, B - A);
    KeepKeep(c.keys, (B + C) - A, C - B);
    assert ((B + C) - A) * (C - B) == C - (A + B);
  }

  lemma MergeAssocVals<V>(a: OMap<V>, b: OMap<V>, c: OMap<V>)
    ensures MergeSpec(MergeSpec(a, b), c).vals == MergeSpec(a, MergeSpec(b, c)).vals
  {
    assert MergeSpec(MergeSpec(a, b), c).vals == (a.vals + b.vals) + c.vals;
    assert MergeSpec(a, MergeSpec(b, c)).vals == a.vals + (b.vals + c.vals);
    MapUnionAssoc(a.vals, b.vals, c.vals);
  }

  /** Merging is associative, so a left fold of `merge` may be regrouped. */
  lemma MergeAssoc<V>(a: OMap<V>, b: OMap<V>, c: OMap<V>)
    requires b.Valid()
    ensures MergeSpec(MergeSpec(a, b), c) == MergeSpec(a, MergeSpec(b, c))
  {
    MergeAssocLeftKeys(a, b, c);
    MergeAssocRightKeys(a, b, c);
    MergeAssocVals(a, b, c);
  }

  // -------------------------------------------------------------- mergeAll

  /** The argument of `mergeAll`: one object, or an array of objects. */
  datatype Objs<V> = Single(obj: OMap<V>) | Many(list: seq<OMap<V>>)

  /** `Array.isArray(objs) ? objs : [objs]`. */
  function AsList<V>(objs: Objs<V>): seq<OMap<V>> {
    match objs
    case Single(o) => [o]
    case Many(l) => l
  }

  /** Every element of the list is a well-formed object. */
  ghost predicate AllValid<V>(list: seq<OMap<V>>) {
    forall i :: 0 <= i < |list| ==> list[i].Valid()
  }

  /** The left fold of `merge` over `list`, starting from `{}`. */
  function MergeAllSpec<V>(list: seq<OMap<V>>): OMap<V> {
    if list == [] then Empty()
    else MergeSpec(MergeAllSpec(list[..|list| - 1]), list[|list| - 1])
  }

  /** Merging well-formed objects gives a well-formed object. */
  lemma {:induction false} MergeAllValid<V>(list: seq<OMap<V>>)
    requires AllValid(list)
    ensures MergeAllSpec(list).Valid()
  {
    if list != [] {
      var init := list[..|list| - 1];
      assert AllValid(init) by {
        forall i | 0 <= i < |init| ensures init[i].Valid() {
          assert init[i] == list[i];
        }
      }
      MergeAllValid(init);
      MergeValid(MergeAllSpec(init), list[|list| - 1]);
    }
  }

  lemma MergeAllSnoc<V>(list: seq<OMap<V>>, o: OMap<V>)
    ensures MergeAllSpec(list + [o]) == MergeSpec(MergeAllSpec(list), o)
  {
    assert (list + [o])[..|list|] == list;
  }

  lemma MergeStart<V>(m: OMap<V>, b: OMap<V>)
    ensures MergeSpec(m, Take(b, 0)) == m
  {
    TakeZero(b);
    MergeEmptyRight(m);
  }

  lemma MergeAllPrefix<V>(list: seq<OMap<V>>, i: nat)
    requires i < |list|
    ensures MergeAllSpec(list[..i + 1]) == MergeSpec(MergeAllSpec(list[..i]), list[i])
  {
    assert list[..i + 1][..i] == list[..i];
  }

  lemma MergeAllStep<V>(list: seq<OMap<V>>, i: nat, acc: OMap<V>, r: OMap<V>)
    requires i < |list| && list[i].Valid()
    requires acc == MergeAllSpec(list[..i])
    requires r == CopyFrom(acc, list[i], |list[i].keys|)
    ensures r == MergeAllSpec(list[..i + 1])
  {
    CopyFromAll(acc, list[i]);
    MergeAllPrefix(list, i);
  }

  /** A one-element list gives a copy of its element. */
  lemma MergeAllSingle<V>(o: OMap<V>)
    requires o.Valid()
    ensures MergeAllSpec([o]) == o
  {
    assert [o][..0] == [];
    MergeEmptyLeft(o);
  }

  /** `mergeAll([a, b, c])` is `merge(merge(a, b), c)`. */
  lemma MergeAllThree<V>(a: OMap<V>, b: OMap<V>, c: OMap<V>)
    requires a.Valid()
    ensures MergeAllSpec([a, b, c]) == MergeSpec(MergeSpec(a, b), c)
  {
    assert [a, b, c][..2] == [a, b];
    assert [a, b][..1] == [a];
    MergeAllSingle(a);
  }

  /** Merging a concatenation is merging the results of its two parts. */
  lemma {:induction false} MergeAllConcat<V>(l1: seq<OMap<V>>, l2: seq<OMap<V>>)
    requires AllValid(l2)
    ensures MergeAllSpec(l1 + l2) == MergeSpec(MergeAllSpec(l1), MergeAllSpec(l2))
  {
    if l2 == [] {
      assert l1 + l2 == l1;
      MergeEmptyRight(MergeAllSpec(l1));
    } else {
      var init, o := l2[..|l2| - 1], l2[|l2| - 1];
      assert l1 + l2 == (l1 + init) + [o];
      assert l2 == init + [o];
      assert AllValid(init) by {
        forall i | 0 <= i < |init| ensures init[i].Valid() {
          assert init[i] == l2[i];
        }
      }
      MergeAllSnoc(l1 + init, o);
      MergeAllSnoc(init, o);
      MergeAllConcat(l1, init);
      MergeAllValid(init);
      MergeAssoc(MergeAllSpec(l1), MergeAllSpec(init), o);
    }
  }

  /** A key belongs to the result exactly when some element of the list has it. */
  lemma {:induction false} MergeAllKeySet<V>(list: seq<OMap<V>>, k: string)
    ensures k in MergeAllSpec(list).vals <==> exists i :: 0 <= i < |list| && k in list[i].vals
  {
    if list != [] {
      var init := list[..|list| - 1];
      MergeAllKeySet(init, k);
      if exists i :: 0 <= i < |init| && k in init[i].vals {
        var i :| 0 <= i < |init| && k in init[i].vals;
        assert list[i] == init[i];
      }
      if exists i :: 0 <= i < |list| && k in list[i].vals {
        var i :| 0 <= i < |list| && k in list[i].vals;
        if i < |init| {
          assert init[i] == list[i];
        }
      }
    }
  }

  /** The value of a key comes from the last element of the list that has it. */
  lemma {:induction false} MergeAllLastWins<V>(list: seq<OMap<V>>, k: string, i: nat)
    requires i < |list| && k in list[i].vals
    requires forall j :: i < j < |list| ==> k !in list[j].vals
    ensures k in MergeAllSpec(list).vals && MergeAllSpec(list).vals[k] == list[i].vals[k]
  {
    var init := list[..|list| - 1];
    if i < |list| - 1 {
      MergeAllLastWins(init, k, i);
    }
  }

  /** The concatenation of the key lists of the elements of `list`. */
  function AllKeys<V>(list: seq<OMap<V>>): seq<string> {
    if list == [] then [] else AllKeys(list[..|list| - 1]) + list[|list| - 1].keys
  }

  /** Keys are enumerated in the order in which they first appear among the
      elements' keys: a repeated key keeps its first position. */
  lemma {:induction false} MergeAllKeys<V>(list: seq<OMap<V>>)
    requires AllValid(list)
    ensures MergeAllSpec(list).keys == Dedup(AllKeys(list))
  {
    if list != [] {
      var init, o := list[..|list| - 1], list[|list| - 1];
      assert AllValid(init) by {
        forall i | 0 <= i < |init| ensures init[i].Valid() {
          assert init[i] == list[i];
        }
      }
      MergeAllKeys(init);
      MergeAllValid(init);
      var acc := MergeAllSpec(init);
      DedupAppend(AllKeys(init), o.keys, o.vals.Keys - acc.vals.Keys);
    }
  }

  /** `mergeAll`: copies every element of the list into one object. */
  method MergeAll<V>(objs: Objs<V>) returns (result: OMap<V>)
    requires AllValid(AsList(objs))
    ensures result.Valid()
    ensures result == MergeAllSpec(AsList(objs))
    ensures objs.Single? ==> result == objs.obj
    ensures objs == Many([]) ==> result == Empty()
    ensures result.keys == Dedup(AllKeys(AsList(objs)))
  {
    var list := AsList(objs);
    result := Empty();
    var i := 0;
    while i < |list|
      invariant i <= |list|
      invariant result == MergeAllSpec(list[..i])
    {
      ghost var acc := result;
      var o := list[i];
      assert o.Valid();
      var keys := o.keys;
      var j := 0;
      while j < |keys|
        invariant j <= |keys|
        invariant result == CopyFrom(acc, o, j)
      {
        result := Assign(result, keys[j], o.vals[keys[j]]);
        j := j + 1;
      }
      MergeAllStep(list, i, acc, result);
      i := i + 1;
    }
    assert list[..|list|] == list;
    MergeAllFacts(objs);
  }

  /** What `mergeAll` returns: a well-formed object; a copy of a single object;
      `{}` for an empty array; the keys in order of first appearance. */
  lemma MergeAllFacts<V>(objs: Objs<V>)
    requires AllValid(AsList(objs))
    ensures MergeAllSpec(AsList(objs)).Valid()
    ensures objs.Single? ==> MergeAllSpec(AsList(objs)) == objs.obj
    ensures objs == Many([]) ==> MergeAllSpec(AsList(objs)) == Empty()
    ensures MergeAllSpec(AsList(objs)).keys == Dedup(AllKeys(AsList(objs)))
  {
    var list := AsList(objs);
    if objs.Single? {
      assert list[0] == objs.obj;
      MergeAllSingle(objs.obj);
    }
    MergeAllKeys(list);
    MergeAllValid(list);
  }
}
