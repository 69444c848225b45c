/**
 Facts about sequences of property names: distinctness, filtering by a set of
 names, keeping only first occurrences, and the first index of a name.
 */
module Sequences {

  /** No name occurs twice, as in the own-key list of an object. */
  predicate Distinct(s: seq<string>) {
    forall i, j :: 0 <= i < j < |s| ==> s[i] != s[j]
  }

  /** Dropping the last element keeps a sequence distinct, and the dropped
      element does not occur before it. */
  lemma DistinctInit(s: seq<string>)
    requires Distinct(s) && s != []
    ensures Distinct(s[..|s| - 1]) && s[|s| - 1] !in s[..|s| - 1]
  {
  }

  /** Joining two distinct sequences with no name in common keeps them distinct. */
  lemma DistinctConcat(s: seq<string>, t: seq<string>)
    requires Distinct(s) && Distinct(t)
    requires forall x :: x in s ==> x !in t
    ensures Distinct(s + t)
  {
    forall i, j | 0 <= i < j < |s + t|
      ensures (s + t)[i] != (s + t)[j]
    {
      if j >= |s| && i < |s| {
        assert (s + t)[i] in s;
      }
    }
  }

  /** The elements of `s` that belong to `allowed`, in their order in `s`. */
  function Keep(s: seq<string>, allowed: set<string>): (r: seq<string>)
    ensures forall x :: x in r <==> x in s && x in allowed
  {
    if s == [] then []
    else
      var init := Keep(s[..|s| - 1], allowed);
      if s[|s| - 1] in allowed then init + [s[|s| - 1]] else init
  }

  /** Filtering a sequence without repetitions gives one without repetitions. */
  lemma {:induction false} KeepDistinct(s: seq<string>, allowed: set<string>)
    requires Distinct(s)
    ensures Distinct(Keep(s, allowed))
  {
    if s != [] {
      var init, x := s[..|s| - 1], s[|s| - 1];
      assert Distinct(init);
      KeepDistinct(init, allowed);
      if x in allowed {
        DistinctConcat(Keep(init, allowed), [x]);
      }
    }
  }

  lemma KeepSnoc(s: seq<string>, x: string, allowed: set<string>)
    ensures Keep(s + [x], allowed) == Keep(s, allowed) + (if x in allowed then [x] else [])
  {
    assert (s + [x])[..|s|] == s;
  }

  /** Keep depends on `allowed` only through the elements of `s`. */
  lemma {:induction false} KeepSameOn(s: seq<string>, a: set<string>, b: set<string>)
    requires forall x :: x in s ==> (x in a <==> x in b)
    ensures Keep(s, a) == Keep(s, b)
  {
    if s != [] {
      KeepSameOn(s[..|s| - 1], a, b);
    }
  }

  /** Keeping everything leaves the sequence as it is. */
  lemma {:induction false} KeepAll(s: seq<string>, allowed: set<string>)
    requires forall x :: x in s ==> x in allowed
    ensures Keep(s, allowed) == s
  {
    if s != [] {
      KeepAll(s[..|s| - 1], allowed);
      assert s == s[..|s| - 1] + [s[|s| - 1]];
    }
  }

  /** Keeping with `a` after keeping with `b` is keeping with their intersection. */
  lemma {:induction false} KeepKeep(s: seq<string>, a: set<string>, b: set<string>)
    ensures Keep(Keep(s, b), a) == Keep(s, a * b)
  {
    if s != [] {
      var init, x := s[..|s| - 1], s[|s| - 1];
      KeepKeep(init, a, b);
      if x in b {
        KeepSnoc(Keep(init, b), x, a);
      }
    }
  }

  /** Keep distributes over concatenation. */
  lemma {:induction false} KeepConcat(s: seq<string>, t: seq<string>, allowed: set<string>)
    ensures Keep(s + t, allowed) == Keep(s, allowed) + Keep(t, allowed)
  {
    if t == [] {
      assert s + t == s;
    } else {
      var init, x := t[..|t| - 1], t[|t| - 1];
      assert s + t == (s + init) + [x];
      KeepSnoc(s + init, x, allowed);
      KeepConcat(s, init, allowed);
    }
  }

  /** The first occurrence of every element of `s`, in the order of `s`. */
  function Dedup(s: seq<string>): (r: seq<string>)
    ensures forall x :: x in r <==> x in s
  {
    if s == [] then []
    else
      var init := Dedup(s[..|s| - 1]);
      if s[|s| - 1] in s[..|s| - 1] then init else init + [s[|s| - 1]]
  }

  /** The deduplication has no repetitions. */
  lemma {:induction false} DedupDistinct(s: seq<string>)
    ensures Distinct(Dedup(s))
  {
    if s != [] {
      var init, x := s[..|s| - 1], s[|s| - 1];
      DedupDistinct(init);
      if x !in init {
        DistinctConcat(Dedup(init), [x]);
      }
    }
  }

  lemma DedupSnoc(s: seq<string>, x: string)
    ensures Dedup(s + [x]) == if x in s then Dedup(s) else Dedup(s) + [x]
  {
    assert (s + [x])[..|s|] == s;
  }

  /** A repeated occurrence of a name, wherever it stands after the first,
      does not change the deduplication. */
  lemma {:induction false} DedupRepeat(s: seq<string>, x: string, t: seq<string>)
    requires x in s
    ensures Dedup(s + [x] + t) == Dedup(s + t)
  {
    if t == [] {
      assert s + [x] + t == s + [x];
      assert s + t == s;
      DedupSnoc(s, x);
    } else {
      var init, y := t[..|t| - 1], t[|t| - 1];
      assert s + [x] + t == (s + [x] + init) + [y];
      assert s + t == (s + init) + [y];
      DedupRepeat(s, x, init);
      DedupSnoc(s + [x] + init, y);
      DedupSnoc(s + init, y);
    }
  }

  /** A sequence without repetitions is its own deduplication. */
  lemma {:induction false} DedupOfDistinct(s: seq<string>)
    requires Distinct(s)
    ensures Dedup(s) == s
  {
    if s != [] {
      var init := s[..|s| - 1];
      DedupOfDistinct(init);
      assert s == init + [s[|s| - 1]];
    }
  }

  /** Deduplicating `s + t`, with `t` repetition-free, appends to Dedup(s) the
      names of `t` that `s` lacks; `news` is any set that picks those names. */
  lemma {:induction false} DedupAppend(s: seq<string>, t: seq<string>, news: set<string>)
    requires Distinct(t)
    requires forall x :: x in t ==> (x in news <==> x !in s)
    ensures Dedup(s + t) == Dedup(s) + Keep(t, news)
  {
    if t == [] {
      assert s + t == s;
    } else {
      var init, x := t[..|t| - 1], t[|t| - 1];
      assert t == init + [x];
      assert s + t == (s + init) + [x];
      assert Distinct(init) && x !in init by {
        DistinctInit(t);
      }
      DedupAppend(s, init, news);
      var tail := if x in news then [x] else [];
      assert x in s + init <==> x !in news;
      calc {
        Dedup(s + t);
        Dedup((s + init) + [x]);
        { DedupSnoc(s + init, x); }
        Dedup(s + init) + tail;
        (Dedup(s) + Keep(init, news)) + tail;
        Dedup(s) + (Keep(init, news) + tail);
        { KeepSnoc(init, x, news); }
        Dedup(s) + Keep(t, news);
      }
    }
  }

  /** The position of the first occurrence of `x` in `s`. */
  function IndexOf(s: seq<string>, x: string): (i: nat)
    requires x in s
    ensures i < |s| && s[i] == x && x !in s[..i]
  {
    if s[0] == x then 0 else 1 + IndexOf(s[1..], x)
  }

  /** Appending does not move the first occurrence of a name already present. */
  lemma {:induction false} IndexOfSnoc(s: seq<string>, y: string, x: string)
    requires x in s
    ensures IndexOf(s + [y], x) == IndexOf(s, x)
  {
    if s[0] != x {
      assert (s + [y])[1..] == s[1..] + [y];
      IndexOfSnoc(s[1..], y, x);
    }
  }

  /** Every element of `r` occurs in `s`, and the elements of `r` come in the
      order of their first occurrences in `s`. */
  ghost predicate InFirstOccurrenceOrder(r: seq<string>, s: seq<string>) {
    && (forall x :: x in r ==> x in s)
    && (forall i, j :: 0 <= i < j < |r| ==> IndexOf(s, r[i]) < IndexOf(s, r[j]))
  }

  /** Dedup lists the names of `s` in the order of their first occurrence. */
  lemma {:induction false} DedupOrder(s: seq<string>)
    ensures InFirstOccurrenceOrder(Dedup(s), s)
  {
    if s != [] {
      var init, x := s[..|s| - 1], s[|s| - 1];
      assert s == init + [x];
      DedupOrder(init);
      var d := Dedup(init);
      forall y | y in d
        ensures IndexOf(s, y) == IndexOf(init, y)
      {
        IndexOfSnoc(init, x, y);
      }
      if x !in init {
        assert IndexOf(s, x) == |init| by {
          assert s[..|init|] == init;
        }
      }
    }
  }

  /** A prefix of an ordered sequence is ordered. */
  lemma OrderPrefix(r: seq<string>, s: seq<string>, n: nat)
    requires InFirstOccurrenceOrder(r, s) && n <= |r|
    ensures InFirstOccurrenceOrder(r[..n], s)
  {
    forall y | y in r[..n] ensures y in s {
      assert y == r[IndexOf(r[..n], y)];
    }
  }

  /** Appending a name that first occurs after all others keeps the order. */
  lemma OrderSnoc(r: seq<string>, x: string, s: seq<string>)
    requires InFirstOccurrenceOrder(r, s) && x in s
    requires forall y :: y in r ==> IndexOf(s, y) < IndexOf(s, x)
    ensures InFirstOccurrenceOrder(r + [x], s)
  {
    forall i, j | 0 <= i < j < |r + [x]|
      ensures IndexOf(s, (r + [x])[i]) < IndexOf(s, (r + [x])[j])
    {
      if j == |r| {
        assert (r + [x])[i] == r[i];
      }
    }
  }

  /** Filtering keeps whatever first-occurrence order a sequence had. */
  lemma {:induction false} KeepOrder(r: seq<string>, s: seq<string>, allowed: set<string>)
    requires InFirstOccurrenceOrder(r, s)
    ensures InFirstOccurrenceOrder(Keep(r, allowed), s)
  {
    if r != [] {
      var init, x := r[..|r| - 1], r[|r| - 1];
      assert r == init + [x];
      OrderPrefix(r, s, |r| - 1);
      KeepOrder(init, s, allowed);
      KeepSnoc(init, x, allowed);
      if x in allowed {
        var k := Keep(init, allowed);
        forall y | y in k
          ensures IndexOf(s, y) < IndexOf(s, x)
        {
          var p := IndexOf(init, y);
          assert r[p] == y;
        }
        OrderSnoc(k, x, s);
      }
    }
  }
}
