/**
 * The LINQ sequence operators the editor code uses, on Dafny sequences:
 * a stable OrderBy (insertion sort under a total preorder), Distinct by a key,
 * First by a predicate, and the fold "x = p(x) for each p in list" over a processor list.
 */
module Sequences {
  import opened Wrappers

  ghost predicate TotalPreorder<T(!new)>(le: (T, T) -> bool)
  {
    && (forall a, b :: le(a, b) || le(b, a))
    && (forall a, b, c :: le(a, b) && le(b, c) ==> le(a, c))
  }

  predicate SortedBy<T>(s: seq<T>, le: (T, T) -> bool)
  {
    forall i, j :: 0 <= i < j < |s| ==> le(s[i], s[j])
  }

  /** Inserts `x` in front of the first element it is not after; equal keys keep `x` first. */
  function Insert<T(==)>(x: T, s: seq<T>, le: (T, T) -> bool): (r: seq<T>)
    ensures |r| == |s| + 1
    ensures multiset(r) == multiset(s) + multiset{x}
  {
    if |s| == 0 || le(x, s[0]) then [x] + s
    else
      assert s == [s[0]] + s[1..];
      [s[0]] + Insert(x, s[1..], le)
  }

  /** Enumerable.OrderBy: a stable sort of `s` under `le`. */
  function SortBy<T(==)>(s: seq<T>, le: (T, T) -> bool): (r: seq<T>)
    ensures multiset(r) == multiset(s)
  {
    if |s| == 0 then []
    else
      assert s == [s[0]] + s[1..];
      Insert(s[0], SortBy(s[1..], le), le)
  }

  lemma {:induction false} InsertSorted<T(!new)>(x: T, s: seq<T>, le: (T, T) -> bool)
    requires TotalPreorder(le)
    requires SortedBy(s, le)
    ensures SortedBy(Insert(x, s, le), le)
  {
    if |s| == 0 || le(x, s[0]) {
    } else {
      var rest := Insert(x, s[1..], le);
      InsertSorted(x, s[1..], le);
      assert le(s[0], x);
      forall y | y in rest
        ensures le(s[0], y)
      {
        assert y in multiset(rest);
        if y != x {
          assert y in s[1..];
        }
      }
    }
  }

  /** The sort is ordered and a permutation of its input. */
  lemma {:induction false} SortBySorted<T(!new)>(s: seq<T>, le: (T, T) -> bool)
    requires TotalPreorder(le)
    ensures SortedBy(SortBy(s, le), le)
    ensures multiset(SortBy(s, le)) == multiset(s)
  {
    if |s| > 0 {
      SortBySorted(s[1..], le);
      InsertSorted(s[0], SortBy(s[1..], le), le);
    }
  }

  function KeySet<T(==), K>(s: seq<T>, key: T -> K): set<K>
  {
    set y | y in s :: key(y)
  }

  lemma KeySetCons<T, K>(s: seq<T>, key: T -> K)
    requires |s| > 0
    ensures KeySet(s, key) == {key(s[0])} + KeySet(s[1..], key)
  {
    assert s == [s[0]] + s[1..];
    assert forall y :: y in s <==> y == s[0] || y in s[1..];
  }

  /** The elements of `s` whose key is not in `seen` and has not occurred before them. */
  function DistinctFrom<T(==), K(==)>(s: seq<T>, key: T -> K, seen: set<K>): seq<T>
  {
    if |s| == 0 then []
    else if key(s[0]) in seen then DistinctFrom(s[1..], key, seen)
    else [s[0]] + DistinctFrom(s[1..], key, seen + {key(s[0])})
  }

  /** What is kept comes from `s` with an unseen key, no key is kept twice, and every unseen key is kept. */
  lemma {:induction false} DistinctFromKeeps<T, K>(s: seq<T>, key: T -> K, seen: set<K>)
    ensures var r := DistinctFrom(s, key, seen);
            && (forall y :: y in r ==> y in s && key(y) !in seen)
            && (forall i, j :: 0 <= i < j < |r| ==> key(r[i]) != key(r[j]))
            && KeySet(r, key) == KeySet(s, key) - seen
  {
    if |s| > 0 {
      KeySetCons(s, key);
      if key(s[0]) in seen {
        DistinctFromKeeps(s[1..], key, seen);
      } else {
        var seen' := seen + {key(s[0])};
        var rest := DistinctFrom(s[1..], key, seen');
        DistinctFromKeeps(s[1..], key, seen');
        var r := [s[0]] + rest;
        assert DistinctFrom(s, key, seen) == r;
        KeySetCons(r, key);
        assert r[1..] == rest;
        forall i, j | 0 <= i < j < |r| ensures key(r[i]) != key(r[j]) {
          assert r[j] == rest[j - 1];
          if i > 0 {
            assert r[i] == rest[i - 1];
          } else {
            assert r[j] in rest;
          }
        }
      }
    }
  }

  /** Enumerable.Distinct under the equality "same key": the first element of each key, in order. */
  function DistinctBy<T(==), K(==)>(s: seq<T>, key: T -> K): (r: seq<T>)
    ensures forall y :: y in r ==> y in s
    ensures forall i, j :: 0 <= i < j < |r| ==> key(r[i]) != key(r[j])
    ensures KeySet(r, key) == KeySet(s, key)
  {
    DistinctFromKeeps(s, key, {});
    DistinctFrom(s, key, {})
  }

  /** Appending one element: it is kept exactly when its key is new. */
  lemma {:induction false} DistinctFromSnoc<T, K>(s: seq<T>, x: T, key: T -> K, seen: set<K>)
    ensures DistinctFrom(s + [x], key, seen) ==
            DistinctFrom(s, key, seen) + (if key(x) in seen + KeySet(s, key) then [] else [x])
  {
    if |s| == 0 {
      assert s + [x] == [x];
      assert [x][1..] == [];
    } else {
      assert (s + [x])[1..] == s[1..] + [x];
      KeySetCons(s, key);
      var seen' := if key(s[0]) in seen then seen else seen + {key(s[0])};
      DistinctFromSnoc(s[1..], x, key, seen');
    }
  }

  /** Dropping elements keeps a sorted sequence sorted. */
  lemma {:induction false} DistinctFromSorted<T, K>(s: seq<T>, key: T -> K, seen: set<K>, le: (T, T) -> bool)
    requires SortedBy(s, le)
    ensures SortedBy(DistinctFrom(s, key, seen), le)
  {
    if |s| > 0 {
      var seen' := if key(s[0]) in seen then seen else seen + {key(s[0])};
      var rest := DistinctFrom(s[1..], key, seen');
      DistinctFromSorted(s[1..], key, seen', le);
      if key(s[0]) !in seen {
        DistinctFromKeeps(s[1..], key, seen');
        var r := [s[0]] + rest;
        assert DistinctFrom(s, key, seen) == r;
        forall i, j | 0 <= i < j < |r| ensures le(r[i], r[j]) {
          assert r[j] == rest[j - 1];
          if i == 0 {
            assert rest[j - 1] in rest;
            assert r[j] in s[1..];
            var k :| 0 <= k < |s[1..]| && s[1..][k] == r[j];
            assert le(s[0], s[k + 1]);
          } else {
            assert r[i] == rest[i - 1];
          }
        }
      }
    }
  }

  /** The first position whose element satisfies `p` (Enumerable.First / a search loop with break). */
  function FirstIndex<T>(s: seq<T>, p: T -> bool): (r: Option<nat>)
    ensures r.Some? ==> r.value < |s| && p(s[r.value])
    ensures r.Some? ==> forall k :: 0 <= k < r.value ==> !p(s[k])
    ensures r.None? ==> forall k :: 0 <= k < |s| ==> !p(s[k])
  {
    if |s| == 0 then None
    else if p(s[0]) then Some(0)
    else match FirstIndex(s[1..], p)
      case None => None
      case Some(i) => Some(i + 1)
  }

  /** A search that passed `j` elements without a hit and hits at `j` finds `j`. */
  lemma FirstIndexAt<T>(s: seq<T>, p: T -> bool, j: nat)
    requires j < |s| && p(s[j])
    requires forall k :: 0 <= k < j ==> !p(s[k])
    ensures FirstIndex(s, p) == Some(j)
  {
  }

  /** A foreach loop that breaks at the first element satisfying `p`. */
  method FindFirst<T>(s: seq<T>, p: T -> bool) returns (found: Option<nat>)
    ensures found == FirstIndex(s, p)
  {
    var j := 0;
    while j < |s|
      invariant 0 <= j <= |s|
      invariant forall k :: 0 <= k < j ==> !p(s[k])
    {
      if !p(s[j]) {
        j := j + 1;
        continue;
      }
      FirstIndexAt(s, p, j);
      return Some(j);
    }
    return None;
  }

  /** Enumerable.Where: the elements of `s` that satisfy `p`, in order. */
  function Filter<T>(s: seq<T>, p: T -> bool): (r: seq<T>)
    ensures |r| <= |s|
    ensures forall k :: 0 <= k < |r| ==> r[k] in s && p(r[k])
    ensures forall k :: 0 <= k < |s| && p(s[k]) ==> s[k] in r
  {
    if |s| == 0 then []
    else
      assert s == [s[0]] + s[1..];
      (if p(s[0]) then [s[0]] else []) + Filter(s[1..], p)
  }

  /** `x` passed through every processor of `fs`, in list order, each taking the previous output. */
  function RunAll<A>(x: A, fs: seq<A -> A>): A
  {
    if |fs| == 0 then x else fs[|fs| - 1](RunAll(x, fs[..|fs| - 1]))
  }

  /** A foreach loop over the processors, each replacing the value by its output. */
  method RunProcessors<A>(x: A, fs: seq<A -> A>) returns (y: A)
    ensures y == RunAll(x, fs)
  {
    y := x;
    for k := 0 to |fs|
      invariant y == RunAll(x, fs[..k])
    {
      assert fs[..k + 1][..k] == fs[..k];
      y := fs[k](y);
    }
    assert fs[..|fs|] == fs;
  }

  lemma {:induction false} RunAllAppend<A>(x: A, fs: seq<A -> A>, gs: seq<A -> A>)
    ensures RunAll(x, fs + gs) == RunAll(RunAll(x, fs), gs)
  {
    if |gs| > 0 {
      var gs' := gs[..|gs| - 1];
      assert (fs + gs)[..|fs + gs| - 1] == fs + gs';
      RunAllAppend(x, fs, gs');
    } else {
      assert fs + gs == fs;
    }
  }

  /** The first processor of the list sees the original input. */
  lemma RunAllFirst<A>(x: A, f: A -> A, fs: seq<A -> A>)
    ensures RunAll(x, [f] + fs) == RunAll(f(x), fs)
  {
    RunAllAppend(x, [f], fs);
    assert [f][..0] == [];
  }
}
