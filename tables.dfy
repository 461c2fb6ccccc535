/** Query building blocks shared by the local and the remote tables: picking the rows of
    a finite table that pass a condition, in the order a query asks for, and filtering
    a list while keeping its order. */
module Tables {

  predicate Distinct<V(==)>(r: seq<V>) {
    forall i, j :: 0 <= i < j < |r| ==> r[i] != r[j]
  }

  /** Every earlier element may precede every later one. */
  ghost predicate SortedBy<V>(r: seq<V>, before: (V, V) -> bool) {
    forall i, j :: 0 <= i < j < |r| ==> before(r[i], r[j])
  }

  /** `before` is a total preorder on `rows`: any two rows are comparable, and the order is transitive. */
  ghost predicate TotalPreorderOn<V(!new)>(rows: set<V>, before: (V, V) -> bool) {
    && (forall a, b :: a in rows && b in rows ==> before(a, b) || before(b, a))
    && (forall a, b, c :: a in rows && b in rows && c in rows && before(a, b) && before(b, c) ==> before(a, c))
  }

  /** A query over a table with an ORDER BY: exactly the rows passing `keep`, each once,
      in an order `before` accepts. Rows that `before` ranks equally come out in any order. */
  method SelectOrdered<V(==, !new)>(rows: set<V>, keep: V -> bool, before: (V, V) -> bool) returns (r: seq<V>)
    requires TotalPreorderOn(rows, before)
    ensures forall v :: v in r <==> v in rows && keep(v)
    ensures Distinct(r)
    ensures SortedBy(r, before)
  {
    r := [];
    var rest := rows;
    while rest != {}
      invariant rest <= rows
      invariant forall v :: v in r <==> v in rows && v !in rest && keep(v)
      invariant Distinct(r)
      invariant SortedBy(r, before)
      decreases rest
    {
      var v :| v in rest;
      rest := rest - {v};
      if keep(v) {
        var pos := 0;
        while pos < |r| && before(r[pos], v)
          invariant 0 <= pos <= |r|
          invariant forall i :: 0 <= i < pos ==> before(r[i], v)
        {
          pos := pos + 1;
        }
        InsertKeepsOrder(rows, before, r, pos, v);
        r := r[..pos] + [v] + r[pos..];
      }
    }
  }

  /** `r` is what an ordered query with a LIMIT returns: rows passing `keep`, each once, in an
      order `before` accepts, at most `limit` of them, and every qualifying row left out comes
      after all of them (so rows are only dropped when the limit is reached). */
  ghost predicate IsFirstPage<V(!new)>(r: seq<V>, rows: set<V>, keep: V -> bool, before: (V, V) -> bool, limit: int) {
    && |r| <= limit
    && (forall v :: v in r ==> v in rows && keep(v))
    && Distinct(r)
    && SortedBy(r, before)
    && (forall v :: v in rows && keep(v) && v !in r ==> |r| == limit && forall i :: 0 <= i < |r| ==> before(r[i], v))
  }

  /** A query with an ORDER BY and a LIMIT. */
  method SelectFirst<V(==, !new)>(rows: set<V>, keep: V -> bool, before: (V, V) -> bool, limit: nat) returns (r: seq<V>)
    requires TotalPreorderOn(rows, before)
    ensures IsFirstPage(r, rows, keep, before, limit)
  {
    var all := SelectOrdered(rows, keep, before);
    var n := if limit < |all| then limit else |all|;
    r := all[..n];
    forall v | v in rows && keep(v) && v !in r
      ensures |r| == limit && forall i :: 0 <= i < |r| ==> before(r[i], v)
    {
      var k :| 0 <= k < |all| && all[k] == v;
      assert k >= n;
    }
  }

  /** Inserting `v` after every element that may precede it, and before the first one that
      may not, keeps the sequence ordered. */
  lemma InsertKeepsOrder<V(!new)>(rows: set<V>, before: (V, V) -> bool, r: seq<V>, pos: nat, v: V)
    requires TotalPreorderOn(rows, before)
    requires v in rows && forall i :: 0 <= i < |r| ==> r[i] in rows
    requires SortedBy(r, before)
    requires pos <= |r|
    requires forall i :: 0 <= i < pos ==> before(r[i], v)
    requires pos < |r| ==> !before(r[pos], v)
    ensures SortedBy(r[..pos] + [v] + r[pos..], before)
  {
    var s := r[..pos] + [v] + r[pos..];
    forall j | pos < j < |s| ensures before(v, s[j]) {
      assert before(v, r[pos]);
      if j > pos + 1 {
        assert before(r[pos], r[j - 1]);
      }
    }
  }

  /** `r` is `s` with some elements left out and the rest in their order: matching each
      element of `r` against the earliest element of `s` still available. */
  predicate SubsequenceOf<T(==)>(r: seq<T>, s: seq<T>)
    decreases |s|
  {
    if r == [] then true
    else if s == [] then false
    else if r[0] == s[0] then SubsequenceOf(r[1..], s[1..])
    else SubsequenceOf(r, s[1..])
  }

  /** Kotlin's `filter`: the elements passing `p`, in their original order, each as often as
      it occurs. An order-preserving subsequence with those multiplicities is unique. */
  function Filter<T(!new)>(s: seq<T>, p: T -> bool): (r: seq<T>)
    ensures |r| <= |s|
    ensures forall x :: x in r <==> x in s && p(x)
    ensures forall i :: 0 <= i < |r| ==> p(r[i])
    ensures forall x :: multiset(r)[x] == if p(x) then multiset(s)[x] else 0
    ensures SubsequenceOf(r, s)
  {
    if s == [] then []
    else
      assert s == [s[0]] + s[1..];
      if p(s[0]) then [s[0]] + Filter(s[1..], p)
      else Filter(s[1..], p)
  }

  /** Filtering a concatenation filters each part and concatenates the answers. */
  lemma {:induction false} FilterAppend<T(!new)>(a: seq<T>, b: seq<T>, p: T -> bool)
    ensures Filter(a + b, p) == Filter(a, p) + Filter(b, p)
  {
    if a == [] {
      assert a + b == b;
    } else {
      assert (a + b)[0] == a[0] && (a + b)[1..] == a[1..] + b;
      FilterAppend(a[1..], b, p);
    }
  }

  /** Filtering one element keeps it exactly when it passes. */
  lemma FilterSingleton<T(!new)>(x: T, p: T -> bool)
    ensures Filter([x], p) == if p(x) then [x] else []
  {
    assert [x][1..] == [];
  }

  /** The keys of a list's elements. */
  function KeysOf<T, K(==)>(s: seq<T>, key: T -> K): (r: set<K>)
    ensures forall i :: 0 <= i < |s| ==> key(s[i]) in r
    ensures forall k :: k in r ==> exists i :: 0 <= i < |s| && key(s[i]) == k
  {
    if s == [] then {} else {key(s[0])} + KeysOf(s[1..], key)
  }

  predicate KeysDistinct<T, K(==)>(s: seq<T>, key: T -> K) {
    forall i, j :: 0 <= i < j < |s| ==> key(s[i]) != key(s[j])
  }

  /** Kotlin's `distinctBy`, continued after the keys in `seen` have been met: the first
      element of each key not yet seen, in list order. */
  function DistinctByFrom<T, K(==)>(s: seq<T>, key: T -> K, seen: set<K>): (r: seq<T>)
    ensures forall x :: x in r ==> x in s && key(x) !in seen
    ensures KeysDistinct(r, key)
    ensures forall i :: 0 <= i < |s| && key(s[i]) !in seen ==> key(s[i]) in KeysOf(r, key)
    decreases |s|
  {
    if s == [] then []
    else if key(s[0]) in seen then DistinctByFrom(s[1..], key, seen)
    else [s[0]] + DistinctByFrom(s[1..], key, seen + {key(s[0])})
  }

  /** `distinctBy`: the first element of each key, in list order. */
  function DistinctBy<T, K(==)>(s: seq<T>, key: T -> K): (r: seq<T>)
    ensures forall x :: x in r ==> x in s
    ensures KeysDistinct(r, key)
    ensures forall x :: x in s ==> exists y :: y in r && key(y) == key(x)
  {
    DistinctByFrom(s, key, {})
  }

  /** A prefix whose keys are already distinct, and new, passes through `distinctBy` whole. */
  lemma {:induction false} DistinctByAppend<T, K>(a: seq<T>, b: seq<T>, key: T -> K, seen: set<K>)
    requires KeysDistinct(a, key)
    requires forall i :: 0 <= i < |a| ==> key(a[i]) !in seen
    ensures DistinctByFrom(a + b, key, seen) == a + DistinctByFrom(b, key, seen + KeysOf(a, key))
    decreases |a|
  {
    if a == [] {
      assert a + b == b;
      assert seen + KeysOf(a, key) == seen;
    } else {
      var s := a + b;
      var seen' := seen + {key(a[0])};
      assert s[0] == a[0] && s[1..] == a[1..] + b;
      assert key(s[0]) !in seen;
      assert DistinctByFrom(s, key, seen) == [a[0]] + DistinctByFrom(a[1..] + b, key, seen');
      assert KeysDistinct(a[1..], key) by {
        forall i, j | 0 <= i < j < |a[1..]| ensures key(a[1..][i]) != key(a[1..][j]) {
          assert a[1..][i] == a[i + 1] && a[1..][j] == a[j + 1];
        }
      }
      forall i | 0 <= i < |a[1..]| ensures key(a[1..][i]) !in seen' {
        assert a[1..][i] == a[i + 1];
      }
      DistinctByAppend(a[1..], b, key, seen');
      var all := seen + KeysOf(a, key);
      assert seen' + KeysOf(a[1..], key) == all;
      var x := DistinctByFrom(b, key, all);
      assert DistinctByFrom(a[1..] + b, key, seen') == a[1..] + x;
      ConsAppend(a, x);
    }
  }

  lemma ConsAppend<T>(a: seq<T>, x: seq<T>)
    requires a != []
    ensures [a[0]] + (a[1..] + x) == a + x
  {
    assert [a[0]] + a[1..] == a;
  }

  /** Dropping elements keeps a sorted list sorted. */
  lemma {:induction false} DistinctByFromSorted<T, K>(s: seq<T>, key: T -> K, seen: set<K>, before: (T, T) -> bool)
    requires SortedBy(s, before)
    ensures SortedBy(DistinctByFrom(s, key, seen), before)
    decreases |s|
  {
    if s != [] {
      SortedTail(s, before);
      if key(s[0]) in seen {
        DistinctByFromSorted(s[1..], key, seen, before);
      } else {
        var rest := DistinctByFrom(s[1..], key, seen + {key(s[0])});
        DistinctByFromSorted(s[1..], key, seen + {key(s[0])}, before);
        forall y | y in rest ensures before(s[0], y) {
          var k :| 0 <= k < |s[1..]| && s[1..][k] == y;
          assert s[k + 1] == y;
        }
        SortedCons(s[0], rest, before);
      }
    }
  }

  lemma SortedTail<T>(s: seq<T>, before: (T, T) -> bool)
    requires s != [] && SortedBy(s, before)
    ensures SortedBy(s[1..], before)
  {
    forall i, j | 0 <= i < j < |s[1..]| ensures before(s[1..][i], s[1..][j]) {
      assert s[1..][i] == s[i + 1] && s[1..][j] == s[j + 1];
    }
  }

  lemma SortedCons<T>(h: T, t: seq<T>, before: (T, T) -> bool)
    requires SortedBy(t, before)
    requires forall y :: y in t ==> before(h, y)
    ensures SortedBy([h] + t, before)
  {
    var r := [h] + t;
    forall i, j | 0 <= i < j < |r| ensures before(r[i], r[j]) {
      assert r[j] == t[j - 1];
      if i > 0 {
        assert r[i] == t[i - 1];
      }
    }
  }

  /** Kotlin's `chunked(n)`: consecutive pieces of `n` elements, the last one possibly shorter. */
  function Chunked<T>(s: seq<T>, n: nat): (r: seq<seq<T>>)
    requires n > 0
    ensures forall i :: 0 <= i < |r| ==> 0 < |r[i]| <= n
    decreases |s|
  {
    if s == [] then []
    else if |s| <= n then [s]
    else [s[..n]] + Chunked(s[n..], n)
  }

  function Flatten<T>(chunks: seq<seq<T>>): seq<T> {
    if chunks == [] then [] else chunks[0] + Flatten(chunks[1..])
  }

  lemma {:induction false} FlattenAppend<T>(a: seq<seq<T>>, b: seq<seq<T>>)
    ensures Flatten(a + b) == Flatten(a) + Flatten(b)
    decreases |a|
  {
    if a == [] {
      assert a + b == b;
    } else {
      assert (a + b)[0] == a[0];
      assert (a + b)[1..] == a[1..] + b;
      FlattenAppend(a[1..], b);
    }
  }

  /** The chunks, put back together, are the original list. */
  lemma {:induction false} ChunkedFlatten<T>(s: seq<T>, n: nat)
    requires n > 0
    ensures Flatten(Chunked(s, n)) == s
    decreases |s|
  {
    if s == [] {
    } else if |s| <= n {
      assert Flatten([s]) == s + Flatten([s][1..]);
      assert [s][1..] == [];
    } else {
      ChunkedFlatten(s[n..], n);
      assert ([s[..n]] + Chunked(s[n..], n))[1..] == Chunked(s[n..], n);
      assert s[..n] + s[n..] == s;
    }
  }
}
