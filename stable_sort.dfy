/** A stable sort stated once for every comparator the site uses. JavaScript's
    `Array.prototype.sort` is stable, so with a comparator that is a total
    preorder its result is fully determined: the elements in comparator order,
    ties in input order. Insertion sort below produces exactly that order. */
module StableSort {

  /** `leq(a, b)` is the comparator's `compare(a, b) <= 0`. */
  ghost predicate TotalPreorder<T(!new)>(leq: (T, T) -> bool) {
    && (forall a, b :: leq(a, b) || leq(b, a))
    && (forall a, b, c :: leq(a, b) && leq(b, c) ==> leq(a, c))
  }

  ghost predicate Sorted<T>(s: seq<T>, leq: (T, T) -> bool) {
    forall i, j :: 0 <= i < j < |s| ==> leq(s[i], s[j])
  }

  /** The comparator considers `a` and `b` equal (`compare(a, b) == 0`). */
  predicate Tied<T>(a: T, b: T, leq: (T, T) -> bool) {
    leq(a, b) && leq(b, a)
  }

  /** The elements of `s` tied with `y`, in their order in `s`. */
  function TiedWith<T>(s: seq<T>, y: T, leq: (T, T) -> bool): (r: seq<T>)
    ensures |r| <= |s|
  {
    if s == [] then []
    else (if Tied(s[0], y, leq) then [s[0]] else []) + TiedWith(s[1..], y, leq)
  }

  /** A sort is stable when, for every element, the elements tied with it
      appear in the output in the order they had in the input. */
  ghost predicate Stable<T(!new)>(input: seq<T>, output: seq<T>, leq: (T, T) -> bool) {
    forall y :: TiedWith(output, y, leq) == TiedWith(input, y, leq)
  }

  /** The index of the first element of `t` that is strictly greater than `x`, or `|t|`. */
  function FirstGreater<T>(t: seq<T>, x: T, leq: (T, T) -> bool): (p: nat)
    ensures p <= |t|
    ensures forall i :: 0 <= i < p ==> leq(t[i], x)
    ensures p < |t| ==> !leq(t[p], x)
  {
    if t == [] || !leq(t[0], x) then 0 else 1 + FirstGreater(t[1..], x, leq)
  }

  /** Inserts `x` after every element that is not greater than it. */
  function Insert<T>(t: seq<T>, x: T, leq: (T, T) -> bool): seq<T> {
    var p := FirstGreater(t, x, leq);
    t[..p] + [x] + t[p..]
  }

  /** Stable insertion sort: each element, in input order, goes after every
      element already placed that is not greater than it. */
  function Sort<T>(s: seq<T>, leq: (T, T) -> bool): seq<T> {
    if s == [] then [] else Insert(Sort(s[..|s| - 1], leq), s[|s| - 1], leq)
  }

  // ---------------------------------------------------------------------------

  lemma {:induction false} TiedWithAppend<T>(a: seq<T>, b: seq<T>, y: T, leq: (T, T) -> bool)
    ensures TiedWith(a + b, y, leq) == TiedWith(a, y, leq) + TiedWith(b, y, leq)
  {
    if a != [] {
      assert (a + b)[1..] == a[1..] + b;
      TiedWithAppend(a[1..], b, y, leq);
    } else {
      assert a + b == b;
    }
  }

  lemma InsertPermutes<T>(t: seq<T>, x: T, leq: (T, T) -> bool)
    ensures multiset(Insert(t, x, leq)) == multiset(t) + multiset{x}
  {
    var p := FirstGreater(t, x, leq);
    assert t == t[..p] + t[p..];
  }

  lemma InsertSorted<T(!new)>(t: seq<T>, x: T, leq: (T, T) -> bool)
    requires TotalPreorder(leq)
    requires Sorted(t, leq)
    ensures Sorted(Insert(t, x, leq), leq)
  {
    var p := FirstGreater(t, x, leq);
    var r := Insert(t, x, leq);
    assert forall i :: p <= i < |t| ==> leq(x, t[i]) by {
      forall i | p <= i < |t| ensures leq(x, t[i]) {
        assert leq(t[p], t[i]) || p == i;
      }
    }
    forall i, j | 0 <= i < j < |r| ensures leq(r[i], r[j]) {
      if j < p || i > p {
        var i', j' := if i < p then i else i - 1, if j < p then j else j - 1;
        assert r[i] == t[i'] && r[j] == t[j'];
      } else if i == p {
        assert r[j] == t[j - 1];
      } else if j == p {
        assert r[i] == t[i];
      } else {
        assert r[i] == t[i] && r[j] == t[j - 1];
      }
    }
  }

  lemma InsertStable<T(!new)>(t: seq<T>, x: T, y: T, leq: (T, T) -> bool)
    requires TotalPreorder(leq)
    requires Sorted(t, leq)
    ensures TiedWith(Insert(t, x, leq), y, leq) == TiedWith(t + [x], y, leq)
  {
    var p := FirstGreater(t, x, leq);
    var front, back := t[..p], t[p..];
    assert t == front + back;
    var f, m, b := TiedWith(front, y, leq), TiedWith([x], y, leq), TiedWith(back, y, leq);
    TiedWithAppend(front + [x], back, y, leq);
    TiedWithAppend(front, [x], y, leq);
    TiedWithAppend(front, back, y, leq);
    TiedWithAppend(t, [x], y, leq);
    assert TiedWith(Insert(t, x, leq), y, leq) == f + m + b;
    assert TiedWith(t + [x], y, leq) == f + b + m;
    assert m == (if Tied(x, y, leq) then [x] else []) by {
      assert [x][1..] == [];
    }
    if Tied(x, y, leq) {
      NoneTied(back, x, y, leq);
      assert b == [];
    } else {
      assert m == [];
    }
    SwapEmpty(f, m, b);
  }

  /** Two neighbours commute when one of them is empty. */
  lemma SwapEmpty<U>(f: seq<U>, m: seq<U>, b: seq<U>)
    requires m == [] || b == []
    ensures f + m + b == f + b + m
  {
  }

  /** When `x` is tied with `y`, no element strictly above `x` is. */
  lemma {:induction false} NoneTied<T(!new)>(back: seq<T>, x: T, y: T, leq: (T, T) -> bool)
    requires TotalPreorder(leq)
    requires Sorted(back, leq)
    requires back != [] ==> !leq(back[0], x)
    requires Tied(x, y, leq)
    ensures TiedWith(back, y, leq) == []
  {
    if back != [] {
      assert !Tied(back[0], y, leq);
      assert |back| > 1 ==> leq(back[0], back[1]);
      assert |back| > 1 ==> !leq(back[1], x);
      NoneTied(back[1..], x, y, leq);
    }
  }

  // ---------------------------------------------------------------------------
  // The three facts about Sort

  lemma {:induction false} SortPermutes<T>(s: seq<T>, leq: (T, T) -> bool)
    ensures multiset(Sort(s, leq)) == multiset(s)
    ensures |Sort(s, leq)| == |s|
  {
    if s != [] {
      var init := s[..|s| - 1];
      SortPermutes(init, leq);
      InsertPermutes(Sort(init, leq), s[|s| - 1], leq);
      assert s == init + [s[|s| - 1]];
    }
  }

  lemma {:induction false} SortSorted<T(!new)>(s: seq<T>, leq: (T, T) -> bool)
    requires TotalPreorder(leq)
    ensures Sorted(Sort(s, leq), leq)
  {
    if s != [] {
      SortSorted(s[..|s| - 1], leq);
      InsertSorted(Sort(s[..|s| - 1], leq), s[|s| - 1], leq);
    }
  }

  lemma {:induction false} SortStable<T(!new)>(s: seq<T>, y: T, leq: (T, T) -> bool)
    requires TotalPreorder(leq)
    ensures TiedWith(Sort(s, leq), y, leq) == TiedWith(s, y, leq)
  {
    if s != [] {
      var init, x := s[..|s| - 1], s[|s| - 1];
      SortStable(init, y, leq);
      SortSorted(init, leq);
      InsertStable(Sort(init, leq), x, y, leq);
      TiedWithAppend(Sort(init, leq), [x], y, leq);
      TiedWithAppend(init, [x], y, leq);
      assert s == init + [x];
    }
  }

  /** Sort returns a sorted, stable permutation of its input. */
  lemma SortCorrect<T(!new)>(s: seq<T>, leq: (T, T) -> bool)
    requires TotalPreorder(leq)
    ensures multiset(Sort(s, leq)) == multiset(s)
    ensures Sorted(Sort(s, leq), leq)
    ensures Stable(s, Sort(s, leq), leq)
  {
    SortPermutes(s, leq);
    SortSorted(s, leq);
    forall y ensures TiedWith(Sort(s, leq), y, leq) == TiedWith(s, y, leq) {
      SortStable(s, y, leq);
    }
  }

  // ---------------------------------------------------------------------------
  // Sorting a sequence of groups keeps what the groups hold

  /** The concatenation of `f(x)` over the elements `x` of `s`, in order. */
  function FlatMap<T, U>(f: T -> seq<U>, s: seq<T>): seq<U> {
    if s == [] then [] else FlatMap(f, s[..|s| - 1]) + f(s[|s| - 1])
  }

  lemma {:induction false} FlatMapAppend<T, U>(f: T -> seq<U>, a: seq<T>, b: seq<T>)
    ensures FlatMap(f, a + b) == FlatMap(f, a) + FlatMap(f, b)
    decreases |b|
  {
    if b == [] {
      assert a + b == a;
    } else {
      var init := b[..|b| - 1];
      assert (a + b)[..|a + b| - 1] == a + init;
      FlatMapAppend(f, a, init);
    }
  }

  lemma FlatMapInsert<T, U>(f: T -> seq<U>, t: seq<T>, x: T, leq: (T, T) -> bool)
    ensures multiset(FlatMap(f, Insert(t, x, leq))) == multiset(FlatMap(f, t)) + multiset(f(x))
  {
    var p := FirstGreater(t, x, leq);
    FlatMapAppend(f, t[..p] + [x], t[p..]);
    FlatMapAppend(f, t[..p], [x]);
    FlatMapAppend(f, t[..p], t[p..]);
    assert t[..p] + t[p..] == t;
    assert FlatMap(f, [x]) == f(x) by {
      assert [x][..0] == [];
    }
  }

  lemma {:induction false} SortKeepsFlatMap<T, U>(f: T -> seq<U>, s: seq<T>, leq: (T, T) -> bool)
    ensures multiset(FlatMap(f, Sort(s, leq))) == multiset(FlatMap(f, s))
  {
    if s != [] {
      var init := s[..|s| - 1];
      SortKeepsFlatMap(f, init, leq);
      FlatMapInsert(f, Sort(init, leq), s[|s| - 1], leq);
    }
  }

  lemma SortMembers<T>(s: seq<T>, leq: (T, T) -> bool, x: T)
    ensures x in Sort(s, leq) <==> x in s
  {
    SortPermutes(s, leq);
    assert x in Sort(s, leq) <==> x in multiset(Sort(s, leq));
  }

  /** Replacing one element replaces its share of the concatenation. */
  lemma FlatMapUpdate<T, U>(f: T -> seq<U>, s: seq<T>, k: nat, x: T)
    requires k < |s|
    ensures multiset(FlatMap(f, s[k := x])) + multiset(f(s[k])) == multiset(FlatMap(f, s)) + multiset(f(x))
  {
    var front, back := s[..k], s[k + 1..];
    assert s == front + [s[k]] + back;
    assert s[k := x] == front + [x] + back;
    FlatMapAppend(f, front + [s[k]], back);
    FlatMapAppend(f, front, [s[k]]);
    FlatMapAppend(f, front + [x], back);
    FlatMapAppend(f, front, [x]);
    assert FlatMap(f, [x]) == f(x) by {
      assert [x][..0] == [];
    }
    assert FlatMap(f, [s[k]]) == f(s[k]) by {
      assert [s[k]][..0] == [];
    }
  }
  // ---------------------------------------------------------------------------
  // Sorting keeps keys apart

  ghost predicate KeysDistinct<T, K>(s: seq<T>, key: T -> K) {
    forall i, j :: 0 <= i < j < |s| ==> key(s[i]) != key(s[j])
  }

  lemma InsertKeepsDistinct<T, K>(t: seq<T>, x: T, leq: (T, T) -> bool, key: T -> K)
    requires KeysDistinct(t, key)
    requires forall y :: y in t ==> key(y) != key(x)
    ensures KeysDistinct(Insert(t, x, leq), key)
  {
    var p := FirstGreater(t, x, leq);
    var r := Insert(t, x, leq);
    forall i, j | 0 <= i < j < |r| ensures key(r[i]) != key(r[j]) {
      var i', j' := if i < p then i else i - 1, if j < p then j else j - 1;
      if i == p {
        assert r[j] == t[j'] && r[j] in t;
      } else if j == p {
        assert r[i] == t[i'] && r[i] in t;
      } else {
        assert r[i] == t[i'] && r[j] == t[j'] && i' < j';
      }
    }
  }

  /** A sort never puts two elements with the same key where there were none. */
  lemma {:induction false} SortKeepsDistinct<T, K>(s: seq<T>, leq: (T, T) -> bool, key: T -> K)
    requires KeysDistinct(s, key)
    ensures KeysDistinct(Sort(s, leq), key)
  {
    if s != [] {
      var init, x := s[..|s| - 1], s[|s| - 1];
      assert KeysDistinct(init, key);
      SortKeepsDistinct(init, leq, key);
      forall y | y in Sort(init, leq) ensures key(y) != key(x) {
        SortMembers(init, leq, y);
        var m :| 0 <= m < |init| && init[m] == y;
        assert s[m] == y;
      }
      InsertKeepsDistinct(Sort(init, leq), x, leq, key);
    }
  }
}
