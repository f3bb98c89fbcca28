/**
  The two JavaScript array builtins the allocator relies on, on values:
  `Array.prototype.filter` and `Array.prototype.sort` with a comparator.

  `sort` is stable (ECMAScript 2019 onwards), so for a comparator `cmp` the
  result is the stable sorting by `le(a, b) := cmp(a, b) <= 0`. An insertion
  sort that places each element before the first element it is `le` to
  computes exactly that ordering; ties keep their input order.
*/
module JsArray {

  /** `s.filter(p)`: the elements of `s` satisfying `p`, in their order. */
  function Filter<T(!new)>(s: seq<T>, p: T -> bool): (r: seq<T>)
    ensures |r| <= |s|
    ensures forall x :: x in r <==> x in s && p(x)
    decreases |s|
  {
    if s == [] then []
    else
      var init := Filter(s[..|s| - 1], p);
      if p(s[|s| - 1]) then init + [s[|s| - 1]] else init
  }

  /** Filtering one more element appends it when it passes. */
  lemma FilterSnoc<T(!new)>(s: seq<T>, x: T, p: T -> bool)
    ensures Filter(s + [x], p) == Filter(s, p) + (if p(x) then [x] else [])
  {
    assert (s + [x])[..|s|] == s;
  }

  /** Filtering distributes over concatenation: the passing elements of
      `s + t` are those of `s` followed by those of `t`. */
  lemma {:induction false} FilterAppend<T(!new)>(s: seq<T>, t: seq<T>, p: T -> bool)
    ensures Filter(s + t, p) == Filter(s, p) + Filter(t, p)
    decreases |t|
  {
    if t != [] {
      var init, last := t[..|t| - 1], t[|t| - 1];
      assert t == init + [last];
      assert s + t == (s + init) + [last];
      FilterAppend(s, init, p);
      FilterSnoc(s + init, last, p);
      FilterSnoc(init, last, p);
    } else {
      assert s + t == s;
    }
  }

  /** A one-element list keeps its element exactly when it passes. */
  lemma FilterSingleton<T(!new)>(x: T, p: T -> bool)
    ensures Filter([x], p) == if p(x) then [x] else []
  {
    FilterSnoc([], x, p);
  }

  /** Filtering a list with a first element. */
  lemma FilterCons<T(!new)>(x: T, t: seq<T>, p: T -> bool)
    ensures Filter([x] + t, p) == (if p(x) then [x] else []) + Filter(t, p)
  {
    FilterAppend([x], t, p);
    FilterSingleton(x, p);
  }

  /** `r` is `s` with exactly the elements passing `p` kept, in their order:
      `idx` lists the kept positions of `s`, strictly increasing, and every
      passing position is listed. */
  ghost predicate Selects<T>(s: seq<T>, r: seq<T>, idx: seq<int>, p: T -> bool)
  {
    && |idx| == |r|
    && (forall k :: 0 <= k < |idx| ==> 0 <= idx[k] < |s| && r[k] == s[idx[k]])
    && (forall k1, k2 :: 0 <= k1 < k2 < |idx| ==> idx[k1] < idx[k2])
    && (forall m :: 0 <= m < |s| && p(s[m]) ==> m in idx)
  }

  /** Extending a selection by one more element of the input. */
  lemma SelectsSnoc<T>(s: seq<T>, r: seq<T>, idx: seq<int>, p: T -> bool, x: T)
    requires Selects(s, r, idx, p)
    ensures p(x) ==> Selects(s + [x], r + [x], idx + [|s|], p)
    ensures !p(x) ==> Selects(s + [x], r, idx, p)
  {
    var s', idx' := s + [x], if p(x) then idx + [|s|] else idx;
    forall m | 0 <= m < |s'| && p(s'[m]) ensures m in idx' {
      if m < |s| {
        assert s'[m] == s[m];
        assert m in idx;
      } else {
        assert idx'[|idx'| - 1] == m;
      }
    }
  }

  /** The filter keeps every passing element, in order and with its
      multiplicity, and nothing else. */
  lemma {:induction false} FilterSelects<T(!new)>(s: seq<T>, p: T -> bool)
    ensures exists idx :: Selects(s, Filter(s, p), idx, p)
    decreases |s|
  {
    if s == [] {
      assert Selects(s, Filter(s, p), [], p);
    } else {
      var init, last := s[..|s| - 1], s[|s| - 1];
      assert s == init + [last];
      FilterSelects(init, p);
      var idx0 :| Selects(init, Filter(init, p), idx0, p);
      FilterSnoc(init, last, p);
      SelectsSnoc(init, Filter(init, p), idx0, p, last);
    }
  }

  /** When every element passes, filtering changes nothing. */
  lemma {:induction false} FilterAll<T(!new)>(s: seq<T>, p: T -> bool)
    requires forall x :: x in s ==> p(x)
    ensures Filter(s, p) == s
    decreases |s|
  {
    if s != [] {
      var init := s[..|s| - 1];
      assert forall x :: x in init ==> x in s;
      FilterAll(init, p);
      assert init + [s[|s| - 1]] == s;
    }
  }

  /** `le` is total and transitive: what a consistent comparator gives. */
  ghost predicate TotalPreorder<T(!new)>(le: (T, T) -> bool)
  {
    && (forall a, b :: le(a, b) || le(b, a))
    && (forall a, b, c :: le(a, b) && le(b, c) ==> le(a, c))
  }

  predicate SortedBy<T>(s: seq<T>, le: (T, T) -> bool)
  {
    forall i, j :: 0 <= i < j < |s| ==> le(s[i], s[j])
  }

  /** Places `x` before the first element of `s` it may precede. */
  function Insert<T>(x: T, s: seq<T>, le: (T, T) -> bool): (r: seq<T>)
    ensures |r| == |s| + 1
  {
    if s == [] || le(x, s[0]) then [x] + s
    else [s[0]] + Insert(x, s[1..], le)
  }

  /** The stable sort of `s` under `le`. */
  function InsertionSort<T>(s: seq<T>, le: (T, T) -> bool): (r: seq<T>)
    ensures |r| == |s|
  {
    if s == [] then []
    else Insert(s[0], InsertionSort(s[1..], le), le)
  }

  /** Inserting adds exactly `x`. */
  lemma {:induction false} InsertPermutes<T>(x: T, s: seq<T>, le: (T, T) -> bool)
    ensures multiset(Insert(x, s, le)) == multiset(s) + multiset{x}
  {
    if s != [] && !le(x, s[0]) {
      InsertPermutes(x, s[1..], le);
      assert s == [s[0]] + s[1..];
    }
  }

  /** The sort is a permutation of its input. */
  lemma {:induction false} SortPermutes<T>(s: seq<T>, le: (T, T) -> bool)
    ensures multiset(InsertionSort(s, le)) == multiset(s)
  {
    if s != [] {
      SortPermutes(s[1..], le);
      InsertPermutes(s[0], InsertionSort(s[1..], le), le);
      assert s == [s[0]] + s[1..];
    }
  }

  lemma {:induction false} InsertSorted<T(!new)>(x: T, s: seq<T>, le: (T, T) -> bool)
    requires TotalPreorder(le) && SortedBy(s, le)
    ensures SortedBy(Insert(x, s, le), le)
  {
    if s == [] || le(x, s[0]) {
      var r := [x] + s;
      forall i, j | 0 <= i < j < |r| ensures le(r[i], r[j]) {
        if i == 0 && j > 1 {
          assert le(x, s[0]) && le(s[0], s[j - 1]);
        }
      }
    } else {
      var rest := Insert(x, s[1..], le);
      InsertSorted(x, s[1..], le);
      InsertPermutes(x, s[1..], le);
      assert le(s[0], x);
      forall y | y in rest ensures le(s[0], y) {
        assert y in multiset(rest);
        if y != x {
          assert y in s[1..];
        }
      }
      var r := [s[0]] + rest;
      forall i, j | 0 <= i < j < |r| ensures le(r[i], r[j]) {
        if i == 0 {
          assert r[j] in rest;
        } else {
          assert r[i] == rest[i - 1] && r[j] == rest[j - 1];
        }
      }
    }
  }

  /** The insertion sort orders its result by `le`. */
  lemma {:induction false} SortSorted<T(!new)>(s: seq<T>, le: (T, T) -> bool)
    requires TotalPreorder(le)
    ensures SortedBy(InsertionSort(s, le), le)
  {
    if s != [] {
      SortSorted(s[1..], le);
      InsertSorted(s[0], InsertionSort(s[1..], le), le);
    }
  }

  /** Two permutations of each other hold the same elements. */
  lemma PermutationSameElements<T>(a: seq<T>, b: seq<T>)
    requires multiset(a) == multiset(b)
    ensures forall x :: x in a <==> x in b
  {
    forall x ensures x in a <==> x in b {
      assert x in a <==> x in multiset(a);
      assert x in b <==> x in multiset(b);
    }
  }

  /** The elements tied with `a` under `le`. */
  function TiedWith<T>(le: (T, T) -> bool, a: T): T -> bool
  {
    (y: T) => le(y, a) && le(a, y)
  }

  /** Under a total preorder, two elements tied with the same `a` may
      precede each other. */
  lemma TiesRelated<T(!new)>(le: (T, T) -> bool, a: T)
    requires TotalPreorder(le)
    ensures forall x, y :: TiedWith(le, a)(x) && TiedWith(le, a)(y) ==> le(x, y)
  {
    forall x, y | TiedWith(le, a)(x) && TiedWith(le, a)(y) ensures le(x, y) {
      assert le(x, a) && le(a, y);
    }
  }

  /** Inserting `x` puts it before every element tied with it. */
  lemma {:induction false} InsertKeepsTies<T(!new)>(x: T, s: seq<T>, le: (T, T) -> bool, a: T)
    requires forall y, z :: TiedWith(le, a)(y) && TiedWith(le, a)(z) ==> le(y, z)
    ensures Filter(Insert(x, s, le), TiedWith(le, a)) ==
              (if TiedWith(le, a)(x) then [x] else []) + Filter(s, TiedWith(le, a))
  {
    var q := TiedWith(le, a);
    if s == [] || le(x, s[0]) {
      FilterCons(x, s, q);
    } else {
      var y, rest := s[0], s[1..];
      assert s == [y] + rest;
      var ins := Insert(x, rest, le);
      assert Insert(x, s, le) == [y] + ins;
      assert !(q(x) && q(y));
      InsertKeepsTies(x, rest, le, a);
      FilterCons(y, ins, q);
      FilterCons(y, rest, q);
    }
  }

  /** The sort is stable: the elements tied with any `a` appear in the result
      in the same order, and as often, as in the input. */
  lemma {:induction false} SortStable<T(!new)>(s: seq<T>, le: (T, T) -> bool, a: T)
    requires TotalPreorder(le)
    ensures Filter(InsertionSort(s, le), TiedWith(le, a)) == Filter(s, TiedWith(le, a))
  {
    if s != [] {
      var q := TiedWith(le, a);
      SortStable(s[1..], le, a);
      TiesRelated(le, a);
      InsertKeepsTies(s[0], InsertionSort(s[1..], le), le, a);
      assert s == [s[0]] + s[1..];
      FilterCons(s[0], s[1..], q);
    }
  }

  /** In a sequence sorted by a reflexive `le`, the first element may precede
      every element and every element may precede the last. */
  lemma SortedExtremes<T>(s: seq<T>, le: (T, T) -> bool)
    requires |s| >= 1 && SortedBy(s, le)
    requires forall x :: x in s ==> le(x, x)
    ensures forall x :: x in s ==> le(s[0], x) && le(x, s[|s| - 1])
  {
    forall x | x in s ensures le(s[0], x) && le(x, s[|s| - 1]) {
      var k :| 0 <= k < |s| && s[k] == x;
      if k != 0 { assert le(s[0], s[k]); }
      if k != |s| - 1 { assert le(s[k], s[|s| - 1]); }
    }
  }

  /** Cutting a sorted sequence in two: everything before the cut may precede
      everything after it. */
  lemma SortedSplit<T>(s: seq<T>, le: (T, T) -> bool, k: int)
    requires SortedBy(s, le) && 0 <= k <= |s|
    ensures forall x, y :: x in s[..k] && y in s[k..] ==> le(x, y)
  {
    forall x, y | x in s[..k] && y in s[k..] ensures le(x, y) {
      var i :| 0 <= i < k && s[..k][i] == x;
      var j :| 0 <= j < |s| - k && s[k..][j] == y;
      assert s[i] == x && s[k + j] == y;
    }
  }

  /** A slice of a sorted sequence is sorted. */
  lemma SortedSlice<T>(s: seq<T>, le: (T, T) -> bool, i: int, k: int)
    requires SortedBy(s, le) && 0 <= i <= k <= |s|
    ensures SortedBy(s[i..k], le)
  {
    forall x, y | 0 <= x < y < k - i ensures le(s[i..k][x], s[i..k][y]) {
      assert s[i..k][x] == s[i + x] && s[i..k][y] == s[i + y];
    }
  }
}
