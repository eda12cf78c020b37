/** Sorting by a total preorder (pandas `sort_values`, Python `sorted`/`list.sort`).
    The sort is a stable insertion sort: equal elements keep their input order. */
module Sorting {

  /** `le` compares every pair of values and is transitive. */
  ghost predicate TotalPreorder<T(!new)>(le: (T, T) -> bool)
  {
    && (forall a, b :: le(a, b) || le(b, a))
    && (forall a, b, c :: le(a, b) && le(b, c) ==> le(a, c))
  }

  predicate SortedBy<T>(s: seq<T>, le: (T, T) -> bool)
  {
    forall i, j :: 0 <= i < j < |s| ==> le(s[i], s[j])
  }

  /** Puts `x` after every element of the sorted `s` that does not exceed it. */
  function Insert<T(!new)>(s: seq<T>, x: T, le: (T, T) -> bool): (r: seq<T>)
    requires TotalPreorder(le) && SortedBy(s, le)
    ensures SortedBy(r, le)
    ensures multiset(r) == multiset(s) + multiset{x}
    ensures |r| == |s| + 1
    decreases |s|
  {
    if |s| == 0 then [x]
    else if le(s[|s| - 1], x) then s + [x]
    else
      var last := s[|s| - 1];
      var init := s[..|s| - 1];
      var r' := Insert(init, x, le);
      assert s == init + [last];
      BoundedRearrangement(r', init, x, last, le);
      SortedSnoc(r', last, le);
      r' + [last]
  }

  /** A rearrangement of `init` plus `x`, all of which are at most `last`, is at most `last`. */
  lemma BoundedRearrangement<T(!new)>(r: seq<T>, init: seq<T>, x: T, last: T, le: (T, T) -> bool)
    requires multiset(r) == multiset(init) + multiset{x}
    requires forall i | 0 <= i < |init| :: le(init[i], last)
    requires le(x, last)
    ensures forall i | 0 <= i < |r| :: le(r[i], last)
  {
    forall i | 0 <= i < |r| ensures le(r[i], last) {
      assert r[i] in multiset(r);
      assert r[i] == x || r[i] in multiset(init);
    }
  }

  /** Appending an upper bound keeps a list sorted. */
  lemma SortedSnoc<T>(r: seq<T>, y: T, le: (T, T) -> bool)
    requires SortedBy(r, le) && forall i | 0 <= i < |r| :: le(r[i], y)
    ensures SortedBy(r + [y], le)
  {
  }

  /** The sorted rearrangement of `s`. */
  function Sort<T(!new)>(s: seq<T>, le: (T, T) -> bool): (r: seq<T>)
    requires TotalPreorder(le)
    ensures SortedBy(r, le)
    ensures multiset(r) == multiset(s)
    ensures |r| == |s|
    decreases |s|
  {
    if |s| == 0 then []
    else
      assert s == s[..|s| - 1] + [s[|s| - 1]];
      Insert(Sort(s[..|s| - 1], le), s[|s| - 1], le)
  }

  /** The elements of `s` that tie with `v` under `le`, in their order in `s`. */
  function Tied<T>(s: seq<T>, v: T, le: (T, T) -> bool): seq<T>
  {
    if |s| == 0 then []
    else
      var x := s[|s| - 1];
      Tied(s[..|s| - 1], v, le) + (if le(x, v) && le(v, x) then [x] else [])
  }

  lemma {:induction false} TiedAppend<T>(a: seq<T>, b: seq<T>, v: T, le: (T, T) -> bool)
    ensures Tied(a + b, v, le) == Tied(a, v, le) + Tied(b, v, le)
    decreases |b|
  {
    if |b| == 0 {
      assert a + b == a;
    } else {
      assert (a + b)[..|a + b| - 1] == a + b[..|b| - 1];
      TiedAppend(a, b[..|b| - 1], v, le);
    }
  }

  /** Inserting `x` puts it after every element it ties with. */
  lemma {:induction false} InsertTied<T(!new)>(s: seq<T>, x: T, v: T, le: (T, T) -> bool)
    requires TotalPreorder(le) && SortedBy(s, le)
    ensures Tied(Insert(s, x, le), v, le) == Tied(s, v, le) + Tied([x], v, le)
    decreases |s|
  {
    if |s| == 0 {
    } else if le(s[|s| - 1], x) {
      TiedAppend(s, [x], v, le);
    } else {
      var last := s[|s| - 1];
      var init := s[..|s| - 1];
      var r' := Insert(init, x, le);
      assert Insert(s, x, le) == r' + [last];
      assert s == init + [last];
      InsertTied(init, x, v, le);
      TiedAppend(r', [last], v, le);
      TiedAppend(init, [last], v, le);
      var tx, tl := Tied([x], v, le), Tied([last], v, le);
      // `x` and `last` both tying with `v` would make `le(last, x)`.
      assert !(le(last, v) && le(v, x));
      assert tx == [] || tl == [];
      assert tl + tx == tx + tl;
    }
  }

  /** The sort is stable: the elements tying with any `v` keep their input order. */
  lemma {:induction false} SortStable<T(!new)>(s: seq<T>, v: T, le: (T, T) -> bool)
    requires TotalPreorder(le)
    ensures Tied(Sort(s, le), v, le) == Tied(s, v, le)
    decreases |s|
  {
    if |s| > 0 {
      var init := s[..|s| - 1];
      assert s == init + [s[|s| - 1]];
      SortStable(init, v, le);
      InsertTied(Sort(init, le), s[|s| - 1], v, le);
      TiedAppend(init, [s[|s| - 1]], v, le);
    }
  }

  /** A rearrangement has the same elements. */
  lemma PermutationMembers<T>(s: seq<T>, t: seq<T>)
    requires multiset(s) == multiset(t)
    ensures forall x :: x in s <==> x in t
  {
    forall x ensures x in s <==> x in t {
      assert x in s <==> x in multiset(s);
      assert x in t <==> x in multiset(t);
    }
  }
}
