/** Small facts about numbers, sets and sequences that several parts use. */
module Basics {
  import opened Wrappers

  function Min(a: nat, b: nat): nat {
    if a < b then a else b
  }

  lemma {:induction false} SubsetSize<T>(a: set<T>, b: set<T>)
    requires a <= b
    ensures |a| <= |b|
    decreases a
  {
    if a != {} {
      var x :| x in a;
      SubsetSize(a - {x}, b - {x});
    }
  }

  // ----- Parsing to the end -----

  /** What is left to parse, put after what has been parsed. */
  function Prepended<T, E>(parsed: seq<T>, rest: Result<seq<T>, E>): Result<seq<T>, E> {
    match rest case Err(e) => Err(e) case Ok(more) => Ok(parsed + more)
  }

  lemma PrependedSnoc<T, E>(parsed: seq<T>, next: T, rest: Result<seq<T>, E>)
    ensures Prepended(parsed, Prepended([next], rest)) == Prepended(parsed + [next], rest)
  {
    if rest.Ok? {
      assert parsed + ([next] + rest.value) == (parsed + [next]) + rest.value;
    }
  }

  lemma PrependedNothing<T, E>(parsed: seq<T>, rest: Result<seq<T>, E>)
    ensures Prepended([], rest) == rest && Prepended(parsed, Ok([])) == Result<seq<T>, E>.Ok(parsed)
  {
    assert parsed + [] == parsed;
    if rest.Ok? {
      assert [] + rest.value == rest.value;
    }
  }

  // ----- Stable sorting -----

  /** Puts `x` behind everything it does not come before, as a stable sort does. */
  function Placed<T>(before: (T, T) -> bool, sorted: seq<T>, x: T): (r: seq<T>)
    ensures |r| == |sorted| + 1
  {
    if sorted == [] then [x]
    else
      var n := |sorted| - 1;
      if before(x, sorted[n]) then Placed(before, sorted[..n], x) + [sorted[n]] else sorted + [x]
  }

  function Sorted<T>(before: (T, T) -> bool, s: seq<T>): (r: seq<T>)
    ensures |r| == |s|
  {
    if s == [] then [] else Placed(before, Sorted(before, s[..|s| - 1]), s[|s| - 1])
  }

  lemma {:induction false} PlacedKeeps<T>(before: (T, T) -> bool, sorted: seq<T>, x: T)
    ensures forall y :: y in Placed(before, sorted, x) <==> y in sorted || y == x
  {
    if sorted != [] {
      var n := |sorted| - 1;
      PlacedKeeps(before, sorted[..n], x);
      assert sorted == sorted[..n] + [sorted[n]];
    }
  }

  /** Sorting keeps exactly what it was given. */
  lemma {:induction false} SortedKeeps<T>(before: (T, T) -> bool, s: seq<T>)
    ensures forall y :: y in Sorted(before, s) <==> y in s
  {
    if s != [] {
      var n := |s| - 1;
      SortedKeeps(before, s[..n]);
      PlacedKeeps(before, Sorted(before, s[..n]), s[n]);
      assert s == s[..n] + [s[n]];
    }
  }

  predicate Distinct<T(==)>(s: seq<T>) {
    forall i, j :: 0 <= i < j < |s| ==> s[i] != s[j]
  }

  lemma AppendedDistinct<T>(front: seq<T>, last: T)
    requires Distinct(front) && last !in front
    ensures Distinct(front + [last])
  {
  }

  lemma ConcatDistinct<T>(a: seq<T>, b: seq<T>)
    requires Distinct(a) && Distinct(b) && forall x :: x in a ==> x !in b
    ensures Distinct(a + b)
  {
    forall i, j | 0 <= i < j < |a + b| ensures (a + b)[i] != (a + b)[j] {
      if i < |a| <= j {
        assert a[i] in a && b[j - |a|] in b;
      }
    }
  }

  lemma {:induction false} PlacedDistinct<T>(before: (T, T) -> bool, sorted: seq<T>, x: T)
    requires Distinct(sorted) && x !in sorted
    ensures Distinct(Placed(before, sorted, x))
  {
    if sorted != [] {
      var n := |sorted| - 1;
      PlacedDistinct(before, sorted[..n], x);
      PlacedKeeps(before, sorted[..n], x);
      AppendedDistinct(if before(x, sorted[n]) then Placed(before, sorted[..n], x) else sorted,
                       if before(x, sorted[n]) then sorted[n] else x);
    }
  }

  lemma {:induction false} SortedDistinct<T>(before: (T, T) -> bool, s: seq<T>)
    requires Distinct(s)
    ensures Distinct(Sorted(before, s))
  {
    if s != [] {
      var n := |s| - 1;
      SortedDistinct(before, s[..n]);
      SortedKeeps(before, s[..n]);
      PlacedDistinct(before, Sorted(before, s[..n]), s[n]);
    }
  }

  /** Nothing comes before what stands ahead of it. */
  predicate Ordered<T>(before: (T, T) -> bool, s: seq<T>) {
    forall i, j :: 0 <= i < j < |s| ==> !before(s[j], s[i])
  }

  /** A strict order on keys: what neither comes before the other may stand either way round. */
  ghost predicate IsWeakOrder<T(!new)>(before: (T, T) -> bool) {
    && (forall a, b :: before(a, b) ==> !before(b, a))
    && (forall a, b, c :: !before(b, a) && !before(c, b) ==> !before(c, a))
  }

  lemma AppendedOrders<T>(before: (T, T) -> bool, front: seq<T>, last: T)
    requires Ordered(before, front) && forall y :: y in front ==> !before(last, y)
    ensures Ordered(before, front + [last])
  {
    assert forall i :: 0 <= i < |front| ==> front[i] in front;
  }

  lemma {:induction false} PlacedOrders<T(!new)>(before: (T, T) -> bool, sorted: seq<T>, x: T)
    requires IsWeakOrder(before) && Ordered(before, sorted)
    ensures Ordered(before, Placed(before, sorted, x))
  {
    if sorted != [] {
      var n := |sorted| - 1;
      var front, last := sorted[..n], sorted[n];
      if before(x, last) {
        PlacedOrders(before, front, x);
        PlacedKeeps(before, front, x);
        forall y | y in Placed(before, front, x) ensures !before(last, y) {
          if y in front {
            var i :| 0 <= i < n && sorted[i] == y;
          }
        }
        AppendedOrders(before, Placed(before, front, x), last);
      } else {
        forall y | y in sorted ensures !before(x, y) {
          var i :| 0 <= i < |sorted| && sorted[i] == y;
          assert i < n ==> !before(last, y);
        }
        AppendedOrders(before, sorted, x);
      }
    }
  }

  lemma {:induction false} SortedOrders<T(!new)>(before: (T, T) -> bool, s: seq<T>)
    requires IsWeakOrder(before)
    ensures Ordered(before, Sorted(before, s))
  {
    if s != [] {
      var n := |s| - 1;
      SortedOrders(before, s[..n]);
      PlacedOrders(before, Sorted(before, s[..n]), s[n]);
    }
  }
}
