/** `Array.prototype.sort` with a consistent comparator. Since ECMAScript 2019 the sort is
    stable, so its result is fixed by the comparator: the permutation of the input that is
    ordered by the comparator and keeps equivalent elements in their input order. It is
    modelled here as insertion sort over a "sorts no later than" relation. */
module Sorting {

  /** `le` is total and transitive: the relation a comparator `c` induces by `c(a, b) <= 0`. */
  ghost predicate TotalPreorder<T(!new)>(le: (T, T) -> bool) {
    && (forall a, b :: le(a, b) || le(b, a))
    && (forall a, b, c :: le(a, b) && le(b, c) ==> le(a, c))
  }

  /** Every element sorts no later than every element after it. */
  ghost predicate SortedBy<T>(s: seq<T>, le: (T, T) -> bool) {
    forall i, j :: 0 <= i < j < |s| ==> le(s[i], s[j])
  }

  /** Neither sorts before the other under `le`. */
  predicate Equivalent<T>(le: (T, T) -> bool, a: T, b: T) {
    le(a, b) && le(b, a)
  }

  /** The elements of `s` equivalent to `x`, in their order in `s`. A sort is stable when it
      leaves this subsequence unchanged for every `x`. */
  function EquivalentsOf<T>(s: seq<T>, x: T, le: (T, T) -> bool): seq<T> {
    if s == [] then []
    else (if Equivalent(le, s[0], x) then [s[0]] else []) + EquivalentsOf(s[1..], x, le)
  }

  /** `x` placed after every element of `s` that sorts no later than it. */
  function Insert<T>(s: seq<T>, x: T, le: (T, T) -> bool): seq<T> {
    if s == [] then [x]
    else if le(s[0], x) then [s[0]] + Insert(s[1..], x, le)
    else [x] + s
  }

  /** The stable sort of `s` under `le`: its elements, each inserted in input order. */
  function SortBy<T(!new)>(s: seq<T>, le: (T, T) -> bool): (r: seq<T>)
    requires TotalPreorder(le)
    ensures multiset(r) == multiset(s)
    ensures SortedBy(r, le)
    ensures forall x :: EquivalentsOf(r, x, le) == EquivalentsOf(s, x, le)
    decreases |s|
  {
    if s == [] then []
    else
      var init := s[..|s| - 1];
      var last := s[|s| - 1];
      var sorted := SortBy(init, le);
      assert s == init + [last];
      InsertPermutes(sorted, last, le);
      InsertSorted(sorted, last, le);
      forall x ensures EquivalentsOf(Insert(sorted, last, le), x, le) == EquivalentsOf(s, x, le) {
        InsertEquivalents(sorted, last, x, le);
        EquivalentsAppend(init, [last], x, le);
      }
      Insert(sorted, last, le)
  }

  lemma {:induction false} InsertPermutes<T>(s: seq<T>, x: T, le: (T, T) -> bool)
    ensures multiset(Insert(s, x, le)) == multiset(s) + multiset{x}
  {
    if s != [] && le(s[0], x) {
      InsertPermutes(s[1..], x, le);
      assert s == [s[0]] + s[1..];
    }
  }

  lemma {:induction false} InsertSorted<T(!new)>(s: seq<T>, x: T, le: (T, T) -> bool)
    requires TotalPreorder(le)
    requires SortedBy(s, le)
    ensures SortedBy(Insert(s, x, le), le)
  {
    if s != [] && le(s[0], x) {
      InsertSorted(s[1..], x, le);
      var rest := Insert(s[1..], x, le);
      InsertPermutes(s[1..], x, le);
      forall j | 0 <= j < |rest| ensures le(s[0], rest[j]) {
        assert rest[j] in multiset(rest);
        assert rest[j] == x || rest[j] in multiset(s[1..]);
        if rest[j] != x {
          var k :| 0 <= k < |s[1..]| && s[1..][k] == rest[j];
          assert s[k + 1] == rest[j];
        }
      }
    } else if s != [] {
      assert le(x, s[0]);
    }
  }

  /** Inserting into a sorted sequence appends `x` to its class of equivalents and leaves the
      other classes alone. */
  lemma {:induction false} InsertEquivalents<T(!new)>(s: seq<T>, y: T, x: T, le: (T, T) -> bool)
    requires TotalPreorder(le)
    requires SortedBy(s, le)
    ensures EquivalentsOf(Insert(s, y, le), x, le)
         == EquivalentsOf(s, x, le) + (if Equivalent(le, y, x) then [y] else [])
  {
    if s == [] {
    } else if le(s[0], y) {
      InsertEquivalents(s[1..], y, x, le);
      var head := if Equivalent(le, s[0], x) then [s[0]] else [];
      assert Insert(s, y, le) == [s[0]] + Insert(s[1..], y, le);
      assert ([s[0]] + Insert(s[1..], y, le))[1..] == Insert(s[1..], y, le);
      assert EquivalentsOf(s, x, le) == head + EquivalentsOf(s[1..], x, le);
    } else {
      if Equivalent(le, y, x) {
        assert le(x, y);
        forall i | 0 <= i < |s| ensures !le(s[i], x) {
          if i > 0 { assert le(s[0], s[i]); }
        }
        NoEquivalents(s, x, le);
      }
    }
  }

  lemma {:induction false} NoEquivalents<T>(s: seq<T>, x: T, le: (T, T) -> bool)
    requires forall i :: 0 <= i < |s| ==> !Equivalent(le, s[i], x)
    ensures EquivalentsOf(s, x, le) == []
  {
    if s != [] {
      NoEquivalents(s[1..], x, le);
    }
  }

  lemma {:induction false} EquivalentsAppend<T>(a: seq<T>, b: seq<T>, x: T, le: (T, T) -> bool)
    ensures EquivalentsOf(a + b, x, le) == EquivalentsOf(a, x, le) + EquivalentsOf(b, x, le)
  {
    if a == [] {
      assert a + b == b;
    } else {
      assert (a + b)[0] == a[0];
      assert (a + b)[1..] == a[1..] + b;
      EquivalentsAppend(a[1..], b, x, le);
      var head := if Equivalent(le, a[0], x) then [a[0]] else [];
      assert EquivalentsOf(a + b, x, le) == head + EquivalentsOf(a[1..] + b, x, le);
      assert EquivalentsOf(a, x, le) == head + EquivalentsOf(a[1..], x, le);
    }
  }
}
