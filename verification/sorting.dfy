/**
 Sorting by a comparator, as `Array.prototype.sort` is used by the ranking
 plot. The comparators the plot passes are strict total orders on the
 elements being sorted, so the sorted permutation is unique: whatever
 algorithm the JavaScript engine uses (and whether or not it is stable), the
 result is the one insertion sort computes here (`SortedPermutationUnique`).
 */
module Sorting {

  /** The elements of `s`, as a set. */
  function Elements<T>(s: seq<T>): set<T> {
    set x | x in s
  }

  /** `lt` is irreflexive, total and transitive on the elements of `s`. */
  ghost predicate StrictTotalOn<T>(lt: (T, T) -> bool, s: set<T>) {
    && (forall x | x in s :: !lt(x, x))
    && (forall x, y | x in s && y in s && x != y :: lt(x, y) || lt(y, x))
    && (forall x, y, z | x in s && y in s && z in s && lt(x, y) && lt(y, z) :: lt(x, z))
  }

  /** Every earlier element comes strictly before every later one. */
  ghost predicate Sorted<T>(lt: (T, T) -> bool, s: seq<T>) {
    forall i, j | 0 <= i < j < |s| :: lt(s[i], s[j])
  }

  /** No element occurs twice. */
  ghost predicate Distinct<T>(s: seq<T>) {
    forall i, j | 0 <= i < j < |s| :: s[i] != s[j]
  }

  /** Inserts `x` in front of the first element it comes before. */
  function Insert<T>(x: T, s: seq<T>, lt: (T, T) -> bool): (r: seq<T>)
    ensures multiset(r) == multiset(s) + multiset{x}
    ensures StrictTotalOn(lt, Elements(s) + {x}) && Sorted(lt, s) && x !in s ==> Sorted(lt, r)
  {
    if s == [] then [x]
    else if lt(x, s[0]) then
      InsertFront(x, s, lt);
      [x] + s
    else
      var tail := Insert(x, s[1..], lt);
      InsertBehind(x, s, tail, lt);
      [s[0]] + tail
  }

  /** `x` before the head of a sorted sequence comes before all of it. */
  lemma InsertFront<T>(x: T, s: seq<T>, lt: (T, T) -> bool)
    requires s != [] && lt(x, s[0])
    ensures multiset([x] + s) == multiset(s) + multiset{x}
    ensures StrictTotalOn(lt, Elements(s) + {x}) && Sorted(lt, s) ==> Sorted(lt, [x] + s)
  {
    if StrictTotalOn(lt, Elements(s) + {x}) && Sorted(lt, s) {
      var r := [x] + s;
      forall i, j | 0 <= i < j < |r| ensures lt(r[i], r[j]) {
        if i == 0 {
          if j > 1 {
            assert r[j] == s[j - 1] && lt(s[0], s[j - 1]);
          }
        } else {
          assert r[i] == s[i - 1] && r[j] == s[j - 1];
        }
      }
    }
  }

  /** The head of a sorted sequence stays in front of the rest with `x` inserted. */
  lemma InsertBehind<T>(x: T, s: seq<T>, tail: seq<T>, lt: (T, T) -> bool)
    requires s != []
    requires multiset(tail) == multiset(s[1..]) + multiset{x}
    requires StrictTotalOn(lt, Elements(s[1..]) + {x}) && Sorted(lt, s[1..]) && x !in s[1..] ==> Sorted(lt, tail)
    ensures multiset([s[0]] + tail) == multiset(s) + multiset{x}
    ensures StrictTotalOn(lt, Elements(s) + {x}) && Sorted(lt, s) && x !in s && !lt(x, s[0]) ==> Sorted(lt, [s[0]] + tail)
  {
    assert multiset(s) == multiset{s[0]} + multiset(s[1..]) by { assert s == [s[0]] + s[1..]; }
    if StrictTotalOn(lt, Elements(s) + {x}) && Sorted(lt, s) && x !in s && !lt(x, s[0]) {
      assert s[0] in Elements(s) + {x} && x in Elements(s) + {x} && s[0] != x;
      assert lt(s[0], x);
      assert Elements(s[1..]) + {x} <= Elements(s) + {x};
      StrictTotalOnSubset(lt, Elements(s) + {x}, Elements(s[1..]) + {x});
      SortedTail(lt, s);
      HeadBeforeInserted(s, x, tail, lt);
      ConsSorted(s[0], tail, lt);
    }
  }

  /** The head of a sorted sequence comes before the rest of it and before `x`. */
  lemma HeadBeforeInserted<T>(s: seq<T>, x: T, tail: seq<T>, lt: (T, T) -> bool)
    requires s != [] && Sorted(lt, s) && lt(s[0], x)
    requires multiset(tail) == multiset(s[1..]) + multiset{x}
    ensures forall j | 0 <= j < |tail| :: lt(s[0], tail[j])
  {
    forall j | 0 <= j < |tail| ensures lt(s[0], tail[j]) {
      assert tail[j] in multiset(tail);
      if tail[j] != x {
        assert tail[j] in multiset(s[1..]);
        var k :| 0 <= k < |s[1..]| && s[1..][k] == tail[j];
        assert s[k + 1] == tail[j];
      }
    }
  }

  /** A sorted sequence behind an element that comes before all of it is sorted. */
  lemma ConsSorted<T>(h: T, tail: seq<T>, lt: (T, T) -> bool)
    requires Sorted(lt, tail) && forall j | 0 <= j < |tail| :: lt(h, tail[j])
    ensures Sorted(lt, [h] + tail)
  {
    var r := [h] + tail;
    forall i, j | 0 <= i < j < |r| ensures lt(r[i], r[j]) {
      assert r[j] == tail[j - 1];
      if i > 0 {
        assert r[i] == tail[i - 1];
      }
    }
  }

  /** Insertion sort by `lt`. */
  function Sort<T>(s: seq<T>, lt: (T, T) -> bool): (r: seq<T>)
    ensures multiset(r) == multiset(s)
    ensures StrictTotalOn(lt, Elements(s)) && Distinct(s) ==> Sorted(lt, r)
  {
    if s == [] then []
    else
      var tail := Sort(s[1..], lt);
      SortStep(s, tail, lt);
      Insert(s[0], tail, lt)
  }

  /** What one step of `Sort` needs: the head and the sorted tail are a split of `s`. */
  lemma SortStep<T>(s: seq<T>, tail: seq<T>, lt: (T, T) -> bool)
    requires s != []
    requires multiset(tail) == multiset(s[1..])
    ensures multiset(s) == multiset(tail) + multiset{s[0]}
    ensures Elements(tail) + {s[0]} == Elements(s)
    ensures StrictTotalOn(lt, Elements(s)) ==> StrictTotalOn(lt, Elements(s[1..]))
    ensures Distinct(s) ==> Distinct(s[1..]) && s[0] !in tail
  {
    assert s == [s[0]] + s[1..];
    assert Elements(s) == Elements(s[1..]) + {s[0]};
    assert Elements(tail) == Elements(s[1..]) by {
      forall y ensures y in tail <==> y in s[1..] {
        assert y in tail <==> y in multiset(tail);
        assert y in s[1..] <==> y in multiset(s[1..]);
      }
    }
    if Distinct(s) {
      forall k | 0 <= k < |s[1..]| ensures s[1..][k] != s[0] {
        assert s[1..][k] == s[k + 1];
      }
      assert s[0] !in multiset(s[1..]);
    }
  }

  /** A sequence sorted strictly has no repeated element. */
  lemma SortedIsDistinct<T>(lt: (T, T) -> bool, s: seq<T>)
    requires StrictTotalOn(lt, Elements(s))
    requires Sorted(lt, s)
    ensures Distinct(s)
  {
    forall i, j | 0 <= i < j < |s| ensures s[i] != s[j] {
      assert lt(s[i], s[j]);
      assert s[i] in Elements(s);
    }
  }

  /** A strict total order stays one on a subset. */
  lemma StrictTotalOnSubset<T>(lt: (T, T) -> bool, s: set<T>, t: set<T>)
    requires t <= s && StrictTotalOn(lt, s)
    ensures StrictTotalOn(lt, t)
  {
  }

  /** Dropping the head keeps a sequence sorted. */
  lemma SortedTail<T>(lt: (T, T) -> bool, a: seq<T>)
    requires a != [] && Sorted(lt, a)
    ensures Sorted(lt, a[1..])
  {
    forall i, j | 0 <= i < j < |a[1..]| ensures lt(a[1..][i], a[1..][j]) {
      assert a[1..][i] == a[i + 1] && a[1..][j] == a[j + 1];
    }
  }

  /** The head of a strictly sorted sequence comes before every other element. */
  lemma SortedHeadFirst<T>(lt: (T, T) -> bool, a: seq<T>, x: T)
    requires Sorted(lt, a)
    requires x in a && x != a[0]
    ensures lt(a[0], x)
  {
    var i :| 0 <= i < |a| && a[i] == x;
    assert i != 0;
  }

  /** Two sorted permutations of one another start with the same element. */
  lemma SortedHeadsAgree<T>(lt: (T, T) -> bool, a: seq<T>, b: seq<T>)
    requires a != [] && multiset(a) == multiset(b)
    requires StrictTotalOn(lt, Elements(a))
    requires Sorted(lt, a) && Sorted(lt, b)
    ensures b != [] && a[0] == b[0]
  {
    assert a[0] in multiset(b);
    assert b != [];
    assert b[0] in multiset(a);
    if a[0] != b[0] {
      SortedHeadFirst(lt, a, b[0]);
      assert false;
    }
  }

  /**
   Two permutations of one another that are both sorted by a strict total
   order are identical: the sort is deterministic.
   */
  lemma {:induction false} SortedPermutationUnique<T>(lt: (T, T) -> bool, a: seq<T>, b: seq<T>)
    requires multiset(a) == multiset(b)
    requires StrictTotalOn(lt, Elements(a))
    requires Sorted(lt, a) && Sorted(lt, b)
    ensures a == b
  {
    if a != [] {
      SortedHeadsAgree(lt, a, b);
      assert a == [a[0]] + a[1..] && b == [b[0]] + b[1..];
      assert multiset(a[1..]) == multiset(a) - multiset{a[0]};
      assert multiset(b[1..]) == multiset(b) - multiset{b[0]};
      assert Elements(a[1..]) <= Elements(a);
      StrictTotalOnSubset(lt, Elements(a), Elements(a[1..]));
      SortedTail(lt, a);
      SortedTail(lt, b);
      SortedPermutationUnique(lt, a[1..], b[1..]);
    }
  }
}
