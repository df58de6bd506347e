/**
 * `Array.prototype.sort(compare)` as a stable insertion sort over immutable
 * sequences. The comparator follows JavaScript's convention: negative when
 * the first argument goes first, positive when the second does, zero for a tie.
 */
module Sorting {
  import Seqs

  /**
   * The laws of a consistent comparator at one triple: swapping the arguments
   * flips the sign, and "goes no later than" is transitive.
   */
  ghost predicate ComparatorLaw<T>(cmp: (T, T) -> int, x: T, y: T, z: T) {
    && (cmp(x, y) <= 0 <==> cmp(y, x) >= 0)
    && (cmp(x, y) <= 0 && cmp(y, z) <= 0 ==> cmp(x, z) <= 0)
  }

  /**
   * A consistent comparator orders every pair. The laws are used one triple at
   * a time, by mentioning `ComparatorLaw` for that triple.
   */
  ghost predicate IsTotalPreorder<T(!new)>(cmp: (T, T) -> int) {
    forall x, y, z :: ComparatorLaw(cmp, x, y, z)
  }

  /** Every earlier element goes no later than every later one. */
  ghost predicate SortedBy<T>(s: seq<T>, cmp: (T, T) -> int) {
    forall i, j :: 0 <= i < j < |s| ==> cmp(s[i], s[j]) <= 0
  }

  /** Every earlier element goes strictly before every later one. */
  ghost predicate StrictlySortedBy<T>(s: seq<T>, cmp: (T, T) -> int) {
    forall i, j :: 0 <= i < j < |s| ==> cmp(s[i], s[j]) < 0
  }

  /** No two positions of `s` hold elements the comparator calls a tie. */
  ghost predicate NoTies<T>(s: seq<T>, cmp: (T, T) -> int) {
    forall i, j :: 0 <= i < |s| && 0 <= j < |s| && i != j ==> cmp(s[i], s[j]) != 0
  }

  /**
   * Put `x` into `r` in front of the first element it goes strictly before;
   * it lands after every element it ties with, which keeps the sort stable.
   */
  function Insert<T>(x: T, r: seq<T>, cmp: (T, T) -> int): (out: seq<T>)
    ensures |out| == |r| + 1
    ensures multiset(out) == multiset(r) + multiset{x}
  {
    if |r| == 0 then [x]
    else if cmp(x, r[0]) < 0 then [x] + r
    else
      var rest := Insert(x, r[1..], cmp);
      assert r == [r[0]] + r[1..];
      [r[0]] + rest
  }

  /** `s.sort(cmp)`: insert the elements one by one, in their original order. */
  function Sort<T>(s: seq<T>, cmp: (T, T) -> int): (r: seq<T>)
    ensures |r| == |s|
    ensures multiset(r) == multiset(s)
  {
    if |s| == 0 then []
    else
      var r := Insert(s[|s| - 1], Sort(s[..|s| - 1], cmp), cmp);
      assert s == s[..|s| - 1] + [s[|s| - 1]];
      r
  }

  /** Every element of `Insert(x, r, cmp)` is `x` or an element of `r`. */
  lemma InsertFrom<T>(x: T, r: seq<T>, cmp: (T, T) -> int)
    ensures forall k :: 0 <= k < |Insert(x, r, cmp)| ==> Insert(x, r, cmp)[k] == x || Insert(x, r, cmp)[k] in r
  {
    var out := Insert(x, r, cmp);
    forall k | 0 <= k < |out| ensures out[k] == x || out[k] in r {
      assert out[k] in multiset(out);
    }
  }

  /** Putting in front an element that goes no later than any of an ordered sequence keeps it ordered. */
  lemma ConsSorted<T>(h: T, rest: seq<T>, cmp: (T, T) -> int)
    requires SortedBy(rest, cmp)
    requires forall k :: 0 <= k < |rest| ==> cmp(h, rest[k]) <= 0
    ensures SortedBy([h] + rest, cmp)
  {
    var out := [h] + rest;
    forall i, j | 0 <= i < j < |out| ensures cmp(out[i], out[j]) <= 0 {
      if i == 0 {
        assert out[j] == rest[j - 1];
      } else {
        assert out[i] == rest[i - 1] && out[j] == rest[j - 1];
      }
    }
  }

  /** Putting in front an element that goes strictly before all of a strictly ordered sequence keeps it strictly ordered. */
  lemma ConsStrict<T>(h: T, rest: seq<T>, cmp: (T, T) -> int)
    requires StrictlySortedBy(rest, cmp)
    requires forall k :: 0 <= k < |rest| ==> cmp(h, rest[k]) < 0
    ensures StrictlySortedBy([h] + rest, cmp)
  {
    var out := [h] + rest;
    forall i, j | 0 <= i < j < |out| ensures cmp(out[i], out[j]) < 0 {
      if i == 0 {
        assert out[j] == rest[j - 1];
      } else {
        assert out[i] == rest[i - 1] && out[j] == rest[j - 1];
      }
    }
  }

  lemma {:induction false} InsertSorted<T(!new)>(x: T, r: seq<T>, cmp: (T, T) -> int)
    requires IsTotalPreorder(cmp)
    requires SortedBy(r, cmp)
    ensures SortedBy(Insert(x, r, cmp), cmp)
  {
    if |r| == 0 {
    } else if cmp(x, r[0]) < 0 {
      forall k | 0 <= k < |r| ensures cmp(x, r[k]) <= 0 {
        if k > 0 {
          assert cmp(r[0], r[k]) <= 0;
          assert ComparatorLaw(cmp, x, r[0], r[k]);
        }
      }
      ConsSorted(x, r, cmp);
    } else {
      var tail := r[1..];
      InsertSorted(x, tail, cmp);
      InsertFrom(x, tail, cmp);
      var rest := Insert(x, tail, cmp);
      forall k | 0 <= k < |rest| ensures cmp(r[0], rest[k]) <= 0 {
        if rest[k] != x {
          var j :| 0 <= j < |tail| && tail[j] == rest[k];
          assert r[j + 1] == tail[j];
        } else {
          assert ComparatorLaw(cmp, r[0], x, x);
        }
      }
      ConsSorted(r[0], rest, cmp);
    }
  }

  /** With a consistent comparator the sort's output is ordered. */
  lemma {:induction false} SortSorted<T(!new)>(s: seq<T>, cmp: (T, T) -> int)
    requires IsTotalPreorder(cmp)
    ensures SortedBy(Sort(s, cmp), cmp)
  {
    if |s| > 0 {
      SortSorted(s[..|s| - 1], cmp);
      InsertSorted(s[|s| - 1], Sort(s[..|s| - 1], cmp), cmp);
    }
  }

  /** Inserting an element that goes no earlier than any element of `r` appends it. */
  lemma {:induction false} InsertAtEnd<T(!new)>(x: T, r: seq<T>, cmp: (T, T) -> int)
    requires IsTotalPreorder(cmp)
    requires forall k :: 0 <= k < |r| ==> cmp(r[k], x) <= 0
    ensures Insert(x, r, cmp) == r + [x]
  {
    if |r| > 0 {
      InsertAtEnd(x, r[1..], cmp);
      assert ComparatorLaw(cmp, r[0], x, x);
      assert r == [r[0]] + r[1..];
    }
  }

  /** Dropping the last element of an ordered sequence leaves it ordered, with every element going no later than the dropped one. */
  lemma SortedFront<T>(s: seq<T>, cmp: (T, T) -> int)
    requires |s| > 0
    requires SortedBy(s, cmp)
    ensures SortedBy(s[..|s| - 1], cmp)
    ensures forall k :: 0 <= k < |s| - 1 ==> cmp(s[k], s[|s| - 1]) <= 0
  {
    var front := s[..|s| - 1];
    forall i, j | 0 <= i < j < |front| ensures cmp(front[i], front[j]) <= 0 {
      assert front[i] == s[i] && front[j] == s[j];
    }
  }

  /** Stability on ordered input: an already ordered sequence comes out unchanged. */
  lemma {:induction false} SortKeepsOrdered<T(!new)>(s: seq<T>, cmp: (T, T) -> int)
    requires IsTotalPreorder(cmp)
    requires SortedBy(s, cmp)
    ensures Sort(s, cmp) == s
  {
    if |s| > 0 {
      var front := s[..|s| - 1];
      SortedFront(s, cmp);
      SortKeepsOrdered(front, cmp);
      InsertAtEnd(s[|s| - 1], front, cmp);
      assert s == front + [s[|s| - 1]];
    }
  }

  /** The elements that tie with `x` under `cmp`. */
  function TiesWith<T>(cmp: (T, T) -> int, x: T): T -> bool {
    (y: T) => cmp(x, y) == 0
  }

  /** Dropping the head of an ordered sequence leaves it ordered. */
  lemma SortedTail<T>(r: seq<T>, cmp: (T, T) -> int)
    requires |r| > 0
    requires SortedBy(r, cmp)
    ensures SortedBy(r[1..], cmp)
  {
    forall i, j | 0 <= i < j < |r[1..]| ensures cmp(r[1..][i], r[1..][j]) <= 0 {
      assert r[1..][i] == r[i + 1] && r[1..][j] == r[j + 1];
    }
  }

  /** Whatever goes no earlier than something `y` goes strictly before does not tie with anything tying with `y`. */
  lemma TieGoesBefore<T(!new)>(cmp: (T, T) -> int, x: T, y: T, a: T, b: T)
    requires IsTotalPreorder(cmp)
    requires cmp(x, y) == 0 && cmp(y, a) < 0 && cmp(a, b) <= 0
    ensures cmp(x, b) != 0
  {
    assert ComparatorLaw(cmp, b, x, y);
    assert ComparatorLaw(cmp, a, b, y);
    assert ComparatorLaw(cmp, a, y, y);
  }

  /**
   * Inserting `y` into an ordered sequence puts it after every element of its
   * tie class: among the elements tying with `x`, the order is the old one with
   * `y` (if it ties with `x`) last.
   */
  lemma {:induction false} InsertKeepsTies<T(!new)>(y: T, r: seq<T>, cmp: (T, T) -> int, x: T)
    requires IsTotalPreorder(cmp)
    requires SortedBy(r, cmp)
    ensures Seqs.Filter(Insert(y, r, cmp), TiesWith(cmp, x))
         == Seqs.Filter(r, TiesWith(cmp, x)) + (if cmp(x, y) == 0 then [y] else [])
  {
    var p := TiesWith(cmp, x);
    Seqs.FilterSingle(y, p);
    if |r| == 0 {
      assert Insert(y, r, cmp) == [y];
    } else if cmp(y, r[0]) < 0 {
      assert Insert(y, r, cmp) == [y] + r;
      Seqs.FilterAppend([y], r, p);
      if cmp(x, y) == 0 {
        // Everything in `r` goes strictly after `y`, so nothing in it ties with `y`, nor with `x`.
        forall k | 0 <= k < |r| ensures cmp(x, r[k]) != 0 {
          if k == 0 {
            assert ComparatorLaw(cmp, r[0], r[0], r[0]);
          }
          TieGoesBefore(cmp, x, y, r[0], r[k]);
        }
        assert forall k :: 0 <= k < |r| ==> !p(r[k]);
        Seqs.FilterNone(r, p);
      }
    } else {
      var tail := r[1..];
      SortedTail(r, cmp);
      InsertKeepsTies(y, tail, cmp, x);
      Seqs.HeadAndTail(r);
      assert Insert(y, r, cmp) == [r[0]] + Insert(y, tail, cmp);
      Seqs.FilterAppend([r[0]], Insert(y, tail, cmp), p);
      Seqs.FilterAppend([r[0]], tail, p);
      var head, extra := Seqs.Filter([r[0]], p), if cmp(x, y) == 0 then [y] else [];
      assert Seqs.Filter(Insert(y, r, cmp), p) == head + (Seqs.Filter(tail, p) + extra);
      Seqs.ConcatAssoc(head, Seqs.Filter(tail, p), extra);
    }
  }

  /** Sorting a non-empty sequence inserts its last element into the sorted rest. */
  lemma SortLast<T>(s: seq<T>, cmp: (T, T) -> int)
    requires |s| > 0
    ensures Sort(s, cmp) == Insert(s[|s| - 1], Sort(s[..|s| - 1], cmp), cmp)
  {
  }

  /**
   * The sort is stable: the elements tying with any `x` appear in the output in
   * the order they had in the input.
   */
  lemma {:induction false} SortStable<T(!new)>(s: seq<T>, cmp: (T, T) -> int, x: T)
    requires IsTotalPreorder(cmp)
    ensures Seqs.Filter(Sort(s, cmp), TiesWith(cmp, x)) == Seqs.Filter(s, TiesWith(cmp, x))
  {
    if |s| > 0 {
      var front, last := s[..|s| - 1], s[|s| - 1];
      var p := TiesWith(cmp, x);
      SortStable(front, cmp, x);
      SortSorted(front, cmp);
      SortLast(s, cmp);
      InsertKeepsTies(last, Sort(front, cmp), cmp, x);
      Seqs.FrontAndLast(s);
      Seqs.FilterAppend(front, [last], p);
      Seqs.FilterSingle(last, p);
    }
  }

  /** Inserting an element that ties with nothing into a strictly ordered sequence keeps it strictly ordered. */
  lemma {:induction false} InsertStrict<T(!new)>(x: T, r: seq<T>, cmp: (T, T) -> int)
    requires IsTotalPreorder(cmp)
    requires StrictlySortedBy(r, cmp)
    requires forall k :: 0 <= k < |r| ==> cmp(x, r[k]) != 0
    ensures StrictlySortedBy(Insert(x, r, cmp), cmp)
  {
    if |r| == 0 {
    } else if cmp(x, r[0]) < 0 {
      forall k | 0 <= k < |r| ensures cmp(x, r[k]) < 0 {
        if k > 0 {
          assert cmp(r[0], r[k]) < 0;
          assert ComparatorLaw(cmp, x, r[0], r[k]);
        }
      }
      ConsStrict(x, r, cmp);
    } else {
      var tail := r[1..];
      InsertStrict(x, tail, cmp);
      InsertFrom(x, tail, cmp);
      var rest := Insert(x, tail, cmp);
      forall k | 0 <= k < |rest| ensures cmp(r[0], rest[k]) < 0 {
        if rest[k] != x {
          var j :| 0 <= j < |tail| && tail[j] == rest[k];
          assert r[j + 1] == tail[j];
        } else {
          assert ComparatorLaw(cmp, r[0], x, x) && ComparatorLaw(cmp, x, r[0], r[0]);
        }
      }
      ConsStrict(r[0], rest, cmp);
    }
  }

  /** Without ties the sort's output is strictly ordered. */
  lemma {:induction false} SortStrict<T(!new)>(s: seq<T>, cmp: (T, T) -> int)
    requires IsTotalPreorder(cmp)
    requires NoTies(s, cmp)
    ensures StrictlySortedBy(Sort(s, cmp), cmp)
  {
    if |s| > 0 {
      var front := s[..|s| - 1];
      var x := s[|s| - 1];
      assert NoTies(front, cmp);
      SortStrict(front, cmp);
      var r := Sort(front, cmp);
      forall k | 0 <= k < |r| ensures cmp(x, r[k]) != 0 {
        assert r[k] in multiset(front);
        var i :| 0 <= i < |front| && front[i] == r[k];
        assert s[i] == r[k];
      }
      InsertStrict(x, r, cmp);
    }
  }

  /** The head of a strictly ordered sequence goes no later than any of its elements. */
  lemma HeadGoesFirst<T(!new)>(a: seq<T>, m: int, cmp: (T, T) -> int)
    requires IsTotalPreorder(cmp)
    requires StrictlySortedBy(a, cmp)
    requires 0 <= m < |a|
    ensures cmp(a[0], a[m]) <= 0
  {
    if m == 0 {
      assert ComparatorLaw(cmp, a[0], a[0], a[0]);
    }
  }

  /** Two strictly ordered arrangements of the same elements start with the same element. */
  lemma StrictlySortedSameHead<T(!new)>(a: seq<T>, b: seq<T>, cmp: (T, T) -> int)
    requires IsTotalPreorder(cmp)
    requires |a| > 0 && |b| > 0
    requires multiset(a) == multiset(b)
    requires StrictlySortedBy(a, cmp) && StrictlySortedBy(b, cmp)
    ensures a[0] == b[0]
  {
    assert a[0] in multiset(b);
    var k :| 0 <= k < |b| && b[k] == a[0];
    assert b[0] in multiset(a);
    var m :| 0 <= m < |a| && a[m] == b[0];
    // a[0] goes no later than a[m], which is b[0]; so b[0] cannot go strictly before b[k] == a[0] with k > 0.
    HeadGoesFirst(a, m, cmp);
    assert ComparatorLaw(cmp, a[0], b[0], b[0]);
    assert cmp(b[0], a[0]) >= 0;
    assert k == 0;
  }

  /** Dropping the head of a strictly ordered sequence leaves it strictly ordered. */
  lemma StrictTail<T>(a: seq<T>, cmp: (T, T) -> int)
    requires |a| > 0
    requires StrictlySortedBy(a, cmp)
    ensures StrictlySortedBy(a[1..], cmp)
  {
    forall i, j | 0 <= i < j < |a[1..]| ensures cmp(a[1..][i], a[1..][j]) < 0 {
      assert a[1..][i] == a[i + 1] && a[1..][j] == a[j + 1];
    }
  }

  /** Two strictly ordered arrangements of the same elements are the same sequence. */
  lemma {:induction false} StrictlySortedUnique<T(!new)>(a: seq<T>, b: seq<T>, cmp: (T, T) -> int)
    requires IsTotalPreorder(cmp)
    requires multiset(a) == multiset(b)
    requires StrictlySortedBy(a, cmp) && StrictlySortedBy(b, cmp)
    ensures a == b
  {
    assert |a| == |multiset(a)| == |b|;
    if |a| > 0 {
      StrictlySortedSameHead(a, b, cmp);
      assert a == [a[0]] + a[1..] && b == [b[0]] + b[1..];
      assert multiset(a[1..]) == multiset(a) - multiset{a[0]};
      assert multiset(b[1..]) == multiset(b) - multiset{b[0]};
      StrictTail(a, cmp);
      StrictTail(b, cmp);
      StrictlySortedUnique(a[1..], b[1..], cmp);
    }
  }

  /** A sequence is strictly ordered by `cmp` exactly when its reverse is strictly ordered by the flipped comparator. */
  lemma ReverseStrict<T>(s: seq<T>, cmp: (T, T) -> int, flipped: (T, T) -> int)
    requires forall x, y :: flipped(x, y) == cmp(y, x)
    requires StrictlySortedBy(s, cmp)
    ensures StrictlySortedBy(Seqs.Reverse(s), flipped)
  {
    var r := Seqs.Reverse(s);
    forall i, j | 0 <= i < j < |r| ensures flipped(r[i], r[j]) < 0 {
      assert r[i] == s[|s| - 1 - i] && r[j] == s[|s| - 1 - j];
    }
  }

  /**
   * Sorting with the flipped comparator, when no two elements tie, gives the
   * reverse of sorting with the comparator itself.
   */
  lemma FlippedSortIsReverse<T(!new)>(s: seq<T>, cmp: (T, T) -> int, flipped: (T, T) -> int)
    requires IsTotalPreorder(cmp)
    requires forall x, y :: flipped(x, y) == cmp(y, x)
    requires NoTies(s, cmp)
    ensures Sort(s, flipped) == Seqs.Reverse(Sort(s, cmp))
  {
    forall x, y, z ensures ComparatorLaw(flipped, x, y, z) {
      assert ComparatorLaw(cmp, y, x, x) && ComparatorLaw(cmp, z, y, x);
    }
    forall i, j | 0 <= i < |s| && 0 <= j < |s| && i != j ensures flipped(s[i], s[j]) != 0 {
      assert cmp(s[j], s[i]) != 0;
    }
    SortStrict(s, cmp);
    SortStrict(s, flipped);
    ReverseStrict(Sort(s, cmp), cmp, flipped);
    Seqs.ReversePermutes(Sort(s, cmp));
    StrictlySortedUnique(Sort(s, flipped), Seqs.Reverse(Sort(s, cmp)), flipped);
  }
}
