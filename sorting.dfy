/** Ascending order on base offsets, standing in for the sort.Slice call of
    the log's setup, and the every-other selection its loop makes. */
module Sorting {

  predicate SortedAsc(s: seq<nat>)
  {
    forall i, j :: 0 <= i < j < |s| ==> s[i] <= s[j]
  }

  /** An ascending sequence stays ascending below a new first element that
      is at most each of its elements. */
  lemma {:induction false} ConsSorted(y: nat, r: seq<nat>)
    requires SortedAsc(r) && forall z | z in r :: y <= z
    ensures SortedAsc([y] + r)
  {
    var c := [y] + r;
    forall i, j | 0 <= i < j < |c| ensures c[i] <= c[j] {
      assert c[j] == r[j - 1] && r[j - 1] in r;
      if i > 0 {
        assert c[i] == r[i - 1];
      }
    }
  }

  /** The tail of an ascending sequence is ascending and bounded below by
      the head. */
  lemma {:induction false} SortedTail(s: seq<nat>)
    requires SortedAsc(s) && s != []
    ensures SortedAsc(s[1..])
    ensures forall z | z in s[1..] :: s[0] <= z
  {
    var t := s[1..];
    forall i, j | 0 <= i < j < |t| ensures t[i] <= t[j] {
      assert t[i] == s[i + 1] && t[j] == s[j + 1];
    }
    forall z | z in t ensures s[0] <= z {
      var m :| 0 <= m < |t| && t[m] == z;
      assert s[m + 1] == z;
    }
  }

  /** Places x before the first element not below it. */
  function Insert(x: nat, s: seq<nat>): (r: seq<nat>)
    ensures multiset(r) == multiset(s) + multiset{x}
    decreases |s|
  {
    if s == [] then [x]
    else if x <= s[0] then [x] + s
    else
      assert s == [s[0]] + s[1..];
      [s[0]] + Insert(x, s[1..])
  }

  /** Inserting into an ascending sequence keeps it ascending. */
  lemma {:induction false} InsertSorted(x: nat, s: seq<nat>)
    requires SortedAsc(s)
    ensures SortedAsc(Insert(x, s))
    decreases |s|
  {
    if s == [] {
    } else if x <= s[0] {
      SortedTail(s);
      assert s == [s[0]] + s[1..];
      forall z | z in s ensures x <= z {
        if z != s[0] {
          assert z in s[1..];
        }
      }
      ConsSorted(x, s);
    } else {
      SortedTail(s);
      InsertSorted(x, s[1..]);
      var rest := Insert(x, s[1..]);
      forall z | z in rest ensures s[0] <= z {
        assert z in multiset(rest);
        assert z in multiset(s[1..]) + multiset{x};
        if z != x {
          assert z in s[1..];
        }
      }
      ConsSorted(s[0], rest);
    }
  }

  /** Insertion sort; it has the same elements, with the same
      multiplicities, as its input. */
  function Sort(s: seq<nat>): (r: seq<nat>)
    ensures multiset(r) == multiset(s)
    decreases |s|
  {
    if s == [] then []
    else
      assert s == [s[0]] + s[1..];
      Insert(s[0], Sort(s[1..]))
  }

  /** Sort yields an ascending sequence. */
  lemma {:induction false} SortSorted(s: seq<nat>)
    ensures SortedAsc(Sort(s))
    decreases |s|
  {
    if s != [] {
      SortSorted(s[1..]);
      InsertSorted(s[0], Sort(s[1..]));
    }
  }

  /** Sequences with the same elements and the same first element have
      tails with the same elements. */
  lemma {:induction false} MultisetTail<T>(a: seq<T>, b: seq<T>)
    requires a != [] && b != [] && a[0] == b[0] && multiset(a) == multiset(b)
    ensures multiset(a[1..]) == multiset(b[1..])
  {
    assert a == [a[0]] + a[1..];
    assert b == [b[0]] + b[1..];
    assert multiset(a[1..]) == multiset(a) - multiset{a[0]};
    assert multiset(b[1..]) == multiset(b) - multiset{b[0]};
  }

  /** Two ascending sequences with the same elements are the same sequence,
      so the sorted order does not depend on the order of the listing. */
  lemma {:induction false} SortedUnique(a: seq<nat>, b: seq<nat>)
    requires SortedAsc(a) && SortedAsc(b) && multiset(a) == multiset(b)
    ensures a == b
    decreases |a|
  {
    assert |a| == |multiset(a)| == |multiset(b)| == |b|;
    if a != [] {
      SortedTail(a);
      SortedTail(b);
      assert a == [a[0]] + a[1..];
      assert b == [b[0]] + b[1..];
      assert a[0] in multiset(b) && b[0] in multiset(a);
      assert a[0] == b[0];
      MultisetTail(a, b);
      SortedUnique(a[1..], b[1..]);
    }
  }

  /** The elements at even positions: what the setup loop visits when it
      steps its index twice per iteration. */
  function EveryOther(s: seq<nat>): (r: seq<nat>)
    ensures |r| == (|s| + 1) / 2
    ensures forall k :: 0 <= k < |r| ==> r[k] == s[2 * k]
  {
    seq((|s| + 1) / 2, k requires 0 <= k < (|s| + 1) / 2 => s[2 * k])
  }

  /** Keeping every other element of an ascending sequence leaves it
      ascending. */
  lemma {:induction false} EveryOtherSorted(s: seq<nat>)
    requires SortedAsc(s)
    ensures SortedAsc(EveryOther(s))
  {
    var r := EveryOther(s);
    forall i, j | 0 <= i < j < |r| ensures r[i] <= r[j] {
      assert r[i] == s[2 * i] && r[j] == s[2 * j];
    }
  }
}
