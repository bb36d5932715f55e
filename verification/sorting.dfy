/**
  `Array.prototype.sort()` with no comparator followed by `reverse()`, on
  arrays of strings: the strings come out in non-increasing order of
  `Strings.LexLe`, as a permutation of the input.
 */
module Sorting {
  import opened Strings

  ghost predicate Ascending(s: seq<string>) {
    forall i, j :: 0 <= i < j < |s| ==> LexLe(s[i], s[j])
  }

  ghost predicate Descending(s: seq<string>) {
    forall i, j :: 0 <= i < j < |s| ==> LexLe(s[j], s[i])
  }

  /** Every element of `s` is sorted no earlier than `x`. */
  ghost predicate AllAtLeast(x: string, s: seq<string>) {
    forall k :: 0 <= k < |s| ==> LexLe(x, s[k])
  }

  /** Inserts `x` into an ascending sequence, keeping it ascending. */
  function Insert(x: string, s: seq<string>): (r: seq<string>)
    requires Ascending(s)
    ensures Ascending(r)
    ensures multiset(r) == multiset(s) + multiset{x}
  {
    if s == [] then [x]
    else if LexLe(x, s[0]) then
      assert AllAtLeast(x, s) by {
        forall k | 0 <= k < |s| ensures LexLe(x, s[k]) {
          if k > 0 { LexLeTransitive(x, s[0], s[k]); }
        }
      }
      [x] + s
    else
      var tail := Insert(x, s[1..]);
      LexLeTotal(x, s[0]);
      assert s == [s[0]] + s[1..];
      assert AllAtLeast(s[0], tail) by {
        forall k | 0 <= k < |tail| ensures LexLe(s[0], tail[k]) {
          assert tail[k] in multiset(tail);
          if tail[k] != x {
            assert tail[k] in multiset(s[1..]);
            var m :| 0 <= m < |s[1..]| && s[1..][m] == tail[k];
            assert s[m + 1] == tail[k];
          }
        }
      }
      [s[0]] + tail
  }

  /** Insertion sort into ascending order. */
  function Sort(s: seq<string>): (r: seq<string>)
    ensures Ascending(r)
    ensures multiset(r) == multiset(s)
  {
    if s == [] then []
    else
      assert s == [s[0]] + s[1..];
      Insert(s[0], Sort(s[1..]))
  }

  function Reverse(s: seq<string>): (r: seq<string>)
    ensures |r| == |s|
    ensures forall i :: 0 <= i < |s| ==> r[i] == s[|s| - 1 - i]
    ensures multiset(r) == multiset(s)
  {
    if s == [] then []
    else
      assert s == [s[0]] + s[1..];
      Reverse(s[1..]) + [s[0]]
  }

  /** Reversing an ascending sequence gives a descending one. */
  lemma ReverseOfAscending(s: seq<string>)
    requires Ascending(s)
    ensures Descending(Reverse(s))
  {
    var r := Reverse(s);
    forall i, j | 0 <= i < j < |r| ensures LexLe(r[j], r[i]) {
      assert r[j] == s[|s| - 1 - j] && r[i] == s[|s| - 1 - i];
    }
  }

  /** The head of a descending sequence is sorted no earlier than any of its elements. */
  lemma HeadIsGreatest(s: seq<string>, x: string)
    requires Descending(s)
    requires x in multiset(s)
    ensures LexLe(x, s[0])
  {
    var k :| 0 <= k < |s| && s[k] == x;
    if k == 0 { LexLeReflexive(x); }
  }

  lemma MultisetOfTail(s: seq<string>)
    requires s != []
    ensures multiset(s[1..]) == multiset(s) - multiset{s[0]}
  {
    assert s == [s[0]] + s[1..];
  }

  /**
    A descending sequence is determined by its multiset: two descending
    sequences with the same elements are equal.
   */
  lemma {:induction false} DescendingUnique(a: seq<string>, b: seq<string>)
    requires Descending(a) && Descending(b)
    requires multiset(a) == multiset(b)
    ensures a == b
    decreases |a|
  {
    if a == [] {
      assert |b| == |multiset(b)| == 0;
    } else {
      assert a[0] in multiset(a);
      assert b != [];
      assert b[0] in multiset(b);
      HeadIsGreatest(b, a[0]);
      HeadIsGreatest(a, b[0]);
      LexLeAntisymmetric(a[0], b[0]);
      MultisetOfTail(a);
      MultisetOfTail(b);
      DescendingUnique(a[1..], b[1..]);
      assert a == [a[0]] + a[1..] && b == [b[0]] + b[1..];
    }
  }

  /** `sort()` then `reverse()`. */
  function SortDescending(s: seq<string>): (r: seq<string>)
    ensures Descending(r)
    ensures multiset(r) == multiset(s)
  {
    var asc := Sort(s);
    ReverseOfAscending(asc);
    Reverse(asc)
  }
}
