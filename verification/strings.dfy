/**
  The JavaScript string primitives the server relies on: `startsWith`,
  `endsWith`, `String.prototype.replace` with a string pattern (which replaces
  the FIRST occurrence only), and the default ordering that `Array.prototype.sort`
  applies to strings.
 */
module Strings {
  import opened Wrappers

  predicate StartsWith(s: string, prefix: string) {
    |prefix| <= |s| && s[..|prefix|] == prefix
  }

  predicate EndsWith(s: string, suffix: string) {
    |suffix| <= |s| && s[|s| - |suffix|..] == suffix
  }

  /** `p` occurs in `s` starting at index `i`. */
  predicate OccursAt(s: string, p: string, i: int) {
    0 <= i && i + |p| <= |s| && s[i..i + |p|] == p
  }

  ghost predicate Contains(s: string, p: string) {
    exists i :: OccursAt(s, p, i)
  }

  /** The first index at or after `from` at which `p` occurs in `s`, if any. */
  function IndexFrom(s: string, p: string, from: nat): (r: Option<nat>)
    ensures r.Some? ==> from <= r.value && OccursAt(s, p, r.value)
    ensures r.Some? ==> forall j :: from <= j < r.value ==> !OccursAt(s, p, j)
    ensures r.None? ==> forall j :: from <= j ==> !OccursAt(s, p, j)
    decreases |s| - from
  {
    if from + |p| > |s| then None
    else if OccursAt(s, p, from) then Some(from)
    else IndexFrom(s, p, from + 1)
  }

  /** `s.indexOf(p)`: the first index at which `p` occurs in `s`, if any. */
  function IndexOf(s: string, p: string): (r: Option<nat>)
    ensures r.Some? ==> OccursAt(s, p, r.value)
    ensures r.Some? ==> forall j :: 0 <= j < r.value ==> !OccursAt(s, p, j)
    ensures r.None? ==> !Contains(s, p)
  {
    IndexFrom(s, p, 0)
  }

  /** The first occurrence is unique: any occurrence with none before it is what IndexOf finds. */
  lemma IndexOfIsFirst(s: string, p: string, i: nat)
    requires OccursAt(s, p, i)
    requires forall j :: 0 <= j < i ==> !OccursAt(s, p, j)
    ensures IndexOf(s, p) == Some(i)
  {
  }

  /** `s.replace(p, rep)` with a string pattern: only the first occurrence is replaced. */
  function ReplaceFirst(s: string, p: string, rep: string): (r: string)
    ensures !Contains(s, p) ==> r == s
  {
    match IndexOf(s, p)
    case None => s
    case Some(i) => s[..i] + rep + s[i + |p|..]
  }

  /** Replacing an occurrence changes the length by the difference between `rep` and `p`. */
  lemma ReplaceFirstLength(s: string, p: string, rep: string)
    requires Contains(s, p)
    ensures |ReplaceFirst(s, p, rep)| == |s| - |p| + |rep|
  {
  }

  /** The occurrence IndexOf finds is the one replaced. */
  lemma ReplaceFirstAtIndex(s: string, p: string, rep: string)
    requires IndexOf(s, p).Some?
    ensures var i := IndexOf(s, p).value; ReplaceFirst(s, p, rep) == s[..i] + rep + s[i + |p|..]
  {
  }

  /** When the first occurrence is at `i`, it is the one replaced. */
  lemma ReplaceFirstAt(s: string, p: string, rep: string, i: nat)
    requires OccursAt(s, p, i)
    requires forall j :: 0 <= j < i ==> !OccursAt(s, p, j)
    ensures ReplaceFirst(s, p, rep) == s[..i] + rep + s[i + |p|..]
  {
    IndexOfIsFirst(s, p, i);
    ReplaceFirstAtIndex(s, p, rep);
  }

  /** The first occurrence in `a` is also the first in `a + b`. */
  lemma {:induction false} IndexOfInPrefix(a: string, b: string, p: string)
    requires IndexOf(a, p).Some?
    ensures IndexOf(a + b, p) == IndexOf(a, p)
  {
    var i := IndexOf(a, p).value;
    var s := a + b;
    assert s[i..i + |p|] == a[i..i + |p|];
    forall j | 0 <= j < i ensures !OccursAt(s, p, j) {
      assert !OccursAt(a, p, j);
      assert s[j..j + |p|] == a[j..j + |p|];
    }
    IndexOfIsFirst(s, p, i);
  }

  /**
    Replacing the first occurrence only looks at the prefix that holds it:
    an occurrence in `a` is replaced in `a + b` exactly as in `a`.
   */
  lemma {:induction false} ReplaceFirstInPrefix(a: string, b: string, p: string, rep: string)
    requires Contains(a, p)
    ensures ReplaceFirst(a + b, p, rep) == ReplaceFirst(a, p, rep) + b
  {
    var i := IndexOf(a, p).value;
    IndexOfInPrefix(a, b, p);
    ReplaceFirstAtIndex(a, p, rep);
    ReplaceFirstAtIndex(a + b, p, rep);
    SpliceInPrefix(a, b, rep, i, i + |p|);
  }

  /** Splicing `rep` over `a[i..j]` commutes with appending `b`. */
  lemma SpliceInPrefix(a: string, b: string, rep: string, i: nat, j: nat)
    requires i <= j <= |a|
    ensures (a + b)[..i] + rep + (a + b)[j..] == (a[..i] + rep + a[j..]) + b
  {
    assert (a + b)[..i] == a[..i];
    assert (a + b)[j..] == a[j..] + b;
  }

  // ---------------------------------------------------------------------
  // String ordering used by Array.prototype.sort with no comparator
  // ---------------------------------------------------------------------

  /**
    `a` sorts no later than `b`: the first differing character decides, and
    a proper prefix sorts first.
   */
  predicate LexLe(a: string, b: string)
    decreases |a|
  {
    if a == [] then true
    else if b == [] then false
    else if a[0] != b[0] then a[0] < b[0]
    else LexLe(a[1..], b[1..])
  }

  /** A string sorts no later than any string it begins, and after each of its proper prefixes. */
  lemma {:induction false} LexLePrefix(a: string, b: string)
    ensures StartsWith(b, a) ==> LexLe(a, b)
    ensures StartsWith(a, b) && a != b ==> !LexLe(a, b)
    decreases |a|
  {
    if a != [] && b != [] && a[0] == b[0] {
      assert StartsWith(b, a) ==> StartsWith(b[1..], a[1..]);
      assert StartsWith(a, b) ==> StartsWith(a[1..], b[1..]);
      assert a == [a[0]] + a[1..] && b == [b[0]] + b[1..];
      LexLePrefix(a[1..], b[1..]);
    }
  }

  /** The first position at which two strings differ decides their order. */
  lemma {:induction false} LexLeFirstDifference(a: string, b: string, k: nat)
    requires k < |a| && k < |b| && a[..k] == b[..k] && a[k] != b[k]
    ensures LexLe(a, b) <==> a[k] < b[k]
    decreases k
  {
    if k > 0 {
      assert a[0] == a[..k][0] == b[..k][0] == b[0];
      assert a[1..][..k - 1] == a[..k][1..] == b[..k][1..] == b[1..][..k - 1];
      LexLeFirstDifference(a[1..], b[1..], k - 1);
    }
  }

  lemma {:induction false} LexLeReflexive(a: string)
    ensures LexLe(a, a)
    decreases |a|
  {
    if a != [] { LexLeReflexive(a[1..]); }
  }

  lemma {:induction false} LexLeTotal(a: string, b: string)
    ensures LexLe(a, b) || LexLe(b, a)
    decreases |a|
  {
    if a != [] && b != [] && a[0] == b[0] { LexLeTotal(a[1..], b[1..]); }
  }

  lemma {:induction false} LexLeAntisymmetric(a: string, b: string)
    requires LexLe(a, b) && LexLe(b, a)
    ensures a == b
    decreases |a|
  {
    if a != [] {
      LexLeAntisymmetric(a[1..], b[1..]);
      assert a == [a[0]] + a[1..] && b == [b[0]] + b[1..];
    }
  }

  lemma {:induction false} LexLeTransitive(a: string, b: string, c: string)
    requires LexLe(a, b) && LexLe(b, c)
    ensures LexLe(a, c)
    decreases |a|
  {
    if a != [] && a[0] == b[0] && b[0] == c[0] {
      LexLeTransitive(a[1..], b[1..], c[1..]);
    }
  }
}
