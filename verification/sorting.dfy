/** Sorting of path and entry names under the code-unit order of `Strings`.
    `SortUnique` models deduplicating the collected paths and sorting them
    with the default comparison; `Sort` models the tree's sort of a
    directory's entries, whose locale-aware comparison is stood in for by
    the same code-unit order. */
module Sorting {
  import opened Strings

  predicate StrictlySorted(s: seq<string>)
  {
    forall i, j :: 0 <= i < j < |s| ==> Less(s[i], s[j])
  }

  predicate Sorted(s: seq<string>)
  {
    forall i, j :: 0 <= i < j < |s| ==> LessEq(s[i], s[j])
  }

  predicate Distinct(s: seq<string>)
  {
    forall i, j :: 0 <= i < j < |s| ==> s[i] != s[j]
  }

  lemma {:induction false} StrictlySortedIsDistinct(s: seq<string>)
    requires StrictlySorted(s)
    ensures Distinct(s)
  {
    forall i, j | 0 <= i < j < |s|
      ensures s[i] != s[j]
    {
      LessIrreflexive(s[i]);
    }
  }

  /** Inserts `x` into a strictly sorted list unless it is already there. */
  function InsertUnique(x: string, s: seq<string>): (r: seq<string>)
    requires StrictlySorted(s)
    ensures StrictlySorted(r)
    ensures forall y :: y in r <==> y == x || y in s
  {
    if |s| == 0 then [x]
    else if x == s[0] then s
    else if Less(x, s[0]) then
      assert forall j :: 0 < j < |s| ==> Less(x, s[j]) by {
        forall j | 0 < j < |s| ensures Less(x, s[j]) {
          LessTransitive(x, s[0], s[j]);
        }
      }
      [x] + s
    else
      LessTotal(x, s[0]);
      var tail := InsertUnique(x, s[1..]);
      assert forall y :: y in tail ==> Less(s[0], y) by {
        forall y | y in tail ensures Less(s[0], y) {
          if y != x {
            var k :| 0 <= k < |s[1..]| && s[1..][k] == y;
            assert s[k + 1] == y;
          }
        }
      }
      [s[0]] + tail
  }

  /** The distinct elements of `xs` in ascending order: deduplication
      followed by the default sort. */
  function SortUnique(xs: seq<string>): (r: seq<string>)
    ensures StrictlySorted(r)
    ensures forall y :: y in r <==> y in xs
  {
    if |xs| == 0 then []
    else
      var init := xs[..|xs| - 1];
      assert xs == init + [xs[|xs| - 1]];
      InsertUnique(xs[|xs| - 1], SortUnique(init))
  }

  /** A strictly sorted list is determined by its elements: whatever order
      the paths were discovered in, the sorted result is the same. */
  lemma {:induction false} StrictlySortedUnique(a: seq<string>, b: seq<string>)
    requires StrictlySorted(a) && StrictlySorted(b)
    requires forall y :: y in a <==> y in b
    ensures a == b
  {
    assert |a| > 0 ==> a[0] in b;
    assert |b| > 0 ==> b[0] in a;
    if |a| > 0 && |b| > 0 {
      // Both heads are the least element of the common set.
      if a[0] != b[0] {
        assert a[0] in a && b[0] in b;
        var ka :| 0 <= ka < |b| && b[ka] == a[0];
        var kb :| 0 <= kb < |a| && a[kb] == b[0];
        assert ka > 0 && kb > 0;
        LessAsymmetric(a[0], a[kb]);
        assert false;
      }
      forall y ensures y in a[1..] <==> y in b[1..] {
        if y in a[1..] {
          var k :| 1 <= k < |a| && a[k] == y;
          LessIrreflexive(a[0]);
          assert y != a[0];
          assert y in b;
        }
        if y in b[1..] {
          var k :| 1 <= k < |b| && b[k] == y;
          LessIrreflexive(b[0]);
          assert y != b[0];
          assert y in a;
        }
      }
      StrictlySortedUnique(a[1..], b[1..]);
      assert a == [a[0]] + a[1..] && b == [b[0]] + b[1..];
    }
  }

  /** Inserts `x` into a sorted list, keeping duplicates. */
  function Insert(x: string, s: seq<string>): (r: seq<string>)
    requires Sorted(s)
    ensures Sorted(r)
    ensures multiset(r) == multiset(s) + multiset{x}
    decreases |s|, 1
  {
    if |s| == 0 then [x]
    else if LessEq(x, s[0]) then
      assert forall j :: 0 < j < |s| ==> LessEq(x, s[j]) by {
        forall j | 0 < j < |s| ensures LessEq(x, s[j]) {
          if x != s[0] && s[0] != s[j] {
            LessTransitive(x, s[0], s[j]);
          }
        }
      }
      [x] + s
    else
      LessTotal(x, s[0]);
      var tail := InsertPastHead(x, s);
      assert s == [s[0]] + s[1..];
      [s[0]] + tail
  }

  /** The recursive step of `Insert` past the head of `s`. */
  function InsertPastHead(x: string, s: seq<string>): (tail: seq<string>)
    requires Sorted(s) && |s| > 0 && Less(s[0], x)
    ensures Sorted([s[0]] + tail)
    ensures multiset(tail) == multiset(s[1..]) + multiset{x}
    decreases |s|, 0
  {
    var tail := Insert(x, s[1..]);
    forall j | 0 <= j < |tail| ensures LessEq(s[0], tail[j]) {
      var y := tail[j];
      assert y in multiset(tail);
      if y != x {
        assert y in multiset(s[1..]);
        var k :| 0 <= k < |s[1..]| && s[1..][k] == y;
        assert s[k + 1] == y;
      }
    }
    SortedCons(s[0], tail);
    tail
  }

  /** A head no greater than any element of a sorted list keeps it sorted. */
  lemma {:induction false} SortedCons(h: string, tail: seq<string>)
    requires Sorted(tail)
    requires forall j :: 0 <= j < |tail| ==> LessEq(h, tail[j])
    ensures Sorted([h] + tail)
  {
    var r := [h] + tail;
    forall i, j | 0 <= i < j < |r| ensures LessEq(r[i], r[j]) {
      assert r[j] == tail[j - 1];
      if i > 0 {
        assert r[i] == tail[i - 1];
      }
    }
  }

  /** A directory's entries in ascending order: a sorted permutation of the
      names. The locale-aware comparison of the tree is replaced by the
      code-unit order. */
  function Sort(names: seq<string>): (r: seq<string>)
    ensures Sorted(r)
    ensures multiset(r) == multiset(names)
  {
    if |names| == 0 then []
    else
      var init := names[..|names| - 1];
      assert names == init + [names[|names| - 1]];
      Insert(names[|names| - 1], Sort(init))
  }
}
