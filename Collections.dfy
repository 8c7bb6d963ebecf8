/**
 * The Swift standard-library sequence operations that Disco's pipelines use:
 * `filter`, `compactMap` (as `Compact` after a `map`) and `reduce([], +)`.
 */
module Collections {

  import opened Wrappers

  /** `s.filter(keep)`: the elements that satisfy keep, in their original order. */
  function Filter<T(!new)>(s: seq<T>, keep: T -> bool): (r: seq<T>)
    ensures |r| <= |s|
    ensures forall x :: x in r <==> x in s && keep(x)
  {
    if s == [] then []
    else if keep(s[0]) then [s[0]] + Filter(s[1..], keep)
    else Filter(s[1..], keep)
  }

  /** The second half of `compactMap`: the values of the non-nil entries, in order. */
  function Compact<T(!new)>(s: seq<Option<T>>): (r: seq<T>)
    ensures |r| <= |s|
    ensures forall x :: x in r <==> Some(x) in s
  {
    if s == [] then []
    else if s[0].Some? then [s[0].value] + Compact(s[1..])
    else Compact(s[1..])
  }

  /** `ss.reduce([], +)`: the concatenation of the sequences, left to right. */
  function Flatten<T(!new)>(ss: seq<seq<T>>): (r: seq<T>)
    ensures |r| == TotalLength(ss)
    ensures forall x :: x in r <==> exists k :: 0 <= k < |ss| && x in ss[k]
  {
    if ss == [] then []
    else
      var init := ss[..|ss| - 1];
      assert forall k :: 0 <= k < |init| ==> init[k] == ss[k];
      Flatten(init) + ss[|ss| - 1]
  }

  /** The sum of the lengths of the sequences. */
  function TotalLength<T>(ss: seq<seq<T>>): nat
  {
    if ss == [] then 0 else TotalLength(ss[..|ss| - 1]) + |ss[|ss| - 1]|
  }

  /** When every entry is non-nil, compacting keeps every entry in place. */
  lemma {:induction false} CompactAllSome<T(!new)>(s: seq<Option<T>>)
    requires forall k :: 0 <= k < |s| ==> s[k].Some?
    ensures |Compact(s)| == |s|
    ensures forall k :: 0 <= k < |s| ==> Compact(s)[k] == s[k].value
  {
    if s != [] {
      CompactAllSome(s[1..]);
    }
  }

  /** The keys of s strictly increase from left to right. */
  predicate StrictlyAscending<T>(s: seq<T>, key: T -> int)
  {
    forall j, k :: 0 <= j < k < |s| ==> key(s[j]) < key(s[k])
  }

  /** Filtering keeps the relative order: it never swaps two kept elements. */
  lemma {:induction false} FilterKeepsOrder<T(!new)>(s: seq<T>, keep: T -> bool, key: T -> int)
    requires StrictlyAscending(s, key)
    ensures StrictlyAscending(Filter(s, keep), key)
  {
    if s != [] {
      FilterKeepsOrder(s[1..], keep, key);
      var t := Filter(s[1..], keep);
      forall k | 0 <= k < |t| ensures key(s[0]) < key(t[k]) {
        assert t[k] in s[1..];
        var i :| 0 <= i < |s[1..]| && s[1..][i] == t[k];
        assert s[i + 1] == t[k];
      }
      if keep(s[0]) {
        var r := [s[0]] + t;
        assert Filter(s, keep) == r;
        forall j, k | 0 <= j < k < |r| ensures key(r[j]) < key(r[k]) {
          assert r[k] == t[k - 1];
          if j > 0 {
            assert r[j] == t[j - 1];
          }
        }
      }
    }
  }

  /** Filtering with a test every element passes changes nothing. */
  lemma {:induction false} FilterKeepsAll<T(!new)>(s: seq<T>, keep: T -> bool)
    requires forall k :: 0 <= k < |s| ==> keep(s[k])
    ensures Filter(s, keep) == s
  {
    if s != [] {
      FilterKeepsAll(s[1..], keep);
      assert [s[0]] + s[1..] == s;
    }
  }

  /** Filtering with a test only s[k] fails removes exactly that entry and keeps the rest in order. */
  lemma {:induction false} FilterDropsOne<T(!new)>(s: seq<T>, keep: T -> bool, k: nat)
    requires k < |s| && !keep(s[k])
    requires forall j :: 0 <= j < |s| && j != k ==> keep(s[j])
    ensures Filter(s, keep) == s[..k] + s[k + 1..]
  {
    var t := s[1..];
    if k == 0 {
      FilterKeepsAll(t, keep);
    } else {
      assert keep(s[0]);
      FilterDropsOne(t, keep, k - 1);
      assert t[..k - 1] == s[1..k] && t[k..] == s[k + 1..];
      assert [s[0]] + s[1..k] == s[..k];
    }
  }

  /** Two strictly ascending sequences with the same elements are the same sequence. */
  lemma {:induction false} AscendingUnique<T>(a: seq<T>, b: seq<T>, key: T -> int)
    requires StrictlyAscending(a, key) && StrictlyAscending(b, key)
    requires forall x :: x in a <==> x in b
    ensures a == b
  {
    SameElementsBothEmpty(a, b);
    if a != [] {
      assert a[0] in b;
      assert b[0] in a;
      forall x ensures x in a[1..] <==> x in b[1..] {
        if x in a[1..] {
          var m :| 0 <= m < |a[1..]| && a[1..][m] == x;
          assert key(a[0]) < key(a[m + 1]);
          assert x in b;
        }
        if x in b[1..] {
          var m :| 0 <= m < |b[1..]| && b[1..][m] == x;
          assert key(b[0]) < key(b[m + 1]);
          assert x in a;
        }
      }
      AscendingUnique(a[1..], b[1..], key);
      assert a == [a[0]] + a[1..] && b == [b[0]] + b[1..];
    }
  }

  /** Sequences with the same elements are either both empty or both not. */
  lemma SameElementsBothEmpty<T>(a: seq<T>, b: seq<T>)
    requires forall x :: x in a <==> x in b
    ensures a == [] <==> b == []
  {
    if a != [] {
      assert a[0] in b;
    }
    if b != [] {
      assert b[0] in a;
    }
  }
}
