/**
 Go's string ordering, sort.Strings and sort.SearchStrings. Go compares
 strings byte by byte; on UTF-8 text that is the same as comparing code
 points, which is the order used here on `char`.
 */
module GoSort {

  /** Lexicographic "strictly less" on strings (Go's `a < b`). */
  predicate Less(a: string, b: string) {
    if |a| == 0 then |b| > 0
    else if |b| == 0 then false
    else if a[0] != b[0] then a[0] < b[0]
    else Less(a[1..], b[1..])
  }

  predicate LessEq(a: string, b: string) {
    a == b || Less(a, b)
  }

  lemma {:induction false} LessIrreflexive(a: string)
    ensures !Less(a, a)
  {
    if |a| > 0 {
      LessIrreflexive(a[1..]);
    }
  }

  lemma {:induction false} LessTotal(a: string, b: string)
    ensures a == b || Less(a, b) || Less(b, a)
  {
    if |a| > 0 && |b| > 0 && a[0] == b[0] {
      LessTotal(a[1..], b[1..]);
      if a[1..] == b[1..] {
        assert a == [a[0]] + a[1..] && b == [b[0]] + b[1..];
      }
    }
  }

  lemma {:induction false} LessTransitive(a: string, b: string, c: string)
    requires Less(a, b) && Less(b, c)
    ensures Less(a, c)
  {
    if |a| > 0 && a[0] == b[0] && b[0] == c[0] {
      LessTransitive(a[1..], b[1..], c[1..]);
    }
  }

  lemma LessEqTransitive(a: string, b: string, c: string)
    requires LessEq(a, b) && LessEq(b, c)
    ensures LessEq(a, c)
  {
    if Less(a, b) && Less(b, c) {
      LessTransitive(a, b, c);
    }
  }

  predicate Sorted(s: seq<string>) {
    forall i, j :: 0 <= i < j < |s| ==> LessEq(s[i], s[j])
  }

  /** A lower bound of every element of `s` and of `x` bounds every element of a permutation of `s` plus `x`. */
  lemma LowerBoundOfMultiset(lo: string, t: seq<string>, s: seq<string>, x: string)
    requires multiset(t) == multiset(s) + multiset{x}
    requires LessEq(lo, x)
    requires forall j :: 0 <= j < |s| ==> LessEq(lo, s[j])
    ensures forall j :: 0 <= j < |t| ==> LessEq(lo, t[j])
  {
    forall j | 0 <= j < |t|
      ensures LessEq(lo, t[j])
    {
      assert t[j] in multiset(s) + multiset{x} by {
        assert t[j] in multiset(t);
      }
      if t[j] != x {
        assert t[j] in s;
      }
    }
  }

  /** Insert `x` into the sorted `s`, before the first element not less than it. */
  function Insert(x: string, s: seq<string>): (r: seq<string>)
    requires Sorted(s)
    ensures Sorted(r)
    ensures multiset(r) == multiset(s) + multiset{x}
  {
    if |s| == 0 then [x]
    else if LessEq(x, s[0]) then
      assert forall j :: 0 < j < |s| ==> LessEq(x, s[j]) by {
        forall j | 0 < j < |s| { LessEqTransitive(x, s[0], s[j]); }
      }
      [x] + s
    else
      LessTotal(x, s[0]);
      var t := Insert(x, s[1..]);
      assert s == [s[0]] + s[1..];
      LowerBoundOfMultiset(s[0], t, s[1..], x);
      [s[0]] + t
  }

  /** sort.Strings, modelled on a copy: the result is sorted and a permutation of `s`. */
  function SortStrings(s: seq<string>): (r: seq<string>)
    ensures Sorted(r)
    ensures multiset(r) == multiset(s)
  {
    if |s| == 0 then []
    else
      assert s == [s[0]] + s[1..];
      Insert(s[0], SortStrings(s[1..]))
  }

  /** Sorting neither adds nor loses an element. */
  lemma SortKeepsMembers(s: seq<string>, x: string)
    ensures x in SortStrings(s) <==> x in s
  {
    assert x in SortStrings(s) <==> x in multiset(SortStrings(s));
  }

  /**
   sort.SearchStrings: Go's binary search for the smallest index whose
   element is not less than `x` (`|a|` when there is none).
   */
  method SearchStrings(a: seq<string>, x: string) returns (index: nat)
    requires Sorted(a)
    ensures index <= |a|
    ensures forall k :: 0 <= k < index ==> Less(a[k], x)
    ensures forall k :: index <= k < |a| ==> !Less(a[k], x)
  {
    var i, j := 0, |a|;
    while i < j
      invariant 0 <= i <= j <= |a|
      invariant forall k :: 0 <= k < i ==> Less(a[k], x)
      invariant forall k :: j <= k < |a| ==> !Less(a[k], x)
    {
      var h := (i + j) / 2;
      if Less(a[h], x) {
        forall k | 0 <= k <= h
          ensures Less(a[k], x)
        {
          if k < h && Less(a[k], a[h]) {
            LessTransitive(a[k], a[h], x);
          }
        }
        i := h + 1;
      } else {
        forall k | h <= k < |a|
          ensures !Less(a[k], x)
        {
          if k > h && Less(a[k], x) {
            if a[h] != a[k] {
              LessTransitive(a[h], a[k], x);
            }
          }
        }
        j := h;
      }
    }
    index := i;
  }

  /**
   The test parse applies to the result of SearchStrings, "index in range and
   the element there equals x", holds exactly when x is an element of the
   sorted sequence.
   */
  lemma SearchFindsMember(a: seq<string>, x: string, index: nat)
    requires Sorted(a)
    requires index <= |a|
    requires forall k :: 0 <= k < index ==> Less(a[k], x)
    requires forall k :: index <= k < |a| ==> !Less(a[k], x)
    ensures (index < |a| && a[index] == x) <==> x in a
  {
    if x in a {
      var k :| 0 <= k < |a| && a[k] == x;
      LessIrreflexive(x);
      assert index <= k;
    }
  }
}
