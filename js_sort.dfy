/**
 * `Array.prototype.sort()` without a comparator, on strings: the order is the
 * lexicographic order of the character sequences.
 */
module JsSort {
  import opened JsArray

  /** `a` sorts no later than `b`: a prefix comes first, otherwise the first differing character decides. */
  predicate LessEq(a: string, b: string) {
    a == [] || (b != [] && (a[0] < b[0] || (a[0] == b[0] && LessEq(a[1..], b[1..]))))
  }

  lemma {:induction false} LessEqReflexive(a: string)
    ensures LessEq(a, a)
  {
    if a != [] {
      LessEqReflexive(a[1..]);
    }
  }

  lemma {:induction false} LessEqAntisymmetric(a: string, b: string)
    requires LessEq(a, b) && LessEq(b, a)
    ensures a == b
  {
    if a != [] && b != [] {
      LessEqAntisymmetric(a[1..], b[1..]);
      assert a == [a[0]] + a[1..] && b == [b[0]] + b[1..];
    }
  }

  lemma {:induction false} LessEqTransitive(a: string, b: string, c: string)
    requires LessEq(a, b) && LessEq(b, c)
    ensures LessEq(a, c)
  {
    if a != [] && b != [] && c != [] && a[0] == b[0] == c[0] {
      LessEqTransitive(a[1..], b[1..], c[1..]);
    }
  }

  lemma {:induction false} LessEqTotal(a: string, b: string)
    ensures LessEq(a, b) || LessEq(b, a)
  {
    if a != [] && b != [] && a[0] == b[0] {
      LessEqTotal(a[1..], b[1..]);
    }
  }

  predicate Sorted(s: seq<string>) {
    forall i, j :: 0 <= i < j < |s| ==> LessEq(s[i], s[j])
  }

  /** Sorted and without repetitions. */
  predicate StrictlyAscending(s: seq<string>) {
    forall i, j :: 0 <= i < j < |s| ==> LessEq(s[i], s[j]) && s[i] != s[j]
  }

  function Insert(x: string, s: seq<string>): (r: seq<string>)
    requires Sorted(s)
    ensures Sorted(r)
    ensures multiset(r) == multiset(s) + multiset{x}
  {
    if s == [] then [x]
    else if LessEq(x, s[0]) then
      assert forall k :: 0 <= k < |s| ==> LessEq(x, s[k]) by {
        forall k | 0 <= k < |s| ensures LessEq(x, s[k]) {
          if k > 0 { LessEqTransitive(x, s[0], s[k]); }
        }
      }
      PrependSorted(x, s);
      [x] + s
    else
      LessEqTotal(x, s[0]);
      var tail := Insert(x, s[1..]);
      assert s == [s[0]] + s[1..];
      assert forall k :: 0 <= k < |tail| ==> LessEq(s[0], tail[k]) by {
        forall k | 0 <= k < |tail| ensures LessEq(s[0], tail[k]) {
          assert tail[k] in multiset(tail);
          assert tail[k] == x || tail[k] in multiset(s[1..]);
        }
      }
      PrependSorted(s[0], tail);
      [s[0]] + tail
  }

  /** A head no later than any element keeps a sorted list sorted. */
  lemma PrependSorted(h: string, s: seq<string>)
    requires Sorted(s)
    requires forall k :: 0 <= k < |s| ==> LessEq(h, s[k])
    ensures Sorted([h] + s)
  {
    var r := [h] + s;
    forall i, j | 0 <= i < j < |r| ensures LessEq(r[i], r[j]) {
      assert r[j] == s[j - 1];
      if i > 0 { assert r[i] == s[i - 1]; }
    }
  }

  /** `list.sort()`: an ascending permutation of `list`. */
  function SortStrings(list: seq<string>): (r: seq<string>)
    ensures Sorted(r)
    ensures multiset(r) == multiset(list)
  {
    if list == [] then []
    else
      assert list == [list[0]] + list[1..];
      Insert(list[0], SortStrings(list[1..]))
  }

  /** A finite non-empty set of strings has a least element. */
  lemma {:induction false} MinimumExists(s: set<string>)
    requires s != {}
    ensures exists m :: m in s && IsLeast(m, s)
    decreases |s|
  {
    var y :| y in s;
    var rest := s - {y};
    LessEqReflexive(y);
    if rest == {} {
      forall x | x in s ensures LessEq(y, x) {
        assert x !in rest;
      }
    } else {
      MinimumExists(rest);
      var m :| m in rest && IsLeast(m, rest);
      LessEqTotal(m, y);
      if LessEq(m, y) {
        assert IsLeast(m, s);
      } else {
        forall x | x in s ensures LessEq(y, x) {
          if x != y {
            assert x in rest;
            LessEqTransitive(y, m, x);
          }
        }
        assert IsLeast(y, s);
      }
    }
  }

  predicate IsLeast(m: string, s: set<string>) {
    forall x | x in s :: LessEq(m, x)
  }

  /** The elements of `s` in ascending order. */
  ghost function SortedElements(s: set<string>): (r: seq<string>)
    ensures StrictlyAscending(r)
    ensures Elements(r) == s
    decreases |s|
  {
    if s == {} then []
    else
      MinimumExists(s);
      var m :| m in s && IsLeast(m, s);
      var tail := SortedElements(s - {m});
      assert forall x | x in tail :: x in Elements(tail);
      var r := [m] + tail;
      assert forall j | 0 < j < |r| :: r[j] == tail[j - 1];
      assert Elements(r) == s by {
        forall x ensures x in Elements(r) <==> x in s {
          if x != m {
            assert x in r <==> x in tail;
            assert x in tail <==> x in Elements(tail);
          }
        }
      }
      r
  }

  lemma NonEmptyElements(s: seq<string>)
    ensures s != [] ==> s[0] in Elements(s)
  {
  }

  /** Only one list enumerates a set in ascending order. */
  lemma {:induction false} AscendingUnique(a: seq<string>, b: seq<string>)
    requires StrictlyAscending(a) && StrictlyAscending(b)
    requires Elements(a) == Elements(b)
    ensures a == b
  {
    NonEmptyElements(a);
    NonEmptyElements(b);
    if a != [] && b != [] {
      assert b[0] in Elements(a) && a[0] in Elements(b);
      var i :| 0 <= i < |a| && a[i] == b[0];
      var j :| 0 <= j < |b| && b[j] == a[0];
      LessEqReflexive(a[0]);
      LessEqReflexive(b[0]);
      assert LessEq(a[0], a[i]) && LessEq(b[0], b[j]);
      LessEqAntisymmetric(a[0], b[0]);
      assert Elements(a[1..]) == Elements(a) - {a[0]} by {
        forall x ensures x in Elements(a[1..]) <==> x in Elements(a) - {a[0]} {
          assert x in a <==> x == a[0] || x in a[1..];
        }
      }
      assert Elements(b[1..]) == Elements(b) - {b[0]} by {
        forall x ensures x in Elements(b[1..]) <==> x in Elements(b) - {b[0]} {
          assert x in b <==> x == b[0] || x in b[1..];
        }
      }
      AscendingUnique(a[1..], b[1..]);
      assert a == [a[0]] + a[1..] && b == [b[0]] + b[1..];
    }
  }

  /** A list without repetitions occurs at most once per element. */
  lemma {:induction false} NoDupMultiplicity(s: seq<string>, x: string)
    requires NoDup(s)
    ensures multiset(s)[x] <= 1
  {
    if s != [] {
      assert s == [s[0]] + s[1..];
      NoDupMultiplicity(s[1..], x);
      assert s[0] !in s[1..];
    }
  }

  /** A list in which nothing occurs twice has no repetitions. */
  lemma {:induction false} MultiplicityNoDup(s: seq<string>)
    requires forall x :: multiset(s)[x] <= 1
    ensures NoDup(s)
  {
    if s != [] {
      assert s == [s[0]] + s[1..];
      assert forall x :: multiset(s[1..])[x] <= multiset(s)[x];
      MultiplicityNoDup(s[1..]);
      assert multiset(s[1..])[s[0]] == 0;
      assert forall j | 0 < j < |s| :: s[j] in s[1..];
    }
  }

  /** Sorting the listing of a set (what `Array.from(set).sort()` does) gives
      the set's elements in ascending order, whatever order the listing had. */
  lemma SortDistinct(list: seq<string>)
    requires NoDup(list)
    ensures SortStrings(list) == SortedElements(Elements(list))
  {
    var r := SortStrings(list);
    forall x ensures multiset(r)[x] <= 1 {
      NoDupMultiplicity(list, x);
    }
    MultiplicityNoDup(r);
    assert Elements(r) == Elements(list) by {
      forall x ensures x in r <==> x in list {
        assert x in r <==> x in multiset(r);
        assert x in list <==> x in multiset(list);
      }
    }
    AscendingUnique(r, SortedElements(Elements(list)));
  }
}
