/**
 * The JavaScript array built-ins the store and the pages use to compute new
 * lists: `filter` by element, `filter` by index, and duplicate-free lists.
 */
module JsArray {

  /** `s.filter(keep)`: the elements `keep` accepts, in their original order. */
  function Filter<T>(s: seq<T>, keep: T -> bool): (r: seq<T>)
    ensures |r| <= |s|
    ensures forall x | x in r :: x in s && keep(x)
    ensures forall x | x in s && keep(x) :: x in r
  {
    if s == [] then []
    else (if keep(s[0]) then [s[0]] else []) + Filter(s[1..], keep)
  }

  /** Filtering works piece by piece, so it keeps the relative order of what it keeps. */
  lemma {:induction false} FilterConcat<T>(a: seq<T>, b: seq<T>, keep: T -> bool)
    ensures Filter(a + b, keep) == Filter(a, keep) + Filter(b, keep)
  {
    if a == [] {
      assert a + b == b;
    } else {
      assert (a + b)[0] == a[0] && (a + b)[1..] == a[1..] + b;
      FilterConcat(a[1..], b, keep);
    }
  }

  /** A filter that rejects nothing leaves the list as it was. */
  lemma {:induction false} FilterKeepsAll<T>(s: seq<T>, keep: T -> bool)
    requires forall x | x in s :: keep(x)
    ensures Filter(s, keep) == s
  {
    if s != [] {
      FilterKeepsAll(s[1..], keep);
    }
  }

  /** Filtering out the one rejected element between two accepted runs joins the runs. */
  lemma FilterDropsOne<T>(a: seq<T>, x: T, b: seq<T>, keep: T -> bool)
    requires forall y | y in a :: keep(y)
    requires forall y | y in b :: keep(y)
    requires !keep(x)
    ensures Filter(a + [x] + b, keep) == a + b
  {
    assert Filter([x], keep) == [] by {
      assert [x][1..] == [];
    }
    assert Filter(a + [x], keep) == a by {
      FilterConcat(a, [x], keep);
      FilterKeepsAll(a, keep);
      assert a + [] == a;
    }
    FilterConcat(a + [x], b, keep);
    FilterKeepsAll(b, keep);
  }

  /** Two tests that agree on every element select the same list. */
  lemma {:induction false} FilterCongruent<T>(s: seq<T>, p: T -> bool, q: T -> bool)
    requires forall x | x in s :: p(x) == q(x)
    ensures Filter(s, p) == Filter(s, q)
  {
    if s != [] {
      FilterCongruent(s[1..], p, q);
    }
  }

  /** Whatever relation held between every earlier and later element still
      holds after filtering: filtering keeps relative order. */
  lemma {:induction false} FilterPairwise<T>(s: seq<T>, keep: T -> bool, rel: (T, T) -> bool)
    requires forall i, j :: 0 <= i < j < |s| ==> rel(s[i], s[j])
    ensures forall i, j :: 0 <= i < j < |Filter(s, keep)| ==> rel(Filter(s, keep)[i], Filter(s, keep)[j])
  {
    if s != [] {
      FilterPairwise(s[1..], keep, rel);
      var tail := Filter(s[1..], keep);
      forall y | y in tail ensures rel(s[0], y) {
        var k :| 0 <= k < |s[1..]| && s[1..][k] == y;
        assert s[k + 1] == y;
      }
      var r := (if keep(s[0]) then [s[0]] else []) + tail;
      forall i, j | 0 <= i < j < |r| ensures rel(r[i], r[j]) {
        if keep(s[0]) {
          assert r[j] == tail[j - 1] && r[j] in tail;
          if i > 0 {
            assert r[i] == tail[i - 1];
          } else {
            assert r[i] == s[0];
          }
        } else {
          assert r[i] == tail[i] && r[j] == tail[j];
        }
      }
    }
  }

  /** `s.filter((_, i) => i !== index)`: drops the element at `index`, if any. */
  function RemovedAt<T>(s: seq<T>, index: int): (r: seq<T>)
    ensures 0 <= index < |s| ==> r == s[..index] + s[index + 1..]
    ensures !(0 <= index < |s|) ==> r == s
  {
    if s == [] then []
    else (if index == 0 then [] else [s[0]]) + RemovedAt(s[1..], index - 1)
  }

  /** The lists `f` gives for the elements, one after another: the entries a
      `forEach` over the lines collects, line after line. */
  function FlatMap<A, B>(s: seq<A>, f: A -> seq<B>): seq<B> {
    if s == [] then [] else FlatMap(s[..|s| - 1], f) + f(s[|s| - 1])
  }

  /** Each element contributes on its own. */
  lemma {:induction false} FlatMapConcat<A, B>(a: seq<A>, b: seq<A>, f: A -> seq<B>)
    ensures FlatMap(a + b, f) == FlatMap(a, f) + FlatMap(b, f)
    decreases |b|
  {
    if b == [] {
      assert a + b == a;
    } else {
      var b' := b[..|b| - 1];
      FlatMapConcat(a, b', f);
      assert (a + b)[..|a + b| - 1] == a + b';
      assert (a + b)[|a + b| - 1] == b[|b| - 1];
    }
  }

  /** A one-element list contributes what its element gives. */
  lemma FlatMapSingle<A, B>(x: A, f: A -> seq<B>)
    ensures FlatMap([x], f) == f(x)
  {
    assert [x][..0] == [];
    assert FlatMap([x], f) == FlatMap([], f) + f(x);
  }

  predicate NoDup<T(==)>(s: seq<T>) {
    forall i, j :: 0 <= i < j < |s| ==> s[i] != s[j]
  }

  /** The set of elements of a list (what `new Set(list)` holds). */
  function Elements<T>(s: seq<T>): set<T> {
    set x | x in s
  }

  /** A list has no more distinct elements than it has entries. */
  lemma {:induction false} ElementsCard<T>(s: seq<T>)
    ensures |Elements(s)| <= |s|
  {
    if s != [] {
      ElementsCard(s[..|s| - 1]);
      assert Elements(s) == Elements(s[..|s| - 1]) + {s[|s| - 1]} by {
        assert s == s[..|s| - 1] + [s[|s| - 1]];
      }
    }
  }

  /** Appending a new element keeps a list free of repetitions and adds it to the elements. */
  lemma AppendFresh<T>(s: seq<T>, x: T)
    requires NoDup(s) && x !in s
    ensures NoDup(s + [x])
    ensures Elements(s + [x]) == Elements(s) + {x}
  {
    assert forall i | 0 <= i < |s| :: (s + [x])[i] == s[i];
    assert forall y | y in s + [x] :: y in s || y == x;
  }

  /** Filtering keeps a list free of repetitions. */
  lemma {:induction false} FilterNoDup<T>(s: seq<T>, keep: T -> bool)
    requires NoDup(s)
    ensures NoDup(Filter(s, keep))
  {
    if s != [] {
      FilterNoDup(s[1..], keep);
      var tail := Filter(s[1..], keep);
      assert s[0] !in s[1..] by {
        forall k | 0 <= k < |s[1..]| ensures s[1..][k] != s[0] {
          assert s[1..][k] == s[k + 1];
        }
      }
      assert s[0] !in tail;
      var r := (if keep(s[0]) then [s[0]] else []) + tail;
      forall i, j | 0 <= i < j < |r| ensures r[i] != r[j] {
        if keep(s[0]) && i == 0 {
          assert r[j] == tail[j - 1];
        }
      }
    }
  }
}
