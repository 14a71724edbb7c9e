/**
 * The swift-collections `OrderedSet` as a value: a sequence without
 * duplicates, where `append` adds an element at the end unless an equal
 * element is already present. Equality is whole-value equality (the
 * element's `Hashable` conformance), not the resource's uid.
 */
module OrderedSets {

  /** No element occurs twice: the representation invariant of an OrderedSet. */
  ghost predicate NoDup<T>(s: seq<T>) {
    forall i, j :: 0 <= i < j < |s| ==> s[i] != s[j]
  }

  /** `OrderedSet.append(x)`: inserts `x` at the end if it is not a member yet. */
  function Append<T(==,!new)>(s: seq<T>, x: T): (r: seq<T>)
    ensures |s| <= |r| <= |s| + 1 && r[..|s|] == s
    ensures x in r
    ensures |r| == |s| + 1 <==> x !in s
  {
    if x in s then s else s + [x]
  }

  /** `append` keeps an OrderedSet free of duplicates. */
  lemma AppendNoDup<T(!new)>(s: seq<T>, x: T)
    requires NoDup(s)
    ensures NoDup(Append(s, x))
  {
    if x !in s {
      forall i, j | 0 <= i < j < |s| + 1
        ensures (s + [x])[i] != (s + [x])[j]
      {
        if j == |s| {
          assert s[i] in s;
        }
      }
    }
  }

  /**
   * `OrderedSet.append(contentsOf: xs)`: appends every element of `xs` in
   * order. Written as a fold from the right end so that a loop over a prefix
   * of `xs` matches it step by step.
   */
  function AppendAll<T(==,!new)>(s: seq<T>, xs: seq<T>): (r: seq<T>)
    ensures |s| <= |r| <= |s| + |xs| && r[..|s|] == s
    decreases |xs|
  {
    if xs == [] then s
    else Append(AppendAll(s, xs[..|xs| - 1]), xs[|xs| - 1])
  }

  /** `append(contentsOf:)` keeps an OrderedSet free of duplicates. */
  lemma {:induction false} AppendAllNoDup<T(!new)>(s: seq<T>, xs: seq<T>)
    requires NoDup(s)
    ensures NoDup(AppendAll(s, xs))
    decreases |xs|
  {
    if xs != [] {
      AppendAllNoDup(s, xs[..|xs| - 1]);
      AppendNoDup(AppendAll(s, xs[..|xs| - 1]), xs[|xs| - 1]);
    }
  }

  /** The members after appending a list are the old members and the list's elements. */
  lemma {:induction false} AppendAllMembers<T(!new)>(s: seq<T>, xs: seq<T>)
    ensures forall y :: y in AppendAll(s, xs) <==> y in s || y in xs
    decreases |xs|
  {
    if xs != [] {
      var prefix := xs[..|xs| - 1];
      var last := xs[|xs| - 1];
      AppendAllMembers(s, prefix);
      assert xs == prefix + [last];
      var prev := AppendAll(s, prefix);
      assert forall y :: y in Append(prev, last) <==> y in prev || y == last;
    }
  }

  /** Appending a list in two pieces is appending it in one. */
  lemma {:induction false} AppendAllConcat<T(!new)>(s: seq<T>, a: seq<T>, b: seq<T>)
    ensures AppendAll(s, a + b) == AppendAll(AppendAll(s, a), b)
    decreases |b|
  {
    if b == [] {
      assert a + b == a;
    } else {
      var b' := b[..|b| - 1];
      assert (a + b)[..|a + b| - 1] == a + b';
      assert (a + b)[|a + b| - 1] == b[|b| - 1];
      AppendAllConcat(s, a, b');
    }
  }

  /** Appending only elements that are already members changes nothing. */
  lemma {:induction false} AppendAllPresent<T(!new)>(s: seq<T>, xs: seq<T>)
    requires forall x :: x in xs ==> x in s
    ensures AppendAll(s, xs) == s
    decreases |xs|
  {
    if xs != [] {
      assert xs[|xs| - 1] in xs;
      forall x | x in xs[..|xs| - 1] ensures x in s {
        assert x in xs;
      }
      AppendAllPresent(s, xs[..|xs| - 1]);
    }
  }

  /**
   * Appending distinct elements that are all new places them after the old
   * contents in list order, exactly.
   */
  lemma {:induction false} AppendAllFresh<T(!new)>(s: seq<T>, xs: seq<T>)
    requires NoDup(xs)
    requires forall x :: x in xs ==> x !in s
    ensures AppendAll(s, xs) == s + xs
    decreases |xs|
  {
    if xs != [] {
      var xs' := xs[..|xs| - 1];
      var last := xs[|xs| - 1];
      forall x | x in xs' ensures x !in s {
        assert x in xs;
      }
      AppendAllFresh(s, xs');
      assert last !in s by { assert last in xs; }
      assert s + xs' + [last] == s + xs by { assert xs == xs' + [last]; }
    }
  }

  /**
   * Appending the same list twice gives the same set as appending it once:
   * with whole-value equality, re-applying an identical listing adds nothing.
   */
  lemma AppendAllIdempotent<T(!new)>(s: seq<T>, xs: seq<T>)
    ensures AppendAll(AppendAll(s, xs), xs) == AppendAll(s, xs)
  {
    AppendAllMembers(s, xs);
    AppendAllPresent(AppendAll(s, xs), xs);
  }
}
