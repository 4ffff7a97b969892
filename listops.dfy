/** The two list operations `find_newer_tags` relies on, for any element
    type: keeping the elements that pass a test, in order (a loop that
    appends), and Python's `sorted`, a stable sort that only asks `<`. */
module ListOps {

  // ---------------------------------------------------------------------
  // Keeping the elements that pass a test
  // ---------------------------------------------------------------------

  /** The elements of `s` that pass `keep`, in their order in `s`. */
  function Filter<T(!new)>(s: seq<T>, keep: T -> bool): (r: seq<T>)
    ensures |r| <= |s|
    ensures forall x :: x in r <==> x in s && keep(x)
  {
    if s == [] then []
    else
      var init := s[..|s| - 1];
      var last := s[|s| - 1];
      assert s == init + [last];
      Filter(init, keep) + if keep(last) then [last] else []
  }

  lemma {:induction false} FilterConcat<T(!new)>(a: seq<T>, b: seq<T>, keep: T -> bool)
    ensures Filter(a + b, keep) == Filter(a, keep) + Filter(b, keep)
    decreases |b|
  {
    if b == [] {
      assert a + b == a;
    } else {
      var b' := b[..|b| - 1];
      assert (a + b)[..|a + b| - 1] == a + b';
      FilterConcat(a, b', keep);
    }
  }

  // ---------------------------------------------------------------------
  // Orders
  // ---------------------------------------------------------------------

  /** What a stable sort needs of `<`: irreflexive, transitive, and ties
      (neither element below the other) that behave like equality. */
  ghost predicate StrictWeakOrder<T(!new)>(less: (T, T) -> bool)
  {
    (forall x :: !less(x, x))
    && (forall x, y, z :: less(x, y) && less(y, z) ==> less(x, z))
    && (forall x, y, z :: less(x, z) ==> less(x, y) || less(y, z))
  }

  /** Neither is below the other. */
  predicate Ties<T>(x: T, y: T, less: (T, T) -> bool)
  {
    !less(x, y) && !less(y, x)
  }

  /** No element is followed by one below it. */
  predicate Ascending<T>(s: seq<T>, less: (T, T) -> bool)
  {
    forall i, j :: 0 <= i < j < |s| ==> !less(s[j], s[i])
  }

  /** The elements of `s` that tie with `w`, in their order in `s`. */
  function TiesWith<T(!new)>(s: seq<T>, w: T, less: (T, T) -> bool): (r: seq<T>)
    ensures forall x :: x in r <==> x in s && Ties(x, w, less)
  {
    if s == [] then []
    else (if Ties(s[0], w, less) then [s[0]] else []) + TiesWith(s[1..], w, less)
  }

  lemma {:induction false} TiesWithConcat<T(!new)>(a: seq<T>, b: seq<T>, w: T, less: (T, T) -> bool)
    ensures TiesWith(a + b, w, less) == TiesWith(a, w, less) + TiesWith(b, w, less)
  {
    if a == [] {
      assert a + b == b;
    } else {
      assert (a + b)[1..] == a[1..] + b;
      TiesWithConcat(a[1..], b, w, less);
    }
  }

  // ---------------------------------------------------------------------
  // `sorted`
  // ---------------------------------------------------------------------

  /** `x` goes before the first element above it, hence after every element
      it ties with. */
  function Insert<T>(s: seq<T>, x: T, less: (T, T) -> bool): (r: seq<T>)
    ensures multiset(r) == multiset(s) + multiset{x}
  {
    if s == [] then [x]
    else if less(x, s[0]) then [x] + s
    else
      assert s == [s[0]] + s[1..];
      [s[0]] + Insert(s[1..], x, less)
  }

  /** Insertion keeps a sorted sequence sorted. */
  lemma {:induction false} InsertAscending<T(!new)>(s: seq<T>, x: T, less: (T, T) -> bool)
    requires StrictWeakOrder(less) && Ascending(s, less)
    ensures Ascending(Insert(s, x, less), less)
  {
    if s == [] {
    } else if less(x, s[0]) {
      var r := [x] + s;
      forall j | 0 < j < |r| ensures !less(r[j], x) {
        assert r[j] == s[j - 1];
        assert j - 1 == 0 || !less(s[j - 1], s[0]);
      }
    } else {
      var rest := Insert(s[1..], x, less);
      InsertAscending(s[1..], x, less);
      var r := [s[0]] + rest;
      forall j | 0 < j < |r| ensures !less(r[j], s[0]) {
        assert r[j] in multiset(rest);
        if r[j] != x {
          assert r[j] in multiset(s[1..]);
          var k :| 0 <= k < |s[1..]| && s[1..][k] == r[j];
          assert s[k + 1] == r[j];
        }
      }
    }
  }

  /** In a sorted sequence, what lies above the first element lies above
      them all. */
  lemma AboveFirst<T(!new)>(s: seq<T>, x: T, less: (T, T) -> bool)
    requires StrictWeakOrder(less) && Ascending(s, less)
    requires s != [] && less(x, s[0])
    ensures forall y :: y in s ==> less(x, y)
  {
    forall y | y in s ensures less(x, y) {
      var k :| 0 <= k < |s| && s[k] == y;
      if k > 0 {
        assert !less(s[k], s[0]);
      }
    }
  }

  /** With every element of `s` above `x`, nothing in `s` ties with what
      ties with `x`. */
  lemma NothingTiesAbove<T(!new)>(s: seq<T>, x: T, w: T, less: (T, T) -> bool)
    requires StrictWeakOrder(less)
    requires forall y :: y in s ==> less(x, y)
    requires Ties(x, w, less)
    ensures TiesWith(s, w, less) == []
  {
  }

  /** `x` placed in front of a sorted sequence that lies above it comes
      after nothing it ties with. */
  lemma InsertFrontStable<T(!new)>(s: seq<T>, x: T, w: T, less: (T, T) -> bool)
    requires StrictWeakOrder(less) && Ascending(s, less)
    requires s != [] && less(x, s[0])
    ensures TiesWith([x] + s, w, less) == TiesWith(s, w, less) + TiesWith([x], w, less)
  {
    TiesWithConcat([x], s, w, less);
    if Ties(x, w, less) {
      AboveFirst(s, x, less);
      NothingTiesAbove(s, x, w, less);
    } else {
      assert TiesWith([x], w, less) == [];
    }
  }

  /** Insertion puts `x` after every element it ties with. */
  lemma {:induction false} InsertStable<T(!new)>(s: seq<T>, x: T, w: T, less: (T, T) -> bool)
    requires StrictWeakOrder(less) && Ascending(s, less)
    ensures TiesWith(Insert(s, x, less), w, less) == TiesWith(s, w, less) + TiesWith([x], w, less)
  {
    if s == [] {
      assert TiesWith([x], w, less) == [] + TiesWith([x], w, less);
    } else if less(x, s[0]) {
      InsertFrontStable(s, x, w, less);
    } else {
      assert Ascending(s[1..], less);
      InsertStable(s[1..], x, w, less);
      assert [s[0]] + s[1..] == s;
      ConsTies(s[0], s[1..], Insert(s[1..], x, less), x, w, less);
    }
  }

  lemma ConsTies<T(!new)>(h: T, t: seq<T>, rest: seq<T>, x: T, w: T, less: (T, T) -> bool)
    requires TiesWith(rest, w, less) == TiesWith(t, w, less) + TiesWith([x], w, less)
    ensures TiesWith([h] + rest, w, less) == TiesWith([h] + t, w, less) + TiesWith([x], w, less)
  {
    TiesWithConcat([h], t, w, less);
    TiesWithConcat([h], rest, w, less);
  }

  /** `sorted(xs)`: each element in turn is inserted into the sorted prefix
      before it. */
  function Sort<T>(xs: seq<T>, less: (T, T) -> bool): (r: seq<T>)
    ensures multiset(r) == multiset(xs)
  {
    if xs == [] then []
    else
      var init := xs[..|xs| - 1];
      assert xs == init + [xs[|xs| - 1]];
      Insert(Sort(init, less), xs[|xs| - 1], less)
  }

  /** The sort orders its input. */
  lemma {:induction false} SortAscending<T(!new)>(xs: seq<T>, less: (T, T) -> bool)
    requires StrictWeakOrder(less)
    ensures Ascending(Sort(xs, less), less)
  {
    if xs != [] {
      var init := xs[..|xs| - 1];
      SortAscending(init, less);
      InsertAscending(Sort(init, less), xs[|xs| - 1], less);
    }
  }

  /** The sort is stable: elements that tie keep their order. */
  lemma {:induction false} SortStable<T(!new)>(xs: seq<T>, w: T, less: (T, T) -> bool)
    requires StrictWeakOrder(less)
    ensures TiesWith(Sort(xs, less), w, less) == TiesWith(xs, w, less)
  {
    if xs != [] {
      var init := xs[..|xs| - 1];
      var last := xs[|xs| - 1];
      SortAscending(init, less);
      SortStable(init, w, less);
      InsertStable(Sort(init, less), last, w, less);
      assert xs == init + [last];
      TiesWithConcat(init, [last], w, less);
    }
  }
}
