/** The total order of `DockerVersion` values (`__lt__`, `__eq__`, and the
    `>` that `functools.total_ordering` derives from them). Releases compare
    as final releases do under PEP 440: component by component, the shorter
    one padded with zeros. Suffix tuples compare as Python tuples do. */
module VersionOrder {
  import opened Versions

  // ---------------------------------------------------------------------
  // Releases
  // ---------------------------------------------------------------------

  /** The first component, with a missing one read as zero. */
  function Head0(a: seq<nat>): nat { if a == [] then 0 else a[0] }

  function Tail0(a: seq<nat>): seq<nat> { if a == [] then [] else a[1..] }

  /** -1, 0 or 1 as release `a` is older than, the same as, or newer than `b`. */
  function CmpRelease(a: seq<nat>, b: seq<nat>): int
    decreases |a| + |b|
  {
    if a == [] && b == [] then 0
    else if Head0(a) < Head0(b) then -1
    else if Head0(a) > Head0(b) then 1
    else CmpRelease(Tail0(a), Tail0(b))
  }

  lemma {:induction false} CmpReleaseSelf(a: seq<nat>)
    ensures CmpRelease(a, a) == 0
    decreases |a|
  {
    if a != [] { CmpReleaseSelf(a[1..]); }
  }

  lemma {:induction false} CmpReleaseFlip(a: seq<nat>, b: seq<nat>)
    ensures CmpRelease(b, a) == -CmpRelease(a, b)
    decreases |a| + |b|
  {
    if a != [] || b != [] { CmpReleaseFlip(Tail0(a), Tail0(b)); }
  }

  /** Releases that compare equal compare alike with every third release. */
  lemma {:induction false} CmpReleaseSame(a: seq<nat>, b: seq<nat>, c: seq<nat>)
    requires CmpRelease(a, b) == 0
    ensures CmpRelease(a, c) == CmpRelease(b, c)
    decreases |a| + |b| + |c|
  {
    if a != [] || b != [] || c != [] {
      CmpReleaseSame(Tail0(a), Tail0(b), Tail0(c));
    }
  }

  lemma {:induction false} CmpReleaseTransitive(a: seq<nat>, b: seq<nat>, c: seq<nat>)
    requires CmpRelease(a, b) < 0 && CmpRelease(b, c) < 0
    ensures CmpRelease(a, c) < 0
    decreases |a| + |b| + |c|
  {
    if Head0(a) == Head0(b) && Head0(b) == Head0(c) {
      CmpReleaseTransitive(Tail0(a), Tail0(b), Tail0(c));
    }
  }

  /** A trailing zero component changes nothing: `1.2 == 1.2.0`. */
  lemma {:induction false} CmpReleaseTrailingZero(a: seq<nat>, b: seq<nat>)
    ensures CmpRelease(a + [0], b) == CmpRelease(a, b)
    decreases |a|
  {
    if a != [] {
      assert Tail0(a + [0]) == Tail0(a) + [0];
      CmpReleaseTrailingZero(Tail0(a), Tail0(b));
    } else {
      assert Tail0(a + [0]) == [];
    }
  }

  // ---------------------------------------------------------------------
  // Lexicographic order of sequences (Python's `<` on `str` and `tuple`)
  // ---------------------------------------------------------------------

  /** Sequences compare at their first differing element; a proper prefix is
      smaller. */
  function LexLess<T(==)>(a: seq<T>, b: seq<T>, less: (T, T) -> bool): bool
  {
    if a == [] then b != []
    else if b == [] then false
    else if a[0] != b[0] then less(a[0], b[0])
    else LexLess(a[1..], b[1..], less)
  }

  ghost predicate Irreflexive<T(!new)>(less: (T, T) -> bool) {
    forall x :: !less(x, x)
  }

  ghost predicate Transitive<T(!new)>(less: (T, T) -> bool) {
    forall x, y, z :: less(x, y) && less(y, z) ==> less(x, z)
  }

  ghost predicate Trichotomous<T(!new)>(less: (T, T) -> bool) {
    forall x, y :: x == y || less(x, y) || less(y, x)
  }

  lemma {:induction false} LexLessIrreflexive<T(!new)>(a: seq<T>, less: (T, T) -> bool)
    ensures !LexLess(a, a, less)
  {
    if a != [] { LexLessIrreflexive(a[1..], less); }
  }

  lemma {:induction false} LexLessTransitive<T(!new)>(a: seq<T>, b: seq<T>, c: seq<T>, less: (T, T) -> bool)
    requires Irreflexive(less) && Transitive(less)
    requires LexLess(a, b, less) && LexLess(b, c, less)
    ensures LexLess(a, c, less)
  {
    if a != [] && a[0] == b[0] && b[0] == c[0] {
      LexLessTransitive(a[1..], b[1..], c[1..], less);
    }
  }

  lemma {:induction false} LexLessTrichotomous<T(!new)>(a: seq<T>, b: seq<T>, less: (T, T) -> bool)
    requires Trichotomous(less)
    ensures a == b || LexLess(a, b, less) || LexLess(b, a, less)
  {
    if a != [] && b != [] && a[0] == b[0] {
      LexLessTrichotomous(a[1..], b[1..], less);
      if a[1..] == b[1..] { assert a == [a[0]] + a[1..] && b == [b[0]] + b[1..]; }
    }
  }

  lemma LexLessAsymmetric<T(!new)>(a: seq<T>, b: seq<T>, less: (T, T) -> bool)
    requires Irreflexive(less) && Transitive(less)
    ensures !(LexLess(a, b, less) && LexLess(b, a, less))
  {
    if LexLess(a, b, less) && LexLess(b, a, less) {
      LexLessTransitive(a, b, a, less);
      LexLessIrreflexive(a, less);
    }
  }

  // ---------------------------------------------------------------------
  // Suffix tuples
  // ---------------------------------------------------------------------

  /** Python compares `str` by code point. */
  function CharLess(x: char, y: char): bool { x < y }

  function NameLess(a: string, b: string): bool { LexLess(a, b, CharLess) }

  /** Tuple `(name, number)` comparison: names first, numbers on a tie. */
  function PairLess(p: Pair, q: Pair): bool
  {
    if p.name != q.name then NameLess(p.name, q.name) else p.number < q.number
  }

  function SuffixLess(a: seq<Pair>, b: seq<Pair>): bool { LexLess(a, b, PairLess) }

  lemma PairLessStrictOrder()
    ensures Irreflexive(PairLess) && Transitive(PairLess) && Trichotomous(PairLess)
  {
    assert Irreflexive(CharLess) && Transitive(CharLess) && Trichotomous(CharLess);
    forall p: Pair, q: Pair, r: Pair | PairLess(p, q) && PairLess(q, r)
      ensures PairLess(p, r)
    {
      if p.name != q.name && q.name != r.name {
        LexLessTransitive(p.name, q.name, r.name, CharLess);
        if p.name == r.name { LexLessAsymmetric(p.name, q.name, CharLess); }
      }
    }
    forall p: Pair, q: Pair ensures p == q || PairLess(p, q) || PairLess(q, p) {
      LexLessTrichotomous(p.name, q.name, CharLess);
    }
  }

  // ---------------------------------------------------------------------
  // Versions
  // ---------------------------------------------------------------------

  /** `a < b`: releases first; only equal releases compare their suffixes. */
  function Less(a: DockerVersion, b: DockerVersion): bool
  {
    var c := CmpRelease(a.release, b.release);
    if c != 0 then c < 0 else SuffixLess(a.suffix, b.suffix)
  }

  /** `a == b`: same release and same suffix tuple; `original` plays no part. */
  function Equal(a: DockerVersion, b: DockerVersion): bool
  {
    CmpRelease(a.release, b.release) == 0 && a.suffix == b.suffix
  }

  /** `a > b` as `functools.total_ordering` derives it: `not a < b and a != b`. */
  function Greater(a: DockerVersion, b: DockerVersion): bool
  {
    !Less(a, b) && !Equal(a, b)
  }

  /** Every version equals itself and is not less than itself. */
  lemma LessIrreflexive(a: DockerVersion)
    ensures Equal(a, a) && !Less(a, a)
  {
    CmpReleaseSelf(a.release);
    LexLessIrreflexive(a.suffix, PairLess);
  }

  lemma EqualSymmetric(a: DockerVersion, b: DockerVersion)
    ensures Equal(a, b) == Equal(b, a)
  {
    CmpReleaseFlip(a.release, b.release);
  }

  lemma EqualTransitive(a: DockerVersion, b: DockerVersion, c: DockerVersion)
    requires Equal(a, b) && Equal(b, c)
    ensures Equal(a, c)
  {
    CmpReleaseSame(a.release, b.release, c.release);
  }

  lemma LessTransitive(a: DockerVersion, b: DockerVersion, c: DockerVersion)
    requires Less(a, b) && Less(b, c)
    ensures Less(a, c)
  {
    var ab, bc := CmpRelease(a.release, b.release), CmpRelease(b.release, c.release);
    if ab == 0 {
      CmpReleaseSame(a.release, b.release, c.release);
      if bc == 0 {
        PairLessStrictOrder();
        LexLessTransitive(a.suffix, b.suffix, c.suffix, PairLess);
      }
    } else if bc == 0 {
      CmpReleaseFlip(b.release, c.release);
      CmpReleaseSame(c.release, b.release, a.release);
      CmpReleaseFlip(a.release, b.release);
      CmpReleaseFlip(a.release, c.release);
    } else {
      CmpReleaseTransitive(a.release, b.release, c.release);
    }
  }

  /** Exactly one of `a < b`, `a == b`, `b < a` holds. */
  lemma LessTrichotomy(a: DockerVersion, b: DockerVersion)
    ensures Less(a, b) || Equal(a, b) || Less(b, a)
    ensures !(Less(a, b) && Equal(a, b))
    ensures !(Less(a, b) && Less(b, a))
    ensures !(Equal(a, b) && Less(b, a))
  {
    CmpReleaseFlip(a.release, b.release);
    PairLessStrictOrder();
    LexLessTrichotomous(a.suffix, b.suffix, PairLess);
    LexLessAsymmetric(a.suffix, b.suffix, PairLess);
    LexLessIrreflexive(a.suffix, PairLess);
  }

  /** Equal versions stand in the same place in the order. */
  lemma LessRespectsEqual(a: DockerVersion, b: DockerVersion, c: DockerVersion)
    requires Equal(a, b)
    ensures Less(a, c) == Less(b, c)
    ensures Less(c, a) == Less(c, b)
  {
    CmpReleaseSame(a.release, b.release, c.release);
    CmpReleaseFlip(a.release, c.release);
    CmpReleaseFlip(b.release, c.release);
  }

  /** Whatever lies between two versions in the order is above the lower or
      below the upper: versions that tie stand in the same place. */
  lemma LessNegativeTransitive(a: DockerVersion, b: DockerVersion, c: DockerVersion)
    requires Less(a, c)
    ensures Less(a, b) || Less(b, c)
  {
    LessTrichotomy(a, b);
    if Equal(a, b) {
      LessRespectsEqual(a, b, c);
    } else if Less(b, a) {
      LessTransitive(b, a, c);
    }
  }

  /** The derived `>` is the converse of `<`. */
  lemma GreaterIsConverse(a: DockerVersion, b: DockerVersion)
    ensures Greater(a, b) == Less(b, a)
  {
    LessTrichotomy(a, b);
  }
}
