/** `find_newer_tags`: one pass over the tag source that keeps the stable,
    parseable tags whose version is greater than the baseline's, followed by
    `sorted(newer_tags, key=DockerVersion)`. The registry is replaced by a
    finite sequence of tags, given in the order the registry yields them. */
module Selection {
  import opened Wrappers
  import opened Text
  import opened Versions
  import opened VersionOrder
  import opened Stability
  import opened ListOps

  // ---------------------------------------------------------------------
  // The filter
  // ---------------------------------------------------------------------

  /** A tag the loop appends: stable, constructs a version, and that version
      is `> base`. */
  predicate Qualifies(t: string, base: DockerVersion)
  {
    IsStableKubernetesTag(t) && FromTag(t).Success? && Greater(FromTag(t).value, base)
  }

  /** The loop's test, as a value. */
  function QualifiesOver(base: DockerVersion): string -> bool
  {
    t => Qualifies(t, base)
  }

  /** The tags the loop appends, in the order it meets them. */
  function Candidates(source: seq<string>, base: DockerVersion): seq<string>
  {
    Filter(source, QualifiesOver(base))
  }

  /** One more tag from the source adds itself when it qualifies. */
  lemma CandidatesStep(source: seq<string>, i: nat, base: DockerVersion)
    requires i < |source|
    ensures Candidates(source[..i + 1], base)
      == Candidates(source[..i], base) + if Qualifies(source[i], base) then [source[i]] else []
  {
    var tag := source[i];
    assert source[..i + 1] == source[..i] + [tag];
    FilterConcat(source[..i], [tag], QualifiesOver(base));
    assert [tag][..0] == [];
  }

  // ---------------------------------------------------------------------
  // The sort key
  // ---------------------------------------------------------------------

  /** `DockerVersion(t)` as the sort key. Every tag that reaches the sort
      constructs a version (`QualifiesIff`); the fallback only makes the
      function total. */
  function KeyOf(t: string): DockerVersion
  {
    if FromTag(t).Success? then FromTag(t).value else DockerVersion(t, [], [])
  }

  /** `DockerVersion(x) < DockerVersion(y)`, the only question `sorted` asks. */
  function Before(x: string, y: string): bool
  {
    Less(KeyOf(x), KeyOf(y))
  }

  /** The order of versions is one a stable sort can use. */
  lemma BeforeIsStrictWeakOrder()
    ensures StrictWeakOrder(Before)
  {
    forall x: string ensures !Before(x, x) {
      LessIrreflexive(KeyOf(x));
    }
    forall x: string, y: string, z: string | Before(x, y) && Before(y, z)
      ensures Before(x, z)
    {
      LessTransitive(KeyOf(x), KeyOf(y), KeyOf(z));
    }
    forall x: string, y: string, z: string | Before(x, z)
      ensures Before(x, y) || Before(y, z)
    {
      LessNegativeTransitive(KeyOf(x), KeyOf(y), KeyOf(z));
    }
  }

  /** Two tags tie under the sort exactly when their versions are `==`. */
  lemma TiesAreEqual(x: string, y: string)
    ensures Ties(x, y, Before) <==> Equal(KeyOf(x), KeyOf(y))
  {
    LessTrichotomy(KeyOf(x), KeyOf(y));
  }

  /** For ASCII tags the `except ValueError` branch never runs: a stable
      tag always constructs a version, so a tag qualifies exactly when it is
      stable and its version lies strictly above the baseline. (Digits are
      ASCII here; the pattern's `\d` would also take other decimal digits,
      which `Version` refuses.) */
  lemma QualifiesIff(t: string, base: DockerVersion)
    ensures Qualifies(t, base)
      <==> (IsStableKubernetesTag(t) && FromTag(t).Success?
            && Less(base, KeyOf(t)) && !Equal(KeyOf(t), base))
    ensures IsStableKubernetesTag(t) ==> FromTag(t).Success?
  {
    if IsStableKubernetesTag(t) {
      StableTagParses(t);
      GreaterIsConverse(KeyOf(t), base);
      LessTrichotomy(base, KeyOf(t));
      EqualSymmetric(base, KeyOf(t));
    }
  }

  // ---------------------------------------------------------------------
  // `find_newer_tags`
  // ---------------------------------------------------------------------

  /** What `find_newer_tags(image, base_tag)` returns for the tags `source`,
      or the error it raises for a malformed baseline. */
  function NewerTags(source: seq<string>, baseTag: string): Result<seq<string>, ParseError>
  {
    match FromTag(baseTag)
    case Failure(e) => Failure(e)
    case Success(base) => Success(Sort(Candidates(source, base), Before))
  }

  /** The loop of `find_newer_tags`. `consumed` counts the tags drawn from the
      source: none when the baseline is malformed, since the baseline is
      parsed before the first tag is requested. */
  method FindNewerTags(source: seq<string>, baseTag: string)
    returns (r: Result<seq<string>, ParseError>, consumed: nat)
    ensures r == NewerTags(source, baseTag)
    ensures r.Failure? ==> consumed == 0
    ensures r.Success? ==> consumed == |source|
  {
    var b := Create(baseTag);
    if b.Failure? {
      return Failure(b.error), 0;
    }
    var base := b.value;
    var newer: seq<string> := [];
    consumed := 0;
    for i := 0 to |source|
      invariant newer == Candidates(source[..i], base)
      invariant consumed == i
    {
      var tag := source[i];
      consumed := consumed + 1;
      CandidatesStep(source, i, base);
      if !IsStableKubernetesTag(tag) {
        continue;
      }
      var candidate := Create(tag);
      if candidate.Failure? {
        continue;
      }
      if Greater(candidate.value, base) {
        newer := newer + [candidate.value.original];
      }
    }
    assert source[..|source|] == source;
    r := Success(Sort(newer, Before));
  }

  // ---------------------------------------------------------------------
  // The output contract
  // ---------------------------------------------------------------------

  /** A malformed baseline is the only failure, and it names the baseline. */
  lemma NewerTagsFailure(source: seq<string>, baseTag: string)
    ensures NewerTags(source, baseTag).Failure? <==> ParseVersion(baseTag).None?
    ensures NewerTags(source, baseTag).Failure?
      ==> NewerTags(source, baseTag).error == InvalidBaseVersion(baseTag)
  {
  }

  /** Every tag returned comes from the source, is stable, constructs a
      version, and that version is strictly above the baseline's; every such
      tag of the source is returned. */
  lemma NewerTagsMembers(source: seq<string>, baseTag: string, t: string)
    requires FromTag(baseTag).Success?
    ensures var base := FromTag(baseTag).value;
      t in NewerTags(source, baseTag).value
      <==> (t in source && IsStableKubernetesTag(t) && FromTag(t).Success?
            && Less(base, KeyOf(t)) && !Equal(KeyOf(t), base))
  {
    var base := FromTag(baseTag).value;
    var c := Candidates(source, base);
    assert t in Sort(c, Before) <==> t in multiset(c);
    assert QualifiesOver(base)(t) == Qualifies(t, base);
    QualifiesIff(t, base);
  }

  /** The result is ascending, holds each qualifying tag as often as the
      source does, and keeps tags whose versions are `==` in the order the
      source gave them. */
  lemma NewerTagsOrder(source: seq<string>, baseTag: string, w: string)
    requires FromTag(baseTag).Success?
    ensures var c := Candidates(source, FromTag(baseTag).value);
      var r := NewerTags(source, baseTag).value;
      Ascending(r, Before)
      && multiset(r) == multiset(c)
      && TiesWith(r, w, Before) == TiesWith(c, w, Before)
  {
    var c := Candidates(source, FromTag(baseTag).value);
    BeforeIsStrictWeakOrder();
    SortAscending(c, Before);
    SortStable(c, w, Before);
  }

  /** A tag whose version equals the baseline's is never returned. */
  lemma BaselineExcluded(source: seq<string>, baseTag: string, t: string)
    requires FromTag(baseTag).Success? && FromTag(t).Success?
    requires Equal(FromTag(t).value, FromTag(baseTag).value)
    ensures t !in NewerTags(source, baseTag).value
  {
    NewerTagsMembers(source, baseTag, t);
  }

  /** Tags that differ only in their k3s revision tie, wherever the
      `-k3s<N>` segment stands after the base: `v1.27.2-k3s2` is not returned
      as newer than the baseline `v1.27.2-k3s1`, nor `v1.27.2-k3s2-rancher1`
      than `v1.27.2-k3s1-rancher1`. */
  lemma K3sRevisionsTie(x: string, y: string, r1: string, r2: string, source: seq<string>)
    requires IsNumeral(r1) && IsNumeral(r2) && (y == [] || y[0] == '-')
    requires ParseVersion(x).Some?
    ensures Equal(KeyOf(x + "-k3s" + r1 + y), KeyOf(x + "-k3s" + r2 + y))
    ensures NewerTags(source, x + "-k3s" + r1 + y).Success?
    ensures x + "-k3s" + r2 + y !in NewerTags(source, x + "-k3s" + r1 + y).value
  {
    K3sRevisionIgnored(x, r1, y);
    K3sRevisionIgnored(x, r2, y);
    CmpReleaseSelf(KeyOf(x + "-k3s" + r1 + y).release);
    BaselineExcluded(source, x + "-k3s" + r1 + y, x + "-k3s" + r2 + y);
  }
}
