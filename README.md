# docker_query: tag selection, modelled in Dafny

`docker_query.py` picks the Kubernetes (k3s) image tags that are newer than a
baseline tag. It has three pieces, and each one is modelled here:

- `DockerVersion` is built from a tag. It keeps the tag verbatim. It reads a
  numeric base version from the text before the first `-`, after stripping
  leading `v`s. It reads `(label, number)` pairs from the later hyphen
  segments. Versions are ordered by base version first, then by the tuple of
  pairs.
- `is_stable_kubernetes_tag` lower-cases a tag, rejects it if it contains a
  pre-release or test marker anywhere, and otherwise accepts only
  `v<N>.<N>.<N>[-k3s<N>][-rancher<N>]`.
- `find_newer_tags` parses the baseline, makes one pass over the registry's
  tags, and keeps the stable, parseable ones whose version is greater than the
  baseline's. It returns them sorted by version with a stable sort.

Modules:

| file | module | models |
|---|---|---|
| `wrappers.dfy` | `Wrappers` | `Option` and `Result` |
| `text.dfy` | `Text` | ASCII `str.lower`, `in`, `split`, `lstrip`, whitespace trimming, `int()` on digits |
| `versions.dfy` | `Versions` | `DockerVersion`: `__init__`, `_parse_version`, `_parse_suffix` |
| `order.dfy` | `VersionOrder` | `__lt__`, `__eq__`, and the `>` that `functools.total_ordering` derives |
| `stability.dfy` | `Stability` | `is_stable_kubernetes_tag` and the language of its pattern |
| `listops.dfy` | `ListOps` | the append-if loop as a filter, and Python's stable `sorted` |
| `selection.dfy` | `Selection` | `find_newer_tags` over a finite sequence of tags |

The base version follows the final-release part of PEP 440. The text is
trimmed, one optional `v` or `V` is dropped, and what remains must be one or
more dot-separated digit runs. Releases are compared component by component,
and the shorter one is padded with zeros, so `1.2 == 1.2.0`. Suffix tuples
are compared as Python compares tuples: label first (by code point), then
number, and a proper prefix is smaller.

The model follows the code where it differs from what a reader might expect:

- `re.match(r'([a-z]+)(\d+)', part)` is anchored only at the start, and the
  letter group is greedy. So `k3s1` gives `("k", 3)`, not `("k3s", 1)`. Two
  tags that differ only in the revision of a `-k3s<N>` segment therefore
  compare equal, wherever that segment stands after the base. So
  `v1.27.2-k3s2` is never reported as newer than `v1.27.2-k3s1`, and
  `v1.27.2-k3s2-rancher1` is never newer than `v1.27.2-k3s1-rancher1`
  (`Selection.K3sRevisionsTie`).
- Markers are found by plain substring search, so any tag containing
  `architecture` is rejected because of its `rc`.
- A stable tag has exactly three numeric components.
- The pattern's `$` also matches just before a final line feed. A tag such
  as `v1.2.3\n` is therefore stable. The model includes that case, and
  `Version` accepts such a tag because it trims whitespace.

## Model

| member | source | states |
|---|---|---|
| Text.Lower | docker_query.py:47 | ASCII `str.lower`: same length, and each character is lowered on its own (upper-case ASCII letters move up by 32, everything else stays). |
| Text.Contains | docker_query.py:48 | `m in s`: true exactly when `m` occurs in `s` at some index. |
| Text.Split | docker_query.py:19 | `s.split(c)`, also used at line 25: at least one piece, and the first piece is the text before the first `c`. `Text.SplitJoin` shows that joining the pieces restores `s`, and `Text.SplitPiecesFree` shows that no piece holds `c`. |
| Text.LStrip | docker_query.py:19 | `s.lstrip('v')`: a suffix of `s` that does not start with `c`, after a prefix made only of `c`. |
| Text.Trim | docker_query.py:20 | The whitespace trimming `Version` applies: the result is empty or starts and ends with a non-space. |
| Text.TrimStrips | docker_query.py:20 | `Trim(s)` is a slice of `s` with only whitespace before it and only whitespace after it, so the trimming removes the surrounding whitespace and nothing else. |
| Text.DigitsValue | docker_query.py:31 | `int()` on a run of ASCII digits, read in base 10 with leading zeros ignored. `Text.ShowNatValue` shows that it inverts decimal rendering. |
| Versions.BaseText | docker_query.py:19 | `tag.split('-')[0].lstrip('v')`. |
| Versions.ParseVersionText | docker_query.py:20 | `Version(base)` restricted to final releases: trim, drop one optional `v` or `V`, then read a release. `None` stands for `InvalidVersion`. |
| Versions.ParseVersion | docker_query.py:17-22 | `_parse_version`: `ParseVersionText(BaseText(tag))`. `None` is the `ValueError` the constructor raises. |
| Versions.NumeralValuesPointwise | docker_query.py:20 | Component `k` of a parsed release is `int()` of piece `k`. |
| Versions.ReleaseValues | docker_query.py:20 | Each component of a parsed release is the value of its dot-separated numeral, leading zeros ignored (`1.02` is `[1, 2]`). |
| Versions.MatchSuffix | docker_query.py:28-30 | `re.match(_VERSION_SUFFIX, part)`, with the pattern of line 7: the longest leading run of `a`-`z`, which must be non-empty and followed by a digit, paired with the value of the longest digit run after it. Otherwise no match. The Match* lemmas below state its meaning. |
| Versions.SuffixSegments | docker_query.py:25 | `tag.split('-')[1:]`: the hyphen segments after the first. |
| Versions.SuffixOf | docker_query.py:24-32 | `_parse_suffix`: the pairs of the segments after the first `-`. |
| Versions.FromTag | docker_query.py:12-22 | Construction fails exactly when the base version does not parse. The error is `InvalidBaseVersion(tag)`. On success, `original` is the tag unchanged and the release has at least one component. |
| Versions.Create | docker_query.py:12-15 | The constructor parses the base version first and the suffix only on success. Its result is `FromTag(tag)`. |
| Versions.NumeralValues | docker_query.py:20 | The release exists exactly when every dot-separated piece is a numeral, and then it has one value per piece. |
| Versions.ParseRelease | docker_query.py:20 | A parsed release has as many components as the text has dot-separated pieces, and at least one. |
| Versions.ReleaseChars | docker_query.py:20 | Text accepted as a release contains only digits and dots. |
| Versions.ReleaseRoundTrip | docker_query.py:17-22 | Every release with at least one component, written as dotted decimals, parses back to the same components. |
| Versions.ShownReleaseParses | docker_query.py:20 | `Version` reads rendered dotted decimals back unchanged, after its trimming and `v` handling. |
| Versions.ThreeNumeralsParse | docker_query.py:20 | `<x>.<y>.<z>` with three numerals parses to exactly their three values. |
| Versions.SuffixPairs | docker_query.py:26-31 | There are never more pairs than segments, and every pair's name is a non-empty lower-case word. |
| Versions.ParseSuffix | docker_query.py:24-32 | The loop over the segments after the first `-` returns the pairs of the matching segments, in segment order. |
| Versions.MatchSuffixSound | docker_query.py:28-31 | A match's name is a lower-case word that starts the segment, and a digit follows it. |
| Versions.MatchSuffixExact | docker_query.py:7 | A lower-case word, a numeral, then anything that does not start with a digit gives exactly that word and the numeral's value. Trailing content is ignored. |
| Versions.MatchSuffixComplete | docker_query.py:7 | Every segment that starts with a lower-case word followed by a digit matches, and its name is that word. |
| Versions.K3sSegment | docker_query.py:7 | `k3s<N>` gives `("k", 3)` for every revision `N`. |
| Versions.RancherSegment | docker_query.py:7 | `rancher<N>` gives `("rancher", N)`. |
| Versions.SegmentInserted | docker_query.py:12-32 | A hyphen-free segment placed after `x` and before text `y` that is empty or starts a new segment leaves the base version of `x` unchanged. The suffix becomes `x`'s pairs, then the segment's, then `y`'s. |
| Versions.K3sRevisionIgnored | docker_query.py:12-32 | A `-k3s<N>` segment placed after `x` and before such a `y` leaves the base version of `x` unchanged and contributes exactly `("k", 3)`, whatever `N` is. |
| Versions.SuffixPairsOfShown | docker_query.py:24-32 | Pairs written as `<name><number>` segments are parsed back to the same pairs. |
| Versions.RenderRoundTrip | docker_query.py:12-32 | A tag written as `v<release>-<name><n>-...` constructs a version with that release and exactly those pairs. |
| VersionOrder.CmpRelease | docker_query.py:35-36 | The comparison of `Version` releases: component by component, with a missing component read as 0. The result is -1, 0 or 1. |
| VersionOrder.PairLess | docker_query.py:37 | `(name, number)` tuple `<`: names by code point first, numbers when the names are equal. |
| VersionOrder.SuffixLess | docker_query.py:37 | Tuple `<` on suffixes: compared at the first differing pair, and a proper prefix is smaller. |
| VersionOrder.Less | docker_query.py:34-37 | `__lt__`: the releases decide unless they compare equal, and then the suffix tuples decide. |
| VersionOrder.Equal | docker_query.py:39-40 | `__eq__`: releases compare equal and the suffix tuples are identical. `original` plays no part. |
| VersionOrder.Greater | docker_query.py:81 | `candidate > base`, with `>` as `total_ordering` (line 10) derives it from `__lt__` and `__eq__`: neither `<` nor `==`. |
| VersionOrder.CmpReleaseSelf | docker_query.py:35 | Every release compares equal to itself. |
| VersionOrder.CmpReleaseFlip | docker_query.py:35-36 | Swapping the operands negates the comparison. |
| VersionOrder.CmpReleaseSame | docker_query.py:35-36 | Releases that compare equal compare the same way with every third release. |
| VersionOrder.CmpReleaseTransitive | docker_query.py:36 | Older-than between releases is transitive. |
| VersionOrder.CmpReleaseTrailingZero | docker_query.py:35 | A trailing zero component changes no comparison (`1.2 == 1.2.0`). |
| VersionOrder.LexLessIrreflexive | docker_query.py:37 | No tuple is below itself. |
| VersionOrder.LexLessTransitive | docker_query.py:37 | Tuple comparison is transitive when the element order is a strict order. |
| VersionOrder.LexLessTrichotomous | docker_query.py:37 | Two tuples are equal or one is below the other, when the element order is total. |
| VersionOrder.LexLessAsymmetric | docker_query.py:37 | Two tuples are never each below the other. |
| VersionOrder.PairLessStrictOrder | docker_query.py:37 | `(name, number)` comparison is irreflexive, transitive and total. |
| VersionOrder.LessIrreflexive | docker_query.py:34-40 | Every version equals itself and is not less than itself. |
| VersionOrder.EqualSymmetric | docker_query.py:39-40 | `==` is symmetric. |
| VersionOrder.EqualTransitive | docker_query.py:39-40 | `==` is transitive. |
| VersionOrder.LessTransitive | docker_query.py:34-37 | `<` is transitive across the release and suffix cases. |
| VersionOrder.LessTrichotomy | docker_query.py:34-40 | Exactly one of `a < b`, `a == b`, `b < a` holds. |
| VersionOrder.LessRespectsEqual | docker_query.py:34-40 | Versions that are `==` have the same place in the order on both sides of `<`. |
| VersionOrder.LessNegativeTransitive | docker_query.py:34-37 | If `a < c`, every `b` is above `a` or below `c`. |
| VersionOrder.GreaterIsConverse | docker_query.py:10 | The `>` derived by `total_ordering` (`not a < b and a != b`) is exactly `b < a`. |
| Stability.HasMarker | docker_query.py:48 | Some marker of `rc`, `alpha`, `beta`, `dev`, `test`, `ci`, `debug`, `latest` occurs in the text. |
| Stability.StableShape | docker_query.py:8 | `re.match(_STABLE_SUFFIX, t)` (line 50) succeeds: `v`, three digit runs separated by dots, optional `-k3s<N>` and `-rancher<N>`, then the end of the text or a final line feed. |
| Stability.IsStableKubernetesTag | docker_query.py:46-50 | `is_stable_kubernetes_tag`: the lower-case form has no marker and has that shape. |
| Stability.ReadForm | docker_query.py:8 | Every string the pattern accepts is made of three numerals, optional k3s and rancher numerals, and an optional final line feed, in that order. |
| Stability.FormTextAccepted | docker_query.py:8 | The pattern accepts every string built that way. |
| Stability.StableIff | docker_query.py:46-50 | A tag is stable exactly when its lower-case form contains no marker and has that structure. |
| Stability.CaseInsensitive | docker_query.py:47 | A tag and its lower-case form get the same verdict. |
| Stability.MarkerRejects | docker_query.py:48-49 | A marker at any position of the lower-case form rejects the tag. |
| Stability.ArchitectureRejected | docker_query.py:48 | Every tag containing `architecture` is rejected because of its `rc`. |
| Stability.AcceptedShapeParses | docker_query.py:17-20 | A tag whose lower-case form has the stable structure has a base version of exactly its three numerals. |
| Stability.StableTagParses | docker_query.py:50 | Every stable tag constructs a version, and its release is its three numbers. |
| ListOps.Filter | docker_query.py:74-82 | Keeping the elements that pass a test never lengthens the list. An element is kept exactly when it is in the list and passes. |
| ListOps.FilterConcat | docker_query.py:74-82 | Filtering distributes over concatenation, so the pass keeps encounter order. |
| ListOps.Sort | docker_query.py:83 | The sorted list is a permutation of its input. |
| ListOps.SortAscending | docker_query.py:83 | Under a strict weak order, no element of the sorted list is followed by one below it. |
| ListOps.SortStable | docker_query.py:83 | Elements that tie keep their relative order (`sorted` is stable). |
| ListOps.InsertAscending | docker_query.py:83 | Inserting into a sorted list keeps it sorted. |
| ListOps.InsertStable | docker_query.py:83 | An inserted element goes after every element it ties with. |
| Selection.Qualifies | docker_query.py:75-82 | The loop's test for one tag: stable, constructs a version, and that version is `>` the baseline. |
| Selection.Before | docker_query.py:83 | The sort's comparison `DockerVersion(x) < DockerVersion(y)`. |
| Selection.NewerTags | docker_query.py:70-83 | `find_newer_tags` on a tag sequence: the baseline's error, or the qualifying tags in encounter order, stably sorted by `Before`. |
| Selection.Candidates | docker_query.py:72-82 | The `newer_tags` list the loop builds: the source tags that pass `Qualifies`, in encounter order. |
| Selection.KeyOf | docker_query.py:83 | `key=DockerVersion`: the version a tag constructs. A placeholder stands in for a tag that does not parse, and no such tag reaches the sort. |
| Selection.CandidatesStep | docker_query.py:74-82 | One more tag from the source is appended exactly when it is stable, parses, and is greater than the baseline. |
| Selection.BeforeIsStrictWeakOrder | docker_query.py:83 | Ordering tags by `DockerVersion(tag)` is a strict weak order, as `sorted` needs. |
| Selection.TiesAreEqual | docker_query.py:83 | Two tags tie in the sort exactly when their versions are `==`. |
| Selection.QualifiesIff | docker_query.py:75-81 | For ASCII tags whose numerals are within CPython's `int()` digit limit, the `except ValueError` branch never runs, because every stable tag constructs a version. A tag is appended exactly when it is stable and its version is strictly above the baseline. |
| Selection.FindNewerTags | docker_query.py:70-83 | The pass returns the sorted qualifying tags, or the baseline's error. It draws no tag from the source when the baseline is malformed, and every tag otherwise. |
| Selection.NewerTagsFailure | docker_query.py:71 | The result is an error exactly when the baseline does not parse as a final release, and the error names the baseline. Numerals over CPython's digit limit are not counted as failures. |
| Selection.NewerTagsMembers | docker_query.py:70-83 | A tag is returned exactly when it is in the source, is stable, constructs a version, and that version is above the baseline's and not equal to it. |
| Selection.NewerTagsOrder | docker_query.py:83 | The result is ascending, holds each qualifying tag as often as the source does, and keeps `==` tags in encounter order. |
| Selection.BaselineExcluded | docker_query.py:81 | A tag whose version equals the baseline's is never returned. |
| Selection.K3sRevisionsTie | docker_query.py:81 | Two tags `x-k3s<N1>y` and `x-k3s<N2>y` have equal versions when `x` parses and `y` is empty or starts a new segment. So with the first as baseline, the second is never returned. |

## Left out

- `get_tags` (HTTP requests, JSON decoding, pagination) is I/O. The registry is replaced by a finite `seq<string>` in the order the registry yields tags. `Selection.FindNewerTags` reports how many tags it draws (`consumed`) in place of the generator's laziness.
- The module-level example run makes a network call and prints.
- `__repr__` is formatting only.
- `packaging.version.Version` is modelled only for final releases: an optional `v`, then dotted digit runs, with surrounding whitespace. Epochs, pre-, post- and dev-releases and local labels are treated as parse failures. No candidate tag is affected, because a stable tag's base is `v<N>.<N>.<N>`. The baseline, however, is never checked for stability. A baseline such as `v1.27.2+k3s1` (a local version) or `v1.27.2.post1` is accepted by `Version`, and the program then returns results for it. `Selection.FindNewerTags` returns `InvalidBaseVersion` for such a baseline instead.
- Selection.NewerTagsFailure: "exactly when the baseline does not parse" refers to the final-release grammar above, not to the whole grammar of `Version`.
- `str.lower`, `\d`, `\s` and `[a-z]` are modelled on ASCII only. Unicode case mapping and Unicode digits are not modelled.
- Selection.QualifiesIff: holds for ASCII tags only. The stable pattern's `\d` also matches non-ASCII decimal digits, and `Version` refuses them. So the program finds `v١.2.3` stable, and its `except ValueError` branch then skips it. Both the program and the model skip that tag, but for different reasons. More visibly, the program finds `v1.2.3-k3s١` stable and parseable, and returns it when it is above the baseline. The model finds that tag unstable and drops it.
- Versions.FromTag, Selection.QualifiesIff, Selection.NewerTagsFailure: `int()` is modelled for numerals of any length. CPython 3.11 and later refuse by default to convert a decimal string of more than 4300 digits. The `ValueError` that follows is not `InvalidVersion`, so it passes through `_parse_version` unchanged, and `int(num)` in `_parse_suffix` raises it too. A tag such as `v1.2.3-rancher<4301 digits>` is stable, yet the program skips it in its `except ValueError` branch. The model constructs its version and returns the tag when it is above the baseline. A baseline holding such a numeral raises in the program, while the model accepts it. Registry tag names are at most 128 characters, so among real tags only a caller-supplied baseline can reach this limit. The limit depends on the interpreter's configuration, which is not part of the model.
- Selection.KeyOf: gives a placeholder version for a tag that does not parse. Every tag that reaches the sort parses (`Selection.QualifiesIff`), so the placeholder is never compared.
- `sorted` is modelled as a stable insertion sort. Only its result is modelled, not its algorithm or the number of comparisons it makes.
