/** `DockerVersion`: the value built from one image tag. It keeps the tag
    verbatim, the numeric release read from the text before the first `-`,
    and the `(label, number)` pairs read from the later hyphen segments. */
module Versions {
  import opened Wrappers
  import opened Text

  /** One suffix entry, Python's `(name, int(num))` tuple. */
  datatype Pair = Pair(name: string, number: nat)

  datatype DockerVersion = DockerVersion(original: string, release: seq<nat>, suffix: seq<Pair>)

  /** The `ValueError` raised when the base of a tag is not a version. */
  datatype ParseError = InvalidBaseVersion(tag: string)

  predicate IsLowerWord(s: string) { |s| > 0 && forall i :: 0 <= i < |s| ==> IsLowerLetter(s[i]) }

  // ---------------------------------------------------------------------
  // Base version (`_parse_version` and the final-release part of
  // `packaging.version.Version`)
  // ---------------------------------------------------------------------

  /** The values of the dot-separated pieces, or `None` as soon as one piece
      is not a numeral. */
  function NumeralValues(pieces: seq<string>): (r: Option<seq<nat>>)
    ensures r.Some? ==> |r.value| == |pieces|
    ensures r.Some? <==> forall k :: 0 <= k < |pieces| ==> IsNumeral(pieces[k])
  {
    if pieces == [] then Some([])
    else if !IsNumeral(pieces[0]) then None
    else
      var rest := NumeralValues(pieces[1..]);
      if rest.None? then None else Some([DigitsValue(pieces[0])] + rest.value)
  }

  /** A release `N(.N)*`: one or more numerals joined by dots. */
  function ParseRelease(s: string): (r: Option<seq<nat>>)
    ensures r.Some? ==> |r.value| == |Split(s, '.')| >= 1
  {
    NumeralValues(Split(s, '.'))
  }

  /** Each component is the value of its piece, leading zeros ignored. */
  lemma {:induction false} NumeralValuesPointwise(pieces: seq<string>)
    requires NumeralValues(pieces).Some?
    ensures forall k :: 0 <= k < |pieces| ==> NumeralValues(pieces).value[k] == DigitsValue(pieces[k])
  {
    if pieces != [] {
      NumeralValuesPointwise(pieces[1..]);
    }
  }

  /** The components of a release are the values of its dot-separated
      numerals, in order: `1.02` is `[1, 2]`. */
  lemma ReleaseValues(s: string)
    requires ParseRelease(s).Some?
    ensures var pieces := Split(s, '.');
      forall k :: 0 <= k < |pieces| ==> ParseRelease(s).value[k] == DigitsValue(pieces[k])
  {
    NumeralValuesPointwise(Split(s, '.'));
  }

  /** Text accepted as a release holds nothing but digits and dots. */
  lemma ReleaseChars(s: string)
    requires ParseRelease(s).Some?
    ensures forall i :: 0 <= i < |s| ==> IsDigit(s[i]) || s[i] == '.'
  {
    SplitAllDigits(s);
  }

  /** A string whose dot-separated pieces are numerals holds only digits and dots. */
  lemma {:induction false} SplitAllDigits(s: string)
    requires forall k :: 0 <= k < |Split(s, '.')| ==> IsNumeral(Split(s, '.')[k])
    ensures forall i :: 0 <= i < |s| ==> IsDigit(s[i]) || s[i] == '.'
    decreases |s|
  {
    var i := Find(s, '.');
    if i < |s| {
      var rest := Split(s[i + 1..], '.');
      assert Split(s, '.') == [s[..i]] + rest;
      forall k | 0 <= k < |rest| ensures IsNumeral(rest[k]) {
        assert rest[k] == Split(s, '.')[k + 1];
      }
      SplitAllDigits(s[i + 1..]);
      forall j | 0 <= j < |s| ensures IsDigit(s[j]) || s[j] == '.' {
        if j < i { assert s[j] == s[..i][j]; }
        else if j > i { assert s[j] == s[i + 1..][j - i - 1]; }
      }
    } else {
      assert s == s[..i] == Split(s, '.')[0];
      assert IsNumeral(s);
    }
  }

  /** The version text after whitespace is trimmed and one optional `v` or
      `V` is dropped, as `Version` parses it. */
  function ParseVersionText(text: string): Option<seq<nat>>
  {
    var t := Trim(text);
    var r := if t != [] && (t[0] == 'v' || t[0] == 'V') then t[1..] else t;
    ParseRelease(r)
  }

  /** The text `_parse_version` hands to `Version`: the part before the first
      `-`, with every leading `v` removed. */
  function BaseText(tag: string): string
  {
    LStrip(Split(tag, '-')[0], 'v')
  }

  /** `_parse_version`: `None` where the original raises. */
  function ParseVersion(tag: string): Option<seq<nat>>
  {
    ParseVersionText(BaseText(tag))
  }

  // ---------------------------------------------------------------------
  // Suffix pairs (`_parse_suffix`)
  // ---------------------------------------------------------------------

  /** `re.match(r'([a-z]+)(\d+)', part)`: anchored at the start only. The
      letter group takes the longest run of lower-case letters, the digit
      group the longest run of digits after it, and the rest is ignored. */
  function MatchSuffix(part: string): Option<Pair>
  {
    var n := LetterRun(part);
    if n == 0 || n == |part| || !IsDigit(part[n]) then None
    else
      var d := DigitRun(part[n..]);
      Some(Pair(part[..n], DigitsValue(part[n..][..d])))
  }

  /** The pairs of the segments that match, in order. */
  function SuffixPairs(parts: seq<string>): (r: seq<Pair>)
    ensures |r| <= |parts|
    ensures forall k :: 0 <= k < |r| ==> IsLowerWord(r[k].name)
  {
    if parts == [] then []
    else
      var last := parts[|parts| - 1];
      SuffixPairs(parts[..|parts| - 1]) + (match MatchSuffix(last) case Some(p) => [p] case None => [])
  }

  /** The hyphen segments after the first one. */
  function SuffixSegments(tag: string): seq<string>
  {
    Split(tag, '-')[1..]
  }

  function SuffixOf(tag: string): seq<Pair>
  {
    SuffixPairs(SuffixSegments(tag))
  }

  /** `_parse_suffix`, with its loop over the segments. */
  method ParseSuffix(tag: string) returns (parsed: seq<Pair>)
    ensures parsed == SuffixOf(tag)
  {
    var parts := SuffixSegments(tag);
    parsed := [];
    for i := 0 to |parts|
      invariant parsed == SuffixPairs(parts[..i])
    {
      assert parts[..i + 1][..i] == parts[..i];
      var m := MatchSuffix(parts[i]);
      if m.Some? {
        parsed := parsed + [m.value];
      }
    }
    assert parts[..|parts|] == parts;
  }

  // ---------------------------------------------------------------------
  // Construction (`__init__`)
  // ---------------------------------------------------------------------

  /** `DockerVersion(tag)`: the base version is parsed first, and its failure
      is the only way construction fails. */
  function FromTag(tag: string): (r: Result<DockerVersion, ParseError>)
    ensures r.Failure? <==> ParseVersion(tag).None?
    ensures r.Failure? ==> r.error == InvalidBaseVersion(tag)
    ensures r.Success? ==> r.value.original == tag && |r.value.release| >= 1
  {
    match ParseVersion(tag)
    case None => Failure(InvalidBaseVersion(tag))
    case Some(release) => Success(DockerVersion(tag, release, SuffixOf(tag)))
  }

  method Create(tag: string) returns (r: Result<DockerVersion, ParseError>)
    ensures r == FromTag(tag)
  {
    var release := ParseVersion(tag);
    if release.None? {
      return Failure(InvalidBaseVersion(tag));
    }
    var suffix := ParseSuffix(tag);
    r := Success(DockerVersion(tag, release.value, suffix));
  }

  // ---------------------------------------------------------------------
  // Properties of parsing
  // ---------------------------------------------------------------------

  /** Whatever the regular expression matches starts with the letter group,
      which is followed by a digit. */
  lemma MatchSuffixSound(part: string)
    requires MatchSuffix(part).Some?
    ensures var p := MatchSuffix(part).value;
      IsLowerWord(p.name) && StartsWith(part, p.name)
      && |p.name| < |part| && IsDigit(part[|p.name|])
  {
  }

  /** A segment made of a lower-case word, a numeral and anything not
      starting with a digit gives exactly that word and that numeral's
      value; what follows the numeral is ignored. */
  lemma MatchSuffixExact(name: string, digits: string, rest: string)
    requires IsLowerWord(name) && IsNumeral(digits)
    requires rest == [] || !IsDigit(rest[0])
    ensures MatchSuffix(name + digits + rest) == Some(Pair(name, DigitsValue(digits)))
  {
    var part := name + digits + rest;
    assert part == name + (digits + rest);
    LetterRunConcat(name, digits + rest);
    assert part[|name|..] == digits + rest;
    DigitRunConcat(digits, rest);
    assert (digits + rest)[..|digits|] == digits;
    assert part[..|name|] == name;
  }

  /** Every segment that starts with a lower-case word followed by a digit
      matches, and its name is that word. */
  lemma MatchSuffixComplete(part: string, name: string, digit: char)
    requires IsLowerWord(name) && IsDigit(digit)
    requires StartsWith(part, name + [digit])
    ensures MatchSuffix(part).Some? && MatchSuffix(part).value.name == name
  {
    var rest := part[|name| + 1..];
    assert part == name + [digit] + rest;
    var d := DigitRun(part[|name|..]);
    assert part[|name|..] == [digit] + rest;
    var tail := part[|name|..][d..];
    assert part == name + part[|name|..][..d] + tail;
    MatchSuffixExact(name, part[|name|..][..d], tail);
  }

  /** `k3s<N>` always yields `("k", 3)`: the k3s revision number `N` never
      reaches the ordering key. */
  lemma K3sSegment(revision: string)
    requires IsNumeral(revision)
    ensures MatchSuffix("k3s" + revision) == Some(Pair("k", 3))
  {
    assert "k3s" + revision == "k" + "3" + ("s" + revision);
    MatchSuffixExact("k", "3", "s" + revision);
    assert DigitsValue("3") == 3;
  }

  lemma RancherSegment(n: nat)
    ensures MatchSuffix("rancher" + ShowNat(n)) == Some(Pair("rancher", n))
  {
    assert "rancher" + ShowNat(n) == "rancher" + ShowNat(n) + [];
    MatchSuffixExact("rancher", ShowNat(n), []);
    ShowNatValue(n);
  }

  /** The pairs of two runs of segments, one after the other. */
  lemma {:induction false} SuffixPairsConcat(a: seq<string>, b: seq<string>)
    ensures SuffixPairs(a + b) == SuffixPairs(a) + SuffixPairs(b)
    decreases |b|
  {
    if b == [] {
      assert a + b == a;
    } else {
      var b' := b[..|b| - 1];
      assert (a + b)[..|a + b| - 1] == a + b';
      assert (a + b)[|a + b| - 1] == b[|b| - 1];
      SuffixPairsConcat(a, b');
    }
  }

  /** The segments of a hyphen-free segment followed by `y`, which is empty
      or starts a new segment. */
  lemma SegmentThenRest(seg: string, y: string)
    requires '-' !in seg
    requires y == [] || y[0] == '-'
    ensures Split(seg + y, '-') == [seg] + SuffixSegments(y)
  {
    if y == [] {
      assert seg + y == seg;
      SplitWhole(seg, '-');
    } else {
      var z := y[1..];
      assert seg + y == seg + ['-'] + z;
      SplitAfter(seg, '-', z);
      assert y == [] + ['-'] + z;
      SplitAfter([], '-', z);
    }
  }

  lemma K3sHasNoHyphen(revision: string)
    requires IsNumeral(revision)
    ensures '-' !in "k3s" + revision
  {
    var seg := "k3s" + revision;
    assert forall i :: 3 <= i < |seg| ==> seg[i] == revision[i - 3];
  }

  /** The segments of `x`, a segment `seg`, then `y`: `x`'s segments,
      `seg`, and the segments `y` begins. */
  lemma SplitInserted(x: string, seg: string, y: string)
    requires '-' !in seg
    requires y == [] || y[0] == '-'
    ensures Split(x + ['-'] + seg + y, '-') == Split(x, '-') + [seg] + SuffixSegments(y)
  {
    var px, rest := Split(x, '-'), SuffixSegments(y);
    assert Split(x + ['-'] + seg + y, '-') == px + ([seg] + rest) by {
      assert x + ['-'] + seg + y == x + ['-'] + (seg + y);
      SplitSep(x, '-', seg + y);
      SegmentThenRest(seg, y);
    }
    assert px + ([seg] + rest) == px + [seg] + rest;
  }

  /** A segment `seg` placed after `x`, followed by `y`: the base version
      is `x`'s, and the suffix is `x`'s, then `seg`'s, then `y`'s. */
  lemma SegmentInserted(x: string, seg: string, y: string)
    requires '-' !in seg
    requires y == [] || y[0] == '-'
    ensures ParseVersion(x + ['-'] + seg + y) == ParseVersion(x)
    ensures SuffixOf(x + ['-'] + seg + y) == SuffixOf(x) + SuffixPairs([seg]) + SuffixOf(y)
  {
    var px := Split(x, '-');
    SplitInserted(x, seg, y);
    var parts := px + [seg] + SuffixSegments(y);
    assert parts[0] == px[0];
    assert parts[1..] == px[1..] + [seg] + SuffixSegments(y);
    SuffixPairsConcat(px[1..] + [seg], SuffixSegments(y));
    SuffixPairsConcat(px[1..], [seg]);
  }

  /** A `-k3s<revision>` segment, wherever it stands after the base, adds the
      pair `("k", 3)` whatever the revision, and leaves the base version
      alone: the revision number is never compared. */
  lemma K3sRevisionIgnored(x: string, revision: string, y: string)
    requires IsNumeral(revision)
    requires y == [] || y[0] == '-'
    ensures ParseVersion(x + "-k3s" + revision + y) == ParseVersion(x)
    ensures SuffixOf(x + "-k3s" + revision + y) == SuffixOf(x) + [Pair("k", 3)] + SuffixOf(y)
  {
    var seg := "k3s" + revision;
    K3sHasNoHyphen(revision);
    K3sSegmentPairs(revision);
    assert x + "-k3s" + revision + y == x + ['-'] + seg + y;
    SegmentInserted(x, seg, y);
  }

  /** The segment `k3s<revision>` alone gives the single pair `("k", 3)`. */
  lemma K3sSegmentPairs(revision: string)
    requires IsNumeral(revision)
    ensures SuffixPairs(["k3s" + revision]) == [Pair("k", 3)]
  {
    var seg := "k3s" + revision;
    K3sSegment(revision);
    assert [seg][..0] == [];
    assert SuffixPairs([seg]) == SuffixPairs([]) + [Pair("k", 3)];
  }

  /** The dotted decimal text of a release, `<N>.<N>...`. */
  function ShowRelease(release: seq<nat>): string
    requires |release| >= 1
  {
    if |release| == 1 then ShowNat(release[0])
    else ShowNat(release[0]) + "." + ShowRelease(release[1..])
  }

  /** A rendered release starts and ends with a digit and holds only digits
      and dots. */
  lemma {:induction false} ShowReleaseChars(release: seq<nat>)
    requires |release| >= 1
    ensures var s := ShowRelease(release);
      |s| > 0 && IsDigit(s[0]) && IsDigit(s[|s| - 1])
      && forall i :: 0 <= i < |s| ==> IsDigit(s[i]) || s[i] == '.'
  {
    var head := ShowNat(release[0]);
    if |release| > 1 {
      var rest := ShowRelease(release[1..]);
      ShowReleaseChars(release[1..]);
      var s := head + "." + rest;
      forall i | 0 <= i < |s| ensures IsDigit(s[i]) || s[i] == '.' {
        if i < |head| { assert s[i] == head[i]; }
        else if i > |head| { assert s[i] == rest[i - |head| - 1]; }
      }
      assert s[|s| - 1] == rest[|rest| - 1];
    }
  }

  function ShowPair(p: Pair): string
  {
    p.name + ShowNat(p.number)
  }

  function ShowSuffix(pairs: seq<Pair>): string
  {
    if pairs == [] then [] else "-" + ShowPair(pairs[0]) + ShowSuffix(pairs[1..])
  }

  /** The canonical tag of a release and its suffix pairs,
      `v<N>.<N>...-<name><N>-...`. */
  function Render(release: seq<nat>, pairs: seq<Pair>): string
    requires |release| >= 1
  {
    "v" + ShowRelease(release) + ShowSuffix(pairs)
  }

  lemma NumeralValuesCons(head: string, rest: seq<string>)
    requires IsNumeral(head)
    ensures NumeralValues([head] + rest)
      == if NumeralValues(rest).Some? then Some([DigitsValue(head)] + NumeralValues(rest).value) else None
  {
    assert ([head] + rest)[1..] == rest;
  }

  /** One numeral is a one-component release. */
  lemma OneNumeralParses(head: string)
    requires IsNumeral(head)
    ensures ParseRelease(head) == Some([DigitsValue(head)])
  {
    NumeralHasNoDot(head);
    SplitWhole(head, '.');
    NumeralValuesOne(head);
  }

  /** A numeral and a dot in front of a release add one leading component. */
  lemma NumeralThenRelease(head: string, rest: string)
    requires IsNumeral(head) && ParseRelease(rest).Some?
    ensures ParseRelease(head + "." + rest) == Some([DigitsValue(head)] + ParseRelease(rest).value)
  {
    NumeralHasNoDot(head);
    assert head + "." + rest == head + ['.'] + rest;
    SplitAfter(head, '.', rest);
    NumeralValuesCons(head, Split(rest, '.'));
  }

  lemma ReleaseRoundTripOne(release: seq<nat>)
    requires |release| == 1
    ensures ParseRelease(ShowRelease(release)) == Some(release)
  {
    ShowNatValue(release[0]);
    OneNumeralParses(ShowNat(release[0]));
    assert release == [release[0]];
  }

  /** A rendered number and a dot in front of a release add that number as
      the leading component. */
  lemma ShownNumberThenRelease(n: nat, rest: string, r: seq<nat>)
    requires ParseRelease(rest) == Some(r)
    ensures ParseRelease(ShowNat(n) + "." + rest) == Some([n] + r)
  {
    ShowNatValue(n);
    NumeralThenRelease(ShowNat(n), rest);
  }

  lemma ShownHeadThenRelease(release: seq<nat>)
    requires |release| >= 2
    requires ParseRelease(ShowRelease(release[1..])) == Some(release[1..])
    ensures ParseRelease(ShowNat(release[0]) + "." + ShowRelease(release[1..])) == Some(release)
  {
    ShownNumberThenRelease(release[0], ShowRelease(release[1..]), release[1..]);
    assert [release[0]] + release[1..] == release;
  }

  lemma ShowReleaseCons(release: seq<nat>)
    requires |release| >= 2
    ensures ShowRelease(release) == ShowNat(release[0]) + "." + ShowRelease(release[1..])
  {
  }

  lemma ReleaseRoundTripStep(release: seq<nat>)
    requires |release| >= 2
    requires ParseRelease(ShowRelease(release[1..])) == Some(release[1..])
    ensures ParseRelease(ShowRelease(release)) == Some(release)
  {
    ShowReleaseCons(release);
    ShownHeadThenRelease(release);
  }

  /** `Version` reads a rendered release back unchanged. */
  lemma {:induction false} ReleaseRoundTrip(release: seq<nat>)
    requires |release| >= 1
    ensures ParseRelease(ShowRelease(release)) == Some(release)
  {
    if |release| == 1 {
      ReleaseRoundTripOne(release);
    } else {
      ReleaseRoundTrip(release[1..]);
      ReleaseRoundTripStep(release);
    }
  }

  /** The segments `ShowSuffix` writes, one per pair. */
  function Segments(pairs: seq<Pair>): (r: seq<string>)
    ensures |r| == |pairs|
    ensures forall k :: 0 <= k < |pairs| ==> r[k] == ShowPair(pairs[k])
  {
    seq(|pairs|, k requires 0 <= k < |pairs| => ShowPair(pairs[k]))
  }

  lemma ShowPairHasNoHyphen(p: Pair)
    requires IsLowerWord(p.name)
    ensures '-' !in ShowPair(p)
  {
    var digits := ShowNat(p.number);
    assert forall i :: 0 <= i < |p.name| ==> p.name[i] != '-';
    assert forall i :: 0 <= i < |digits| ==> digits[i] != '-';
    assert forall i :: 0 <= i < |ShowPair(p)| ==> ShowPair(p)[i] != '-' by {
      forall i | 0 <= i < |ShowPair(p)| ensures ShowPair(p)[i] != '-' {
        if i < |p.name| { assert ShowPair(p)[i] == p.name[i]; }
        else { assert ShowPair(p)[i] == digits[i - |p.name|]; }
      }
    }
  }

  /** The first pair of a non-empty suffix, written as its own segment. */
  lemma ShowSuffixCons(pairs: seq<Pair>)
    requires pairs != []
    ensures ShowSuffix(pairs) == ['-'] + (ShowPair(pairs[0]) + ShowSuffix(pairs[1..]))
  {
  }

  lemma SegmentsCons(pairs: seq<Pair>)
    requires pairs != []
    ensures Segments(pairs) == [ShowPair(pairs[0])] + Segments(pairs[1..])
  {
    var a, b := Segments(pairs), [ShowPair(pairs[0])] + Segments(pairs[1..]);
    forall k | 0 < k < |a| ensures a[k] == b[k] {
      assert b[k] == Segments(pairs[1..])[k - 1];
    }
  }

  lemma {:induction false} SplitShowSuffix(x: string, pairs: seq<Pair>)
    requires '-' !in x
    requires forall k :: 0 <= k < |pairs| ==> IsLowerWord(pairs[k].name)
    ensures Split(x + ShowSuffix(pairs), '-') == [x] + Segments(pairs)
    decreases |pairs|
  {
    if pairs == [] {
      assert x + ShowSuffix(pairs) == x;
      SplitWhole(x, '-');
    } else {
      var seg := ShowPair(pairs[0]);
      ShowPairHasNoHyphen(pairs[0]);
      ShowSuffixCons(pairs);
      assert x + ShowSuffix(pairs) == x + ['-'] + (seg + ShowSuffix(pairs[1..]));
      SegmentsCons(pairs);
      SplitAfter(x, '-', seg + ShowSuffix(pairs[1..]));
      assert forall k :: 0 <= k < |pairs[1..]| ==> pairs[1..][k] == pairs[k + 1];
      SplitShowSuffix(seg, pairs[1..]);
    }
  }

  lemma {:induction false} SuffixPairsOfShown(pairs: seq<Pair>)
    requires forall k :: 0 <= k < |pairs| ==> IsLowerWord(pairs[k].name)
    ensures SuffixPairs(Segments(pairs)) == pairs
  {
    var segs := Segments(pairs);
    if pairs != [] {
      var n := |pairs| - 1;
      assert segs[..n] == Segments(pairs[..n]);
      SuffixPairsOfShown(pairs[..n]);
      assert segs[n] == pairs[n].name + ShowNat(pairs[n].number) + [];
      MatchSuffixExact(pairs[n].name, ShowNat(pairs[n].number), []);
      ShowNatValue(pairs[n].number);
      assert pairs == pairs[..n] + [pairs[n]];
    }
  }

  /** Text that starts and ends with a digit reaches the release grammar as it is. */
  lemma PlainVersionText(text: string)
    requires text != [] && IsDigit(text[0]) && IsDigit(text[|text| - 1])
    ensures ParseVersionText(text) == ParseRelease(text)
  {
    TrimUnchanged(text);
  }

  /** A rendered release is read back by `Version` unchanged. */
  lemma ShownReleaseParses(release: seq<nat>)
    requires |release| >= 1
    ensures ParseVersionText(ShowRelease(release)) == Some(release)
  {
    ShowReleaseChars(release);
    PlainVersionText(ShowRelease(release));
    ReleaseRoundTrip(release);
  }

  /** The base part of a rendered tag holds no hyphen. */
  lemma RenderedBaseHasNoHyphen(release: seq<nat>)
    requires |release| >= 1
    ensures '-' !in "v" + ShowRelease(release)
  {
    var text := ShowRelease(release);
    ShowReleaseChars(release);
    var base := "v" + text;
    assert forall i :: 0 < i < |base| ==> base[i] == text[i - 1];
  }

  /** The hyphen segments of a rendered tag: `v` and the release, then one
      segment per pair. */
  lemma RenderSplit(release: seq<nat>, pairs: seq<Pair>)
    requires |release| >= 1
    requires forall k :: 0 <= k < |pairs| ==> IsLowerWord(pairs[k].name)
    ensures Split(Render(release, pairs), '-') == ["v" + ShowRelease(release)] + Segments(pairs)
  {
    RenderedBaseHasNoHyphen(release);
    SplitShowSuffix("v" + ShowRelease(release), pairs);
  }

  lemma RenderSegments(release: seq<nat>, pairs: seq<Pair>)
    requires |release| >= 1
    requires forall k :: 0 <= k < |pairs| ==> IsLowerWord(pairs[k].name)
    ensures BaseText(Render(release, pairs)) == ShowRelease(release)
    ensures SuffixOf(Render(release, pairs)) == pairs
  {
    var text := ShowRelease(release);
    RenderSplit(release, pairs);
    assert SuffixSegments(Render(release, pairs)) == Segments(pairs);
    LStripOne('v', text);
    SuffixPairsOfShown(pairs);
  }

  /** Constructing a version from a rendered tag recovers the release and the
      suffix pairs, and keeps the tag itself as `original`. */
  lemma RenderRoundTrip(release: seq<nat>, pairs: seq<Pair>)
    requires |release| >= 1
    requires forall k :: 0 <= k < |pairs| ==> IsLowerWord(pairs[k].name)
    ensures FromTag(Render(release, pairs)) == Success(DockerVersion(Render(release, pairs), release, pairs))
  {
    RenderSegments(release, pairs);
    ShownReleaseParses(release);
  }

  lemma NumeralHasNoDot(x: string)
    requires IsNumeral(x)
    ensures '.' !in x
  {
    assert forall i :: 0 <= i < |x| ==> IsDigit(x[i]);
  }

  lemma SplitThree(x: string, y: string, z: string)
    requires IsNumeral(x) && IsNumeral(y) && IsNumeral(z)
    ensures Split(x + "." + y + "." + z, '.') == [x, y, z]
  {
    NumeralHasNoDot(x);
    NumeralHasNoDot(y);
    NumeralHasNoDot(z);
    var yz := y + ['.'] + z;
    assert Split(yz, '.') == [y, z] by {
      SplitAfter(y, '.', z);
      SplitWhole(z, '.');
      assert [y] + [z] == [y, z];
    }
    assert x + "." + y + "." + z == x + ['.'] + yz;
    SplitAfter(x, '.', yz);
    assert [x] + [y, z] == [x, y, z];
  }

  lemma NumeralValuesOne(z: string)
    requires IsNumeral(z)
    ensures NumeralValues([z]) == Some([DigitsValue(z)])
  {
    NumeralValuesCons(z, []);
    assert [z] + [] == [z];
    assert [DigitsValue(z)] + [] == [DigitsValue(z)];
  }

  lemma NumeralValuesTwo(y: string, z: string)
    requires IsNumeral(y) && IsNumeral(z)
    ensures NumeralValues([y, z]) == Some([DigitsValue(y), DigitsValue(z)])
  {
    NumeralValuesOne(z);
    NumeralValuesCons(y, [z]);
    assert [y] + [z] == [y, z];
    assert [DigitsValue(y)] + [DigitsValue(z)] == [DigitsValue(y), DigitsValue(z)];
  }

  lemma NumeralValuesThree(x: string, y: string, z: string)
    requires IsNumeral(x) && IsNumeral(y) && IsNumeral(z)
    ensures NumeralValues([x, y, z]) == Some([DigitsValue(x), DigitsValue(y), DigitsValue(z)])
  {
    NumeralValuesTwo(y, z);
    NumeralValuesCons(x, [y, z]);
    assert [x] + [y, z] == [x, y, z];
    assert [DigitsValue(x)] + [DigitsValue(y), DigitsValue(z)]
      == [DigitsValue(x), DigitsValue(y), DigitsValue(z)];
  }

  /** `<x>.<y>.<z>` with three numerals is a three-component release. */
  lemma ThreeNumeralsParse(x: string, y: string, z: string)
    requires IsNumeral(x) && IsNumeral(y) && IsNumeral(z)
    ensures ParseRelease(x + "." + y + "." + z) == Some([DigitsValue(x), DigitsValue(y), DigitsValue(z)])
  {
    SplitThree(x, y, z);
    NumeralValuesThree(x, y, z);
  }
}
