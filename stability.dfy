/** `is_stable_kubernetes_tag`: a tag is stable when its lower-case form holds
    none of the unstable markers anywhere and matches
    `^v\d+\.\d+\.\d+(-k3s\d+)?(-rancher\d+)?$` (with `re.match`, whose `$`
    also matches just before a final line feed). */
module Stability {
  import opened Wrappers
  import opened Text
  import opened Versions

  /** The markers of pre-release, development and test builds, searched for
      as plain substrings. */
  const Markers: seq<string> := ["rc", "alpha", "beta", "dev", "test", "ci", "debug", "latest"]

  predicate HasMarker(t: string) { exists m :: m in Markers && Contains(t, m) }

  // ---------------------------------------------------------------------
  // The regular expression, read left to right
  // ---------------------------------------------------------------------

  /** `$`: the end of the string, or a line feed that ends it. */
  predicate EndShape(r: string) { r == [] || r == "\n" }

  /** `(-rancher\d+)?$` */
  predicate RancherShape(r: string) {
    EndShape(r)
    || (StartsWith(r, "-rancher") && DigitRun(r[8..]) > 0 && EndShape(r[8..][DigitRun(r[8..])..]))
  }

  /** `(-k3s\d+)?(-rancher\d+)?$` */
  predicate TailShape(r: string) {
    RancherShape(r)
    || (StartsWith(r, "-k3s") && DigitRun(r[4..]) > 0 && RancherShape(r[4..][DigitRun(r[4..])..]))
  }

  /** `\d+\.` at the start of `s`. */
  predicate NumberThenDot(s: string) {
    var n := DigitRun(s);
    0 < n < |s| && s[n] == '.'
  }

  /** What follows the first `\d+\.` */
  function AfterDot(s: string): string
    requires NumberThenDot(s)
  {
    s[DigitRun(s) + 1..]
  }

  /** `\d+(-k3s\d+)?(-rancher\d+)?$` */
  predicate PatchShape(s: string) {
    DigitRun(s) > 0 && TailShape(s[DigitRun(s)..])
  }

  /** `\d+\.\d+(-k3s\d+)?(-rancher\d+)?$` */
  predicate MinorShape(s: string) {
    NumberThenDot(s) && PatchShape(AfterDot(s))
  }

  /** `\d+\.\d+\.\d+(-k3s\d+)?(-rancher\d+)?$` */
  predicate MajorShape(s: string) {
    NumberThenDot(s) && MinorShape(AfterDot(s))
  }

  /** The whole pattern `^v\d+\.\d+\.\d+(-k3s\d+)?(-rancher\d+)?$`. */
  predicate StableShape(t: string) {
    |t| > 0 && t[0] == 'v' && MajorShape(t[1..])
  }

  /** `is_stable_kubernetes_tag` */
  predicate IsStableKubernetesTag(tag: string) {
    var t := Lower(tag);
    !HasMarker(t) && StableShape(t)
  }

  // ---------------------------------------------------------------------
  // The language of the pattern, as data
  // ---------------------------------------------------------------------

  /** The parts of a string the pattern accepts: three numerals, the optional
      k3s and rancher numbers, and whether a line feed ends it. */
  datatype StableForm = StableForm(
    major: string, minor: string, patch: string,
    k3s: Option<string>, rancher: Option<string>, newline: bool)

  predicate OptNumeral(n: Option<string>) { n.Some? ==> IsNumeral(n.value) }

  predicate ValidForm(f: StableForm) {
    IsNumeral(f.major) && IsNumeral(f.minor) && IsNumeral(f.patch)
    && OptNumeral(f.k3s) && OptNumeral(f.rancher)
  }

  function OptSegment(prefix: string, n: Option<string>): string {
    if n.Some? then prefix + n.value else []
  }

  function EndText(newline: bool): string { if newline then "\n" else [] }

  function RancherText(rancher: Option<string>, newline: bool): string {
    OptSegment("-rancher", rancher) + EndText(newline)
  }

  function TailText(k3s: Option<string>, rancher: Option<string>, newline: bool): string {
    OptSegment("-k3s", k3s) + RancherText(rancher, newline)
  }

  /** `v<major>.<minor>.<patch>` */
  function CoreText(f: StableForm): string {
    "v" + f.major + "." + f.minor + "." + f.patch
  }

  function FormText(f: StableForm): string {
    CoreText(f) + TailText(f.k3s, f.rancher, f.newline)
  }

  // Reading a string the pattern accepts back into its parts.

  function ReadRancher(r: string): (res: (Option<string>, bool))
    requires RancherShape(r)
    ensures OptNumeral(res.0) && RancherText(res.0, res.1) == r
  {
    if EndShape(r) then
      (None, r == "\n")
    else
      var n := DigitRun(r[8..]);
      var e := r[8..][n..];
      assert r == "-rancher" + r[8..][..n] + EndText(e == "\n");
      (Some(r[8..][..n]), e == "\n")
  }

  function ReadTail(r: string): (res: (Option<string>, Option<string>, bool))
    requires TailShape(r)
    ensures OptNumeral(res.0) && OptNumeral(res.1) && TailText(res.0, res.1, res.2) == r
  {
    if RancherShape(r) then
      var (rancher, newline) := ReadRancher(r);
      (None, rancher, newline)
    else
      var n := DigitRun(r[4..]);
      var rest := r[4..][n..];
      var (rancher, newline) := ReadRancher(rest);
      assert r == "-k3s" + r[4..][..n] + rest;
      (Some(r[4..][..n]), rancher, newline)
  }

  function ReadPatch(s: string): (res: (string, string))
    requires PatchShape(s)
    ensures IsNumeral(res.0) && TailShape(res.1) && res.0 + res.1 == s
  {
    var c := DigitRun(s);
    assert s == s[..c] + s[c..];
    (s[..c], s[c..])
  }

  function ReadNumber(s: string): (res: (string, string))
    requires NumberThenDot(s)
    ensures IsNumeral(res.0) && res.1 == AfterDot(s) && res.0 + "." + res.1 == s
  {
    var n := DigitRun(s);
    assert s == s[..n] + "." + s[n + 1..];
    (s[..n], s[n + 1..])
  }

  /** Every string the pattern accepts is `FormText` of its parts. */
  function ReadForm(t: string): (f: StableForm)
    requires StableShape(t)
    ensures ValidForm(f) && FormText(f) == t
  {
    var (major, s1) := ReadNumber(t[1..]);
    var (minor, s2) := ReadNumber(s1);
    var (patch, tail) := ReadPatch(s2);
    var (k3s, rancher, newline) := ReadTail(tail);
    var f := StableForm(major, minor, patch, k3s, rancher, newline);
    FormTextFrom(t, f, s1, s2);
    f
  }

  /** A string rebuilt from the parts read off it, left to right. */
  lemma FormTextFrom(t: string, f: StableForm, s1: string, s2: string)
    requires |t| > 0 && t[0] == 'v'
    requires t[1..] == f.major + "." + s1 && s1 == f.minor + "." + s2
    requires s2 == f.patch + TailText(f.k3s, f.rancher, f.newline)
    ensures FormText(f) == t
  {
    FormTextNested(f);
    assert t == "v" + t[1..];
  }

  /** `p\d+` at the start of `p + x + rest`: the digit run is exactly `x`. */
  lemma PrefixedNumeral(p: string, x: string, rest: string)
    requires IsNumeral(x)
    requires rest == [] || !IsDigit(rest[0])
    ensures StartsWith(p + x + rest, p)
    ensures (p + x + rest)[|p|..] == x + rest
    ensures DigitRun(x + rest) == |x|
    ensures (x + rest)[|x|..] == rest
  {
    assert (p + x + rest)[..|p|] == p;
    DigitRunConcat(x, rest);
  }

  lemma NumeralThenDot(x: string, rest: string)
    requires IsNumeral(x)
    ensures NumberThenDot(x + "." + rest) && AfterDot(x + "." + rest) == rest
  {
    PrefixedNumeral([], x, "." + rest);
    assert x + "." + rest == [] + x + ("." + rest);
  }

  lemma RancherTextAccepted(rancher: Option<string>, newline: bool)
    requires OptNumeral(rancher)
    ensures RancherShape(RancherText(rancher, newline))
  {
    if rancher.Some? {
      PrefixedNumeral("-rancher", rancher.value, EndText(newline));
    }
  }

  lemma TailTextAccepted(k3s: Option<string>, rancher: Option<string>, newline: bool)
    requires OptNumeral(k3s) && OptNumeral(rancher)
    ensures TailShape(TailText(k3s, rancher, newline))
  {
    RancherTextAccepted(rancher, newline);
    var rt := RancherText(rancher, newline);
    if k3s.Some? {
      assert rt == [] || rt[0] == '-' || rt[0] == '\n';
      PrefixedNumeral("-k3s", k3s.value, rt);
    }
  }

  /** `FormText` read from the right, as the pattern consumes it. */
  lemma FormTextNested(f: StableForm)
    ensures FormText(f)
      == "v" + (f.major + "." + (f.minor + "." + (f.patch + TailText(f.k3s, f.rancher, f.newline))))
  {
    ConcatNested("v", f.major, ".", f.minor, ".", f.patch, TailText(f.k3s, f.rancher, f.newline));
  }

  lemma AfterVAccepted(f: StableForm)
    requires ValidForm(f)
    ensures MajorShape(f.major + "." + (f.minor + "." + (f.patch + TailText(f.k3s, f.rancher, f.newline))))
  {
    var tail := TailText(f.k3s, f.rancher, f.newline);
    TailTextAccepted(f.k3s, f.rancher, f.newline);
    var s2 := f.patch + tail;
    var s1 := f.minor + "." + s2;
    assert PatchShape(s2) by {
      assert tail == [] || tail[0] == '-' || tail[0] == '\n';
      PrefixedNumeral([], f.patch, tail);
      assert [] + f.patch + tail == s2;
    }
    assert MinorShape(s1) by { NumeralThenDot(f.minor, s2); }
    NumeralThenDot(f.major, s1);
  }

  /** The pattern accepts every string built from valid parts. */
  lemma FormTextAccepted(f: StableForm)
    requires ValidForm(f)
    ensures StableShape(FormText(f))
  {
    FormTextNested(f);
    AfterVAccepted(f);
    var s0 := f.major + "." + (f.minor + "." + (f.patch + TailText(f.k3s, f.rancher, f.newline)));
    assert FormText(f)[1..] == s0;
  }

  // ---------------------------------------------------------------------
  // Every accepted tag constructs a version
  // ---------------------------------------------------------------------

  /** `<major>.<minor>.<patch>` */
  function DottedText(f: StableForm): string {
    f.major + "." + f.minor + "." + f.patch
  }

  lemma DottedChars(f: StableForm)
    requires ValidForm(f)
    ensures CoreText(f) == "v" + DottedText(f)
    ensures var d := DottedText(f);
      |d| > 0 && IsDigit(d[0]) && IsDigit(d[|d| - 1])
      && forall i :: 0 <= i < |d| ==> IsDigit(d[i]) || d[i] == '.'
  {
    var d := DottedText(f);
    assert d == f.major + ("." + (f.minor + ("." + f.patch)));
    forall i | 0 <= i < |d| ensures IsDigit(d[i]) || d[i] == '.' {
      if i < |f.major| { assert d[i] == f.major[i]; }
      else if i == |f.major| { }
      else if i < |f.major| + 1 + |f.minor| { assert d[i] == f.minor[i - |f.major| - 1]; }
      else if i == |f.major| + 1 + |f.minor| { }
      else { assert d[i] == f.patch[i - |f.major| - |f.minor| - 2]; }
    }
    assert d[|d| - 1] == f.patch[|f.patch| - 1];
  }

  /** What follows the core in the first segment: the final line feed when
      no suffix segment comes after the core, nothing otherwise. */
  function FirstEnd(f: StableForm): string {
    if f.k3s.None? && f.rancher.None? then EndText(f.newline) else []
  }

  lemma CoreHasNoHyphen(f: StableForm)
    requires ValidForm(f)
    ensures '-' !in CoreText(f)
  {
    DottedChars(f);
    var core := CoreText(f);
    assert forall i :: 0 < i < |core| ==> core[i] == DottedText(f)[i - 1];
  }

  /** The tail's text up to its first `-` is the line end of a plain tag and
      nothing otherwise. */
  lemma TailFirstSegment(f: StableForm)
    ensures var tail := TailText(f.k3s, f.rancher, f.newline);
      Find(tail, '-') == |FirstEnd(f)| && tail[..Find(tail, '-')] == FirstEnd(f)
  {
    var tail := TailText(f.k3s, f.rancher, f.newline);
    if f.k3s.Some? || f.rancher.Some? {
      assert tail[0] == '-';
      assert tail[..0] == [];
    } else {
      assert tail == EndText(f.newline);
      assert tail[..|tail|] == tail;
    }
  }

  /** The text before the first `-` of an accepted string. */
  lemma FormFirstSegment(f: StableForm)
    requires ValidForm(f)
    ensures Find(FormText(f), '-') == |CoreText(f) + FirstEnd(f)|
    ensures Split(FormText(f), '-')[0] == CoreText(f) + FirstEnd(f)
  {
    CoreHasNoHyphen(f);
    TailFirstSegment(f);
    FindConcat(CoreText(f), TailText(f.k3s, f.rancher, f.newline), '-');
  }

  /** The first segment of a tag whose lower-case form is accepted, lower-cased. */
  lemma AcceptedFirstSegmentLower(tag: string, f: StableForm)
    requires ValidForm(f) && Lower(tag) == FormText(f)
    ensures Lower(Split(tag, '-')[0]) == "v" + DottedText(f) + FirstEnd(f)
  {
    FindLower(tag, '-');
    FormFirstSegment(f);
    DottedChars(f);
    LowerSlice(tag, 0, Find(tag, '-'));
    assert tag[0..Find(tag, '-')] == Split(tag, '-')[0];
  }

  /** After the `v`, the first segment of an accepted string holds no letter. */
  lemma FirstSegmentLetters(f: StableForm)
    requires ValidForm(f)
    ensures var rest := DottedText(f) + FirstEnd(f);
      forall i :: 0 <= i < |rest| ==> !IsLowerLetter(rest[i])
  {
    DottedChars(f);
    var d := DottedText(f);
    var rest := d + FirstEnd(f);
    forall i | 0 <= i < |rest| ensures !IsLowerLetter(rest[i]) {
      if i < |d| { assert rest[i] == d[i]; }
      else { assert rest[i] == FirstEnd(f)[i - |d|]; }
    }
  }

  /** The first segment of a tag whose lower-case form is accepted: `v` or
      `V`, the three numerals, and perhaps a line feed. */
  lemma AcceptedFirstSegment(tag: string, f: StableForm)
    requires ValidForm(f) && Lower(tag) == FormText(f)
    ensures var b := Split(tag, '-')[0];
      |b| > 0 && (b[0] == 'v' || b[0] == 'V') && b[1..] == DottedText(f) + FirstEnd(f)
  {
    AcceptedFirstSegmentLower(tag, f);
    FirstSegmentLetters(f);
    var rest := DottedText(f) + FirstEnd(f);
    assert "v" + DottedText(f) + FirstEnd(f) == "v" + rest;
    LowerLeadingV(Split(tag, '-')[0], rest);
  }

  /** Trimming drops the optional line feed after a text with non-space ends. */
  lemma TrimEnd(text: string, end: string)
    requires text != [] && !IsSpace(text[0]) && !IsSpace(text[|text| - 1])
    requires end == [] || end == "\n"
    ensures Trim(text + end) == text
  {
    if end == [] {
      assert text + end == text;
      TrimUnchanged(text);
    } else {
      TrimLineFeed(text);
    }
  }

  /** The dotted numerals `d` with an optional line feed read as `d`. */
  lemma PlainSegmentParses(d: string, end: string)
    requires d != [] && IsDigit(d[0]) && IsDigit(d[|d| - 1])
    requires end == [] || end == "\n"
    ensures ParseVersionText(d + end) == ParseRelease(d)
  {
    TrimEnd(d, end);
  }

  /** `V` before the dotted numerals is dropped as `Version` drops it. */
  lemma UpperVSegmentParses(d: string, end: string)
    requires d != [] && IsDigit(d[0]) && IsDigit(d[|d| - 1])
    requires end == [] || end == "\n"
    ensures ParseVersionText("V" + d + end) == ParseRelease(d)
  {
    var text := "V" + d;
    assert text[|text| - 1] == d[|d| - 1];
    TrimEnd(text, end);
    assert text[1..] == d;
  }

  /** A first segment `v<d>` or `V<d>`, perhaps followed by a line feed,
      hands `Version` the dotted numerals `d`. */
  lemma FirstSegmentParses(b: string, d: string, end: string)
    requires |b| > 0 && (b[0] == 'v' || b[0] == 'V') && b[1..] == d + end
    requires d != [] && IsDigit(d[0]) && IsDigit(d[|d| - 1])
    requires end == [] || end == "\n"
    ensures ParseVersionText(LStrip(b, 'v')) == ParseRelease(d)
  {
    assert b == [b[0]] + (d + end);
    assert (d + end)[0] == d[0];
    if b[0] == 'v' {
      LStripOne('v', d + end);
      PlainSegmentParses(d, end);
    } else {
      assert LStrip(b, 'v') == b;
      assert b == "V" + d + end;
      UpperVSegmentParses(d, end);
    }
  }

  /** A tag whose lower-case form the pattern accepts always constructs a
      version, whose release is the three numerals it was read from. */
  lemma AcceptedShapeParses(tag: string, f: StableForm)
    requires ValidForm(f) && Lower(tag) == FormText(f)
    ensures ParseVersion(tag) == Some([DigitsValue(f.major), DigitsValue(f.minor), DigitsValue(f.patch)])
  {
    AcceptedFirstSegment(tag, f);
    DottedChars(f);
    ThreeNumeralsParse(f.major, f.minor, f.patch);
    FirstSegmentParses(Split(tag, '-')[0], DottedText(f), FirstEnd(f));
  }

  /** Every stable tag constructs a `DockerVersion`, and its release has
      exactly three components. */
  lemma StableTagParses(tag: string)
    requires IsStableKubernetesTag(tag)
    ensures FromTag(tag).Success?
    ensures var f := ReadForm(Lower(tag));
      FromTag(tag).value.release == [DigitsValue(f.major), DigitsValue(f.minor), DigitsValue(f.patch)]
  {
    AcceptedShapeParses(tag, ReadForm(Lower(tag)));
  }

  /** The verdict depends only on the lower-case form. */
  lemma CaseInsensitive(tag: string)
    ensures IsStableKubernetesTag(tag) == IsStableKubernetesTag(Lower(tag))
  {
    LowerIdempotent(tag);
  }

  /** A marker anywhere in the lower-case form rejects the tag. */
  lemma MarkerRejects(tag: string, m: string, i: int)
    requires m in Markers && OccursAt(Lower(tag), m, i)
    ensures !IsStableKubernetesTag(tag)
  {
  }

  /** Markers are found anywhere: the `rc` inside `architecture` rejects
      every tag that holds that word, `v1.2.3-architecture` among them. */
  lemma ArchitectureRejected(pre: string, post: string)
    ensures !IsStableKubernetesTag(pre + "architecture" + post)
  {
    var tag := pre + "architecture" + post;
    var i := |pre| + 1;
    var low := Lower(tag);
    assert low[i] == 'r' && low[i + 1] == 'c' by {
      assert tag[i] == 'r' && tag[i + 1] == 'c';
    }
    assert OccursAt(low, "rc", i) by {
      assert low[i..i + 2] == [low[i], low[i + 1]];
    }
    MarkerRejects(tag, "rc", i);
  }

  /** A tag is stable exactly when its lower-case form is one the pattern
      describes and holds no marker. */
  lemma StableIff(tag: string)
    ensures IsStableKubernetesTag(tag)
      <==> !HasMarker(Lower(tag)) && exists f :: ValidForm(f) && FormText(f) == Lower(tag)
  {
    if exists f :: ValidForm(f) && FormText(f) == Lower(tag) {
      var f :| ValidForm(f) && FormText(f) == Lower(tag);
      FormTextAccepted(f);
    }
    if StableShape(Lower(tag)) {
      var f := ReadForm(Lower(tag));
      assert ValidForm(f) && FormText(f) == Lower(tag);
    }
  }
}
