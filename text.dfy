/** The string operations the version engine relies on, restricted to ASCII:
    `str.lower`, substring search (`in`), `str.split`, `str.lstrip`,
    whitespace stripping, and decimal digit runs with their value. */
module Text {

  predicate IsDigit(c: char) { '0' <= c <= '9' }

  predicate IsLowerLetter(c: char) { 'a' <= c <= 'z' }

  predicate IsUpperLetter(c: char) { 'A' <= c <= 'Z' }

  /** The ASCII whitespace characters matched by a `\s` class: space, tab,
      line feed, vertical tab, form feed, carriage return and the four
      information separators 0x1C-0x1F. */
  predicate IsSpace(c: char) {
    c == ' ' || 9 <= c as int <= 13 || 28 <= c as int <= 31
  }

  predicate AllDigits(s: string) { forall i :: 0 <= i < |s| ==> IsDigit(s[i]) }

  /** A non-empty run of decimal digits, as `\d+` or `[0-9]+` matches. */
  predicate IsNumeral(s: string) { |s| > 0 && AllDigits(s) }

  function LowerChar(c: char): (d: char)
    ensures !IsUpperLetter(d)
    ensures IsUpperLetter(c) ==> IsLowerLetter(d) && d as int == c as int + 32
    ensures !IsUpperLetter(c) ==> d == c
  {
    if IsUpperLetter(c) then (c as int + 32) as char else c
  }

  /** ASCII `str.lower`. */
  function Lower(s: string): (r: string)
    ensures |r| == |s|
    ensures forall i :: 0 <= i < |s| ==> r[i] == LowerChar(s[i])
  {
    if s == [] then [] else [LowerChar(s[0])] + Lower(s[1..])
  }

  lemma LowerIdempotent(s: string)
    ensures Lower(Lower(s)) == Lower(s)
  {
    assert forall i :: 0 <= i < |s| ==> LowerChar(LowerChar(s[i])) == LowerChar(s[i]);
  }

  /** Only `c` itself and, for a lower-case letter, its upper-case partner lower to `c`. */
  lemma LowerCharInverse(c: char, d: char)
    requires LowerChar(c) == d
    ensures !IsLowerLetter(d) ==> c == d
    ensures IsLowerLetter(d) ==> c == d || c as int == d as int - 32
  {
  }

  /** `Lower` is fixed by what it does to each character. */
  lemma LowerPointwise(a: string, b: string)
    requires |a| == |b|
    requires forall k :: 0 <= k < |a| ==> b[k] == LowerChar(a[k])
    ensures Lower(a) == b
  {
    var r := Lower(a);
    assert forall k :: 0 <= k < |a| ==> r[k] == b[k];
  }

  lemma LowerSlice(s: string, i: nat, j: nat)
    requires i <= j <= |s|
    ensures Lower(s[i..j]) == Lower(s)[i..j]
  {
    var a, b := s[i..j], Lower(s)[i..j];
    forall k | 0 <= k < |a| ensures b[k] == LowerChar(a[k]) {
      assert a[k] == s[i + k] && b[k] == Lower(s)[i + k];
    }
    LowerPointwise(a, b);
  }

  /** Lower-casing moves no character that is not a letter. */
  lemma FindLower(s: string, c: char)
    requires !IsLowerLetter(c) && !IsUpperLetter(c)
    ensures Find(Lower(s), c) == Find(s, c)
  {
    var i := Find(s, c);
    forall j | 0 <= j < i ensures Lower(s)[j] != c {
      LowerCharInverse(s[j], Lower(s)[j]);
    }
    assert i < |s| ==> Lower(s)[i] == c;
  }

  /** Where the lower-case form holds no letter, the string is its own
      lower-case form. */
  lemma LowerKeepsNonLetters(s: string, from: nat)
    requires from <= |s|
    requires forall i :: from <= i < |s| ==> !IsLowerLetter(Lower(s)[i])
    ensures s[from..] == Lower(s)[from..]
  {
    forall i | from <= i < |s| ensures s[i] == Lower(s)[i] {
      LowerCharInverse(s[i], Lower(s)[i]);
    }
  }

  /** Concatenation regrouped from the left to the right nesting the
      pattern reader follows. */
  lemma ConcatNested(v: string, a: string, d1: string, b: string, d2: string, c: string, t: string)
    ensures v + a + d1 + b + d2 + c + t == v + (a + d1 + (b + d2 + (c + t)))
  {
  }

  predicate StartsWith(s: string, p: string) { |p| <= |s| && s[..|p|] == p }

  /** `m` occurs in `s` starting at index `i`. */
  predicate OccursAt(s: string, m: string, i: int) {
    0 <= i <= |s| - |m| && s[i..i + |m|] == m
  }

  /** Substring search, as Python's `m in s`. */
  function Contains(s: string, m: string): (r: bool)
    ensures r <==> exists i :: OccursAt(s, m, i)
  {
    if StartsWith(s, m) then
      assert OccursAt(s, m, 0);
      true
    else if s == [] then
      false
    else
      var r := Contains(s[1..], m);
      assert r ==> exists i :: OccursAt(s, m, i) by {
        if r {
          var j :| OccursAt(s[1..], m, j);
          assert s[j + 1..j + 1 + |m|] == s[1..][j..j + |m|];
          assert OccursAt(s, m, j + 1);
        }
      }
      assert (exists i :: OccursAt(s, m, i)) ==> r by {
        if exists i :: OccursAt(s, m, i) {
          var i :| OccursAt(s, m, i);
          assert i != 0;
          assert s[1..][i - 1..i - 1 + |m|] == s[i..i + |m|];
          assert OccursAt(s[1..], m, i - 1);
        }
      }
      r
  }

  /** Index of the first `c` in `s`, or `|s|` when there is none. */
  function Find(s: string, c: char): (i: nat)
    ensures i <= |s|
    ensures forall j :: 0 <= j < i ==> s[j] != c
    ensures i < |s| ==> s[i] == c
  {
    if s == [] then 0 else if s[0] == c then 0 else 1 + Find(s[1..], c)
  }

  /** The search passes over a prefix free of `c`. */
  lemma {:induction false} FindConcat(x: string, y: string, c: char)
    requires c !in x
    ensures Find(x + y, c) == |x| + Find(y, c)
    ensures (x + y)[..Find(x + y, c)] == x + y[..Find(y, c)]
  {
    if x != [] {
      assert x[0] in x && (x + y)[1..] == x[1..] + y;
      assert forall d :: d in x[1..] ==> d in x;
      FindConcat(x[1..], y, c);
    } else {
      assert x + y == y;
    }
  }

  /** Python's `s.split(c)` for a one-character separator: every piece,
      empty ones included, in order. */
  function Split(s: string, c: char): (parts: seq<string>)
    ensures |parts| >= 1
    ensures parts[0] == s[..Find(s, c)]
    decreases |s|
  {
    var i := Find(s, c);
    if i == |s| then [s] else [s[..i]] + Split(s[i + 1..], c)
  }

  /** Python's `c.join(parts)`. */
  function Join(parts: seq<string>, c: char): string
  {
    if |parts| <= 1 then (if parts == [] then [] else parts[0])
    else parts[0] + [c] + Join(parts[1..], c)
  }

  /** `Split` loses nothing: joining the pieces back restores the string. */
  lemma {:induction false} SplitJoin(s: string, c: char)
    ensures Join(Split(s, c), c) == s
    decreases |s|
  {
    var i := Find(s, c);
    if i == |s| {
      assert s[..i] == s;
    } else {
      var rest := Split(s[i + 1..], c);
      SplitJoin(s[i + 1..], c);
      JoinCons(s[..i], rest, c);
      assert s[..i] + [c] + s[i + 1..] == s by { assert s[i] == c; }
    }
  }

  lemma JoinCons(p: string, rest: seq<string>, c: char)
    requires |rest| >= 1
    ensures Join([p] + rest, c) == p + [c] + Join(rest, c)
  {
    assert ([p] + rest)[1..] == rest;
  }

  /** No piece of `Split(s, c)` holds the separator. */
  lemma {:induction false} SplitPiecesFree(s: string, c: char)
    ensures forall k :: 0 <= k < |Split(s, c)| ==> c !in Split(s, c)[k]
    decreases |s|
  {
    var i := Find(s, c);
    if i < |s| {
      SplitPiecesFree(s[i + 1..], c);
      var rest := Split(s[i + 1..], c);
      assert Split(s, c) == [s[..i]] + rest;
    }
  }

  /** With no separator in `x`, splitting `x + [c] + y` cuts exactly after `x`. */
  lemma SplitAfter(x: string, c: char, y: string)
    requires c !in x
    ensures Split(x + [c] + y, c) == [x] + Split(y, c)
  {
    var s := x + [c] + y;
    assert s[|x|] == c;
    assert forall j :: 0 <= j < |x| ==> s[j] == x[j] && s[j] != c;
    assert Find(s, c) == |x|;
    assert s[..|x|] == x;
    assert s[|x| + 1..] == y;
  }

  lemma SplitWhole(x: string, c: char)
    requires c !in x
    ensures Split(x, c) == [x]
  {
    assert forall j :: 0 <= j < |x| ==> x[j] != c;
    assert x[..|x|] == x;
  }

  /** Splitting at one separator splits each side on its own. */
  lemma {:induction false} SplitSep(x: string, c: char, y: string)
    ensures Split(x + [c] + y, c) == Split(x, c) + Split(y, c)
    decreases |x|
  {
    if c !in x {
      SplitAfter(x, c, y);
      SplitWhole(x, c);
    } else {
      var a, r := CutAtFirst(x, c);
      SplitSep(r, c, y);
      SplitSepCut(a, c, r, y);
    }
  }

  /** The inductive step of `SplitSep`: a `c`-free piece in front. */
  lemma SplitSepCut(a: string, c: char, r: string, y: string)
    requires c !in a
    requires Split(r + [c] + y, c) == Split(r, c) + Split(y, c)
    ensures Split(a + [c] + r + [c] + y, c) == Split(a + [c] + r, c) + Split(y, c)
  {
    assert Split(a + [c] + r, c) == [a] + Split(r, c) by {
      SplitAfter(a, c, r);
    }
    assert Split(a + [c] + r + [c] + y, c) == [a] + Split(r + [c] + y, c) by {
      Regroup(a, c, r, y);
      SplitAfter(a, c, r + [c] + y);
    }
    ConcatAssoc([a], Split(r, c), Split(y, c));
  }

  lemma ConcatAssoc<T>(p: seq<T>, q: seq<T>, w: seq<T>)
    ensures p + (q + w) == p + q + w
  {
  }

  /** A string holding `c` is a `c`-free prefix, `c`, and the rest. */
  lemma CutAtFirst(x: string, c: char) returns (a: string, r: string)
    requires c in x
    ensures c !in a && x == a + [c] + r
  {
    var i := Find(x, c);
    a, r := x[..i], x[i + 1..];
    assert x == a + [c] + r;
  }

  lemma Regroup(a: string, c: char, r: string, y: string)
    ensures (a + [c] + r) + [c] + y == a + [c] + (r + [c] + y)
  {
  }

  /** Python's `s.lstrip(c)` for one character: every leading `c` removed. */
  function LStrip(s: string, c: char): (r: string)
    ensures |r| <= |s| && r == s[|s| - |r|..]
    ensures forall j :: 0 <= j < |s| - |r| ==> s[j] == c
    ensures r == [] || r[0] != c
  {
    if s != [] && s[0] == c then LStrip(s[1..], c) else s
  }

  /** One leading `c` before a text that does not start with `c` is all
      `lstrip` removes. */
  lemma LStripOne(c: char, s: string)
    requires s == [] || s[0] != c
    ensures LStrip([c] + s, c) == s
  {
    assert ([c] + s)[1..] == s;
  }

  /** A string whose lower-case form is `v` followed by no letter is `v` or
      `V` followed by that same text. */
  lemma LowerLeadingV(b: string, rest: string)
    requires Lower(b) == "v" + rest
    requires forall i :: 0 <= i < |rest| ==> !IsLowerLetter(rest[i])
    ensures |b| > 0 && (b[0] == 'v' || b[0] == 'V') && b[1..] == rest
  {
    var low := Lower(b);
    assert LowerChar(b[0]) == 'v';
    LowerCharInverse(b[0], 'v');
    forall i | 1 <= i < |b| ensures !IsLowerLetter(low[i]) {
      assert low[i] == rest[i - 1];
    }
    LowerKeepsNonLetters(b, 1);
    assert low[1..] == rest;
  }

  /** Leading and trailing whitespace removed. */
  function Trim(s: string): (r: string)
    ensures r == [] || (!IsSpace(r[0]) && !IsSpace(r[|r| - 1]))
    decreases |s|
  {
    if s != [] && IsSpace(s[0]) then Trim(s[1..])
    else if s != [] && IsSpace(s[|s| - 1]) then Trim(s[..|s| - 1])
    else s
  }

  /** `Trim(s)` is `s` with its leading and trailing whitespace removed and
      nothing else: a slice `s[i..i + |Trim(s)|]` with only whitespace before
      and after it. */
  lemma {:induction false} TrimStrips(s: string) returns (i: nat)
    ensures i + |Trim(s)| <= |s| && Trim(s) == s[i..i + |Trim(s)|]
    ensures forall k :: 0 <= k < i ==> IsSpace(s[k])
    ensures forall k :: i + |Trim(s)| <= k < |s| ==> IsSpace(s[k])
    decreases |s|
  {
    if s != [] && IsSpace(s[0]) {
      var j := TrimStrips(s[1..]);
      i := j + 1;
    } else if s != [] && IsSpace(s[|s| - 1]) {
      i := TrimStrips(s[..|s| - 1]);
    } else {
      i := 0;
    }
  }

  lemma TrimUnchanged(s: string)
    requires s == [] || (!IsSpace(s[0]) && !IsSpace(s[|s| - 1]))
    ensures Trim(s) == s
  {
  }

  /** A trailing line feed is trimmed away. */
  lemma TrimLineFeed(s: string)
    requires s != [] && !IsSpace(s[0]) && !IsSpace(s[|s| - 1])
    ensures Trim(s + "\n") == s
  {
    var t := s + "\n";
    assert t[..|t| - 1] == s;
  }

  /** Length of the longest prefix of `s` made of digits: what a greedy `\d+`
      consumes. */
  function DigitRun(s: string): (n: nat)
    ensures n <= |s|
    ensures AllDigits(s[..n])
    ensures n < |s| ==> !IsDigit(s[n])
  {
    if s != [] && IsDigit(s[0]) then 1 + DigitRun(s[1..]) else 0
  }

  /** Length of the longest prefix of `s` made of lower-case letters: what a
      greedy `[a-z]+` consumes. */
  function LetterRun(s: string): (n: nat)
    ensures n <= |s|
    ensures forall j :: 0 <= j < n ==> IsLowerLetter(s[j])
    ensures n < |s| ==> !IsLowerLetter(s[n])
  {
    if s != [] && IsLowerLetter(s[0]) then 1 + LetterRun(s[1..]) else 0
  }

  lemma {:induction false} DigitRunConcat(a: string, b: string)
    requires AllDigits(a)
    requires b == [] || !IsDigit(b[0])
    ensures DigitRun(a + b) == |a|
  {
    if a != [] {
      assert (a + b)[1..] == a[1..] + b;
      DigitRunConcat(a[1..], b);
    }
  }

  lemma {:induction false} LetterRunConcat(a: string, b: string)
    requires forall i :: 0 <= i < |a| ==> IsLowerLetter(a[i])
    requires b == [] || !IsLowerLetter(b[0])
    ensures LetterRun(a + b) == |a|
  {
    if a != [] {
      assert (a + b)[1..] == a[1..] + b;
      LetterRunConcat(a[1..], b);
    }
  }

  /** Python's `int()` on a string of ASCII digits. */
  function DigitsValue(s: string): nat
    requires AllDigits(s)
  {
    if s == [] then 0 else 10 * DigitsValue(s[..|s| - 1]) + (s[|s| - 1] as int - '0' as int)
  }

  /** The decimal numeral of `n`, without leading zeros. */
  function ShowNat(n: nat): (s: string)
    ensures IsNumeral(s)
  {
    var d := ['0' + (n % 10) as char];
    if n < 10 then d else ShowNat(n / 10) + d
  }

  /** `int()` inverts the decimal rendering. */
  lemma {:induction false} ShowNatValue(n: nat)
    ensures DigitsValue(ShowNat(n)) == n
  {
    var s := ShowNat(n);
    assert s[..|s| - 1] == if n < 10 then [] else ShowNat(n / 10);
    if n >= 10 { ShowNatValue(n / 10); }
  }
}
