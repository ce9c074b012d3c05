/**
 The version-string parser of the ANTLR 3 Python runtime package: a version
 identifier such as "3.1.2b4", or the sentinel "HEAD", becomes the 4-tuple
 (major, minor, patch, beta) that generated recognizers and the runtime
 compare, lexicographically, to detect version skew.

 The source matches the regular expression `(\d+)\.(\d+)(\.(\d+))?(b(\d+))?`
 with `re.match`, which anchors the match at the start of the string but not
 at its end. This module replaces the regular-expression engine by a scanner
 for that one pattern, and characterises the scanner's result independently
 of how it is computed: as the unique split of the input into the text of a
 match and a remainder that cannot extend it (`ReMatchCharacterized`), and
 as the longest prefix the pattern can match (`ReMatchIsLongest`).
 */
module Antlr3 {
  import opened Digits

  datatype Option<T> = None | Some(value: T)

  /** Python 2's `sys.maxint` on a 64-bit build. Of the general lemmas only
      `ShortRunFits` depends on its value, and only on its exceeding 10^18. */
  const MAX: nat := 0x7FFF_FFFF_FFFF_FFFF

  /** The comparable form of a version: (major, minor, patch, beta). */
  datatype VersionTuple = VersionTuple(major: nat, minor: nat, patch: nat, beta: nat)

  /** What "HEAD" stands for: every component at the maximum. */
  const HeadTuple: VersionTuple := VersionTuple(MAX, MAX, MAX, MAX)

  /** The outcome of a parse: the tuple, or the `ValueError` the source raises,
      which carries the rejected input ("Bad version string %r"). */
  datatype ParseResult = Ok(value: VersionTuple) | FormatError(input: string)

  // ---------------------------------------------------------------------------
  // The pattern (\d+)\.(\d+)(\.(\d+))?(b(\d+))? and its matches
  // ---------------------------------------------------------------------------

  /** The capture groups a match of the pattern reports: group 1 (major),
      group 2 (minor), group 4 (patch, when its optional group took part) and
      group 6 (beta, likewise). */
  datatype Groups = Groups(major: string, minor: string, patch: Option<string>, beta: Option<string>)

  /** A successful `re.match`: its groups, and the part of the subject after
      the end of the match, which `re.match` leaves unexamined. */
  datatype MatchObject = MatchObject(groups: Groups, rest: string)

  /** Every group that took part is a non-empty run of digits, as `\d+` demands. */
  predicate WellFormed(g: Groups) {
    && IsDigitRun(g.major)
    && IsDigitRun(g.minor)
    && (g.patch.Some? ==> IsDigitRun(g.patch.value))
    && (g.beta.Some? ==> IsDigitRun(g.beta.value))
  }

  /** The text an optional group `(marker(\d+))?` consumed. */
  function OptionalText(marker: char, digits: Option<string>): string {
    if digits.Some? then [marker] + digits.value else ""
  }

  /** The text a match with groups `g` consumed. */
  function Render(g: Groups): string {
    g.major + "." + g.minor + OptionalText('.', g.patch) + OptionalText('b', g.beta)
  }

  /** `u` begins with the marker of an optional group and one digit, so the
      group `(marker(\d+))?` can match there. */
  predicate OpensGroup(marker: char, u: string) {
    |u| >= 2 && u[0] == marker && IsDigit(u[1])
  }

  /** The remainder `u` after the text of `g` cannot make the match longer:
      the last digit run is not followed by a digit, and every optional group
      that was skipped could not have matched where it was tried. */
  predicate Blocks(g: Groups, u: string) {
    && (u == [] || !IsDigit(u[0]))
    && (g.patch.None? && g.beta.None? ==> !OpensGroup('.', u))
    && (g.beta.None? ==> !OpensGroup('b', u))
  }

  /** `s` starts with the text of `g`, and what follows cannot extend it. */
  predicate GreedyMatch(s: string, g: Groups) {
    var n := |Render(g)|;
    WellFormed(g) && n <= |s| && s[..n] == Render(g) && Blocks(g, s[n..])
  }

  /** `s[..i]` is digits, `s[i]` is '.', and `s[i + 1..j]` is digits again: the
      mandatory part `(\d+)\.(\d+)` of the pattern can match `s[..j]`. */
  predicate CoreAt(s: string, i: nat, j: nat) {
    0 < i && i + 1 < j <= |s| && s[i] == '.' && (forall k :: 0 <= k < j && k != i ==> IsDigit(s[k]))
  }

  predicate StartsWithCore(s: string) {
    exists i: nat, j: nat | i < j <= |s| :: CoreAt(s, i, j)
  }

  // ---------------------------------------------------------------------------
  // The scanner
  // ---------------------------------------------------------------------------

  /** Tries the optional group `(marker(\d+))?` at the start of `s`: the digits
      it captured, if it took part, and what is left of `s`. */
  function OptionalGroup(s: string, marker: char): (r: (Option<string>, string))
    ensures OptionalText(marker, r.0) + r.1 == s
    ensures r.0.Some? ==> IsDigitRun(r.0.value) && (r.1 == [] || !IsDigit(r.1[0]))
    ensures r.0.None? ==> !OpensGroup(marker, s)
  {
    if OpensGroup(marker, s) then
      var digits := DigitSplit(s[1..]);
      assert s[1..][0] == s[1];
      assert [marker] + digits.0 + digits.1 == [s[0]] + s[1..];
      (Some(digits.0), digits.1)
    else
      (None, s)
  }

  /** `re.match` of the pattern against `s`. Each digit run is taken greedily
      and each optional group is taken whenever it can match. */
  function ReMatch(s: string): Option<MatchObject> {
    var major := DigitSplit(s);
    if major.0 == [] || major.1 == [] || major.1[0] != '.' then None
    else
      var minor := DigitSplit(major.1[1..]);
      if minor.0 == [] then None
      else
        var patch := OptionalGroup(minor.1, '.');
        var beta := OptionalGroup(patch.1, 'b');
        Some(MatchObject(Groups(major.0, minor.0, patch.0, beta.0), beta.1))
  }

  /** The text of a match followed by `u`, associated to the right. */
  lemma RenderAppend(g: Groups, u: string)
    ensures Render(g) + u
      == g.major + ("." + (g.minor + (OptionalText('.', g.patch) + (OptionalText('b', g.beta) + u))))
  {
  }

  /** What the scanner reports always splits `s` into the text of a
      well-formed match and a remainder that cannot extend it. */
  lemma ReMatchSound(s: string)
    ensures ReMatch(s).Some? ==> var m := ReMatch(s).value;
      WellFormed(m.groups) && Blocks(m.groups, m.rest) && s == Render(m.groups) + m.rest
  {
    if ReMatch(s).Some? {
      var major := DigitSplit(s);
      var minor := DigitSplit(major.1[1..]);
      var patch := OptionalGroup(minor.1, '.');
      var beta := OptionalGroup(patch.1, 'b');
      var g := Groups(major.0, minor.0, patch.0, beta.0);
      assert ReMatch(s) == Some(MatchObject(g, beta.1));
      assert major.1 == "." + major.1[1..];
      RenderAppend(g, beta.1);
      assert patch.0.None? ==> patch.1 == minor.1;
      assert beta.0.None? ==> beta.1 == patch.1;
    }
  }

  /** The optional-group scanner finds the group written in front of `rest`
      when `rest` cannot extend it. */
  lemma OptionalGroupFinds(marker: char, digits: Option<string>, rest: string)
    requires digits.Some? ==> IsDigitRun(digits.value) && (rest == [] || !IsDigit(rest[0]))
    requires digits.None? ==> !OpensGroup(marker, rest)
    ensures OptionalGroup(OptionalText(marker, digits) + rest, marker) == (digits, rest)
  {
    if digits.Some? {
      var d := digits.value;
      var s := [marker] + d + rest;
      assert s[0] == marker && s[1] == d[0];
      assert s[1..] == d + rest;
      DigitSplitExact(d, rest);
    } else {
      assert OptionalText(marker, digits) + rest == rest;
    }
  }

  /** Whenever `s` is the text of a well-formed match followed by a remainder
      that cannot extend it, the scanner reports exactly that match. */
  lemma ReMatchComplete(g: Groups, u: string)
    requires WellFormed(g) && Blocks(g, u)
    ensures ReMatch(Render(g) + u) == Some(MatchObject(g, u))
  {
    var o2u := OptionalText('b', g.beta) + u;
    var rest := OptionalText('.', g.patch) + o2u;
    var afterDot := g.minor + rest;
    RenderAppend(g, u);
    assert ("." + afterDot)[0] == '.' && ("." + afterDot)[1..] == afterDot;
    DigitSplitExact(g.major, "." + afterDot);
    assert o2u == [] || !IsDigit(o2u[0]) by {
      if g.beta.Some? { assert o2u[0] == 'b'; } else { assert o2u == u; }
    }
    assert g.patch.None? ==> !OpensGroup('.', o2u) by {
      if g.beta.Some? { assert o2u[0] == 'b'; } else { assert o2u == u; }
    }
    assert rest == [] || !IsDigit(rest[0]) by {
      if g.patch.Some? { assert rest[0] == '.'; } else { assert rest == o2u; }
    }
    DigitSplitExact(g.minor, rest);
    OptionalGroupFinds('.', g.patch, o2u);
    OptionalGroupFinds('b', g.beta, u);
  }

  /** The scanner's answer is exactly the greedy match: it reports the groups
      `g` and the remainder `u` if and only if `s` is the text of the
      well-formed match `g` followed by a `u` that cannot extend it. In
      particular `s` splits in at most one such way. */
  lemma ReMatchCharacterized(s: string, g: Groups, u: string)
    ensures ReMatch(s) == Some(MatchObject(g, u)) <==> (WellFormed(g) && Blocks(g, u) && s == Render(g) + u)
  {
    if WellFormed(g) && Blocks(g, u) && s == Render(g) + u {
      ReMatchComplete(g, u);
    }
    ReMatchSound(s);
  }

  /** The same characterisation, on the groups alone. */
  lemma GreedyMatchCharacterized(s: string, g: Groups)
    ensures (ReMatch(s).Some? && ReMatch(s).value.groups == g) <==> GreedyMatch(s, g)
  {
    var n := |Render(g)|;
    if GreedyMatch(s, g) {
      assert s == Render(g) + s[n..];
      ReMatchComplete(g, s[n..]);
    }
    if ReMatch(s).Some? && ReMatch(s).value.groups == g {
      ReMatchSound(s);
      var u := ReMatch(s).value.rest;
      assert s[..n] == Render(g) && s[n..] == u;
    }
  }

  /** The scanner fails exactly when `s` does not start with digits, '.',
      digits: no later part of the pattern can make a match fail. */
  lemma ReMatchFails(s: string)
    ensures ReMatch(s).None? <==> !StartsWithCore(s)
  {
    if i: nat, j: nat :| i < j <= |s| && CoreAt(s, i, j) {
      CoreMatches(s, i, j);
    }
    if ReMatch(s).Some? {
      MatchHasCore(s);
    }
  }

  /** Digits, '.', digits at the start of `s` are enough for a match. */
  lemma CoreMatches(s: string, i: nat, j: nat)
    requires CoreAt(s, i, j)
    ensures ReMatch(s).Some?
  {
    assert s == s[..i] + s[i..];
    assert AllDigits(s[..i]);
    assert s[i..][0] == '.' && s[i..][1..] == s[i + 1..];
    DigitSplitExact(s[..i], s[i..]);
    assert s[i + 1..][0] == s[i + 1];
  }

  /** A match starts with digits, '.', digits. */
  lemma MatchHasCore(s: string)
    requires ReMatch(s).Some?
    ensures StartsWithCore(s)
  {
    ReMatchSound(s);
    var m := ReMatch(s).value;
    var g := m.groups;
    RenderAppend(g, m.rest);
    var tail := OptionalText('.', g.patch) + (OptionalText('b', g.beta) + m.rest);
    assert s == g.major + ("." + (g.minor + tail));
    CoreOfConcat(g.major, g.minor, tail);
  }

  /** Two digit runs around a '.' form a core, whatever follows them. */
  lemma CoreOfConcat(major: string, minor: string, tail: string)
    requires IsDigitRun(major) && IsDigitRun(minor)
    ensures CoreAt(major + ("." + (minor + tail)), |major|, |major| + 1 + |minor|)
  {
    var s := major + ("." + (minor + tail));
    var a := |major|;
    forall k | 0 <= k < a + 1 + |minor| && k != a ensures IsDigit(s[k]) {
      if k < a { assert s[k] == major[k]; } else { assert s[k] == minor[k - a - 1]; }
    }
  }

  /** The optional-group scanner takes at least as much as any way the group
      can match in front of `rest`; taking exactly as much means the same
      digits, and taking more means that way stopped in front of a digit or
      skipped a group that could match. */
  lemma OptionalGroupDominates(marker: char, d': Option<string>, rest: string)
    requires d'.Some? ==> IsDigitRun(d'.value)
    ensures var r := OptionalGroup(OptionalText(marker, d') + rest, marker);
      var n := |OptionalText(marker, d')|;
      && n <= |OptionalText(marker, r.0)|
      && (n == |OptionalText(marker, r.0)| ==> r == (d', rest))
      && (n < |OptionalText(marker, r.0)| ==>
            rest != [] && ((d'.Some? && IsDigit(rest[0])) || (d'.None? && rest[0] == marker)))
  {
    var s := OptionalText(marker, d') + rest;
    if d'.Some? {
      var d := d'.value;
      assert s[0] == marker && s[1] == d[0];
      assert s[1..] == d + rest;
      DigitSplitAppend(d, rest);
      var more := DigitSplit(rest);
      if more.0 != [] {
        assert rest[0] == more.0[0];
      } else {
        assert d + more.0 == d;
        assert more.1 == rest;
      }
    } else {
      assert s == rest;
    }
  }

  /** The match `re.match` reports is the longest prefix of `s` that the
      pattern matches at all, and no other match is that long. */
  lemma ReMatchIsLongest(g': Groups, v: string)
    requires WellFormed(g')
    ensures var r := ReMatch(Render(g') + v);
      && r.Some?
      && |Render(g')| <= |Render(r.value.groups)|
      && (|Render(g')| == |Render(r.value.groups)| ==> r.value == MatchObject(g', v))
  {
    var o2v := OptionalText('b', g'.beta) + v;
    var rest := OptionalText('.', g'.patch) + o2v;
    var more := DigitSplit(rest);
    ScanAfterMinor(g', v);
    assert g'.patch.Some? ==> rest[0] == '.';
    assert g'.patch.None? ==> rest == o2v;
    assert g'.beta.Some? ==> o2v[0] == 'b';
    assert more.0 != [] ==> rest[0] == more.0[0];
    if more.0 == [] {
      assert g'.minor + more.0 == g'.minor && more.1 == rest;
      TailDominates(g'.patch, g'.beta, v);
    }
  }

  /** On the text of a match followed by `v`, the scanner takes the same
      major group, extends the minor group by any digits that follow it, and
      scans the optional groups from there. */
  lemma ScanAfterMinor(g': Groups, v: string)
    requires WellFormed(g')
    ensures var rest := OptionalText('.', g'.patch) + (OptionalText('b', g'.beta) + v);
      var more := DigitSplit(rest);
      var patch := OptionalGroup(more.1, '.');
      var beta := OptionalGroup(patch.1, 'b');
      ReMatch(Render(g') + v)
        == Some(MatchObject(Groups(g'.major, g'.minor + more.0, patch.0, beta.0), beta.1))
  {
    var rest := OptionalText('.', g'.patch) + (OptionalText('b', g'.beta) + v);
    var afterDot := g'.minor + rest;
    RenderAppend(g', v);
    assert ("." + afterDot)[0] == '.' && ("." + afterDot)[1..] == afterDot;
    DigitSplitExact(g'.major, "." + afterDot);
    DigitSplitAppend(g'.minor, rest);
  }

  /** After the minor group, the two optional groups taken by the scanner
      cover at least as much as the optional groups of any other match, and
      covering as much means the same groups. */
  lemma TailDominates(patch': Option<string>, beta': Option<string>, v: string)
    requires patch'.Some? ==> IsDigitRun(patch'.value)
    requires beta'.Some? ==> IsDigitRun(beta'.value)
    ensures var o2v := OptionalText('b', beta') + v;
      var patch := OptionalGroup(OptionalText('.', patch') + o2v, '.');
      var beta := OptionalGroup(patch.1, 'b');
      var n' := |OptionalText('.', patch')| + |OptionalText('b', beta')|;
      var n := |OptionalText('.', patch.0)| + |OptionalText('b', beta.0)|;
      && n' <= n
      && (n' == n ==> patch.0 == patch' && beta.0 == beta' && beta.1 == v)
  {
    var o2v := OptionalText('b', beta') + v;
    OptionalGroupDominates('.', patch', o2v);
    var patch := OptionalGroup(OptionalText('.', patch') + o2v, '.');
    assert beta'.Some? ==> o2v[0] == 'b';
    if |OptionalText('.', patch')| == |OptionalText('.', patch.0)| {
      OptionalGroupDominates('b', beta', v);
    }
  }

  // ---------------------------------------------------------------------------
  // version_str_to_tuple
  // ---------------------------------------------------------------------------

  /** The tuple a match denotes: `int` of each group, with patch defaulting
      to 0 and beta to `MAX` when their optional groups did not take part. */
  function TupleOf(g: Groups): VersionTuple
    requires WellFormed(g)
  {
    VersionTuple(
      DecimalValue(g.major),
      DecimalValue(g.minor),
      if g.patch.Some? then DecimalValue(g.patch.value) else 0,
      if g.beta.Some? then DecimalValue(g.beta.value) else MAX)
  }

  /** `version_str_to_tuple`: "HEAD" is the all-maximal tuple; any other
      string is matched by the pattern and fails, carrying the input, exactly
      when it does not start with digits, '.', digits. */
  function VersionStrToTuple(s: string): (r: ParseResult)
    ensures r.FormatError? ==> r.input == s
  {
    if s == "HEAD" then Ok(HeadTuple)
    else
      match ReMatch(s)
      case None => FormatError(s)
      case Some(m) => Ok(TupleOf(m.groups))
  }

  /** The parse fails exactly when the string is neither "HEAD" nor starts
      with `\d+\.\d+`, and the error carries the string. */
  lemma ParseFailsExactly(s: string)
    ensures VersionStrToTuple(s).FormatError? <==> s != "HEAD" && !StartsWithCore(s)
    ensures VersionStrToTuple(s).FormatError? ==> VersionStrToTuple(s).input == s
  {
    ReMatchFails(s);
  }

  /** Outside "HEAD", a string that does not begin with a digit is rejected. */
  lemma NonDigitStartFails(s: string)
    requires s != "HEAD" && (s == [] || !IsDigit(s[0]))
    ensures VersionStrToTuple(s) == FormatError(s)
  {
    forall i: nat, j: nat | i < j <= |s| ensures !CoreAt(s, i, j) {
      assert 0 < j;
    }
    ParseFailsExactly(s);
  }

  /** The text of a well-formed match followed by anything that cannot extend
      it parses to the tuple the match denotes. */
  lemma ParseDecomposed(g: Groups, u: string)
    requires WellFormed(g) && Blocks(g, u)
    ensures VersionStrToTuple(Render(g) + u) == Ok(TupleOf(g))
  {
    ReMatchComplete(g, u);
    RenderAppend(g, u);
    assert (Render(g) + u)[0] == g.major[0];
  }

  /** Every successful parse of a string other than "HEAD" comes from the
      greedy match of that string, with the defaults for absent groups. */
  lemma ParseSound(s: string)
    requires s != "HEAD" && VersionStrToTuple(s).Ok?
    ensures exists g :: GreedyMatch(s, g) && VersionStrToTuple(s).value == TupleOf(g)
  {
    var g := ReMatch(s).value.groups;
    GreedyMatchCharacterized(s, g);
  }

  /** Major and minor are the values of the maximal digit runs before and
      after the first '.', leading zeros and all, whatever follows them. */
  lemma ParseMajorMinor(major: string, minor: string, u: string)
    requires IsDigitRun(major) && IsDigitRun(minor) && (u == [] || !IsDigit(u[0]))
    ensures VersionStrToTuple(major + "." + minor + u).Ok?
    ensures VersionStrToTuple(major + "." + minor + u).value.major == DecimalValue(major)
    ensures VersionStrToTuple(major + "." + minor + u).value.minor == DecimalValue(minor)
  {
    var s := major + "." + minor + u;
    MatchMajorMinor(major, minor, u);
    assert s != "HEAD" by { assert s[0] == major[0]; }
  }

  /** The scanner's major and minor groups are the two leading digit runs. */
  lemma MatchMajorMinor(major: string, minor: string, u: string)
    requires IsDigitRun(major) && IsDigitRun(minor) && (u == [] || !IsDigit(u[0]))
    ensures var r := ReMatch(major + "." + minor + u);
      r.Some? && r.value.groups.major == major && r.value.groups.minor == minor
  {
    var t := "." + minor + u;
    assert major + "." + minor + u == major + t;
    DigitSplitExact(major, t);
    assert t[1..] == minor + u;
    DigitSplitExact(minor, u);
  }

  /** Parsing depends only on the matched prefix: appending a suffix that
      cannot extend the match leaves the result unchanged. */
  lemma SuffixIgnored(g: Groups, u: string)
    requires WellFormed(g) && Blocks(g, u)
    ensures VersionStrToTuple(Render(g) + u) == VersionStrToTuple(Render(g))
  {
    ParseDecomposed(g, u);
    ParseDecomposed(g, []);
    assert Render(g) + [] == Render(g);
  }

  // ---------------------------------------------------------------------------
  // Version strings written from numbers
  // ---------------------------------------------------------------------------

  function OptionalDigits(n: Option<nat>): Option<string> {
    if n.Some? then Some(NatToDigits(n.value)) else None
  }

  /** The version string "M.N", "M.N.P", "M.NbK" or "M.N.PbK" for the given
      numbers, each written as `str()` writes it. */
  function VersionString(major: nat, minor: nat, patch: Option<nat>, beta: Option<nat>): string {
    Render(Groups(NatToDigits(major), NatToDigits(minor), OptionalDigits(patch), OptionalDigits(beta)))
  }

  /** Each of the four forms parses to its numbers, patch defaulting to 0
      and beta to `MAX`. */
  lemma ParseVersionString(major: nat, minor: nat, patch: Option<nat>, beta: Option<nat>)
    ensures VersionStrToTuple(VersionString(major, minor, patch, beta))
      == Ok(VersionTuple(major, minor,
                         if patch.Some? then patch.value else 0,
                         if beta.Some? then beta.value else MAX))
  {
    var g := Groups(NatToDigits(major), NatToDigits(minor), OptionalDigits(patch), OptionalDigits(beta));
    ParseDecomposed(g, []);
    assert Render(g) + [] == Render(g);
    DecimalValueOfNatToDigits(major);
    DecimalValueOfNatToDigits(minor);
    if patch.Some? { DecimalValueOfNatToDigits(patch.value); }
    if beta.Some? { DecimalValueOfNatToDigits(beta.value); }
  }

  /** A tuple written back as a version string: the beta suffix is left out
      exactly when beta is `MAX`. */
  function FormatTuple(t: VersionTuple): string {
    VersionString(t.major, t.minor, Some(t.patch), if t.beta == MAX then None else Some(t.beta))
  }

  /** Parsing undoes `FormatTuple` on every tuple. */
  lemma ParseFormatTuple(t: VersionTuple)
    ensures VersionStrToTuple(FormatTuple(t)) == Ok(t)
  {
    ParseVersionString(t.major, t.minor, Some(t.patch), if t.beta == MAX then None else Some(t.beta));
  }

  // ---------------------------------------------------------------------------
  // Ordering
  // ---------------------------------------------------------------------------

  /** Python's `<` on the tuple: major, then minor, then patch, then beta. */
  predicate Less(x: VersionTuple, y: VersionTuple) {
    || x.major < y.major
    || (x.major == y.major && x.minor < y.minor)
    || (x.major == y.major && x.minor == y.minor && x.patch < y.patch)
    || (x.major == y.major && x.minor == y.minor && x.patch == y.patch && x.beta < y.beta)
  }

  /** Python's `<=` on the tuple. */
  predicate LessEq(x: VersionTuple, y: VersionTuple) {
    x == y || Less(x, y)
  }

  function Components(t: VersionTuple): seq<nat> {
    [t.major, t.minor, t.patch, t.beta]
  }

  /** Python's comparison of two sequences: the first position where they
      differ decides, and a proper prefix is smaller. */
  predicate SeqLess(a: seq<nat>, b: seq<nat>) {
    if a == [] then b != []
    else if b == [] then false
    else if a[0] != b[0] then a[0] < b[0]
    else SeqLess(a[1..], b[1..])
  }

  /** `Less` is Python's element-by-element comparison of the 4-tuples. */
  lemma LessIsTupleComparison(x: VersionTuple, y: VersionTuple)
    ensures Less(x, y) <==> SeqLess(Components(x), Components(y))
  {
    var a, b := Components(x), Components(y);
    assert a[1..] == [x.minor, x.patch, x.beta] && b[1..] == [y.minor, y.patch, y.beta];
    assert a[1..][1..] == [x.patch, x.beta] && b[1..][1..] == [y.patch, y.beta];
    assert a[1..][1..][1..] == [x.beta] && b[1..][1..][1..] == [y.beta];
    assert a[1..][1..][1..][1..] == [] && b[1..][1..][1..][1..] == [];
    assert SeqLess([x.beta], [y.beta]) <==> x.beta < y.beta;
    assert SeqLess([x.patch, x.beta], [y.patch, y.beta])
      <==> x.patch < y.patch || (x.patch == y.patch && x.beta < y.beta);
    assert SeqLess([x.minor, x.patch, x.beta], [y.minor, y.patch, y.beta])
      <==> x.minor < y.minor || (x.minor == y.minor && (x.patch < y.patch || (x.patch == y.patch && x.beta < y.beta)));
  }

  /** `Less` is a strict total order. */
  lemma LessIsStrictTotalOrder(x: VersionTuple, y: VersionTuple, z: VersionTuple)
    ensures !Less(x, x)
    ensures Less(x, y) && Less(y, z) ==> Less(x, z)
    ensures Less(x, y) || x == y || Less(y, x)
  {
  }

  /** A numbered beta orders strictly below the release with the same major,
      minor and patch and no beta suffix. */
  lemma BetaBelowRelease(major: nat, minor: nat, patch: Option<nat>, beta: nat)
    requires beta < MAX
    ensures var pre := VersionStrToTuple(VersionString(major, minor, patch, Some(beta)));
      var rel := VersionStrToTuple(VersionString(major, minor, patch, None));
      pre.Ok? && rel.Ok? && Less(pre.value, rel.value)
  {
    ParseVersionString(major, minor, patch, Some(beta));
    ParseVersionString(major, minor, patch, None);
  }

  predicate Bounded(t: VersionTuple) {
    t.major <= MAX && t.minor <= MAX && t.patch <= MAX && t.beta <= MAX
  }

  /** The "HEAD" tuple is at least every tuple whose components are at most
      `MAX`, and above every other such tuple. */
  lemma HeadIsGreatest(t: VersionTuple)
    requires Bounded(t)
    ensures LessEq(t, HeadTuple)
    ensures t != HeadTuple ==> Less(t, HeadTuple)
  {
  }

  // ---------------------------------------------------------------------------
  // The package's own version
  // ---------------------------------------------------------------------------

  /** `__version__`. */
  const PackageVersion: string := "HEAD"

  /** `runtime_version_str`. */
  const RuntimeVersionStr: string := PackageVersion

  /** `runtime_version`: the package's own version string, parsed once. */
  const RuntimeVersion: VersionTuple := VersionStrToTuple(RuntimeVersionStr).value

  lemma RuntimeVersionIsHead()
    ensures VersionStrToTuple(RuntimeVersionStr) == Ok(HeadTuple)
    ensures RuntimeVersion == HeadTuple
  {
  }

  /** No parsed version with every component at most `MAX` is newer than
      the runtime, and only the all-maximal tuple is as new. */
  lemma RuntimeVersionIsNewest(s: string)
    requires VersionStrToTuple(s).Ok? && Bounded(VersionStrToTuple(s).value)
    ensures LessEq(VersionStrToTuple(s).value, RuntimeVersion)
    ensures VersionStrToTuple(s).value != HeadTuple ==> Less(VersionStrToTuple(s).value, RuntimeVersion)
  {
    HeadIsGreatest(VersionStrToTuple(s).value);
  }

  /** A digit run of at most 18 digits is below 10^18, so `int()` reads it
      as a plain int, without promotion to a long. */
  lemma ShortRunFits(s: string)
    requires AllDigits(s) && |s| <= 18
    ensures DecimalValue(s) < MAX
  {
    Pow10Monotone(|s|, 18);
    assert Pow10(3) == 1000;
    Pow10Add(3, 3);
    Pow10Add(6, 6);
    Pow10Add(12, 6);
  }

  /** A version whose digit runs have at most 18 digits each parses to a
      tuple strictly older than the runtime's. */
  lemma ShortVersionOlderThanRuntime(g: Groups, u: string)
    requires WellFormed(g) && Blocks(g, u)
    requires |g.major| <= 18 && |g.minor| <= 18
    requires g.patch.Some? ==> |g.patch.value| <= 18
    requires g.beta.Some? ==> |g.beta.value| <= 18
    ensures VersionStrToTuple(Render(g) + u).Ok?
    ensures Less(VersionStrToTuple(Render(g) + u).value, RuntimeVersion)
  {
    ParseDecomposed(g, u);
    ShortRunFits(g.major);
    ShortRunFits(g.minor);
    if g.patch.Some? { ShortRunFits(g.patch.value); }
    if g.beta.Some? { ShortRunFits(g.beta.value); }
    HeadIsGreatest(TupleOf(g));
  }

  /** Python 2 turns a digit run above `sys.maxint` into a long, so every
      version whose major exceeds `MAX` parses, keeps that major, and is
      newer than "HEAD". */
  lemma LongVersionNewerThanRuntime(major: nat, minor: nat, patch: Option<nat>, beta: Option<nat>)
    requires major > MAX
    ensures var r := VersionStrToTuple(VersionString(major, minor, patch, beta));
      r.Ok? && r.value.major == major && Less(RuntimeVersion, r.value)
  {
    ParseVersionString(major, minor, patch, beta);
  }
}
