/**
 Concrete version strings: what the parser accepts, what it reads from a
 string that carries more than a version, what it rejects, and how the
 resulting tuples compare.
 */
module VersionExamples {
  import opened Digits
  import opened Antlr3

  /** One concrete string: the groups it decomposes into, what follows
      them, and the tuple they denote give its parse. */
  lemma ParsesAs(s: string, g: Groups, u: string, t: VersionTuple)
    requires WellFormed(g) && Blocks(g, u) && s == Render(g) + u && TupleOf(g) == t
    ensures VersionStrToTuple(s) == Ok(t)
  {
    ParseDecomposed(g, u);
  }

  lemma HeadExample()
    ensures VersionStrToTuple("HEAD") == Ok(VersionTuple(MAX, MAX, MAX, MAX))
  {
  }

  lemma FullVersionExample()
    ensures VersionStrToTuple("3.1.2b4") == Ok(VersionTuple(3, 1, 2, 4))
  {
    ParsesAs("3.1.2b4", Groups("3", "1", Some("2"), Some("4")), [], VersionTuple(3, 1, 2, 4));
  }

  lemma ShortVersionExample()
    ensures VersionStrToTuple("3.1") == Ok(VersionTuple(3, 1, 0, MAX))
  {
    ParsesAs("3.1", Groups("3", "1", None, None), [], VersionTuple(3, 1, 0, MAX));
  }

  /** The patch group takes part and captures "0", which `int()` reads as 0. */
  lemma ZeroPatchExample()
    ensures ReMatch("1.0.0") == Some(MatchObject(Groups("1", "0", Some("0"), None), []))
    ensures VersionStrToTuple("1.0.0") == Ok(VersionTuple(1, 0, 0, MAX))
  {
    var g := Groups("1", "0", Some("0"), None);
    assert Render(g) + [] == "1.0.0";
    ReMatchComplete(g, []);
    ParsesAs("1.0.0", g, [], VersionTuple(1, 0, 0, MAX));
  }

  lemma LeadingZeroExample()
    ensures VersionStrToTuple("03.1") == Ok(VersionTuple(3, 1, 0, MAX))
  {
    LeadingZeroIgnored("3");
    assert "0" + "3" == "03";
    ParsesAs("03.1", Groups("03", "1", None, None), [], VersionTuple(3, 1, 0, MAX));
  }

  /** A fourth component is not part of the match and is ignored. */
  lemma FourComponentsExample()
    ensures VersionStrToTuple("1.2.3.4") == Ok(VersionTuple(1, 2, 3, MAX))
  {
    ParsesAs("1.2.3.4", Groups("1", "2", Some("3"), None), ".4", VersionTuple(1, 2, 3, MAX));
  }

  /** A 'b' without digits is not a beta group. */
  lemma BareBetaMarkerExample()
    ensures VersionStrToTuple("3.1b") == Ok(VersionTuple(3, 1, 0, MAX))
  {
    ParsesAs("3.1b", Groups("3", "1", None, None), "b", VersionTuple(3, 1, 0, MAX));
  }

  /** Text after the version is ignored. */
  lemma TrailingTextExample()
    ensures VersionStrToTuple("3.1xyz") == Ok(VersionTuple(3, 1, 0, MAX))
  {
    ParsesAs("3.1xyz", Groups("3", "1", None, None), "xyz", VersionTuple(3, 1, 0, MAX));
  }

  /** A '.' that is not followed by a digit does not open a patch group, and
      a beta cannot follow it. */
  lemma DotBetaExample()
    ensures VersionStrToTuple("3.1.b4") == Ok(VersionTuple(3, 1, 0, MAX))
  {
    ParsesAs("3.1.b4", Groups("3", "1", None, None), ".b4", VersionTuple(3, 1, 0, MAX));
  }

  /** Strings without a leading digit, "HEAD" in another case among them. */
  lemma NonNumericExamples()
    ensures VersionStrToTuple("") == FormatError("")
    ensures VersionStrToTuple("abc") == FormatError("abc")
    ensures VersionStrToTuple("garbage") == FormatError("garbage")
    ensures VersionStrToTuple("head") == FormatError("head")
    ensures VersionStrToTuple("HEADx") == FormatError("HEADx")
  {
    NonDigitStartFails("");
    NonDigitStartFails("abc");
    NonDigitStartFails("garbage");
    NonDigitStartFails("head");
    NonDigitStartFails("HEADx");
  }

  /** A major without a minor is rejected. */
  lemma MissingMinorExamples()
    ensures VersionStrToTuple("1") == FormatError("1")
    ensures VersionStrToTuple("1.x") == FormatError("1.x")
  {
    DigitSplitExact("1", []);
    assert "1" + [] == "1";
    DigitSplitExact("1", ".x");
    assert "1" + ".x" == "1.x";
    assert "1.x"[2..] == "x";
    assert DigitSplit("x") == ([], "x");
  }

  /** Two concrete strings, each given as in `ParsesAs`, parse in order. */
  lemma OrderedAs(s: string, g: Groups, u: string, s': string, g': Groups, u': string)
    requires WellFormed(g) && Blocks(g, u) && s == Render(g) + u
    requires WellFormed(g') && Blocks(g', u') && s' == Render(g') + u'
    requires Less(TupleOf(g), TupleOf(g'))
    ensures var r, r' := VersionStrToTuple(s), VersionStrToTuple(s');
      r.Ok? && r'.Ok? && Less(r.value, r'.value)
  {
    ParseDecomposed(g, u);
    ParseDecomposed(g', u');
  }

  /** A beta orders below its release. */
  lemma BetaOrderExample()
    ensures var pre, rel := VersionStrToTuple("3.1.2b4"), VersionStrToTuple("3.1.2");
      pre.Ok? && rel.Ok? && Less(pre.value, rel.value)
  {
    OrderedAs("3.1.2b4", Groups("3", "1", Some("2"), Some("4")), [],
              "3.1.2", Groups("3", "1", Some("2"), None), []);
  }

  /** Versions compare by major first. */
  lemma MajorOrderExample()
    ensures var older, newer := VersionStrToTuple("2.9.9"), VersionStrToTuple("3.0.0");
      older.Ok? && newer.Ok? && Less(older.value, newer.value)
  {
    OrderedAs("2.9.9", Groups("2", "9", Some("9"), None), [],
              "3.0.0", Groups("3", "0", Some("0"), None), []);
  }
}
