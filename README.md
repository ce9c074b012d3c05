# ANTLR 3 Python runtime: version strings

This project models how the ANTLR 3 Python runtime package reads version
identifiers. `version_str_to_tuple` turns a string such as `"3.1.2b4"` into
the 4-tuple `(major, minor, patch, beta)`. Python compares such tuples
lexicographically, and generated recognizers compare them against the
runtime's own version to detect version skew. The sentinel `"HEAD"` stands
for an unreleased build and becomes the all-`sys.maxint` tuple. The package's
own version string `__version__` is `"HEAD"`. A module-level constant holds
its parsed form, `runtime_version`.

The project has three files:

- `digits.dfy` (module `Digits`): decimal digit runs, `int()` on a digit run,
  and the text `str()` writes for a number.
- `version.dfy` (module `Antlr3`): the pattern `(\d+)\.(\d+)(\.(\d+))?(b(\d+))?`,
  a scanner that does what `re.match` does with it, the parse itself, tuple
  order, and the package constants.
- `examples.dfy` (module `VersionExamples`): concrete strings and the tuples
  or errors they give.

The regular-expression engine is replaced by a scanner, `Antlr3.ReMatch`.
Two lemmas pin the scanner down independently of its code:

- `ReMatchCharacterized` proves that the scanner reports groups `g` and
  remainder `u` exactly when the input is the text of `g` followed by a
  `u` that cannot extend the match.
- `ReMatchIsLongest` proves that this is the longest way the pattern can
  match a prefix of the input.

`re.match` anchors the pattern at the start of the string only, so it is a
prefix match: the parse ignores whatever follows the longest matching prefix.
`"1.2.3.4"` is accepted and gives `(1, 2, 3, maxint)`, and `"3.1xyz"` gives
`(3, 1, 0, maxint)`. `Antlr3.SuffixIgnored` and
`VersionExamples.FourComponentsExample` state this behaviour.

## Model

| member | source | states |
|---|---|---|
| Digits.DecimalValue | runtime/Python/antlr3/__init__.py:154-157 | `int()` of a digit run is a natural number below 10 to the power of the run's length (used by `ShortRunFits`) |
| Digits.NatToDigits | runtime/Python/antlr3/__init__.py:154-157 | an inverse of the `int()` calls on these lines: a non-empty digit run with no leading zero unless it is "0", which lets `ParseVersionString` and `ParseFormatTuple` quantify over numbers |
| Digits.DecimalValueOfNatToDigits | runtime/Python/antlr3/__init__.py:154-157 | reading back a number's decimal text gives the number |
| Digits.LeadingZeroIgnored | runtime/Python/antlr3/__init__.py:154-155 | a leading '0' does not change the value `int()` reads |
| Digits.DigitSplit | runtime/Python/antlr3/__init__.py:150 | a greedy `\d+` splits the input into a digit prefix and a rest that does not start with a digit, and the two parts concatenate to the input |
| Digits.DigitSplitAppend | runtime/Python/antlr3/__init__.py:150 | digits in front of a string join the run the greedy split takes, and the rest is unchanged |
| Digits.DigitSplitExact | runtime/Python/antlr3/__init__.py:150 | a digit run followed by a non-digit or by nothing is split off exactly |
| Antlr3.MAX | runtime/Python/antlr3/__init__.py:147-157 | `sys.maxint`, fixed at 2^63 - 1; its uses are stated by `HeadIsGreatest` and `ShortRunFits` |
| Antlr3.HeadTuple | runtime/Python/antlr3/__init__.py:147-148 | the tuple returned for "HEAD"; `HeadIsGreatest` states that it bounds every tuple with components at most maxint |
| Antlr3.ReMatch | runtime/Python/antlr3/__init__.py:150-152 | the scanner standing for `re.match` with the pattern; its contract is stated by `ReMatchCharacterized`, `ReMatchIsLongest` and `ReMatchFails` |
| Antlr3.TupleOf | runtime/Python/antlr3/__init__.py:154-159 | the `int()` of each group with the `or 0` and `or sys.maxint` defaults; its contract is stated by `ParseDecomposed` and `ParseVersionString` |
| Antlr3.Less | runtime/Python/antlr3/__init__.py:159 | Python's `<` on the returned tuples; its contract is stated by `LessIsTupleComparison` and `LessIsStrictTotalOrder` |
| Antlr3.LessEq | runtime/Python/antlr3/__init__.py:159 | Python's `<=` on the returned tuples, used by `HeadIsGreatest` and `RuntimeVersionIsNewest` |
| Antlr3.PackageVersion | runtime/Python/antlr3/__init__.py:141 | `__version__`, the string "HEAD"; stated by `RuntimeVersionIsHead` |
| Antlr3.RuntimeVersionStr | runtime/Python/antlr3/__init__.py:162 | `runtime_version_str`, equal to `__version__`; stated by `RuntimeVersionIsHead` |
| Antlr3.RuntimeVersion | runtime/Python/antlr3/__init__.py:163 | `runtime_version`, the parse of `runtime_version_str`; `RuntimeVersionIsHead` and `RuntimeVersionIsNewest` state its value and that it is newest |
| Antlr3.OptionalGroup | runtime/Python/antlr3/__init__.py:150 | an optional group `(x(\d+))?` consumes a marker and a maximal digit run, or nothing when it cannot match, and what it consumes plus the rest is the input |
| Antlr3.ReMatchSound | runtime/Python/antlr3/__init__.py:150 | every match splits the input into the text of well-formed groups and a rest that cannot extend the match |
| Antlr3.OptionalGroupFinds | runtime/Python/antlr3/__init__.py:150 | the optional-group scanner returns the group written in front of a rest that cannot extend it |
| Antlr3.ReMatchComplete | runtime/Python/antlr3/__init__.py:150 | the text of well-formed groups followed by a non-extending rest is matched with exactly those groups and that rest |
| Antlr3.ReMatchCharacterized | runtime/Python/antlr3/__init__.py:150 | the match is (g, u) if and only if the input is the text of well-formed g followed by a u that cannot extend it |
| Antlr3.GreedyMatchCharacterized | runtime/Python/antlr3/__init__.py:150 | the match reports groups g if and only if g is the greedy match of a prefix of the input |
| Antlr3.ReMatchFails | runtime/Python/antlr3/__init__.py:150-151 | `re.match` returns None exactly when the input does not start with digits, '.', digits |
| Antlr3.CoreMatches | runtime/Python/antlr3/__init__.py:150 | digits, '.', digits at the start are enough for a match |
| Antlr3.MatchHasCore | runtime/Python/antlr3/__init__.py:150 | every match starts with digits, '.', digits |
| Antlr3.OptionalGroupDominates | runtime/Python/antlr3/__init__.py:150 | the optional-group scanner takes at least as much as any other way the group can match, and taking the same amount means taking the same digits |
| Antlr3.ReMatchIsLongest | runtime/Python/antlr3/__init__.py:150 | the reported match is at least as long as every match of the pattern at the start of the input, and a match of equal length is the reported one |
| Antlr3.ScanAfterMinor | runtime/Python/antlr3/__init__.py:150 | on the text of any match plus a rest, the scanner keeps the major group, extends the minor group by the digits that follow, and scans the optional groups from there |
| Antlr3.TailDominates | runtime/Python/antlr3/__init__.py:150 | after the minor group, the two optional groups the scanner takes cover at least as much as those of any other match, and equal coverage means the same groups |
| Antlr3.VersionStrToTuple | runtime/Python/antlr3/__init__.py:143-159 | the parse; a failure carries the rejected input, as the `ValueError` message does |
| Antlr3.ParseFailsExactly | runtime/Python/antlr3/__init__.py:147-152 | the parse fails exactly when the input is not "HEAD" and does not start with digits, '.', digits, and the error carries the input |
| Antlr3.NonDigitStartFails | runtime/Python/antlr3/__init__.py:147-152 | any input other than "HEAD" that is empty or starts with a non-digit is rejected, "head" and "HEADx" among them |
| Antlr3.ParseDecomposed | runtime/Python/antlr3/__init__.py:150-159 | well-formed groups followed by a non-extending rest parse to the groups' values, with patch 0 and beta maxint for absent groups |
| Antlr3.ParseSound | runtime/Python/antlr3/__init__.py:150-159 | every successful parse of an input other than "HEAD" is the value of the greedy match of that input |
| Antlr3.ParseMajorMinor | runtime/Python/antlr3/__init__.py:150-155 | major and minor are the values of the leading digit runs around the first '.', whatever follows them |
| Antlr3.MatchMajorMinor | runtime/Python/antlr3/__init__.py:150 | the match's first two groups are the leading digit runs around the first '.' |
| Antlr3.SuffixIgnored | runtime/Python/antlr3/__init__.py:150 | text after the match that cannot extend it does not change the parse |
| Antlr3.ParseVersionString | runtime/Python/antlr3/__init__.py:150-159 | all four forms M.N, M.N.P, M.NbK and M.N.PbK parse to their numbers, with patch 0 and beta maxint when left out |
| Antlr3.ParseFormatTuple | runtime/Python/antlr3/__init__.py:143-159 | parsing the version string written for any tuple gives the tuple back |
| Antlr3.LessIsTupleComparison | runtime/Python/antlr3/__init__.py:159 | the version order is Python's element-by-element comparison of the returned tuples |
| Antlr3.LessIsStrictTotalOrder | runtime/Python/antlr3/__init__.py:159 | the version order is irreflexive, transitive and total |
| Antlr3.BetaBelowRelease | runtime/Python/antlr3/__init__.py:157-159 | a numbered beta below maxint orders strictly before the release with the same major, minor and patch |
| Antlr3.HeadIsGreatest | runtime/Python/antlr3/__init__.py:147-148 | the "HEAD" tuple is at least every tuple with components at most maxint, and strictly above every other such tuple |
| Antlr3.RuntimeVersionIsHead | runtime/Python/antlr3/__init__.py:141-163 | the runtime's version string is "HEAD", and the runtime version is the all-maxint tuple |
| Antlr3.RuntimeVersionIsNewest | runtime/Python/antlr3/__init__.py:147-163 | no parsed version with components at most maxint is newer than the runtime version, and only the "HEAD" tuple is as new |
| Antlr3.ShortRunFits | runtime/Python/antlr3/__init__.py:154-157 | `int()` of a run of at most 18 digits is below maxint, so it needs no promotion to a long |
| Antlr3.ShortVersionOlderThanRuntime | runtime/Python/antlr3/__init__.py:150-163 | any version whose digit runs have at most 18 digits parses, and to a tuple strictly older than `runtime_version` |
| Antlr3.LongVersionNewerThanRuntime | runtime/Python/antlr3/__init__.py:154 | every version M.N, M.N.P, M.NbK or M.N.PbK whose major M exceeds maxint still parses, because `int()` promotes M to a long; the parse keeps M and is newer than "HEAD" |
| VersionExamples.HeadExample | runtime/Python/antlr3/__init__.py:147-148 | "HEAD" gives (maxint, maxint, maxint, maxint) |
| VersionExamples.FullVersionExample | runtime/Python/antlr3/__init__.py:150-159 | "3.1.2b4" gives (3, 1, 2, 4) |
| VersionExamples.ShortVersionExample | runtime/Python/antlr3/__init__.py:156-157 | "3.1" gives (3, 1, 0, maxint) |
| VersionExamples.ZeroPatchExample | runtime/Python/antlr3/__init__.py:150-157 | in "1.0.0" the patch group takes part and captures "0", and the parse is (1, 0, 0, maxint) |
| VersionExamples.LeadingZeroExample | runtime/Python/antlr3/__init__.py:154 | "03.1" gives major 3 |
| VersionExamples.FourComponentsExample | runtime/Python/antlr3/__init__.py:150 | "1.2.3.4" gives (1, 2, 3, maxint) |
| VersionExamples.BareBetaMarkerExample | runtime/Python/antlr3/__init__.py:150 | "3.1b" gives (3, 1, 0, maxint) |
| VersionExamples.TrailingTextExample | runtime/Python/antlr3/__init__.py:150 | "3.1xyz" gives (3, 1, 0, maxint) |
| VersionExamples.DotBetaExample | runtime/Python/antlr3/__init__.py:150 | "3.1.b4" gives (3, 1, 0, maxint) |
| VersionExamples.NonNumericExamples | runtime/Python/antlr3/__init__.py:147-152 | "", "abc", "garbage", "head" and "HEADx" are rejected with themselves as the error's input |
| VersionExamples.MissingMinorExamples | runtime/Python/antlr3/__init__.py:150-152 | "1" and "1.x" are rejected |
| VersionExamples.BetaOrderExample | runtime/Python/antlr3/__init__.py:157-159 | "3.1.2b4" orders before "3.1.2" |
| VersionExamples.MajorOrderExample | runtime/Python/antlr3/__init__.py:159 | "2.9.9" orders before "3.0.0" |

## Left out

- Regular expressions in general: only the one pattern on line 150 is modelled, by a dedicated scanner. Its relation to the pattern is stated by `ReMatchCharacterized` and `ReMatchIsLongest`.
- `sys.maxint` is platform-dependent. The model fixes it at 2^63 - 1, the 64-bit value. Of the general lemmas, only `ShortRunFits` and `ShortVersionOlderThanRuntime` depend on the value, through the fact that 10^18 is below it. Of the concrete examples, `BetaOrderExample` needs it to exceed 4. On a 32-bit build, where `sys.maxint` is 2^31 - 1, the bound of 18 digits would be 9.
- Python 2's promotion of an overlong digit run to `long` is modelled by unbounded naturals. Such a parse can exceed the "HEAD" tuple, so `HeadIsGreatest` and `RuntimeVersionIsNewest` require every component to be at most maxint. `LongVersionNewerThanRuntime` shows the case. `ShortVersionOlderThanRuntime` gives a condition on the text alone: digit runs of at most 18 digits.
- Inputs that are not strings (a `TypeError` from `re.match`) and Unicode digits outside '0'..'9' are not modelled. The pattern is a byte-string pattern without the UNICODE flag.
- The module docstring and licence (lines 1-139) are not modelled. The star-imports of the package's submodules (lines 166-171) are not modelled either; those submodules are not part of this model.
- Import-time evaluation order and thread safety are not modelled. `runtime_version` is a constant computed once from `runtime_version_str`.
- `FormatTuple` writes the beta suffix only when beta is not maxint. So the tuple round trip holds for every tuple, but a string written with the beta `b<maxint>` parses to the same tuple as the string without it.
