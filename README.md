# bbox version parser, in Dafny

`bbox/version.py` holds the package's version string `__version__ = '0.1.0'` and
derives `__version_info__` from it with `_version_as_tuple`. That function splits
the string on `.`, keeps the segments for which `isdigit()` holds, and turns each
kept segment into an integer with `int()`. Segments that are empty or hold any
other character are skipped silently, without an error. The function can still
raise where `int()` itself does (see "## Left out"); the model leaves those
failures out and is total.

The model is pure, like the source: functions and lemmas, no state.

- `segments.dfy`, module `Segments`: Python's `str.split` with a one-character
  separator (`Split`), `str.join` (`Join`) and `str.count` (`Count`). Empty
  segments are kept, so `""` splits into `[""]`.
- `decimal.dfy`, module `Decimal`: `isdigit()` over the ASCII digits
  (`IsDigits`, false on the empty string), `int()` of a digit string (`Value`),
  and `str()` of a natural (`Render`), which is used for the round trip.
- `version.dfy`, module `Version`: the generator inside `tuple(...)`
  (`DigitSegmentValues`, one segment at a time by `Kept`), `_version_as_tuple` (`VersionAsTuple`), the constants
  `VersionString` (`__version__`) and `VersionInfo` (`__version_info__`), and the
  properties below.

`VersionAsTuple` has no precondition: apart from the `int()` failures listed
under "## Left out", the parser accepts every string. It is a function, so equal
inputs give equal outputs.

## Model

| member | source | states |
|---|---|---|
| Segments.Split | bbox/version.py:3 | `version_str.split(".")` gives `count('.') + 1` segments, none containing the separator, and joining them with the separator gives the input back |
| Segments.SplitJoin | bbox/version.py:3 | splitting undoes joining: for one or more separator-free parts, `sep.join(parts).split(sep) == parts` |
| Decimal.IsDigits | bbox/version.py:3 | `s.isdigit()` narrowed to `'0'..'9'`: false on `""`, otherwise true exactly when every character is an ASCII digit, so a digit segment never holds `.` |
| Decimal.Value | bbox/version.py:3 | `int(i)` of a digit-only segment is a natural below 10 to the power of the segment's length |
| Decimal.LeadingZeroIgnored | bbox/version.py:3 | `int()` ignores a leading zero: `int("0" + s) == int(s)` for any digit string `s` |
| Decimal.Render | bbox/version.py:3 | `str(n)` is a canonical digit string (no leading zero unless it is "0") that `int()` maps back to `n` |
| Decimal.RenderValue | bbox/version.py:3 | on canonical digit strings `str(int(s)) == s`, so `int()` and `str()` are inverse on them |
| Version.Kept | bbox/version.py:3 | one segment contributes one entry exactly when `i.isdigit()` holds, and nothing otherwise |
| Version.DigitSegmentValues | bbox/version.py:3 | the filter-and-convert step yields at most one entry per segment, one per segment when all are digit-only, and nothing when none are |
| Version.VersionAsTuple | bbox/version.py:2-3 | `_version_as_tuple` is defined on every string and returns at most `count('.') + 1` entries |
| Version.DigitSegmentValuesAppend | bbox/version.py:3 | the filter distributes over concatenation of segment lists, so it works segment by segment, left to right |
| Version.SegmentContribution | bbox/version.py:3 | each segment contributes its `int()` value at its own position when `isdigit()` holds, and nothing at all (no error, no placeholder) otherwise |
| Version.DigitSegmentValuesMembers | bbox/version.py:3 | a number is in the output if and only if it is the value of some digit-only segment |
| Version.AllDigitSegments | bbox/version.py:3 | when every segment is digit-only, the output has one entry per segment and entry `i` is `int(segment[i])` |
| Version.AllDigitVersion | bbox/version.py:3 | a string whose segments are all digit-only parses to exactly `count('.') + 1` entries, entry `i` being the value of segment `i` |
| Version.VersionAsTupleMembers | bbox/version.py:2-3 | a number is in `_version_as_tuple(s)` if and only if some digit-only `.`-segment of `s` denotes it |
| Version.RoundTrip | bbox/version.py:2-3 | for any naturals, joining their decimal renderings with `.` and parsing gives them back, the empty tuple included |
| Version.LeadingZeroSegment | bbox/version.py:3 | writing a digit-only segment with an extra leading zero does not change the output |
| Version.SplitVersionString | bbox/version.py:6 | `'0.1.0'.split(".")` is `["0", "1", "0"]` |
| Version.VersionSegmentValues | bbox/version.py:6-7 | the segments `["0", "1", "0"]` give `[0, 1, 0]` |
| Version.VersionInfoValue | bbox/version.py:6-7 | `__version_info__ == (0, 1, 0)` |
| Version.EmptyStringExample | bbox/version.py:3 | `_version_as_tuple("") == ()`: the single empty segment is dropped |
| Version.SplitPreRelease | bbox/version.py:3 | `"1.2.3-alpha".split(".")` is `["1", "2", "3-alpha"]` |
| Version.PreReleaseSegmentValues | bbox/version.py:3 | `"3-alpha"` is not digit-only, and the segments `["1", "2", "3-alpha"]` give `[1, 2]` |
| Version.PreReleaseExample | bbox/version.py:3 | `_version_as_tuple("1.2.3-alpha") == (1, 2)`: the pre-release segment is dropped whole |
| Version.SplitPrefixed | bbox/version.py:3 | `"v1.2".split(".")` is `["v1", "2"]` |
| Version.PrefixedSegmentValues | bbox/version.py:3 | `"v1"` is not digit-only, and the segments `["v1", "2"]` give `[2]` |
| Version.PrefixExample | bbox/version.py:3 | `_version_as_tuple("v1.2") == (2,)`: the prefixed segment is dropped |
| Version.SplitLeadingZero | bbox/version.py:3 | `"01.2".split(".")` is `["01", "2"]` |
| Version.LeadingZeroSegmentValues | bbox/version.py:3 | the segments `["01", "2"]` give `[1, 2]`: the leading zero is ignored |
| Version.LeadingZeroExample | bbox/version.py:3 | `_version_as_tuple("01.2") == (1, 2)`: leading zeros are ignored |

## Left out

- Decimal.Value: `int()` and `str()` are modelled as unbounded. CPython (3.11 and
  later, and the security backports to 3.7-3.10) raises `ValueError` when a
  conversion between `int` and `str` involves more than 4300 digits, so
  `_version_as_tuple("1" * 4301)` raises where `Version.VersionAsTuple` returns a
  one-entry sequence. For the same reason `Version.RoundTrip` idealises `str()`
  for naturals with more than 4300 digits.
- Decimal.IsDigits: `str.isdigit()` is true for many non-ASCII characters (superscripts, other
  scripts' digits). The model accepts only `'0'`..`'9'`. Python's `int()` raises
  on some of those characters (such as `'²'`), which the source does not guard
  against; the model does not capture that failure.
- Module and attribute machinery: `__version__` and `__version_info__` are the
  constants `Version.VersionString` and `Version.VersionInfo`. A Python tuple is a
  Dafny `seq<nat>`.
- Idempotence of the parser is not a separate lemma: a Dafny function is
  deterministic by construction.
- Version comparison, semantic-versioning validation and pre-release or build
  metadata handling: the source does none of these.
