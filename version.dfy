/** The package version of `bbox`: the parser `_version_as_tuple`, which splits a
    version string on '.', keeps the segments made only of digits and turns each
    kept segment into its integer, and the two module constants built with it. */
module Version {
  import opened Segments
  import opened Decimal

  /** What one segment contributes: `[int(i)]` when `i.isdigit()`, else nothing. */
  function Kept(segment: string): (r: seq<nat>)
    ensures |r| <= 1
    ensures |r| == 1 <==> IsDigits(segment)
  {
    if IsDigits(segment) then [Value(segment)] else []
  }

  /** The generator `int(i) for i in segments if i.isdigit()`: the values of the
      digit-only segments, left to right; every other segment is skipped. */
  function DigitSegmentValues(segments: seq<string>): (r: seq<nat>)
    ensures |r| <= |segments|
    ensures (forall i :: 0 <= i < |segments| ==> IsDigits(segments[i])) ==> |r| == |segments|
    ensures (forall i :: 0 <= i < |segments| ==> !IsDigits(segments[i])) ==> r == []
  {
    if segments == [] then []
    else
      Kept(segments[0]) + DigitSegmentValues(segments[1..])
  }

  /** `_version_as_tuple(version_str)`. Defined on every string; it has at most
      one entry per '.'-separated segment. */
  function VersionAsTuple(versionStr: string): (r: seq<nat>)
    ensures |r| <= Count(versionStr, '.') + 1
  {
    DigitSegmentValues(Split(versionStr, '.'))
  }

  /** `'.'.join(str(n) for n in ns)`: the dotted decimal rendering of a tuple. */
  function RenderVersion(ns: seq<nat>): string
  {
    Join(seq(|ns|, i requires 0 <= i < |ns| => Render(ns[i])), '.')
  }

  /** `__version__` */
  const VersionString: string := "0.1.0"

  /** `__version_info__` */
  const VersionInfo: seq<nat> := VersionAsTuple(VersionString)

  /** Filtering distributes over concatenation of segment lists. */
  lemma {:induction false} DigitSegmentValuesAppend(a: seq<string>, b: seq<string>)
    ensures DigitSegmentValues(a + b) == DigitSegmentValues(a) + DigitSegmentValues(b)
  {
    if a == [] {
      assert a + b == b;
    } else {
      var head := Kept(a[0]);
      assert (a + b)[0] == a[0] && (a + b)[1..] == a[1..] + b;
      DigitSegmentValuesAppend(a[1..], b);
      calc {
        DigitSegmentValues(a + b);
        head + DigitSegmentValues(a[1..] + b);
        head + (DigitSegmentValues(a[1..]) + DigitSegmentValues(b));
        (head + DigitSegmentValues(a[1..])) + DigitSegmentValues(b);
        DigitSegmentValues(a) + DigitSegmentValues(b);
      }
    }
  }

  /** Order is kept and nothing is invented: a segment between two runs of
      segments contributes its value exactly there when it is digit-only, and
      nothing at all (no error, no placeholder) otherwise. */
  lemma SegmentContribution(before: seq<string>, segment: string, after: seq<string>)
    ensures DigitSegmentValues(before + [segment] + after)
         == DigitSegmentValues(before)
          + (if IsDigits(segment) then [Value(segment)] else [])
          + DigitSegmentValues(after)
  {
    DigitSegmentValuesAppend(before + [segment], after);
    DigitSegmentValuesAppend(before, [segment]);
    assert [segment][1..] == [];
  }

  /** The values produced are exactly the values of the digit-only segments. */
  lemma {:induction false} DigitSegmentValuesMembers(segments: seq<string>, x: nat)
    ensures x in DigitSegmentValues(segments)
        <==> exists i :: 0 <= i < |segments| && IsDigits(segments[i]) && Value(segments[i]) == x
  {
    if segments != [] {
      var tail := segments[1..];
      DigitSegmentValuesMembers(tail, x);
      if exists i :: 0 <= i < |tail| && IsDigits(tail[i]) && Value(tail[i]) == x {
        var i :| 0 <= i < |tail| && IsDigits(tail[i]) && Value(tail[i]) == x;
        assert segments[i + 1] == tail[i];
      }
      if exists i :: 0 <= i < |segments| && IsDigits(segments[i]) && Value(segments[i]) == x {
        var i :| 0 <= i < |segments| && IsDigits(segments[i]) && Value(segments[i]) == x;
        if i > 0 { assert tail[i - 1] == segments[i]; }
      }
    }
  }

  /** When every segment is digit-only, the result has one entry per segment,
      each the decimal value of the segment in the same position. */
  lemma {:induction false} AllDigitSegments(segments: seq<string>)
    requires forall i :: 0 <= i < |segments| ==> IsDigits(segments[i])
    ensures |DigitSegmentValues(segments)| == |segments|
    ensures forall i :: 0 <= i < |segments| ==> DigitSegmentValues(segments)[i] == Value(segments[i])
  {
    if segments != [] {
      var tail := segments[1..];
      AllDigitSegments(tail);
      var r := DigitSegmentValues(segments);
      assert r == [Value(segments[0])] + DigitSegmentValues(tail);
      forall i | 0 <= i < |segments| ensures r[i] == Value(segments[i]) {
        if i > 0 { assert r[i] == DigitSegmentValues(tail)[i - 1] && segments[i] == tail[i - 1]; }
      }
    }
  }

  /** A string whose '.'-separated segments are all digit-only parses to one
      entry per segment: the length is exactly count('.') + 1. */
  lemma AllDigitVersion(versionStr: string)
    requires forall i :: 0 <= i < |Split(versionStr, '.')| ==> IsDigits(Split(versionStr, '.')[i])
    ensures |VersionAsTuple(versionStr)| == Count(versionStr, '.') + 1
    ensures forall i :: 0 <= i < |Split(versionStr, '.')| ==> VersionAsTuple(versionStr)[i] == Value(Split(versionStr, '.')[i])
  {
    AllDigitSegments(Split(versionStr, '.'));
  }

  /** Every entry of the tuple is the decimal value of one of the digit-only
      '.'-separated segments of the input, and every such segment gives one. */
  lemma VersionAsTupleMembers(versionStr: string, x: nat)
    ensures x in VersionAsTuple(versionStr)
        <==> exists i :: 0 <= i < |Split(versionStr, '.')|
                && IsDigits(Split(versionStr, '.')[i]) && Value(Split(versionStr, '.')[i]) == x
  {
    var segments := Split(versionStr, '.');
    assert VersionAsTuple(versionStr) == DigitSegmentValues(segments);
    DigitSegmentValuesMembers(segments, x);
    if x in VersionAsTuple(versionStr) {
      var i :| 0 <= i < |segments| && IsDigits(segments[i]) && Value(segments[i]) == x;
      assert IsDigits(Split(versionStr, '.')[i]) && Value(Split(versionStr, '.')[i]) == x;
    }
    if exists i :: 0 <= i < |Split(versionStr, '.')|
         && IsDigits(Split(versionStr, '.')[i]) && Value(Split(versionStr, '.')[i]) == x {
      var i :| 0 <= i < |Split(versionStr, '.')|
         && IsDigits(Split(versionStr, '.')[i]) && Value(Split(versionStr, '.')[i]) == x;
      assert IsDigits(segments[i]) && Value(segments[i]) == x;
    }
  }

  /** Round trip: rendering naturals in decimal, joining them with '.' and
      parsing the result gives the naturals back (the empty tuple included). */
  lemma RoundTrip(ns: seq<nat>)
    ensures VersionAsTuple(RenderVersion(ns)) == ns
  {
    var parts := seq(|ns|, i requires 0 <= i < |ns| => Render(ns[i]));
    if ns == [] {
      assert RenderVersion(ns) == "";
      assert Split("", '.') == [""];
    } else {
      forall i | 0 <= i < |parts| ensures '.' !in parts[i] {
        assert IsDigits(parts[i]);
      }
      SplitJoin(parts, '.');
      AllDigitSegments(parts);
    }
  }

  /** Leading zeros are ignored: a segment written with an extra leading zero
      gives the same entry. */
  lemma LeadingZeroSegment(before: seq<string>, segment: string, after: seq<string>)
    requires IsDigits(segment)
    ensures DigitSegmentValues(before + ["0" + segment] + after)
         == DigitSegmentValues(before + [segment] + after)
  {
    LeadingZeroIgnored(segment);
    SegmentContribution(before, "0" + segment, after);
    SegmentContribution(before, segment, after);
  }

  /** `"0.1.0".split(".") == ["0", "1", "0"]` */
  lemma SplitVersionString()
    ensures Split(VersionString, '.') == ["0", "1", "0"]
  {
    var segments := ["0", "1", "0"];
    assert Join(segments[1..], '.') == "1" + "." + "0";
    assert Join(segments, '.') == VersionString;
    SplitJoin(segments, '.');
  }

  /** The segments of "0.1.0" give 0, 1 and 0. */
  lemma VersionSegmentValues()
    ensures DigitSegmentValues(["0", "1", "0"]) == [0, 1, 0]
  {
    AllDigitSegments(["0", "1", "0"]);
    assert Value("0") == 0 && Value("1") == 1;
  }

  /** `__version_info__ == (0, 1, 0)` */
  lemma VersionInfoValue()
    ensures VersionInfo == [0, 1, 0]
  {
    SplitVersionString();
    VersionSegmentValues();
  }

  /** Nothing to keep: `_version_as_tuple("") == ()`. */
  lemma EmptyStringExample()
    ensures VersionAsTuple("") == []
  {
    assert Split("", '.') == [""];
  }

  /** `"1.2.3-alpha".split(".") == ["1", "2", "3-alpha"]` */
  lemma SplitPreRelease()
    ensures Split("1.2.3-alpha", '.') == ["1", "2", "3-alpha"]
  {
    var segments := ["1", "2", "3-alpha"];
    assert Join(segments[1..], '.') == "2" + "." + "3-alpha";
    assert Join(segments, '.') == "1.2.3-alpha";
    SplitJoin(segments, '.');
  }

  /** The segments of "1.2.3-alpha": "3-alpha" is not digit-only and is dropped,
      "1" and "2" give 1 and 2. */
  lemma PreReleaseSegmentValues()
    ensures !IsDigits("3-alpha")
    ensures DigitSegmentValues(["1", "2", "3-alpha"]) == [1, 2]
  {
    assert !IsDigit("3-alpha"[1]);
    assert ["1", "2", "3-alpha"] == ["1", "2"] + ["3-alpha"] + [];
    SegmentContribution(["1", "2"], "3-alpha", []);
    AllDigitSegments(["1", "2"]);
    assert Value("1") == 1 && Value("2") == 2;
  }

  /** A pre-release suffix drops its whole segment:
      `_version_as_tuple("1.2.3-alpha") == (1, 2)`. */
  lemma PreReleaseExample()
    ensures VersionAsTuple("1.2.3-alpha") == [1, 2]
  {
    SplitPreRelease();
    PreReleaseSegmentValues();
  }

  /** `"v1.2".split(".") == ["v1", "2"]` */
  lemma SplitPrefixed()
    ensures Split("v1.2", '.') == ["v1", "2"]
  {
    var segments := ["v1", "2"];
    assert Join(segments, '.') == "v1.2";
    SplitJoin(segments, '.');
  }

  /** The segments of "v1.2": "v1" is not digit-only and is dropped, "2" gives 2. */
  lemma PrefixedSegmentValues()
    ensures !IsDigits("v1")
    ensures DigitSegmentValues(["v1", "2"]) == [2]
  {
    assert !IsDigit("v1"[0]);
    assert ["v1", "2"] == [] + ["v1"] + ["2"];
    SegmentContribution([], "v1", ["2"]);
    AllDigitSegments(["2"]);
    assert Value("2") == 2;
  }

  /** A prefixed segment is dropped: `_version_as_tuple("v1.2") == (2,)`. */
  lemma PrefixExample()
    ensures VersionAsTuple("v1.2") == [2]
  {
    SplitPrefixed();
    PrefixedSegmentValues();
  }

  /** `"01.2".split(".") == ["01", "2"]` */
  lemma SplitLeadingZero()
    ensures Split("01.2", '.') == ["01", "2"]
  {
    var segments := ["01", "2"];
    assert Join(segments, '.') == "01.2";
    SplitJoin(segments, '.');
  }

  /** The segments of "01.2" give 1 and 2: the leading zero of "01" is ignored. */
  lemma LeadingZeroSegmentValues()
    ensures DigitSegmentValues(["01", "2"]) == [1, 2]
  {
    assert "01" == "0" + "1";
    LeadingZeroIgnored("1");
    AllDigitSegments(["01", "2"]);
    assert Value("1") == 1 && Value("2") == 2;
  }

  /** Leading zeros vanish: `_version_as_tuple("01.2") == (1, 2)`. */
  lemma LeadingZeroExample()
    ensures VersionAsTuple("01.2") == [1, 2]
  {
    SplitLeadingZero();
    LeadingZeroSegmentValues();
  }
}
