/** The line-by-line comparator of `pkg/godiff`: `CompareRawData` in
    `utils.go` and the method `Compare` in `compare.go` run the same two
    passes over the lines of both files; `RawLineDiff` is that shared code,
    applied to an initial report (empty for `CompareRawData`, the receiver's
    `DiffReport` for `Compare`). */
module GodiffRaw {
  import opened GoStrings
  import opened CommonUtils

  /** A line takes part in the comparison: it is not a `#` comment and not empty. */
  predicate Eligible(line: string) {
    !HasPrefix(line, "#") && |line| > 0
  }

  /** The lines of `file` that take part in the comparison. */
  function EligibleSet(file: seq<string>): set<string> {
    set l | l in file && Eligible(l)
  }

  /** Eligible lines of `a` that are not eligible lines of `b`. */
  function OneSided(a: seq<string>, b: seq<string>): set<string> {
    EligibleSet(a) - EligibleSet(b)
  }

  const MarkerPrefix := "@@ line: "

  /** The marker for line `i` (0-based) of either file. */
  function Marker(i: nat): (m: string)
    ensures HasPrefix(m, MarkerPrefix)
  {
    ConcatAffixes(MarkerPrefix, IntToString(i) + "\n");
    assert MarkerPrefix + IntToString(i) + "\n" == MarkerPrefix + (IntToString(i) + "\n");
    MarkerPrefix + IntToString(i) + "\n"
  }

  predicate IsMarker(e: string) {
    HasPrefix(e, MarkerPrefix)
  }

  function Plus(line: string): string {
    "+" + line + "\n"
  }

  function Minus(line: string): string {
    "-" + line + "\n"
  }

  /** The summary entry put in front of a report that found a difference. */
  function Header(origin: string, dest: string): string {
    "Source file path: " + origin + ", difference with: " + dest + "\n"
  }

  /** Every marker in the report is followed by an entry that is not a
      marker. This makes the right pass's `report[:index+2]` stay within
      the report. */
  predicate MarkersFollowed(r: seq<string>) {
    forall k | 0 <= k < |r| && IsMarker(r[k]) :: k + 1 < |r| && !IsMarker(r[k + 1])
  }

  /** Entries and headers are never markers. */
  lemma NotMarkers(line: string)
    ensures !IsMarker(Plus(line)) && !IsMarker(Minus(line))
  {
    assert Plus(line)[0] == '+' && Minus(line)[0] == '-';
  }

  lemma HeaderNotMarker(origin: string, dest: string)
    ensures !IsMarker(Header(origin, dest))
  {
    assert Header(origin, dest)[0] == 'S';
  }

  /** The left pass's work on line `i` of the left file. */
  function LeftStep(r: seq<string>, i: nat, line: string, file2: seq<string>): (r': seq<string>)
    ensures MarkersFollowed(r) ==> MarkersFollowed(r')
  {
    NotMarkers(line);
    if Eligible(line) && line !in EligibleSet(file2) then
      (if Marker(i) in r then r else r + [Marker(i)]) + [Plus(line)]
    else r
  }

  /** The report after the left pass over all of `file1`. */
  function LeftPass(r0: seq<string>, file1: seq<string>, file2: seq<string>): (r: seq<string>)
    ensures MarkersFollowed(r0) ==> MarkersFollowed(r)
    decreases |file1|
  {
    if |file1| == 0 then r0
    else
      var n := |file1| - 1;
      LeftStep(LeftPass(r0, file1[..n], file2), n, file1[n], file2)
  }

  /** The right pass's work on line `i` of the right file: a fresh marker
      and the entry, or, when the marker is already present, everything
      after the marker's first successor is cut before the entry is added. */
  function RightStep(r: seq<string>, i: nat, line: string, file1: seq<string>): (r': seq<string>)
    requires MarkersFollowed(r)
    ensures MarkersFollowed(r')
  {
    NotMarkers(line);
    if Eligible(line) && line !in EligibleSet(file1) then
      if Marker(i) !in r then r + [Marker(i), Minus(line)]
      else
        var idx := IndexOf(r, Marker(i));
        assert IsMarker(r[idx]);
        r[..idx + 2] + [Minus(line)]
    else r
  }

  /** The report after the right pass over all of `file2`. */
  function RightPass(r0: seq<string>, file2: seq<string>, file1: seq<string>): (r: seq<string>)
    requires MarkersFollowed(r0)
    ensures MarkersFollowed(r)
    decreases |file2|
  {
    if |file2| == 0 then r0
    else
      var n := |file2| - 1;
      RightStep(RightPass(r0, file2[..n], file1), n, file2[n], file1)
  }

  lemma LeftPassStep(r0: seq<string>, file1: seq<string>, file2: seq<string>, i: nat)
    requires i < |file1|
    ensures LeftPass(r0, file1[..i + 1], file2) == LeftStep(LeftPass(r0, file1[..i], file2), i, file1[i], file2)
  {
    assert file1[..i + 1][..i] == file1[..i];
  }

  lemma RightPassStep(r0: seq<string>, file2: seq<string>, file1: seq<string>, i: nat)
    requires MarkersFollowed(r0) && i < |file2|
    ensures RightPass(r0, file2[..i + 1], file1) == RightStep(RightPass(r0, file2[..i], file1), i, file2[i], file1)
  {
    assert file2[..i + 1][..i] == file2[..i];
  }

  /** The right pass meeting a marker already in the report at `index`
      keeps the marker and its successor and drops the rest. */
  lemma RightStepCut(r: seq<string>, i: nat, line: string, file1: seq<string>, index: int)
    requires MarkersFollowed(r) && Eligible(line) && line !in EligibleSet(file1)
    requires 0 <= index < |r| && r[index] == Marker(i) && Marker(i) !in r[..index]
    ensures index + 2 <= |r|
    ensures RightStep(r, i, line, file1) == r[..index + 2] + [Minus(line)]
  {
    FirstIndexUnique(r, Marker(i), index);
    assert IsMarker(r[index]);
  }

  /** Whether a pass has fired after one more line of `a`. */
  lemma FiredStep(a: seq<string>, b: seq<string>, i: nat, before: bool)
    requires i < |a|
    requires before <==> exists k | 0 <= k < i :: a[k] in OneSided(a, b)
    ensures (before || (Eligible(a[i]) && a[i] !in EligibleSet(b)))
            <==> exists k | 0 <= k < i + 1 :: a[k] in OneSided(a, b)
  {
    if Eligible(a[i]) && a[i] !in EligibleSet(b) {
      assert a[i] in OneSided(a, b);
    }
  }

  /** Whether either pass fires for some line. */
  predicate DiffFound(file1: seq<string>, file2: seq<string>) {
    OneSided(file1, file2) != {} || OneSided(file2, file1) != {}
  }

  /** The report the two passes and the header produce. */
  function RawDiff(r0: seq<string>, file1: seq<string>, file2: seq<string>, origin: string, dest: string): seq<string>
    requires MarkersFollowed(r0)
  {
    var r := RightPass(LeftPass(r0, file1, file2), file2, file1);
    if DiffFound(file1, file2) then [Header(origin, dest)] + r else r
  }

  /** The inner search loop: is `line` one of the eligible lines of `file`? */
  method FindLine(line: string, file: seq<string>) returns (found: bool)
    ensures found <==> line in EligibleSet(file)
  {
    found := false;
    var j := 0;
    while j < |file|
      invariant 0 <= j <= |file|
      invariant !found
      invariant forall k | 0 <= k < j :: !(Eligible(file[k]) && file[k] == line)
    {
      if !HasPrefix(file[j], "#") && |file[j]| > 0 {
        if line == file[j] {
          found := true;
          break;
        }
      }
      j := j + 1;
    }
  }

  /** The first loop of `CompareRawData` and `Compare`: the left pass, and
      whether it fired. */
  method LeftLoop(r0: seq<string>, file1: seq<string>, file2: seq<string>)
    returns (report: seq<string>, diffFound: bool)
    ensures report == LeftPass(r0, file1, file2)
    ensures diffFound <==> OneSided(file1, file2) != {}
  {
    report := r0;
    diffFound := false;
    for i := 0 to |file1|
      invariant report == LeftPass(r0, file1[..i], file2)
      invariant diffFound <==> exists k | 0 <= k < i :: file1[k] in OneSided(file1, file2)
    {
      LeftPassStep(r0, file1, file2, i);
      FiredStep(file1, file2, i, diffFound);
      var line1 := file1[i];
      if !HasPrefix(line1, "#") && |line1| > 0 {
        var found := FindLine(line1, file2);
        if !found {
          var msg := Marker(i);
          var present := StringInSlice(msg, report);
          if !present {
            report := report + [msg];
          }
          report := report + [Plus(line1)];
          diffFound := true;
        }
      }
    }
    assert file1[..|file1|] == file1;
    OneSidedByIndex(file1, file2);
  }

  /** The second loop: the right pass, and whether it fired. */
  method RightLoop(r0: seq<string>, file2: seq<string>, file1: seq<string>)
    returns (report: seq<string>, diffFound: bool)
    requires MarkersFollowed(r0)
    ensures report == RightPass(r0, file2, file1)
    ensures diffFound <==> OneSided(file2, file1) != {}
  {
    report := r0;
    diffFound := false;
    for i := 0 to |file2|
      invariant report == RightPass(r0, file2[..i], file1)
      invariant diffFound <==> exists k | 0 <= k < i :: file2[k] in OneSided(file2, file1)
    {
      RightPassStep(r0, file2, file1, i);
      FiredStep(file2, file1, i, diffFound);
      var line2 := file2[i];
      if !HasPrefix(line2, "#") && |line2| > 0 {
        var found := FindLine(line2, file1);
        if !found {
          var msg := Marker(i);
          var present := StringInSlice(msg, report);
          if !present {
            report := report + [msg];
            report := report + [Minus(line2)];
          } else {
            var index := SliceIndex(msg, report);
            RightStepCut(report, i, line2, file1, index);
            report := report[..index + 2] + [Minus(line2)];
          }
          diffFound := true;
        }
      }
    }
    assert file2[..|file2|] == file2;
    OneSidedByIndex(file2, file1);
  }

  /** The two passes, the flag and the header of `CompareRawData` and
      `Compare`, applied to the report `r0`. */
  method RawLineDiff(r0: seq<string>, file1: seq<string>, file2: seq<string>, origin: string, dest: string)
    returns (report: seq<string>)
    requires MarkersFollowed(r0)
    ensures report == RawDiff(r0, file1, file2, origin, dest)
    ensures MarkersFollowed(report)
  {
    var leftFound, rightFound;
    report, leftFound := LeftLoop(r0, file1, file2);
    report, rightFound := RightLoop(report, file2, file1);
    HeaderNotMarker(origin, dest);
    if leftFound || rightFound {
      report := [Header(origin, dest)] + report;
    }
  }

  /** A first position found by a search is the one `IndexOf` gives. */
  lemma FirstIndexUnique(s: seq<string>, x: string, k: int)
    requires 0 <= k < |s| && s[k] == x && x !in s[..k]
    ensures IndexOf(s, x) == k
  {
    var i := IndexOf(s, x);
    assert forall j | 0 <= j < k :: s[..k][j] == s[j];
  }

  /** A one-sided line is one-sided at some position of its file. */
  lemma OneSidedByIndex(a: seq<string>, b: seq<string>)
    ensures OneSided(a, b) != {} <==> exists k | 0 <= k < |a| :: a[k] in OneSided(a, b)
  {
    if OneSided(a, b) != {} {
      var l :| l in OneSided(a, b);
      var k :| 0 <= k < |a| && a[k] == l;
    }
  }

  /** A pass whose lines all occur on the other side changes nothing. */
  lemma {:induction false} LeftPassQuiet(r0: seq<string>, file1: seq<string>, file2: seq<string>)
    requires OneSided(file1, file2) == {}
    ensures LeftPass(r0, file1, file2) == r0
    decreases |file1|
  {
    if |file1| > 0 {
      var n := |file1| - 1;
      assert file1[n] in file1;
      assert forall l | l in file1[..n] :: l in file1;
      assert OneSided(file1[..n], file2) == {};
      LeftPassQuiet(r0, file1[..n], file2);
      if Eligible(file1[n]) {
        assert file1[n] in EligibleSet(file1);
        assert file1[n] !in OneSided(file1, file2);
      }
    }
  }

  lemma {:induction false} RightPassQuiet(r0: seq<string>, file2: seq<string>, file1: seq<string>)
    requires MarkersFollowed(r0)
    requires OneSided(file2, file1) == {}
    ensures RightPass(r0, file2, file1) == r0
    decreases |file2|
  {
    if |file2| > 0 {
      var n := |file2| - 1;
      assert file2[n] in file2;
      assert forall l | l in file2[..n] :: l in file2;
      assert OneSided(file2[..n], file1) == {};
      RightPassQuiet(r0, file2[..n], file1);
      if Eligible(file2[n]) {
        assert file2[n] in EligibleSet(file2);
        assert file2[n] !in OneSided(file2, file1);
      }
    }
  }

  /** A difference is found exactly when the eligible lines differ as sets. */
  lemma DiffFoundIffSetsDiffer(file1: seq<string>, file2: seq<string>)
    ensures DiffFound(file1, file2) <==> EligibleSet(file1) != EligibleSet(file2)
  {
    if EligibleSet(file1) != EligibleSet(file2) {
      if EligibleSet(file1) !! EligibleSet(file2) {
      } else if EligibleSet(file1) - EligibleSet(file2) == {} {
        assert EligibleSet(file2) - EligibleSet(file1) != {};
      }
    }
  }

  /** `CompareRawData` returns an empty report exactly when both inputs have
      the same set of eligible lines (so reordering lines, or adding
      comments and blank lines, shows no difference); otherwise the report
      starts with the header. */
  lemma RawDiffEmptyIff(file1: seq<string>, file2: seq<string>, origin: string, dest: string)
    ensures RawDiff([], file1, file2, origin, dest) == [] <==> EligibleSet(file1) == EligibleSet(file2)
    ensures RawDiff([], file1, file2, origin, dest) != [] ==> RawDiff([], file1, file2, origin, dest)[0] == Header(origin, dest)
  {
    DiffFoundIffSetsDiffer(file1, file2);
    if !DiffFound(file1, file2) {
      LeftPassQuiet([], file1, file2);
      RightPassQuiet([], file2, file1);
    }
  }

  /** `e` is the `+` entry of a line only on the left. */
  predicate PlusJustified(e: string, file1: seq<string>, file2: seq<string>) {
    exists l | l in OneSided(file1, file2) :: e == Plus(l)
  }

  /** `e` is the `-` entry of a line only on the right. */
  predicate MinusJustified(e: string, file1: seq<string>, file2: seq<string>) {
    exists l | l in OneSided(file2, file1) :: e == Minus(l)
  }

  /** An entry explained by the two files: a marker, `+l` for a line only
      on the left, or `-l` for a line only on the right. */
  predicate Justified(e: string, file1: seq<string>, file2: seq<string>) {
    IsMarker(e) || PlusJustified(e, file1, file2) || MinusJustified(e, file1, file2)
  }

  lemma {:induction false} LeftPassJustified(r0: seq<string>, file1: seq<string>, file2: seq<string>)
    ensures forall e | e in LeftPass(r0, file1, file2) :: e in r0 || IsMarker(e) || PlusJustified(e, file1, file2)
    decreases |file1|
  {
    if |file1| > 0 {
      var n := |file1| - 1;
      LeftPassJustified(r0, file1[..n], file2);
      assert forall l | l in file1[..n] :: l in file1;
      assert OneSided(file1[..n], file2) <= OneSided(file1, file2);
      var line := file1[n];
      if Eligible(line) && line !in EligibleSet(file2) {
        assert line in file1;
        assert line in OneSided(file1, file2);
        assert PlusJustified(Plus(line), file1, file2);
      }
    }
  }

  lemma {:induction false} RightPassJustified(r0: seq<string>, file2: seq<string>, file1: seq<string>)
    requires MarkersFollowed(r0)
    ensures forall e | e in RightPass(r0, file2, file1) :: e in r0 || IsMarker(e) || MinusJustified(e, file1, file2)
    decreases |file2|
  {
    if |file2| > 0 {
      var n := |file2| - 1;
      RightPassJustified(r0, file2[..n], file1);
      assert forall l | l in file2[..n] :: l in file2;
      assert OneSided(file2[..n], file1) <= OneSided(file2, file1);
      var r := RightPass(r0, file2[..n], file1);
      var line := file2[n];
      if Eligible(line) && line !in EligibleSet(file1) {
        assert line in file2;
        assert line in OneSided(file2, file1);
        assert MinusJustified(Minus(line), file1, file2);
        if Marker(n) in r {
          var idx := IndexOf(r, Marker(n));
          assert forall e | e in r[..idx + 2] :: e in r;
        }
      }
    }
  }

  /** Every entry of `CompareRawData`'s report is the header (at the front
      only), a marker, or a `+`/`-` entry for an eligible line found on one
      side only; so comment and blank lines never show up in an entry. */
  lemma RawDiffJustified(file1: seq<string>, file2: seq<string>, origin: string, dest: string)
    ensures var r := RawDiff([], file1, file2, origin, dest);
      forall k | 0 <= k < |r| :: (k == 0 && r[k] == Header(origin, dest)) || Justified(r[k], file1, file2)
  {
    LeftPassJustified([], file1, file2);
    var left := LeftPass([], file1, file2);
    RightPassJustified(left, file2, file1);
    assert forall e | e in left :: Justified(e, file1, file2);
    var r := RightPass(left, file2, file1);
    assert forall k | 0 <= k < |r| :: r[k] in r;
    if DiffFound(file1, file2) {
      var full := [Header(origin, dest)] + r;
      assert forall k | 1 <= k < |full| :: full[k] == r[k - 1];
    }
  }

  /** The header is not a justified entry, so it occurs only at the front. */
  lemma HeaderNotJustified(origin: string, dest: string, file1: seq<string>, file2: seq<string>)
    ensures !Justified(Header(origin, dest), file1, file2)
  {
    HeaderNotMarker(origin, dest);
    var h := Header(origin, dest);
    assert h[0] == 'S';
    forall l ensures h != Plus(l) && h != Minus(l) {
      assert Plus(l)[0] == '+' && Minus(l)[0] == '-';
    }
  }

  /** The left pass only appends: for every left-only line at position `k`
      it leaves the marker for `k` and the `+` entry in the report. */
  lemma {:induction false} LeftPassComplete(r0: seq<string>, file1: seq<string>, file2: seq<string>)
    ensures forall k | 0 <= k < |file1| && file1[k] in OneSided(file1, file2) ::
      Marker(k) in LeftPass(r0, file1, file2) && Plus(file1[k]) in LeftPass(r0, file1, file2)
    decreases |file1|
  {
    if |file1| > 0 {
      var n := |file1| - 1;
      var pre := file1[..n];
      LeftPassComplete(r0, pre, file2);
      var r := LeftPass(r0, pre, file2);
      var r' := LeftPass(r0, file1, file2);
      assert r' == LeftStep(r, n, file1[n], file2);
      assert forall e | e in r :: e in r';
      forall k | 0 <= k < |file1| && file1[k] in OneSided(file1, file2)
        ensures Marker(k) in r' && Plus(file1[k]) in r'
      {
        if k < n {
          assert pre[k] == file1[k];
          assert pre[k] in EligibleSet(pre);
          assert pre[k] in OneSided(pre, file2);
        }
      }
    }
  }

  /** The truncation rule at work: the right-only line 0 finds the marker
      for line 0 already present, so the report is cut after that marker's
      first entry and the entry for left line 1 is lost. */
  lemma TruncationExample()
    ensures RawDiff([], ["a", "b"], ["c"], "o", "d")
         == [Header("o", "d"), Marker(0), Plus("a"), Minus("c")]
  {
    var left := [Marker(0), Plus("a"), Marker(1), Plus("b")];
    assert LeftPass([], ["a", "b"], ["c"]) == left by {
      ExampleLeft();
    }
    assert RightPass(left, ["c"], ["a", "b"]) == [Marker(0), Plus("a"), Minus("c")] by {
      ExampleRight(left);
    }
    assert DiffFound(["a", "b"], ["c"]) by {
      ExampleSets();
      assert "c" in OneSided(["c"], ["a", "b"]);
    }
  }

  lemma ExampleSets()
    ensures EligibleSet(["c"]) == {"c"} && EligibleSet(["a", "b"]) == {"a", "b"}
  {
    SingleEligible("c");
    SingleEligible("a");
    SingleEligible("b");
  }

  lemma SingleEligible(l: string)
    requires |l| == 1 && l[0] != '#'
    ensures Eligible(l)
  {
    assert l[..1] != "#";
  }

  lemma ExampleMarkers()
    ensures Marker(0) != Marker(1)
  {
    assert IntToString(0) == "0" && IntToString(1) == "1";
    assert Marker(0)[9] == '0' && Marker(1)[9] == '1';
  }

  lemma ExampleLeft()
    ensures LeftPass([], ["a", "b"], ["c"]) == [Marker(0), Plus("a"), Marker(1), Plus("b")]
  {
    var f1 := ["a", "b"];
    var f2 := ["c"];
    ExampleSets();
    ExampleMarkers();
    assert f1[..1] == ["a"];
    assert f1[..1][..0] == [];
    assert LeftPass([], f1[..1], f2) == [Marker(0), Plus("a")];
  }

  lemma ExampleRight(left: seq<string>)
    requires left == [Marker(0), Plus("a"), Marker(1), Plus("b")]
    ensures MarkersFollowed(left)
    ensures RightPass(left, ["c"], ["a", "b"]) == [Marker(0), Plus("a"), Minus("c")]
  {
    var f2 := ["c"];
    ExampleSets();
    ExampleMarkers();
    assert f2[..0] == [];
    assert IndexOf(left, Marker(0)) == 0;
  }

  /** `CompareRawData`: splits both inputs on newlines and compares the
      lines; it never returns an error. */
  method CompareRawData(rawdata1: string, rawdata2: string, origin: string, dest: string)
    returns (report: seq<string>)
    ensures report == RawDiff([], Split(rawdata1, '\n'), Split(rawdata2, '\n'), origin, dest)
  {
    report := RawLineDiff([], Split(rawdata1, '\n'), Split(rawdata2, '\n'), origin, dest);
  }
}
