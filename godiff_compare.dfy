/** The methods of `CompareFileNames` in `pkg/godiff/compare.go`. The
    object holds the two file paths and the report it accumulates; each
    comparison rewrites `DiffReport` in place. File contents, parsed
    documents and the YAML/JSON detectors are parameters. */
module GodiffCompare {
  import opened GoStrings
  import opened Results
  import opened CommonUtils
  import opened GodiffRaw
  import GodiffIni
  import GodiffMaps

  const Reset := "\U{1B}[0m"
  const Red := "\U{1B}[31m"
  const Green := "\U{1B}[32m"

  // ---------------------------------------------------------------------
  // Entries that are not markers keep the class invariant.

  lemma NotMarkerByFirst(e: string)
    requires |e| > 0 && e[0] != '@'
    ensures !IsMarker(e)
  {
  }

  /** Appending entries none of which is a marker keeps every marker
      followed by its entry. */
  lemma AppendKeepsMarkersFollowed(r: seq<string>, extra: seq<string>)
    requires MarkersFollowed(r)
    requires forall e | e in extra :: !IsMarker(e)
    ensures MarkersFollowed(r + extra)
  {
    var s := r + extra;
    forall k | 0 <= k < |s| && IsMarker(s[k])
      ensures k + 1 < |s| && !IsMarker(s[k + 1])
    {
      assert k < |r| && r[k] == s[k];
      assert k + 1 < |r|;
      assert s[k + 1] == r[k + 1];
    }
  }

  lemma TaggedNotMarker(e: string, name: string, body: string)
    requires GodiffIni.Tagged(e, name, body)
    requires |body| > 0 && body[0] != '@'
    ensures !IsMarker(e)
  {
    if e == body {
      NotMarkerByFirst(e);
    } else {
      assert e[0] == '[';
      NotMarkerByFirst(e);
    }
  }

  /** No message of `CompareIniFiles` is a marker. */
  lemma FilesCandidateNotMarker(e: string, cfg1: GodiffIni.IniDoc, cfg2: GodiffIni.IniDoc)
    requires GodiffIni.FilesCandidate(e, cfg1, cfg2)
    ensures !IsMarker(e)
  {
    if GodiffIni.FilesMissingSection(e, cfg1, cfg2) {
      var i :| 0 <= i < |cfg1| && GodiffIni.Reached(cfg1, cfg2, i) &&
         GodiffIni.GetSection(cfg2, cfg1[i].name).None? && e == GodiffIni.MissingSection(cfg1[i].name);
      NotMarkerByFirst(e);
    } else if GodiffIni.SomeFilesLeftKeyMsg(e, cfg1, cfg2) {
      var i, j :| 0 <= i < |cfg1| && GodiffIni.Reached(cfg1, cfg2, i)
                 && GodiffIni.GetSection(cfg2, cfg1[i].name).Some? && 0 <= j < |cfg1[i].keys| &&
                 GodiffIni.FilesLeftKeyMsg(e, cfg1[i], GodiffIni.GetSection(cfg2, cfg1[i].name).value, j);
      var body := GodiffIni.FilesLeftBody(cfg1[i].keys[j], GodiffIni.GetSection(cfg2, cfg1[i].name).value);
      assert body[0] == '+' || body[0] == '-';
      TaggedNotMarker(e, cfg1[i].name, body);
    } else {
      var i, j :| 0 <= i < |cfg1| && GodiffIni.Reached(cfg1, cfg2, i)
          && GodiffIni.GetSection(cfg2, cfg1[i].name).Some?
          && 0 <= j < |GodiffIni.GetSection(cfg2, cfg1[i].name).value.keys| &&
          GodiffIni.FilesRightKeyMsg(e, cfg1[i], GodiffIni.GetSection(cfg2, cfg1[i].name).value, j);
      var sec2 := GodiffIni.GetSection(cfg2, cfg1[i].name).value;
      TaggedNotMarker(e, sec2.name, GodiffIni.KeyEntry('-', sec2.keys[j]));
    }
  }

  /** The report `r` that `CompareIniFiles` leaves on the old report `r0`
      when it returns normally: `r0` unchanged, or the header, `r0` and new
      messages, each one `CompareIniFiles` builds, with no duplicate added;
      and every message it builds is in `r`. */
  ghost predicate IniFilesReport(r0: seq<string>, r: seq<string>, origin: string, dest: string,
                                 cfg1: GodiffIni.IniDoc, cfg2: GodiffIni.IniDoc)
  {
    (r == r0
     || (|r| > |r0| && r[0] == Header(origin, dest) && r0 <= r[1..]
         && (NoDup(r0) ==> NoDup(r[1..]))
         && forall k | 1 + |r0| <= k < |r| :: GodiffIni.FilesCandidate(r[k], cfg1, cfg2)))
    && forall e | GodiffIni.FilesCandidate(e, cfg1, cfg2) :: e in r
  }

  /** The report `CompareIniFiles` leaves behind (the header, the old
      report, the new messages) keeps every marker followed. */
  lemma IniReportKeepsMarkersFollowed(r0: seq<string>, r: seq<string>, origin: string, dest: string,
                                      cfg1: GodiffIni.IniDoc, cfg2: GodiffIni.IniDoc)
    requires MarkersFollowed(r0)
    requires |r| > |r0| && r[0] == Header(origin, dest) && r0 <= r[1..]
    requires forall k | 1 + |r0| <= k < |r| :: GodiffIni.FilesCandidate(r[k], cfg1, cfg2)
    ensures MarkersFollowed(r)
  {
    HeaderNotMarker(origin, dest);
    forall k | 1 + |r0| <= k < |r|
      ensures !IsMarker(r[k])
    {
      FilesCandidateNotMarker(r[k], cfg1, cfg2);
    }
    forall k | 1 <= k <= |r0|
      ensures r[k] == r0[k - 1]
    {
      assert r[1..][k - 1] == r0[k - 1];
    }
  }

  /** Every entry of the first YAML loop starts with `+`. */
  lemma {:induction false} LeftEntriesNotMarkers<K, V>(order: seq<K>, m1: map<K, V>, m2: map<K, V>,
                                                       showK: K -> string, showV: V -> string, showS: V -> string)
    requires forall k | k in order :: k in m1
    ensures forall e | e in GodiffMaps.LeftEntries(order, m1, m2, showK, showV, showS) :: !IsMarker(e)
  {
    if order != [] {
      var init := order[..|order| - 1];
      var k := order[|order| - 1];
      LeftEntriesNotMarkers(init, m1, m2, showK, showV, showS);
      var last := GodiffMaps.LeftEntry(k, m1, m2, showK, showV, showS);
      forall e | e in last
        ensures !IsMarker(e)
      {
        assert e[0] == '+';
        NotMarkerByFirst(e);
      }
    }
  }

  /** Every entry of the second YAML loop starts with `-`. */
  lemma {:induction false} RightEntriesNotMarkers<K, V>(order: seq<K>, m1: map<K, V>, m2: map<K, V>,
                                                        showK: K -> string, showV: V -> string)
    requires forall k | k in order :: k in m2
    ensures forall e | e in GodiffMaps.RightEntries(order, m1, m2, showK, showV) :: !IsMarker(e)
  {
    if order != [] {
      var init := order[..|order| - 1];
      var k := order[|order| - 1];
      RightEntriesNotMarkers(init, m1, m2, showK, showV);
      if k !in m1 {
        var e := GodiffMaps.DestOnly(k, m2[k], showK, showV);
        assert e[0] == '-';
        NotMarkerByFirst(e);
      }
    }
  }

  // ---------------------------------------------------------------------
  // The type test and the colouring.

  /** `isIni(a) && isIni(b)`: the second test runs only when the first
      holds, and each panics on empty contents. */
  function BothIni(org: string, dest: string): (r: Result<bool>)
    ensures !r.Err?
    ensures r.Panic? <==> |org| == 0 || (org[0] == '[' && |dest| == 0)
    ensures r.Ok? ==> (r.value <==> org[0] == '[' && dest[0] == '[')
  {
    match IsIni(org)
    case Ok(first) =>
      if first then IsIni(dest) else Ok(false)
    case Err(e) => Err(e)
    case Panic(why) => Panic(why)
  }

  datatype Kind = IniKind | JsonKind | YamlKind | RawKind

  /** The branch `CompareFiles` takes: INI when both start with `[`, else
      JSON when both parse as JSON, else YAML when both parse as YAML, else
      the line comparison. */
  function Dispatch(org: string, dest: string, isJson: string -> bool, isYaml: string -> bool): (k: Result<Kind>)
    ensures !k.Err?
    ensures k.Panic? <==> |org| == 0 || (org[0] == '[' && |dest| == 0)
    ensures k == Ok(IniKind) <==> |org| > 0 && |dest| > 0 && org[0] == '[' && dest[0] == '['
    ensures k == Ok(JsonKind) <==> BothIni(org, dest) == Ok(false) && isJson(org) && isJson(dest)
    ensures k == Ok(YamlKind) <==>
      BothIni(org, dest) == Ok(false) && !(isJson(org) && isJson(dest)) && isYaml(org) && isYaml(dest)
  {
    match BothIni(org, dest)
    case Ok(ini) =>
      if ini then Ok(IniKind)
      else if isJson(org) && isJson(dest) then Ok(JsonKind)
      else if isYaml(org) && isYaml(dest) then Ok(YamlKind)
      else Ok(RawKind)
    case Err(e) => Err(e)
    case Panic(why) => Panic(why)
  }

  /** `CompareFiles` tests JSON before YAML, while `DetectType` of
      `pkg/common/utils.go` tests YAML first: a pair that parses both ways
      goes to the JSON branch although `DetectType` calls each file YAML. */
  lemma JsonBeforeYaml(org: string, dest: string, isJson: string -> bool, isYaml: string -> bool)
    requires |org| > 0 && |dest| > 0 && org[0] != '[' && dest[0] != '['
    requires isJson(org) && isJson(dest) && isYaml(org) && isYaml(dest)
    ensures Dispatch(org, dest, isJson, isYaml) == Ok(JsonKind)
    ensures DetectType(org, isYaml, isJson) == Ok("yaml") && DetectType(dest, isYaml, isJson) == Ok("yaml")
  {
    assert BothIni(org, dest) == Ok(false);
  }

  /** A report line with its colour: green for `+`, red for `-`. */
  function Paint(line: string): string {
    if HasPrefix(line, "+") then Green + line + Reset
    else if HasPrefix(line, "-") then Red + line + Reset
    else line
  }

  /** Colouring never adds or removes a line break: the colour codes hold
      none. */
  lemma PaintNewlines(line: string)
    ensures '\n' in Paint(line) <==> '\n' in line
  {
    assert '\n' !in Green && '\n' !in Red && '\n' !in Reset;
  }

  /** One printed line per report line. */
  function Colorize(line: string): string {
    Paint(line) + "\n"
  }

  function PaintAll(lines: seq<string>): (r: seq<string>)
    ensures |r| == |lines|
  {
    if lines == [] then [] else PaintAll(lines[..|lines| - 1]) + [Paint(lines[|lines| - 1])]
  }

  function ColorizeAll(lines: seq<string>): (r: seq<string>)
    ensures |r| == |lines|
  {
    if lines == [] then [] else ColorizeAll(lines[..|lines| - 1]) + [Colorize(lines[|lines| - 1])]
  }

  /** Painted line `i` is report line `i`, painted. */
  lemma {:induction false} PaintAllAt(lines: seq<string>, i: nat)
    requires i < |lines|
    ensures PaintAll(lines)[i] == Paint(lines[i])
  {
    if i < |lines| - 1 {
      var init := lines[..|lines| - 1];
      PaintAllAt(init, i);
      assert init[i] == lines[i];
    }
  }

  /** Printed line `i` is report line `i`, painted and terminated. */
  lemma {:induction false} ColorizeAllAt(lines: seq<string>, i: nat)
    requires i < |lines|
    ensures ColorizeAll(lines)[i] == Colorize(lines[i])
  {
    if i < |lines| - 1 {
      var init := lines[..|lines| - 1];
      ColorizeAllAt(init, i);
      assert init[i] == lines[i];
    }
  }

  lemma {:induction false} JoinColorized(lines: seq<string>)
    ensures Join(ColorizeAll(lines), "") == Join(PaintAll(lines) + [""], "\n")
  {
    if lines != [] {
      var init := lines[..|lines| - 1];
      var p := Paint(lines[|lines| - 1]);
      var ci, pi := ColorizeAll(init), PaintAll(init);
      JoinColorized(init);
      assert ColorizeAll(lines) == ci + [p + "\n"];
      assert PaintAll(lines) + [""] == (pi + [p]) + [""];
      JoinAppend(ci, p + "\n", "");
      JoinAppend(pi + [p], "", "\n");
      JoinAppend(pi, p, "\n");
      JoinAppend(pi, "", "\n");
      if |pi| != 0 {
        NewlineSteps(Join(pi, "\n"), p);
      }
    }
  }

  lemma NewlineSteps(j: string, p: string)
    ensures (j + "\n") + "" + (p + "\n") == (j + "\n" + p) + "\n"
  {
  }

  /** What `DiffFiles` prints, split at its line breaks, is the painted
      report lines followed by the empty text after the last break: nothing
      is lost, merged or split. */
  lemma PrintedLines(lines: seq<string>)
    requires forall l | l in lines :: '\n' !in l
    ensures Split(Join(ColorizeAll(lines), ""), '\n') == PaintAll(lines) + [""]
  {
    JoinColorized(lines);
    var painted := PaintAll(lines) + [""];
    forall p | p in painted ensures '\n' !in p {
      var i :| 0 <= i < |painted| && painted[i] == p;
      if i < |lines| {
        PaintAllAt(lines, i);
        PaintNewlines(lines[i]);
      }
    }
    SplitOfJoin(painted, '\n');
  }

  /** The `.diff` file `CompareFiles` writes. */
  datatype DiffFile = DiffFile(path: string, content: string)

  // ---------------------------------------------------------------------

  class CompareFileNames {
    var Origin: string
    var Destination: string
    var DiffReport: seq<string>

    /** Every marker in the report is followed by its entry; this keeps the
        right pass's `DiffReport[:index+2]` within the report. */
    ghost predicate Valid()
      reads this
    {
      MarkersFollowed(DiffReport)
    }

    constructor(origin: string, destination: string)
      ensures Origin == origin && Destination == destination && DiffReport == []
      ensures Valid()
    {
      Origin := origin;
      Destination := destination;
      DiffReport := [];
    }

    /** `Compare`: the line comparison of `CompareRawData`, run on the
        accumulated report, with the object's paths in the header. */
    method Compare(origin: string, destination: string)
      requires Valid()
      modifies this`DiffReport
      ensures DiffReport == RawDiff(old(DiffReport), Split(origin, '\n'), Split(destination, '\n'), Origin, Destination)
      ensures Valid()
    {
      DiffReport := RawLineDiff(DiffReport, Split(origin, '\n'), Split(destination, '\n'), Origin, Destination);
    }

    /** `CompareJsonFiles`: only the two parse errors come out; the report
        never changes. */
    method CompareJsonFiles(origin: string, dest: string,
                            doc1: Result<GodiffMaps.Json>, doc2: Result<GodiffMaps.Json>)
      returns (res: Result<()>)
      ensures res.Ok? <==> doc1.Ok? && doc2.Ok?
      ensures !doc1.Ok? ==> res == Err("Error unmarshalling " + origin + ", error: " + ErrorText(doc1))
      ensures doc1.Ok? && !doc2.Ok? ==> res == Err("Error unmarshalling " + dest + ", error: " + ErrorText(doc2))
    {
      if !doc1.Ok? {
        return Err("Error unmarshalling " + origin + ", error: " + ErrorText(doc1));
      }
      if !doc2.Ok? {
        return Err("Error unmarshalling " + dest + ", error: " + ErrorText(doc2));
      }
      return Ok(());
    }

    /** `CompareYamlFiles`: the entries of `CompareYAML`, appended to the
        report; nothing when the two maps are equal. */
    method CompareYamlFiles<K(==), V(==)>(origin: string, dest: string,
                                          doc1: Result<map<K, V>>, doc2: Result<map<K, V>>,
                                          showK: K -> string, showV: V -> string, showS: V -> string)
      returns (res: Result<()>, ghost o1: seq<K>, ghost o2: seq<K>)
      requires Valid()
      modifies this`DiffReport
      ensures !doc1.Ok? ==> res == Err("Error unmarshalling " + origin + ", error: " + ErrorText(doc1))
      ensures doc1.Ok? && !doc2.Ok? ==> res == Err("Error unmarshalling " + dest + ", error: " + ErrorText(doc2))
      ensures res.Err? ==> DiffReport == old(DiffReport)
      ensures doc1.Ok? && doc2.Ok? ==> res == Ok(())
      ensures doc1.Ok? && doc2.Ok? && doc1.value == doc2.value ==> DiffReport == old(DiffReport)
      ensures doc1.Ok? && doc2.Ok? && doc1.value != doc2.value ==>
        GodiffMaps.Enumerates(o1, doc1.value.Keys) && GodiffMaps.Enumerates(o2, doc2.value.Keys)
        && DiffReport == old(DiffReport)
                         + GodiffMaps.LeftEntries(o1, doc1.value, doc2.value, showK, showV, showS)
                         + GodiffMaps.RightEntries(o2, doc1.value, doc2.value, showK, showV)
      ensures Valid()
    {
      o1, o2 := [], [];
      if !doc1.Ok? {
        return Err("Error unmarshalling " + origin + ", error: " + ErrorText(doc1)), o1, o2;
      }
      if !doc2.Ok? {
        return Err("Error unmarshalling " + dest + ", error: " + ErrorText(doc2)), o1, o2;
      }
      var entries;
      entries, o1, o2 := GodiffMaps.YamlDiff(doc1.value, doc2.value, showK, showV, showS);
      if doc1.value != doc2.value {
        LeftEntriesNotMarkers(o1, doc1.value, doc2.value, showK, showV, showS);
        RightEntriesNotMarkers(o2, doc1.value, doc2.value, showK, showV);
      }
      AppendKeepsMarkersFollowed(DiffReport, entries);
      DiffReport := DiffReport + entries;
      return Ok(()), o1, o2;
    }

    /** `CompareIniFiles`: the load errors; a panic exactly when the first
        left section missing on the right finds its `-[S]` entry already in
        the report (otherwise the entry is appended and the loop stops); and
        on a normal return the report unchanged or the header, the old
        report and the new messages, holding every message built. */
    method CompareIniFiles(origin: string, dest: string,
                           doc1: Result<GodiffIni.IniDoc>, doc2: Result<GodiffIni.IniDoc>)
      returns (res: Result<()>)
      requires Valid()
      modifies this`DiffReport
      ensures !doc1.Ok? ==> res == Err("Error while loading file " + origin + ": " + ErrorText(doc1))
      ensures doc1.Ok? && !doc2.Ok? ==> res == Err("Erro while loading file " + dest + ": " + ErrorText(doc2))
      ensures doc1.Ok? && doc2.Ok? ==> !res.Err?
      ensures !res.Ok? ==> DiffReport == old(DiffReport)
      ensures res.Panic? <==>
        doc1.Ok? && doc2.Ok? && GodiffIni.FilesPanics(old(DiffReport), doc1.value, doc2.value)
      ensures res.Ok? ==> IniFilesReport(old(DiffReport), DiffReport, origin, dest, doc1.value, doc2.value)
      ensures Valid()
    {
      var r := GodiffIni.IniFilesDiff(DiffReport, doc1, doc2, origin, dest);
      match r
      case Ok(report) =>
        if report != DiffReport {
          IniReportKeepsMarkersFollowed(DiffReport, report, origin, dest, doc1.value, doc2.value);
        }
        DiffReport := report;
        res := Ok(());
      case Err(msg) =>
        res := Err(msg);
      case Panic(why) =>
        res := Panic(why);
    }

    /** `CompareFiles`: the read errors; the type test (which panics on an
        empty origin, or an empty destination after an origin starting with
        `[`); the comparison the test selects, with the line comparison as
        the fallback when the INI comparison fails; then the `.diff` file,
        written only for a non-empty report, and the report returned. */
    method CompareFiles(orgRead: Result<string>, destRead: Result<string>,
                        ini1: Result<GodiffIni.IniDoc>, ini2: Result<GodiffIni.IniDoc>,
                        json1: Result<GodiffMaps.Json>, json2: Result<GodiffMaps.Json>,
                        isJson: string -> bool, isYaml: string -> bool)
      returns (res: Result<seq<string>>, written: Option<DiffFile>)
      requires Valid()
      modifies this`DiffReport
      ensures !orgRead.Ok? ==>
        res == Err("Failed to open file: '" + Origin + "'. " + ErrorText(orgRead))
        && written == None && DiffReport == old(DiffReport)
      ensures orgRead.Ok? && !destRead.Ok? ==>
        res == Err("Failed to open file: '" + Destination + "'. " + ErrorText(destRead))
        && written == None && DiffReport == old(DiffReport)
      ensures orgRead.Ok? && destRead.Ok? ==> !res.Err?
      ensures res.Panic? ==> written == None && DiffReport == old(DiffReport)
      ensures res.Panic? <==>
        orgRead.Ok? && destRead.Ok?
        && (Dispatch(orgRead.value, destRead.value, isJson, isYaml).Panic?
            || (Dispatch(orgRead.value, destRead.value, isJson, isYaml) == Ok(IniKind) && ini1.Ok? && ini2.Ok?
                && GodiffIni.FilesPanics(old(DiffReport), ini1.value, ini2.value)))
      ensures res.Ok? ==>
        res.value == DiffReport
        && written == (if DiffReport == [] then None else Some(DiffFile(Origin + ".diff", Join(DiffReport, ""))))
      ensures orgRead.Ok? && destRead.Ok? ==>
        var kind := Dispatch(orgRead.value, destRead.value, isJson, isYaml);
        var raw := RawDiff(old(DiffReport), Split(orgRead.value, '\n'), Split(destRead.value, '\n'),
                           Origin, Destination);
        (kind == Ok(JsonKind) ==> DiffReport == old(DiffReport))
        && (kind == Ok(YamlKind) || kind == Ok(RawKind) ==> DiffReport == raw)
        && (kind == Ok(IniKind) && !(ini1.Ok? && ini2.Ok?) ==> DiffReport == raw)
        && (kind == Ok(IniKind) && ini1.Ok? && ini2.Ok? && res.Ok? ==>
              IniFilesReport(old(DiffReport), DiffReport, Origin, Destination, ini1.value, ini2.value))
      ensures Valid()
    {
      if !orgRead.Ok? {
        return Err("Failed to open file: '" + Origin + "'. " + ErrorText(orgRead)), None;
      }
      if !destRead.Ok? {
        return Err("Failed to open file: '" + Destination + "'. " + ErrorText(destRead)), None;
      }
      var org, dest := orgRead.value, destRead.value;
      var kind := Dispatch(org, dest, isJson, isYaml);
      match kind {
        case Panic(why) =>
          return Panic(why), None;
        case Err(e) =>
          return Err(e), None;
        case Ok(k) =>
          if k == IniKind {
            var iniRes := CompareIniFiles(Origin, Destination, ini1, ini2);
            if iniRes.Panic? {
              return Panic(iniRes.reason), None;
            }
            if iniRes.Err? {
              Compare(org, dest);
            }
          } else if k == JsonKind {
            // its parse errors are dropped
            var _ := CompareJsonFiles(org, dest, json1, json2);
          } else {
            Compare(org, dest);
          }
      }
      if |DiffReport| != 0 {
        written := Some(DiffFile(Origin + ".diff", Join(DiffReport, "")));
      } else {
        written := None;
      }
      res := Ok(DiffReport);
    }

    /** The comparison step of `DiffFiles`: a panic when either file is
        too short for the `[` test, or when the INI comparison reaches a
        left section missing on the right whose `-[S]` entry is already in
        the report; otherwise the report after the INI or the line
        comparison. */
    method CompareContents(org: string, dest: string,
                           ini1: Result<GodiffIni.IniDoc>, ini2: Result<GodiffIni.IniDoc>)
      returns (res: Result<()>)
      requires Valid()
      modifies this`DiffReport
      ensures !res.Err?
      ensures res.Panic? ==> DiffReport == old(DiffReport)
      ensures res.Panic? <==>
        BothIni(org, dest).Panic?
        || (BothIni(org, dest) == Ok(true) && ini1.Ok? && ini2.Ok?
            && GodiffIni.FilesPanics(old(DiffReport), ini1.value, ini2.value))
      ensures res.Ok? ==>
        var both := BothIni(org, dest);
        (both == Ok(false) ==>
           DiffReport == RawDiff(old(DiffReport), Split(org, '\n'), Split(dest, '\n'), Origin, Destination))
        && (both == Ok(true) && !(ini1.Ok? && ini2.Ok?) ==> DiffReport == old(DiffReport))
        && (both == Ok(true) && ini1.Ok? && ini2.Ok? ==>
              IniFilesReport(old(DiffReport), DiffReport, Origin, Destination, ini1.value, ini2.value))
    {
      var both := BothIni(org, dest);
      match both {
        case Panic(why) =>
          return Panic(why);
        case Err(e) =>
          return Err(e);
        case Ok(ini) =>
          if ini {
            var iniRes := CompareIniFiles(Origin, Destination, ini1, ini2);
            if iniRes.Panic? {
              return Panic(iniRes.reason);
            }
          } else {
            Compare(org, dest);
          }
      }
      res := Ok(());
    }

    /** `DiffFiles`: the INI comparison when both files start with `[`
        (its errors ignored), else the line comparison; then the report is
        re-cut at its line breaks and each line coloured. `compared` is the
        report after the comparison, `output` the lines printed. */
    method DiffFiles(orgRead: Result<string>, destRead: Result<string>,
                     ini1: Result<GodiffIni.IniDoc>, ini2: Result<GodiffIni.IniDoc>)
      returns (res: Result<()>, output: seq<string>, ghost compared: seq<string>)
      requires Valid()
      modifies this`DiffReport
      ensures !orgRead.Ok? ==>
        res == Err("Failed to open file: '" + Origin + "'. " + ErrorText(orgRead))
        && output == [] && DiffReport == old(DiffReport)
      ensures orgRead.Ok? && !destRead.Ok? ==>
        res == Err("Failed to open file: '" + Destination + "'. " + ErrorText(destRead))
        && output == [] && DiffReport == old(DiffReport)
      ensures orgRead.Ok? && destRead.Ok? ==> !res.Err?
      ensures res.Panic? ==> output == [] && DiffReport == old(DiffReport)
      ensures res.Panic? <==>
        orgRead.Ok? && destRead.Ok?
        && (BothIni(orgRead.value, destRead.value).Panic?
            || (BothIni(orgRead.value, destRead.value) == Ok(true) && ini1.Ok? && ini2.Ok?
                && GodiffIni.FilesPanics(old(DiffReport), ini1.value, ini2.value)))
      ensures res.Ok? ==>
        var both := BothIni(orgRead.value, destRead.value);
        (both == Ok(false) ==>
           compared == RawDiff(old(DiffReport), Split(orgRead.value, '\n'), Split(destRead.value, '\n'),
                               Origin, Destination))
        && (both == Ok(true) && !(ini1.Ok? && ini2.Ok?) ==> compared == old(DiffReport))
        && (both == Ok(true) && ini1.Ok? && ini2.Ok? ==>
              IniFilesReport(old(DiffReport), compared, Origin, Destination, ini1.value, ini2.value))
        && DiffReport == Split(Join(compared, ""), '\n')
        && output == ColorizeAll(DiffReport)
    {
      output, compared := [], DiffReport;
      if !orgRead.Ok? {
        return Err("Failed to open file: '" + Origin + "'. " + ErrorText(orgRead)), output, compared;
      }
      if !destRead.Ok? {
        return Err("Failed to open file: '" + Destination + "'. " + ErrorText(destRead)), output, compared;
      }
      var compareRes := CompareContents(orgRead.value, destRead.value, ini1, ini2);
      if compareRes.Panic? {
        return Panic(compareRes.reason), output, compared;
      }
      compared := DiffReport;
      DiffReport := Split(Join(DiffReport, ""), '\n');
      output := ColorizeLines(DiffReport);
      res := Ok(());
    }
  }

  /** The printing loop of `DiffFiles`: each line coloured. */
  method ColorizeLines(lines: seq<string>) returns (output: seq<string>)
    ensures output == ColorizeAll(lines)
  {
    output := [];
    for i := 0 to |lines|
      invariant output == ColorizeAll(lines[..i])
    {
      assert lines[..i + 1][..i] == lines[..i];
      output := output + [Colorize(lines[i])];
    }
    assert lines[..|lines|] == lines;
  }
}
