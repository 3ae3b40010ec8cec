/** The INI comparator `CompareIni` of `pkg/godiff/utils.go`, over parsed
    documents. A document is its list of sections, each with its list of
    keys; looking a section or a key up by name finds the first one with
    that name. */
module GodiffIni {
  import opened GoStrings
  import opened Results
  import opened CommonUtils
  import GodiffRaw

  datatype IniKey = IniKey(name: string, value: string)
  datatype IniSection = IniSection(name: string, keys: seq<IniKey>)
  type IniDoc = seq<IniSection>

  /** `GetSection`: the first section called `name`, if any. */
  function GetSection(doc: IniDoc, name: string): (s: Option<IniSection>)
    ensures s.None? <==> forall i | 0 <= i < |doc| :: doc[i].name != name
    ensures s.Some? ==> s.value.name == name
  {
    if |doc| == 0 then None
    else if doc[0].name == name then Some(doc[0])
    else GetSection(doc[1..], name)
  }

  /** The section found is one of the document's. */
  lemma {:induction false} GetSectionIn(doc: IniDoc, name: string)
    ensures GetSection(doc, name).Some? ==> GetSection(doc, name).value in doc
  {
    if |doc| > 0 && doc[0].name != name {
      GetSectionIn(doc[1..], name);
    }
  }

  /** `GetKey`: the first key called `name` in the section, if any. */
  function GetKey(sec: IniSection, name: string): (k: Option<IniKey>)
    ensures k.None? <==> forall j | 0 <= j < |sec.keys| :: sec.keys[j].name != name
    ensures k.Some? ==> k.value.name == name
  {
    FindKey(sec.keys, name)
  }

  function FindKey(keys: seq<IniKey>, name: string): (k: Option<IniKey>)
    ensures k.None? <==> forall j | 0 <= j < |keys| :: keys[j].name != name
    ensures k.Some? ==> k.value.name == name
  {
    if |keys| == 0 then None
    else if keys[0].name == name then Some(keys[0])
    else FindKey(keys[1..], name)
  }

  /** The key found is one of the section's. */
  lemma {:induction false} FindKeyIn(keys: seq<IniKey>, name: string)
    ensures FindKey(keys, name).Some? ==> FindKey(keys, name).value in keys
  {
    if |keys| > 0 && keys[0].name != name {
      FindKeyIn(keys[1..], name);
    }
  }

  /** `<sign><name>=<value>\n`. */
  function KeyEntry(sign: char, k: IniKey): string {
    [sign] + k.name + "=" + k.value + "\n"
  }

  /** The entry for a section that the other file lacks. */
  function MissingSection(name: string): string {
    "-[" + name + "]\n"
  }

  /** A message carrying its section's `[name]` line in front. */
  function InSection(name: string, body: string): string {
    "[" + name + "]\n" + body
  }

  /** `e` is `body`, with or without the section line in front (only the
      first message built for a section carries it). */
  predicate Tagged(e: string, name: string, body: string) {
    e == body || e == InSection(name, body)
  }

  predicate KeyMissing(k: IniKey, sec: IniSection) {
    GetKey(sec, k.name).None?
  }

  /** Key `k` of a left section has no counterpart, or another value, in `sec2`. */
  predicate KeyDiffers(k: IniKey, sec2: IniSection) {
    GetKey(sec2, k.name).None? || GetKey(sec2, k.name).value.value != k.value
  }

  /** Key `k` of a left section gets a message: the right section or the
      key is missing, or the values differ. */
  predicate LeftKeyDiffers(k: IniKey, s2: Option<IniSection>) {
    s2.None? || KeyDiffers(k, s2.value)
  }

  /** The left section `sec1` is missing on the right, or the two sections
      disagree on a key. */
  predicate SectionDiffers(sec1: IniSection, cfg2: IniDoc) {
    var s2 := GetSection(cfg2, sec1.name);
    s2.None?
    || (exists j | 0 <= j < |sec1.keys| :: KeyDiffers(sec1.keys[j], s2.value))
    || (exists j | 0 <= j < |s2.value.keys| :: KeyMissing(s2.value.keys[j], sec1))
  }

  /** The two documents differ: some left section differs from its
      counterpart, or some right section is missing on the left. */
  predicate IniDiffers(cfg1: IniDoc, cfg2: IniDoc) {
    (exists i | 0 <= i < |cfg1| :: SectionDiffers(cfg1[i], cfg2))
    || (exists i | 0 <= i < |cfg2| :: GetSection(cfg1, cfg2[i].name).None?)
  }

  /** `sectionFound` when the left loop reaches key `j` of `sec1`: some
      earlier key of the section drew a message. */
  predicate TaggedBefore(sec1: IniSection, s2: Option<IniSection>, j: int) {
    exists j' | 0 <= j' < j && j' < |sec1.keys| :: LeftKeyDiffers(sec1.keys[j'], s2)
  }

  /** `sectionFound` when the loop over the right section `sec2` reaches its
      key `j`: a key of the left loop or an earlier right key drew a message. */
  predicate RightTaggedBefore(sec1: IniSection, sec2: IniSection, j: int) {
    TaggedBefore(sec1, Some(sec2), |sec1.keys|)
    || exists j' | 0 <= j' < j && j' < |sec2.keys| :: KeyMissing(sec2.keys[j'], sec1)
  }

  /** The text `CompareIni` reports for a left key: `-k=v` when the right
      side lacks it, `-k=v1` then `+k=v2` when the values differ. */
  function LeftBody(k: IniKey, s2: Option<IniSection>): string
    requires LeftKeyDiffers(k, s2)
  {
    if s2.None? || KeyMissing(k, s2.value) then KeyEntry('-', k)
    else KeyEntry('-', k) + KeyEntry('+', GetKey(s2.value, k.name).value)
  }

  /** The message `CompareIni` builds for key `j` of the left section `sec1`. */
  function LeftMsg(sec1: IniSection, s2: Option<IniSection>, j: int): string
    requires 0 <= j < |sec1.keys| && LeftKeyDiffers(sec1.keys[j], s2)
  {
    Tag(sec1.name, LeftBody(sec1.keys[j], s2), TaggedBefore(sec1, s2, j))
  }

  /** The message `CompareIni` builds for key `j` of the right section
      `sec2` that the left section `sec1` lacks: `+k=v`. */
  function RightMsg(sec1: IniSection, sec2: IniSection, j: int): string
    requires 0 <= j < |sec2.keys| && KeyMissing(sec2.keys[j], sec1)
  {
    Tag(sec2.name, KeyEntry('+', sec2.keys[j]), RightTaggedBefore(sec1, sec2, j))
  }

  predicate LeftKeyMsg(e: string, sec1: IniSection, s2: Option<IniSection>, j: int) {
    0 <= j < |sec1.keys| && LeftKeyDiffers(sec1.keys[j], s2) && e == LeftMsg(sec1, s2, j)
  }

  predicate RightKeyMsg(e: string, sec1: IniSection, sec2: IniSection, j: int) {
    0 <= j < |sec2.keys| && KeyMissing(sec2.keys[j], sec1) && e == RightMsg(sec1, sec2, j)
  }

  /** The messages `CompareIni` builds, each for the difference it reports. */
  predicate IniCandidate(e: string, cfg1: IniDoc, cfg2: IniDoc) {
    MissingLeftSection(e, cfg1, cfg2) || SomeLeftKeyMsg(e, cfg1, cfg2) || SomeRightKeyMsg(e, cfg1, cfg2)
    || MissingRightSection(e, cfg1, cfg2) || RightOnlyKeyMsg(e, cfg1, cfg2)
  }

  /** `-[S]` for a left section the right side lacks. */
  predicate MissingLeftSection(e: string, cfg1: IniDoc, cfg2: IniDoc) {
    exists i | 0 <= i < |cfg1| :: GetSection(cfg2, cfg1[i].name).None? && e == MissingSection(cfg1[i].name)
  }

  /** The message of a differing key of some left section. */
  predicate SomeLeftKeyMsg(e: string, cfg1: IniDoc, cfg2: IniDoc) {
    exists i, j | 0 <= i < |cfg1| && 0 <= j < |cfg1[i].keys| ::
      LeftKeyMsg(e, cfg1[i], GetSection(cfg2, cfg1[i].name), j)
  }

  /** The message of a key that the right counterpart of some left section
      has and the left section lacks. */
  predicate SomeRightKeyMsg(e: string, cfg1: IniDoc, cfg2: IniDoc) {
    exists i, j | 0 <= i < |cfg1| && GetSection(cfg2, cfg1[i].name).Some?
                  && 0 <= j < |GetSection(cfg2, cfg1[i].name).value.keys| ::
      RightKeyMsg(e, cfg1[i], GetSection(cfg2, cfg1[i].name).value, j)
  }

  /** `-[S]` for a right section the left side lacks. */
  predicate MissingRightSection(e: string, cfg1: IniDoc, cfg2: IniDoc) {
    exists i | 0 <= i < |cfg2| :: GetSection(cfg1, cfg2[i].name).None? && e == MissingSection(cfg2[i].name)
  }

  /** `-k=v` for a key of a right section the left side lacks. */
  predicate RightOnlyKeyMsg(e: string, cfg1: IniDoc, cfg2: IniDoc) {
    exists i, j | 0 <= i < |cfg2| && 0 <= j < |cfg2[i].keys| ::
      GetSection(cfg1, cfg2[i].name).None? && e == KeyEntry('-', cfg2[i].keys[j])
  }

  /** What the first loop reports for the left section `sec1`: `-[S]` when
      the right side lacks it, and the message of each differing key of
      either side. */
  predicate LeftSectionReported(report: seq<string>, sec1: IniSection, cfg2: IniDoc) {
    (GetSection(cfg2, sec1.name).None? ==> MissingSection(sec1.name) in report)
    && LeftKeysReported(report, sec1, GetSection(cfg2, sec1.name), |sec1.keys|)
    && (GetSection(cfg2, sec1.name).Some? ==>
          RightKeysReported(report, sec1, GetSection(cfg2, sec1.name).value, |GetSection(cfg2, sec1.name).value.keys|))
  }

  /** The message of every differing key of `sec1` before key `n` is in the report. */
  predicate LeftKeysReported(report: seq<string>, sec1: IniSection, s2: Option<IniSection>, n: int) {
    forall j {:trigger LeftMsg(sec1, s2, j)} | 0 <= j < n && j < |sec1.keys| && LeftKeyDiffers(sec1.keys[j], s2) ::
      LeftMsg(sec1, s2, j) in report
  }

  /** The message of every key of `sec2` before key `n` that `sec1` lacks is in the report. */
  predicate RightKeysReported(report: seq<string>, sec1: IniSection, sec2: IniSection, n: int) {
    forall j {:trigger RightMsg(sec1, sec2, j)} | 0 <= j < n && j < |sec2.keys| && KeyMissing(sec2.keys[j], sec1) ::
      RightMsg(sec1, sec2, j) in report
  }

  /** What the second loop reports for a right section the left side
      lacks: `-[S]` and `-k=v` for each of its keys. */
  predicate RightSectionReported(report: seq<string>, sec2: IniSection, cfg1: IniDoc) {
    GetSection(cfg1, sec2.name).None? ==>
      MissingSection(sec2.name) in report
      && forall j | 0 <= j < |sec2.keys| :: KeyEntry('-', sec2.keys[j]) in report
  }

  predicate LeftComplete(report: seq<string>, cfg1: IniDoc, cfg2: IniDoc) {
    forall i | 0 <= i < |cfg1| :: LeftSectionReported(report, cfg1[i], cfg2)
  }

  predicate RightComplete(report: seq<string>, cfg1: IniDoc, cfg2: IniDoc) {
    forall i | 0 <= i < |cfg2| :: RightSectionReported(report, cfg2[i], cfg1)
  }

  /** The report invariant of `CompareIni`'s loops. */
  predicate ReportOk(report: seq<string>, diffFound: bool, cfg1: IniDoc, cfg2: IniDoc) {
    NoDup(report) && (diffFound <==> report != [])
    && forall e | e in report :: IniCandidate(e, cfg1, cfg2)
  }

  /** A message with the section line in front unless one was already
      built for this section. */
  function Tag(name: string, body: string, sectionFound: bool): (e: string)
    ensures Tagged(e, name, body)
    ensures sectionFound ==> e == body
    ensures !sectionFound ==> e == InSection(name, body) && e != body
  {
    if sectionFound then body else InSection(name, body)
  }

  /** The `if !stringInSlice(msg, report)` guard around every append:
      `msg` is added unless already present, and sets the flag when added. */
  method AddOnce(report: seq<string>, diffFound: bool, msg: string, ghost cfg1: IniDoc, ghost cfg2: IniDoc)
    returns (r: seq<string>, found: bool)
    requires ReportOk(report, diffFound, cfg1, cfg2)
    requires IniCandidate(msg, cfg1, cfg2)
    ensures ReportOk(r, found, cfg1, cfg2)
    ensures r == if msg in report then report else report + [msg]
    ensures found == (diffFound || msg !in report)
  {
    var present := StringInSlice(msg, report);
    r, found := report, diffFound;
    if !present {
      found := true;
      r := report + [msg];
    }
  }

  /** One more key: the section is tagged once key `j` has been looked at
      exactly when it was tagged before or key `j` differs. */
  lemma TaggedStep(sec1: IniSection, s2: Option<IniSection>, j: nat)
    requires j < |sec1.keys|
    ensures TaggedBefore(sec1, s2, j + 1) <==> TaggedBefore(sec1, s2, j) || LeftKeyDiffers(sec1.keys[j], s2)
  {
    if TaggedBefore(sec1, s2, j + 1) && !LeftKeyDiffers(sec1.keys[j], s2) {
      var j' :| 0 <= j' < j + 1 && j' < |sec1.keys| && LeftKeyDiffers(sec1.keys[j'], s2);
      assert j' < j;
    }
  }

  lemma RightTaggedStep(sec1: IniSection, sec2: IniSection, j: nat)
    requires j < |sec2.keys|
    ensures RightTaggedBefore(sec1, sec2, j + 1) <==> RightTaggedBefore(sec1, sec2, j) || KeyMissing(sec2.keys[j], sec1)
  {
    if RightTaggedBefore(sec1, sec2, j + 1) && !RightTaggedBefore(sec1, sec2, j) {
      var j' :| 0 <= j' < j + 1 && j' < |sec2.keys| && KeyMissing(sec2.keys[j'], sec1);
      assert j' == j;
    }
  }

  lemma RightTaggedStart(sec1: IniSection, sec2: IniSection)
    ensures RightTaggedBefore(sec1, sec2, 0) <==> TaggedBefore(sec1, Some(sec2), |sec1.keys|)
  {
  }

  /** A message in a report is still there once the report has grown. */
  lemma InGrown(a: seq<string>, b: seq<string>)
    requires a <= b
    ensures forall e | e in a :: e in b
  {
    forall e | e in a ensures e in b {
      var k :| 0 <= k < |a| && a[k] == e;
      assert b[k] == e;
    }
  }

  lemma LeftKeysStep(a: seq<string>, b: seq<string>, sec1: IniSection, s2: Option<IniSection>, j: nat)
    requires a <= b && LeftKeysReported(a, sec1, s2, j) && j < |sec1.keys|
    requires LeftKeyDiffers(sec1.keys[j], s2) ==> LeftMsg(sec1, s2, j) in b
    ensures LeftKeysReported(b, sec1, s2, j + 1)
  {
    InGrown(a, b);
  }

  lemma RightKeysStep(a: seq<string>, b: seq<string>, sec1: IniSection, sec2: IniSection, j: nat)
    requires a <= b && RightKeysReported(a, sec1, sec2, j) && j < |sec2.keys|
    requires KeyMissing(sec2.keys[j], sec1) ==> RightMsg(sec1, sec2, j) in b
    ensures RightKeysReported(b, sec1, sec2, j + 1)
  {
    InGrown(a, b);
  }

  /** A message in a report is still there once the header is put in front. */
  lemma InFront(h: string, a: seq<string>)
    ensures forall e | e in a :: e in [h] + a
  {
    forall e | e in a ensures e in [h] + a {
      var k :| 0 <= k < |a| && a[k] == e;
      assert ([h] + a)[k + 1] == e;
    }
  }

  /** The body of the loop over the keys of the left section `cfg1[i]`, for
      key `j`: a key missing on the right, or with another value there, gets
      its message. */
  method LeftKey(report: seq<string>, diffFound: bool, cfg1: IniDoc, cfg2: IniDoc, i: nat, j: nat, tagged: bool,
                 ghost left: IniSection, ghost right: Option<IniSection>)
    returns (r: seq<string>, found: bool, tagged': bool)
    requires i < |cfg1| && left == cfg1[i] && right == GetSection(cfg2, left.name) && j < |left.keys|
    requires tagged == TaggedBefore(left, right, j)
    requires ReportOk(report, diffFound, cfg1, cfg2)
    ensures ReportOk(r, found, cfg1, cfg2)
    ensures report <= r
    ensures tagged' == TaggedBefore(left, right, j + 1)
    ensures LeftKeyDiffers(left.keys[j], right) ==> LeftMsg(left, right, j) in r
  {
    var sec1 := cfg1[i];
    var sec2 := GetSection(cfg2, sec1.name);
    var key1 := sec1.keys[j];
    TaggedStep(sec1, sec2, j);
    r, found, tagged' := report, diffFound, tagged;
    var msg;
    if sec2.None? {
      msg := Tag(sec1.name, KeyEntry('-', key1), tagged);
    } else {
      var key2 := GetKey(sec2.value, key1.name);
      if key2.None? {
        msg := Tag(sec1.name, KeyEntry('-', key1), tagged);
      } else if key1.value != key2.value.value {
        msg := Tag(sec1.name, KeyEntry('-', key1) + KeyEntry('+', key2.value), tagged);
      } else {
        return;
      }
    }
    assert LeftKeyMsg(msg, cfg1[i], GetSection(cfg2, cfg1[i].name), j);
    tagged' := true;
    r, found := AddOnce(r, found, msg, cfg1, cfg2);
  }

  /** The loop over the keys of the left section `cfg1[i]`: each key that is
      missing on the right, or has another value there, gets its message. */
  method LeftKeys(report: seq<string>, diffFound: bool, cfg1: IniDoc, cfg2: IniDoc, i: nat)
    returns (r: seq<string>, found: bool, tagged: bool)
    requires i < |cfg1|
    requires ReportOk(report, diffFound, cfg1, cfg2)
    ensures ReportOk(r, found, cfg1, cfg2)
    ensures report <= r
    ensures tagged == TaggedBefore(cfg1[i], GetSection(cfg2, cfg1[i].name), |cfg1[i].keys|)
    ensures LeftKeysReported(r, cfg1[i], GetSection(cfg2, cfg1[i].name), |cfg1[i].keys|)
  {
    var sec1 := cfg1[i];
    var sec2 := GetSection(cfg2, sec1.name);
    r, found, tagged := report, diffFound, false;
    for j := 0 to |sec1.keys|
      invariant ReportOk(r, found, cfg1, cfg2)
      invariant report <= r
      invariant tagged == TaggedBefore(sec1, sec2, j)
      invariant LeftKeysReported(r, sec1, sec2, j)
    {
      var before := r;
      r, found, tagged := LeftKey(r, found, cfg1, cfg2, i, j, tagged, sec1, sec2);
      LeftKeysStep(before, r, sec1, sec2, j);
    }
  }

  /** The body of the loop over the keys of the right counterpart of
      `cfg1[i]`, for key `j`: a key the left section lacks gets its message. */
  method RightKey(report: seq<string>, diffFound: bool, cfg1: IniDoc, cfg2: IniDoc, i: nat, j: nat, tagged: bool,
                  ghost left: IniSection, ghost right: IniSection)
    returns (r: seq<string>, found: bool, tagged': bool)
    requires i < |cfg1| && left == cfg1[i] && GetSection(cfg2, left.name) == Some(right) && j < |right.keys|
    requires tagged == RightTaggedBefore(left, right, j)
    requires ReportOk(report, diffFound, cfg1, cfg2)
    ensures ReportOk(r, found, cfg1, cfg2)
    ensures report <= r
    ensures tagged' == RightTaggedBefore(left, right, j + 1)
    ensures KeyMissing(right.keys[j], left) ==> RightMsg(left, right, j) in r
  {
    var sec1 := cfg1[i];
    var sec2 := GetSection(cfg2, sec1.name).value;
    var key2 := sec2.keys[j];
    RightTaggedStep(sec1, sec2, j);
    r, found, tagged' := report, diffFound, tagged;
    if GetKey(sec1, key2.name).None? {
      var msg := Tag(sec2.name, KeyEntry('+', key2), tagged);
      assert RightKeyMsg(msg, cfg1[i], GetSection(cfg2, cfg1[i].name).value, j);
      tagged' := true;
      r, found := AddOnce(r, found, msg, cfg1, cfg2);
    }
  }

  /** The loop over the keys of the right counterpart of `cfg1[i]`: each key
      the left section lacks gets its message. */
  method RightKeys(report: seq<string>, diffFound: bool, cfg1: IniDoc, cfg2: IniDoc, i: nat, sectionFound: bool)
    returns (r: seq<string>, found: bool)
    requires i < |cfg1| && GetSection(cfg2, cfg1[i].name).Some?
    requires sectionFound == TaggedBefore(cfg1[i], GetSection(cfg2, cfg1[i].name), |cfg1[i].keys|)
    requires ReportOk(report, diffFound, cfg1, cfg2)
    ensures ReportOk(r, found, cfg1, cfg2)
    ensures report <= r
    ensures RightKeysReported(r, cfg1[i], GetSection(cfg2, cfg1[i].name).value,
                              |GetSection(cfg2, cfg1[i].name).value.keys|)
  {
    var sec1 := cfg1[i];
    var sec2 := GetSection(cfg2, sec1.name).value;
    var tagged := sectionFound;
    RightTaggedStart(sec1, sec2);
    r, found := report, diffFound;
    for j := 0 to |sec2.keys|
      invariant ReportOk(r, found, cfg1, cfg2)
      invariant report <= r
      invariant tagged == RightTaggedBefore(sec1, sec2, j)
      invariant RightKeysReported(r, sec1, sec2, j)
    {
      var before := r;
      r, found, tagged := RightKey(r, found, cfg1, cfg2, i, j, tagged, sec1, sec2);
      RightKeysStep(before, r, sec1, sec2, j);
    }
  }

  lemma LeftSectionGrows(a: seq<string>, b: seq<string>, sec1: IniSection, cfg2: IniDoc)
    requires a <= b && LeftSectionReported(a, sec1, cfg2)
    ensures LeftSectionReported(b, sec1, cfg2)
  {
    InGrown(a, b);
  }

  lemma RightSectionGrows(a: seq<string>, b: seq<string>, sec2: IniSection, cfg1: IniDoc)
    requires a <= b && RightSectionReported(a, sec2, cfg1)
    ensures RightSectionReported(b, sec2, cfg1)
  {
    InGrown(a, b);
  }

  /** The first loop's body for the left section `cfg1[i]`: `-[S]` when the
      right side lacks the section, then the key messages of both sides. */
  method LeftSection(report: seq<string>, diffFound: bool, cfg1: IniDoc, cfg2: IniDoc, i: nat)
    returns (r: seq<string>, found: bool)
    requires i < |cfg1|
    requires ReportOk(report, diffFound, cfg1, cfg2)
    ensures ReportOk(r, found, cfg1, cfg2)
    ensures report <= r
    ensures LeftSectionReported(r, cfg1[i], cfg2)
  {
    var sec1 := cfg1[i];
    var sec2 := GetSection(cfg2, sec1.name);
    r, found := report, diffFound;
    if sec2.None? {
      r, found := AddOnce(r, found, MissingSection(sec1.name), cfg1, cfg2);
    }
    var r1 := r;
    var tagged;
    r, found, tagged := LeftKeys(r, found, cfg1, cfg2, i);
    var r2 := r;
    if sec2.Some? {
      r, found := RightKeys(r, found, cfg1, cfg2, i, tagged);
    }
    InGrown(r1, r);
    InGrown(r2, r);
  }

  /** The second loop's body for the right section `cfg2[i]`: when the left
      side lacks it, `-[S]` and `-k=v` for each of its keys. */
  method RightOnlySection(report: seq<string>, diffFound: bool, cfg1: IniDoc, cfg2: IniDoc, i: nat)
    returns (r: seq<string>, found: bool)
    requires i < |cfg2|
    requires ReportOk(report, diffFound, cfg1, cfg2)
    ensures ReportOk(r, found, cfg1, cfg2)
    ensures report <= r
    ensures RightSectionReported(r, cfg2[i], cfg1)
  {
    var sec2 := cfg2[i];
    r, found := report, diffFound;
    if GetSection(cfg1, sec2.name).None? {
      r, found := AddOnce(r, found, MissingSection(sec2.name), cfg1, cfg2);
      var r1 := r;
      for j := 0 to |sec2.keys|
        invariant ReportOk(r, found, cfg1, cfg2)
        invariant report <= r1 <= r
        invariant MissingSection(sec2.name) in r1
        invariant forall j' | 0 <= j' < j :: KeyEntry('-', sec2.keys[j']) in r
      {
        var keyMsg := KeyEntry('-', sec2.keys[j]);
        assert GetSection(cfg1, cfg2[i].name).None? && keyMsg == KeyEntry('-', cfg2[i].keys[j]);
        var present := StringInSlice(keyMsg, r);
        if !present {
          r := r + [keyMsg];
        }
      }
      InGrown(r1, r);
    }
  }

  /** Every message states a difference, so it can only appear when the
      documents differ. */
  lemma CandidateShowsDifference(e: string, cfg1: IniDoc, cfg2: IniDoc)
    requires IniCandidate(e, cfg1, cfg2)
    ensures IniDiffers(cfg1, cfg2)
  {
    if MissingLeftSection(e, cfg1, cfg2) {
      var i :| 0 <= i < |cfg1| && GetSection(cfg2, cfg1[i].name).None? && e == MissingSection(cfg1[i].name);
      assert SectionDiffers(cfg1[i], cfg2);
    } else if SomeLeftKeyMsg(e, cfg1, cfg2) {
      var i, j :| 0 <= i < |cfg1| && 0 <= j < |cfg1[i].keys| &&
        LeftKeyMsg(e, cfg1[i], GetSection(cfg2, cfg1[i].name), j);
      var s2 := GetSection(cfg2, cfg1[i].name);
      if s2.Some? {
        assert KeyDiffers(cfg1[i].keys[j], s2.value);
      }
      assert SectionDiffers(cfg1[i], cfg2);
    } else if SomeRightKeyMsg(e, cfg1, cfg2) {
      var i, j :| 0 <= i < |cfg1| && GetSection(cfg2, cfg1[i].name).Some?
                  && 0 <= j < |GetSection(cfg2, cfg1[i].name).value.keys| &&
        RightKeyMsg(e, cfg1[i], GetSection(cfg2, cfg1[i].name).value, j);
      assert KeyMissing(GetSection(cfg2, cfg1[i].name).value.keys[j], cfg1[i]);
      assert SectionDiffers(cfg1[i], cfg2);
    } else if MissingRightSection(e, cfg1, cfg2) {
      var i :| 0 <= i < |cfg2| && GetSection(cfg1, cfg2[i].name).None? && e == MissingSection(cfg2[i].name);
    } else {
      var i, j :| 0 <= i < |cfg2| && 0 <= j < |cfg2[i].keys| &&
        GetSection(cfg1, cfg2[i].name).None? && e == KeyEntry('-', cfg2[i].keys[j]);
    }
  }

  /** The converse: whenever the documents differ, there is a message to
      report. */
  lemma DifferenceHasCandidate(cfg1: IniDoc, cfg2: IniDoc)
    requires IniDiffers(cfg1, cfg2)
    ensures exists e :: IniCandidate(e, cfg1, cfg2)
  {
    if exists i | 0 <= i < |cfg1| :: SectionDiffers(cfg1[i], cfg2) {
      var i :| 0 <= i < |cfg1| && SectionDiffers(cfg1[i], cfg2);
      var e := SectionMsg(cfg1, cfg2, i);
      assert IniCandidate(e, cfg1, cfg2);
    } else {
      var i :| 0 <= i < |cfg2| && GetSection(cfg1, cfg2[i].name).None?;
      assert MissingRightSection(MissingSection(cfg2[i].name), cfg1, cfg2);
      assert IniCandidate(MissingSection(cfg2[i].name), cfg1, cfg2);
    }
  }

  /** A left section that differs has a message of the first loop. */
  lemma SectionMsg(cfg1: IniDoc, cfg2: IniDoc, i: nat) returns (e: string)
    requires i < |cfg1| && SectionDiffers(cfg1[i], cfg2)
    ensures MissingLeftSection(e, cfg1, cfg2) || SomeLeftKeyMsg(e, cfg1, cfg2) || SomeRightKeyMsg(e, cfg1, cfg2)
  {
    var s2 := GetSection(cfg2, cfg1[i].name);
    if s2.None? {
      e := MissingSection(cfg1[i].name);
      assert MissingLeftSection(e, cfg1, cfg2);
    } else if exists j | 0 <= j < |cfg1[i].keys| :: KeyDiffers(cfg1[i].keys[j], s2.value) {
      var j :| 0 <= j < |cfg1[i].keys| && KeyDiffers(cfg1[i].keys[j], s2.value);
      e := LeftMsg(cfg1[i], s2, j);
      assert LeftKeyMsg(e, cfg1[i], GetSection(cfg2, cfg1[i].name), j);
      assert SomeLeftKeyMsg(e, cfg1, cfg2);
    } else {
      var j :| 0 <= j < |s2.value.keys| && KeyMissing(s2.value.keys[j], cfg1[i]);
      e := RightMsg(cfg1[i], s2.value, j);
      assert RightKeyMsg(e, cfg1[i], GetSection(cfg2, cfg1[i].name).value, j);
      assert SomeRightKeyMsg(e, cfg1, cfg2);
    }
  }

  /** Once every section is reported on, every message is in the report. */
  lemma CompleteCovers(report: seq<string>, cfg1: IniDoc, cfg2: IniDoc)
    requires LeftComplete(report, cfg1, cfg2) && RightComplete(report, cfg1, cfg2)
    ensures forall e | IniCandidate(e, cfg1, cfg2) :: e in report
  {
    forall e | IniCandidate(e, cfg1, cfg2) ensures e in report {
      if MissingLeftSection(e, cfg1, cfg2) {
        var i :| 0 <= i < |cfg1| && GetSection(cfg2, cfg1[i].name).None? && e == MissingSection(cfg1[i].name);
        assert LeftSectionReported(report, cfg1[i], cfg2);
      } else if SomeLeftKeyMsg(e, cfg1, cfg2) {
        var i, j :| 0 <= i < |cfg1| && 0 <= j < |cfg1[i].keys| &&
          LeftKeyMsg(e, cfg1[i], GetSection(cfg2, cfg1[i].name), j);
        assert LeftSectionReported(report, cfg1[i], cfg2);
      } else if SomeRightKeyMsg(e, cfg1, cfg2) {
        var i, j :| 0 <= i < |cfg1| && GetSection(cfg2, cfg1[i].name).Some?
                    && 0 <= j < |GetSection(cfg2, cfg1[i].name).value.keys| &&
          RightKeyMsg(e, cfg1[i], GetSection(cfg2, cfg1[i].name).value, j);
        assert LeftSectionReported(report, cfg1[i], cfg2);
      } else if MissingRightSection(e, cfg1, cfg2) {
        var i :| 0 <= i < |cfg2| && GetSection(cfg1, cfg2[i].name).None? && e == MissingSection(cfg2[i].name);
        assert RightSectionReported(report, cfg2[i], cfg1);
      } else {
        var i, j :| 0 <= i < |cfg2| && 0 <= j < |cfg2[i].keys| &&
          GetSection(cfg1, cfg2[i].name).None? && e == KeyEntry('-', cfg2[i].keys[j]);
        assert RightSectionReported(report, cfg2[i], cfg1);
      }
    }
  }

  /** No message starts like the header does. */
  lemma CandidateNotHeader(e: string, cfg1: IniDoc, cfg2: IniDoc, origin: string, dest: string)
    requires IniCandidate(e, cfg1, cfg2)
    ensures e != GodiffRaw.Header(origin, dest)
  {
    assert GodiffRaw.Header(origin, dest)[0] == 'S';
    CandidateStart(e, cfg1, cfg2);
  }

  /** Every message starts with `[`, `-` or `+`. */
  lemma CandidateStart(e: string, cfg1: IniDoc, cfg2: IniDoc)
    requires IniCandidate(e, cfg1, cfg2)
    ensures |e| > 0 && e[0] != 'S'
  {
    if MissingLeftSection(e, cfg1, cfg2) {
      var i :| 0 <= i < |cfg1| && GetSection(cfg2, cfg1[i].name).None? && e == MissingSection(cfg1[i].name);
      assert e[0] == '-';
    } else if SomeLeftKeyMsg(e, cfg1, cfg2) {
      var i, j :| 0 <= i < |cfg1| && 0 <= j < |cfg1[i].keys| &&
        LeftKeyMsg(e, cfg1[i], GetSection(cfg2, cfg1[i].name), j);
      LeftKeyMsgStart(e, cfg1[i], GetSection(cfg2, cfg1[i].name), j);
    } else if SomeRightKeyMsg(e, cfg1, cfg2) {
      var i, j :| 0 <= i < |cfg1| && GetSection(cfg2, cfg1[i].name).Some?
                  && 0 <= j < |GetSection(cfg2, cfg1[i].name).value.keys| &&
        RightKeyMsg(e, cfg1[i], GetSection(cfg2, cfg1[i].name).value, j);
      var sec2 := GetSection(cfg2, cfg1[i].name).value;
      KeyEntryStart('+', sec2.keys[j]);
      TaggedStart(e, sec2.name, KeyEntry('+', sec2.keys[j]));
    } else if MissingRightSection(e, cfg1, cfg2) {
      var i :| 0 <= i < |cfg2| && GetSection(cfg1, cfg2[i].name).None? && e == MissingSection(cfg2[i].name);
      assert e[0] == '-';
    } else {
      var i, j :| 0 <= i < |cfg2| && 0 <= j < |cfg2[i].keys| &&
        GetSection(cfg1, cfg2[i].name).None? && e == KeyEntry('-', cfg2[i].keys[j]);
      KeyEntryStart('-', cfg2[i].keys[j]);
    }
  }

  lemma KeyEntryStart(sign: char, k: IniKey)
    ensures |KeyEntry(sign, k)| > 0 && KeyEntry(sign, k)[0] == sign
  {
  }

  lemma TaggedStart(e: string, name: string, body: string)
    requires Tagged(e, name, body) && |body| > 0
    ensures |e| > 0 && (e[0] == '[' || e[0] == body[0])
  {
    if e != body {
      assert e == "[" + (name + "]\n" + body);
    }
  }

  lemma LeftKeyMsgStart(e: string, sec1: IniSection, s2: Option<IniSection>, j: int)
    requires LeftKeyMsg(e, sec1, s2, j)
    ensures |e| > 0 && e[0] != 'S'
  {
    var k := sec1.keys[j];
    KeyEntryStart('-', k);
    var body := LeftBody(k, s2);
    assert body[0] == '-';
    TaggedStart(e, sec1.name, body);
  }

  /** `CompareIni` after both documents loaded: the report holds no entry
      twice, is empty exactly when the documents agree, and otherwise starts
      with the header; the entries after it are exactly the messages for
      the differences found. */
  method IniDiff(cfg1: IniDoc, cfg2: IniDoc, origin: string, dest: string) returns (report: seq<string>)
    ensures NoDup(report)
    ensures report == [] <==> !IniDiffers(cfg1, cfg2)
    ensures report != [] ==> report[0] == GodiffRaw.Header(origin, dest)
    ensures forall k | 1 <= k < |report| :: IniCandidate(report[k], cfg1, cfg2)
    ensures forall e | IniCandidate(e, cfg1, cfg2) :: e in report
  {
    var diffFound, r1;
    r1, diffFound := LeftSections(cfg1, cfg2);
    report, diffFound := RightSections(r1, diffFound, cfg1, cfg2);
    assert LeftComplete(report, cfg1, cfg2) by {
      forall i | 0 <= i < |cfg1| ensures LeftSectionReported(report, cfg1[i], cfg2) {
        LeftSectionGrows(r1, report, cfg1[i], cfg2);
      }
    }
    CompleteCovers(report, cfg1, cfg2);
    assert IniDiffers(cfg1, cfg2) ==> report != [] by {
      if IniDiffers(cfg1, cfg2) {
        DifferenceHasCandidate(cfg1, cfg2);
      }
    }
    assert report != [] ==> IniDiffers(cfg1, cfg2) by {
      if report != [] {
        assert report[0] in report;
        CandidateShowsDifference(report[0], cfg1, cfg2);
      }
    }
    if diffFound {
      var h := GodiffRaw.Header(origin, dest);
      HeaderInFront(report, cfg1, cfg2, origin, dest);
      InFront(h, report);
      report := [h] + report;
    }
  }

  /** The first loop of `CompareIni`: every left section in turn. */
  method LeftSections(cfg1: IniDoc, cfg2: IniDoc) returns (report: seq<string>, diffFound: bool)
    ensures ReportOk(report, diffFound, cfg1, cfg2)
    ensures LeftComplete(report, cfg1, cfg2)
  {
    report := [];
    diffFound := false;
    for i := 0 to |cfg1|
      invariant ReportOk(report, diffFound, cfg1, cfg2)
      invariant forall i' | 0 <= i' < i :: LeftSectionReported(report, cfg1[i'], cfg2)
    {
      var before := report;
      report, diffFound := LeftSection(report, diffFound, cfg1, cfg2, i);
      forall i' | 0 <= i' < i ensures LeftSectionReported(report, cfg1[i'], cfg2) {
        LeftSectionGrows(before, report, cfg1[i'], cfg2);
      }
    }
  }

  /** The second loop of `CompareIni`: every right section in turn. */
  method RightSections(report0: seq<string>, found0: bool, cfg1: IniDoc, cfg2: IniDoc)
    returns (report: seq<string>, diffFound: bool)
    requires ReportOk(report0, found0, cfg1, cfg2)
    ensures ReportOk(report, diffFound, cfg1, cfg2)
    ensures report0 <= report
    ensures RightComplete(report, cfg1, cfg2)
  {
    report, diffFound := report0, found0;
    for i := 0 to |cfg2|
      invariant ReportOk(report, diffFound, cfg1, cfg2)
      invariant report0 <= report
      invariant forall i' | 0 <= i' < i :: RightSectionReported(report, cfg2[i'], cfg1)
    {
      var before := report;
      report, diffFound := RightOnlySection(report, diffFound, cfg1, cfg2, i);
      forall i' | 0 <= i' < i ensures RightSectionReported(report, cfg2[i'], cfg1) {
        RightSectionGrows(before, report, cfg2[i'], cfg1);
      }
    }
  }

  /** Putting the header in front of the messages repeats nothing. */
  lemma HeaderInFront(body: seq<string>, cfg1: IniDoc, cfg2: IniDoc, origin: string, dest: string)
    requires NoDup(body) && forall e | e in body :: IniCandidate(e, cfg1, cfg2)
    ensures var report := [GodiffRaw.Header(origin, dest)] + body;
      NoDup(report) && forall k | 1 <= k < |report| :: IniCandidate(report[k], cfg1, cfg2)
  {
    var h := GodiffRaw.Header(origin, dest);
    forall e | e in body ensures e != h {
      CandidateNotHeader(e, cfg1, cfg2, origin, dest);
    }
    var report := [h] + body;
    assert forall k | 1 <= k < |report| :: report[k] == body[k - 1];
    forall a, b | 0 <= a < b < |report| ensures report[a] != report[b] {
      assert report[b] == body[b - 1];
      if a > 0 {
        assert report[a] == body[a - 1];
      } else {
        assert body[b - 1] in body;
      }
    }
  }

  /** `CompareIni`: the load errors of either document, then the comparison.
      A document that failed to load is given as `Err` with the parser's
      message. */
  method CompareIni(doc1: Result<IniDoc>, doc2: Result<IniDoc>, origin: string, dest: string)
    returns (r: Result<seq<string>>)
    ensures !doc1.Ok? ==> r == Err("Error while loading file " + origin + ": " + ErrorText(doc1))
    ensures doc1.Ok? && !doc2.Ok? ==> r == Err("Erro while loading file " + dest + ": " + ErrorText(doc2))
    ensures doc1.Ok? && doc2.Ok? ==> r.Ok?
    ensures r.Ok? ==> NoDup(r.value) && (r.value == [] <==> !IniDiffers(doc1.value, doc2.value))
    ensures r.Ok? && r.value != [] ==> r.value[0] == GodiffRaw.Header(origin, dest)
    ensures r.Ok? ==> forall k | 1 <= k < |r.value| :: IniCandidate(r.value[k], doc1.value, doc2.value)
    ensures r.Ok? ==> forall e | IniCandidate(e, doc1.value, doc2.value) :: e in r.value
  {
    if !doc1.Ok? {
      return Err("Error while loading file " + origin + ": " + ErrorText(doc1));
    }
    if !doc2.Ok? {
      return Err("Erro while loading file " + dest + ": " + ErrorText(doc2));
    }
    var report := IniDiff(doc1.value, doc2.value, origin, dest);
    return Ok(report);
  }

  // ---------------------------------------------------------------------
  // `CompareFileNames.CompareIniFiles` of `pkg/godiff/compare.go`: the same
  // walk over the left sections, but appending to an existing report, with
  // the signs of a changed value swapped (`+` left, `-` right), `-` for a key
  // only on the right, no pass over right-only sections, and a `break` at the
  // first left section missing on the right.

  /** The section loop reaches section `i` only when every earlier left
      section exists on the right (the first missing one ends the loop). */
  predicate Reached(cfg1: IniDoc, cfg2: IniDoc, i: int) {
    forall i' | 0 <= i' < i && i' < |cfg1| :: GetSection(cfg2, cfg1[i'].name).Some?
  }

  /** The text `CompareIniFiles` reports for a left key: `-k=v` when the
      right section lacks it, `+k=v1` then `-k=v2` when the values differ. */
  function FilesLeftBody(k: IniKey, sec2: IniSection): string
    requires KeyDiffers(k, sec2)
  {
    if KeyMissing(k, sec2) then KeyEntry('-', k)
    else KeyEntry('+', k) + KeyEntry('-', GetKey(sec2, k.name).value)
  }

  /** The message `CompareIniFiles` builds for key `j` of the left section
      `sec1`, whose counterpart on the right is `sec2`. */
  function FilesLeftMsg(sec1: IniSection, sec2: IniSection, j: int): string
    requires 0 <= j < |sec1.keys| && KeyDiffers(sec1.keys[j], sec2)
  {
    Tag(sec1.name, FilesLeftBody(sec1.keys[j], sec2), TaggedBefore(sec1, Some(sec2), j))
  }

  /** The message for key `j` of the right section that the left section
      `sec1` lacks: `-k=v`, the sign a left-only key also gets. */
  function FilesRightMsg(sec1: IniSection, sec2: IniSection, j: int): string
    requires 0 <= j < |sec2.keys| && KeyMissing(sec2.keys[j], sec1)
  {
    Tag(sec2.name, KeyEntry('-', sec2.keys[j]), RightTaggedBefore(sec1, sec2, j))
  }

  predicate FilesLeftKeyMsg(e: string, sec1: IniSection, sec2: IniSection, j: int) {
    0 <= j < |sec1.keys| && KeyDiffers(sec1.keys[j], sec2) && e == FilesLeftMsg(sec1, sec2, j)
  }

  predicate FilesRightKeyMsg(e: string, sec1: IniSection, sec2: IniSection, j: int) {
    0 <= j < |sec2.keys| && KeyMissing(sec2.keys[j], sec1) && e == FilesRightMsg(sec1, sec2, j)
  }

  /** The messages `CompareIniFiles` builds for the sections it reaches. */
  predicate FilesCandidate(e: string, cfg1: IniDoc, cfg2: IniDoc) {
    FilesMissingSection(e, cfg1, cfg2) || SomeFilesLeftKeyMsg(e, cfg1, cfg2) || SomeFilesRightKeyMsg(e, cfg1, cfg2)
  }

  /** `-[S]` for the reached left section the right side lacks. */
  predicate FilesMissingSection(e: string, cfg1: IniDoc, cfg2: IniDoc) {
    exists i | 0 <= i < |cfg1| && Reached(cfg1, cfg2, i) ::
      GetSection(cfg2, cfg1[i].name).None? && e == MissingSection(cfg1[i].name)
  }

  /** The message of a differing key of a reached left section. */
  predicate SomeFilesLeftKeyMsg(e: string, cfg1: IniDoc, cfg2: IniDoc) {
    exists i, j | 0 <= i < |cfg1| && Reached(cfg1, cfg2, i) && GetSection(cfg2, cfg1[i].name).Some?
                  && 0 <= j < |cfg1[i].keys| ::
      FilesLeftKeyMsg(e, cfg1[i], GetSection(cfg2, cfg1[i].name).value, j)
  }

  /** The message of a key that the right counterpart of a reached left
      section has and the left section lacks. */
  predicate SomeFilesRightKeyMsg(e: string, cfg1: IniDoc, cfg2: IniDoc) {
    exists i, j | 0 <= i < |cfg1| && Reached(cfg1, cfg2, i) && GetSection(cfg2, cfg1[i].name).Some?
                  && 0 <= j < |GetSection(cfg2, cfg1[i].name).value.keys| ::
      FilesRightKeyMsg(e, cfg1[i], GetSection(cfg2, cfg1[i].name).value, j)
  }

  /** A key message of a reached section present on the right: what the
      key loops of `CompareIniFiles` append. */
  predicate FilesKeyMsg(e: string, cfg1: IniDoc, cfg2: IniDoc) {
    SomeFilesLeftKeyMsg(e, cfg1, cfg2) || SomeFilesRightKeyMsg(e, cfg1, cfg2)
  }

  /** Every entry of `r` from index `n` on is a key message. */
  predicate KeyMsgsFrom(r: seq<string>, n: int, cfg1: IniDoc, cfg2: IniDoc) {
    forall k | 0 <= n <= k < |r| :: FilesKeyMsg(r[k], cfg1, cfg2)
  }

  /** When `CompareIniFiles` panics: the loop reaches a left section missing
      on the right, but its `-[S]` entry is already in the report, so the
      `break` is skipped and the key loops dereference the nil section. At
      that point the report holds `r0` and the key messages of the earlier
      sections, so the entry is in `r0` or spelled by one of those. */
  predicate FilesPanics(r0: seq<string>, cfg1: IniDoc, cfg2: IniDoc) {
    exists i | 0 <= i < |cfg1| && Reached(cfg1, cfg2, i) && GetSection(cfg2, cfg1[i].name).None? ::
      MissingSection(cfg1[i].name) in r0 || FilesKeyMsg(MissingSection(cfg1[i].name), cfg1, cfg2)
  }

  /** No key name starts with `[`: the INI parser reads such a line as a
      section header, so only a quoted key name can. */
  predicate NoBracketKeys(doc: IniDoc) {
    forall i, j | 0 <= i < |doc| && 0 <= j < |doc[i].keys| :: doc[i].keys[j].name == "" || doc[i].keys[j].name[0] != '['
  }

  /** What the key loops report for a left section `sec1` and its right
      counterpart `sec2`: the message of each differing key of either side. */
  predicate FilesSectionReported(report: seq<string>, sec1: IniSection, sec2: IniSection) {
    FilesLeftKeysReported(report, sec1, sec2, |sec1.keys|) && FilesRightKeysReported(report, sec1, sec2, |sec2.keys|)
  }

  predicate FilesLeftKeysReported(report: seq<string>, sec1: IniSection, sec2: IniSection, n: int) {
    forall j {:trigger FilesLeftMsg(sec1, sec2, j)} | 0 <= j < n && j < |sec1.keys| && KeyDiffers(sec1.keys[j], sec2) ::
      FilesLeftMsg(sec1, sec2, j) in report
  }

  predicate FilesRightKeysReported(report: seq<string>, sec1: IniSection, sec2: IniSection, n: int) {
    forall j {:trigger FilesRightMsg(sec1, sec2, j)} | 0 <= j < n && j < |sec2.keys| && KeyMissing(sec2.keys[j], sec1) ::
      FilesRightMsg(sec1, sec2, j) in report
  }

  /** One more key looked at: the keys reported so far stay reported in the
      grown report, and key `j` is reported if it had to be. */
  lemma FilesLeftKeysStep(a: seq<string>, b: seq<string>, sec1: IniSection, sec2: IniSection, j: nat)
    requires a <= b && FilesLeftKeysReported(a, sec1, sec2, j) && j < |sec1.keys|
    requires KeyDiffers(sec1.keys[j], sec2) ==> FilesLeftMsg(sec1, sec2, j) in b
    ensures FilesLeftKeysReported(b, sec1, sec2, j + 1)
  {
    InGrown(a, b);
  }

  lemma FilesRightKeysStep(a: seq<string>, b: seq<string>, sec1: IniSection, sec2: IniSection, j: nat)
    requires a <= b && FilesRightKeysReported(a, sec1, sec2, j) && j < |sec2.keys|
    requires KeyMissing(sec2.keys[j], sec1) ==> FilesRightMsg(sec1, sec2, j) in b
    ensures FilesRightKeysReported(b, sec1, sec2, j + 1)
  {
    InGrown(a, b);
  }

  /** The loop invariant of `CompareIniFiles`: the report only grows, keeps
      having no duplicates if it had none, the flag tells whether anything
      was appended, and every appended message is a candidate. */
  predicate FilesOk(r0: seq<string>, r: seq<string>, diffFound: bool, cfg1: IniDoc, cfg2: IniDoc) {
    r0 <= r && (NoDup(r0) ==> NoDup(r)) && (diffFound <==> |r| > |r0|)
    && forall k | |r0| <= k < |r| :: FilesCandidate(r[k], cfg1, cfg2)
  }

  /** The append guarded by `stringInSlice` in `CompareIniFiles`. */
  method FilesAddOnce(r0: seq<string>, report: seq<string>, diffFound: bool, msg: string,
                      ghost cfg1: IniDoc, ghost cfg2: IniDoc)
    returns (r: seq<string>, found: bool)
    requires FilesOk(r0, report, diffFound, cfg1, cfg2)
    requires FilesCandidate(msg, cfg1, cfg2)
    ensures FilesOk(r0, r, found, cfg1, cfg2)
    ensures r == if msg in report then report else report + [msg]
  {
    var present := StringInSlice(msg, report);
    r, found := report, diffFound;
    if !present {
      found := true;
      r := report + [msg];
    }
  }

  /** A message for a key of a reached left section is a candidate. */
  lemma LeftKeyCandidate(msg: string, cfg1: IniDoc, cfg2: IniDoc, i: nat, j: nat)
    requires i < |cfg1| && Reached(cfg1, cfg2, i) && GetSection(cfg2, cfg1[i].name).Some?
    requires FilesLeftKeyMsg(msg, cfg1[i], GetSection(cfg2, cfg1[i].name).value, j)
    ensures FilesCandidate(msg, cfg1, cfg2) && FilesKeyMsg(msg, cfg1, cfg2)
  {
  }

  /** A message for a right key of a reached section is a candidate. */
  lemma RightKeyCandidate(msg: string, cfg1: IniDoc, cfg2: IniDoc, i: nat, j: nat)
    requires i < |cfg1| && Reached(cfg1, cfg2, i) && GetSection(cfg2, cfg1[i].name).Some?
    requires FilesRightKeyMsg(msg, cfg1[i], GetSection(cfg2, cfg1[i].name).value, j)
    ensures FilesCandidate(msg, cfg1, cfg2) && FilesKeyMsg(msg, cfg1, cfg2)
  {
  }

  lemma FilesSectionGrows(a: seq<string>, b: seq<string>, sec1: IniSection, sec2: IniSection)
    requires a <= b && FilesSectionReported(a, sec1, sec2)
    ensures FilesSectionReported(b, sec1, sec2)
  {
    InGrown(a, b);
  }

  /** The two key loops of `CompareIniFiles` for a left section `cfg1[i]`
      whose counterpart exists on the right; the section line is added
      once, in front of the first message of either loop. */
  method FilesSection(r0: seq<string>, report: seq<string>, diffFound: bool, cfg1: IniDoc, cfg2: IniDoc, i: nat)
    returns (r: seq<string>, found: bool)
    requires i < |cfg1| && Reached(cfg1, cfg2, i) && GetSection(cfg2, cfg1[i].name).Some?
    requires FilesOk(r0, report, diffFound, cfg1, cfg2)
    ensures FilesOk(r0, r, found, cfg1, cfg2)
    ensures report <= r && KeyMsgsFrom(r, |report|, cfg1, cfg2)
    ensures FilesSectionReported(r, cfg1[i], GetSection(cfg2, cfg1[i].name).value)
  {
    var tagged;
    r, found, tagged := FilesLeftKeys(r0, report, diffFound, cfg1, cfg2, i);
    var r1 := r;
    r, found := FilesRightKeys(r0, r, found, cfg1, cfg2, i, tagged);
    InGrown(r1, r);
    KeyMsgsJoin(report, r1, r, cfg1, cfg2);
  }

  /** Key messages appended in two steps are key messages appended. */
  lemma KeyMsgsJoin(a: seq<string>, b: seq<string>, c: seq<string>, cfg1: IniDoc, cfg2: IniDoc)
    requires a <= b <= c && KeyMsgsFrom(b, |a|, cfg1, cfg2) && KeyMsgsFrom(c, |b|, cfg1, cfg2)
    ensures KeyMsgsFrom(c, |a|, cfg1, cfg2)
  {
    forall k | |a| <= k < |b| ensures c[k] == b[k] {
      assert b == c[..|b|];
    }
  }

  /** The body of the loop over the keys of the left section, for key `j`. */
  method FilesLeftKey(r0: seq<string>, report: seq<string>, diffFound: bool, cfg1: IniDoc, cfg2: IniDoc,
                      i: nat, j: nat, tagged: bool, ghost left: IniSection, ghost right: IniSection)
    returns (r: seq<string>, found: bool, tagged': bool)
    requires i < |cfg1| && Reached(cfg1, cfg2, i) && left == cfg1[i] && GetSection(cfg2, left.name) == Some(right)
    requires j < |left.keys|
    requires tagged == TaggedBefore(left, Some(right), j)
    requires FilesOk(r0, report, diffFound, cfg1, cfg2)
    ensures FilesOk(r0, r, found, cfg1, cfg2)
    ensures report <= r && KeyMsgsFrom(r, |report|, cfg1, cfg2)
    ensures tagged' == TaggedBefore(left, Some(right), j + 1)
    ensures KeyDiffers(left.keys[j], right) ==> FilesLeftMsg(left, right, j) in r
  {
    var sec1 := cfg1[i];
    var sec2 := GetSection(cfg2, sec1.name).value;
    var key1 := sec1.keys[j];
    var key2 := GetKey(sec2, key1.name);
    TaggedStep(sec1, Some(sec2), j);
    r, found, tagged' := report, diffFound, tagged;
    if key2.None? || key1.value != key2.value.value {
      var msg;
      if key2.None? {
        msg := Tag(sec1.name, KeyEntry('-', key1), tagged);
      } else {
        msg := Tag(sec1.name, KeyEntry('+', key1) + KeyEntry('-', key2.value), tagged);
      }
      assert FilesLeftKeyMsg(msg, cfg1[i], GetSection(cfg2, cfg1[i].name).value, j);
      tagged' := true;
      LeftKeyCandidate(msg, cfg1, cfg2, i, j);
      r, found := FilesAddOnce(r0, r, found, msg, cfg1, cfg2);
    }
  }

  /** The loop over the keys of the left section: each key missing from the
      right section, or with another value there, gets its message. */
  method FilesLeftKeys(r0: seq<string>, report: seq<string>, diffFound: bool, cfg1: IniDoc, cfg2: IniDoc, i: nat)
    returns (r: seq<string>, found: bool, tagged: bool)
    requires i < |cfg1| && Reached(cfg1, cfg2, i) && GetSection(cfg2, cfg1[i].name).Some?
    requires FilesOk(r0, report, diffFound, cfg1, cfg2)
    ensures FilesOk(r0, r, found, cfg1, cfg2)
    ensures report <= r && KeyMsgsFrom(r, |report|, cfg1, cfg2)
    ensures tagged == TaggedBefore(cfg1[i], GetSection(cfg2, cfg1[i].name), |cfg1[i].keys|)
    ensures FilesLeftKeysReported(r, cfg1[i], GetSection(cfg2, cfg1[i].name).value, |cfg1[i].keys|)
  {
    var sec1 := cfg1[i];
    var sec2 := GetSection(cfg2, sec1.name).value;
    tagged := false;
    r, found := report, diffFound;
    for j := 0 to |sec1.keys|
      invariant FilesOk(r0, r, found, cfg1, cfg2)
      invariant report <= r && KeyMsgsFrom(r, |report|, cfg1, cfg2)
      invariant tagged == TaggedBefore(sec1, Some(sec2), j)
      invariant FilesLeftKeysReported(r, sec1, sec2, j)
    {
      var before := r;
      r, found, tagged := FilesLeftKey(r0, r, found, cfg1, cfg2, i, j, tagged, sec1, sec2);
      FilesLeftKeysStep(before, r, sec1, sec2, j);
      KeyMsgsJoin(report, before, r, cfg1, cfg2);
    }
  }

  /** The body of the loop over the keys of the right section, for key `j`. */
  method FilesRightKey(r0: seq<string>, report: seq<string>, diffFound: bool, cfg1: IniDoc, cfg2: IniDoc,
                       i: nat, j: nat, tagged: bool, ghost left: IniSection, ghost right: IniSection)
    returns (r: seq<string>, found: bool, tagged': bool)
    requires i < |cfg1| && Reached(cfg1, cfg2, i) && left == cfg1[i] && GetSection(cfg2, left.name) == Some(right)
    requires j < |right.keys|
    requires tagged == RightTaggedBefore(left, right, j)
    requires FilesOk(r0, report, diffFound, cfg1, cfg2)
    ensures FilesOk(r0, r, found, cfg1, cfg2)
    ensures report <= r && KeyMsgsFrom(r, |report|, cfg1, cfg2)
    ensures tagged' == RightTaggedBefore(left, right, j + 1)
    ensures KeyMissing(right.keys[j], left) ==> FilesRightMsg(left, right, j) in r
  {
    var sec1 := cfg1[i];
    var sec2 := GetSection(cfg2, sec1.name).value;
    var key2 := sec2.keys[j];
    RightTaggedStep(sec1, sec2, j);
    r, found, tagged' := report, diffFound, tagged;
    if GetKey(sec1, key2.name).None? {
      var msg := Tag(sec2.name, KeyEntry('-', key2), tagged);
      assert FilesRightKeyMsg(msg, cfg1[i], GetSection(cfg2, cfg1[i].name).value, j);
      tagged' := true;
      RightKeyCandidate(msg, cfg1, cfg2, i, j);
      r, found := FilesAddOnce(r0, r, found, msg, cfg1, cfg2);
    }
  }

  /** The loop over the keys of the right section: each key the left
      section lacks gets its message. */
  method FilesRightKeys(r0: seq<string>, report: seq<string>, diffFound: bool, cfg1: IniDoc, cfg2: IniDoc, i: nat,
                        tagged0: bool)
    returns (r: seq<string>, found: bool)
    requires i < |cfg1| && Reached(cfg1, cfg2, i) && GetSection(cfg2, cfg1[i].name).Some?
    requires tagged0 == TaggedBefore(cfg1[i], GetSection(cfg2, cfg1[i].name), |cfg1[i].keys|)
    requires FilesOk(r0, report, diffFound, cfg1, cfg2)
    ensures FilesOk(r0, r, found, cfg1, cfg2)
    ensures report <= r && KeyMsgsFrom(r, |report|, cfg1, cfg2)
    ensures FilesRightKeysReported(r, cfg1[i], GetSection(cfg2, cfg1[i].name).value,
                                   |GetSection(cfg2, cfg1[i].name).value.keys|)
  {
    var sec1 := cfg1[i];
    var sec2 := GetSection(cfg2, sec1.name).value;
    var tagged := tagged0;
    RightTaggedStart(sec1, sec2);
    r, found := report, diffFound;
    for j := 0 to |sec2.keys|
      invariant FilesOk(r0, r, found, cfg1, cfg2)
      invariant report <= r && KeyMsgsFrom(r, |report|, cfg1, cfg2)
      invariant tagged == RightTaggedBefore(sec1, sec2, j)
      invariant FilesRightKeysReported(r, sec1, sec2, j)
    {
      var before := r;
      r, found, tagged := FilesRightKey(r0, r, found, cfg1, cfg2, i, j, tagged, sec1, sec2);
      FilesRightKeysStep(before, r, sec1, sec2, j);
      KeyMsgsJoin(report, before, r, cfg1, cfg2);
    }
  }

  /** The section loop of `CompareIniFiles`. At the first left section
      missing on the right, `-[S]` is appended and the loop stops, unless
      the entry is already in the report: then the key loops dereference the
      nil section, a panic. Otherwise every message for the sections the
      loop reaches ends up in the report. */
  method FilesSections(r0: seq<string>, cfg1: IniDoc, cfg2: IniDoc)
    returns (res: Result<seq<string>>, diffFound: bool)
    ensures !res.Err?
    ensures res.Panic? <==> FilesPanics(r0, cfg1, cfg2)
    ensures res.Ok? ==> FilesOk(r0, res.value, diffFound, cfg1, cfg2)
    ensures res.Ok? ==> forall e | FilesCandidate(e, cfg1, cfg2) :: e in res.value
  {
    var r := r0;
    diffFound := false;
    var i := 0;
    while i < |cfg1|
      invariant 0 <= i <= |cfg1|
      invariant Reached(cfg1, cfg2, i)
      invariant FilesOk(r0, r, diffFound, cfg1, cfg2) && KeyMsgsFrom(r, |r0|, cfg1, cfg2)
      invariant SectionsReported(r, cfg1, cfg2, i)
    {
      if GetSection(cfg2, cfg1[i].name).None? {
        var msg := MissingSection(cfg1[i].name);
        var present := StringInSlice(msg, r);
        InReportAtBreak(r0, r, cfg1, cfg2, i);
        FilesPanicsAt(r0, cfg1, cfg2, i);
        if present {
          return Panic("nil pointer dereference: section " + cfg1[i].name), diffFound;
        }
        var before := r;
        r, diffFound := FilesAddOnce(r0, r, diffFound, msg, cfg1, cfg2);
        SectionsGrow(before, r, cfg1, cfg2, i);
        FilesCovers(r, cfg1, cfg2, i);
        return Ok(r), diffFound;
      }
      var before := r;
      r, diffFound := FilesSection(r0, r, diffFound, cfg1, cfg2, i);
      SectionsStep(before, r, cfg1, cfg2, i);
      KeyMsgsJoin(r0, before, r, cfg1, cfg2);
      i := i + 1;
    }
    FilesCovers(r, cfg1, cfg2, |cfg1|);
    NoPanicPastEnd(r0, cfg1, cfg2);
    return Ok(r), diffFound;
  }

  /** At the first left section `m` missing on the right, the report holds
      `-[S]` exactly when `r0` does or a key message of an earlier section
      spells it. */
  lemma InReportAtBreak(r0: seq<string>, r: seq<string>, cfg1: IniDoc, cfg2: IniDoc, m: nat)
    requires m < |cfg1| && Reached(cfg1, cfg2, m) && GetSection(cfg2, cfg1[m].name).None?
    requires r0 <= r && KeyMsgsFrom(r, |r0|, cfg1, cfg2) && SectionsReported(r, cfg1, cfg2, m)
    ensures MissingSection(cfg1[m].name) in r <==>
      MissingSection(cfg1[m].name) in r0 || FilesKeyMsg(MissingSection(cfg1[m].name), cfg1, cfg2)
  {
    var msg := MissingSection(cfg1[m].name);
    if msg in r {
      var k :| 0 <= k < |r| && r[k] == msg;
      if k < |r0| {
        assert r0[k] == msg;
      }
    }
    if msg in r0 {
      InGrown(r0, r);
    } else if FilesKeyMsg(msg, cfg1, cfg2) {
      KeyMsgIn(msg, r, cfg1, cfg2, m);
    }
  }

  /** Every key message is in a report that covers the sections before the
      stopping point `m`. */
  lemma KeyMsgIn(e: string, r: seq<string>, cfg1: IniDoc, cfg2: IniDoc, m: nat)
    requires m <= |cfg1| && Reached(cfg1, cfg2, m) && SectionsReported(r, cfg1, cfg2, m)
    requires m < |cfg1| ==> GetSection(cfg2, cfg1[m].name).None?
    requires FilesKeyMsg(e, cfg1, cfg2)
    ensures e in r
  {
    if SomeFilesLeftKeyMsg(e, cfg1, cfg2) {
      var i, j :| 0 <= i < |cfg1| && Reached(cfg1, cfg2, i) && GetSection(cfg2, cfg1[i].name).Some?
                  && 0 <= j < |cfg1[i].keys| &&
        FilesLeftKeyMsg(e, cfg1[i], GetSection(cfg2, cfg1[i].name).value, j);
      SectionCovered(r, cfg1, cfg2, m, i);
      LeftKeyIn(e, r, cfg1[i], GetSection(cfg2, cfg1[i].name).value, j);
    } else {
      var i, j :| 0 <= i < |cfg1| && Reached(cfg1, cfg2, i) && GetSection(cfg2, cfg1[i].name).Some?
                  && 0 <= j < |GetSection(cfg2, cfg1[i].name).value.keys| &&
        FilesRightKeyMsg(e, cfg1[i], GetSection(cfg2, cfg1[i].name).value, j);
      SectionCovered(r, cfg1, cfg2, m, i);
      RightKeyIn(e, r, cfg1[i], GetSection(cfg2, cfg1[i].name).value, j);
    }
  }

  /** Only the first missing section can be the one the panic happens at. */
  lemma FilesPanicsAt(r0: seq<string>, cfg1: IniDoc, cfg2: IniDoc, m: nat)
    requires m < |cfg1| && Reached(cfg1, cfg2, m) && GetSection(cfg2, cfg1[m].name).None?
    ensures FilesPanics(r0, cfg1, cfg2) <==>
      MissingSection(cfg1[m].name) in r0 || FilesKeyMsg(MissingSection(cfg1[m].name), cfg1, cfg2)
  {
    if FilesPanics(r0, cfg1, cfg2) {
      var i :| 0 <= i < |cfg1| && Reached(cfg1, cfg2, i) && GetSection(cfg2, cfg1[i].name).None?
               && (MissingSection(cfg1[i].name) in r0 || FilesKeyMsg(MissingSection(cfg1[i].name), cfg1, cfg2));
      ReachedBound(cfg1, cfg2, m, i);
      ReachedBound(cfg1, cfg2, i, m);
    }
  }

  /** With every left section present on the right, nothing panics. */
  lemma NoPanicPastEnd(r0: seq<string>, cfg1: IniDoc, cfg2: IniDoc)
    requires Reached(cfg1, cfg2, |cfg1|)
    ensures !FilesPanics(r0, cfg1, cfg2)
  {
  }

  /** `-[S]` starts with `-[`, which no key message of documents without
      `[`-led key names does: a message with its section line starts with
      `[`, a changed value with `+`, and `-k=v` with `-` and then the key
      name's first letter or `=`. */
  lemma MissingSectionNotKeyMsg(name: string, cfg1: IniDoc, cfg2: IniDoc)
    requires NoBracketKeys(cfg1) && NoBracketKeys(cfg2)
    ensures !FilesKeyMsg(MissingSection(name), cfg1, cfg2)
  {
    var e := MissingSection(name);
    assert e[0] == '-' && e[1] == '[';
    if SomeFilesLeftKeyMsg(e, cfg1, cfg2) {
      var i, j :| 0 <= i < |cfg1| && Reached(cfg1, cfg2, i) && GetSection(cfg2, cfg1[i].name).Some?
                  && 0 <= j < |cfg1[i].keys| &&
        FilesLeftKeyMsg(e, cfg1[i], GetSection(cfg2, cfg1[i].name).value, j);
      KeyEntryNotSection(name, cfg1[i].keys[j]);
      assert false;
    } else if SomeFilesRightKeyMsg(e, cfg1, cfg2) {
      var i, j :| 0 <= i < |cfg1| && Reached(cfg1, cfg2, i) && GetSection(cfg2, cfg1[i].name).Some?
                  && 0 <= j < |GetSection(cfg2, cfg1[i].name).value.keys| &&
        FilesRightKeyMsg(e, cfg1[i], GetSection(cfg2, cfg1[i].name).value, j);
      var sec2 := GetSection(cfg2, cfg1[i].name).value;
      GetSectionIn(cfg2, cfg1[i].name);
      var i2 :| 0 <= i2 < |cfg2| && cfg2[i2] == sec2;
      assert sec2.keys[j] == cfg2[i2].keys[j];
      KeyEntryNotSection(name, sec2.keys[j]);
      assert false;
    }
  }

  /** `-k=v` for a key name not led by `[` is not `-[S]`. */
  lemma KeyEntryNotSection(name: string, k: IniKey)
    requires k.name == "" || k.name[0] != '['
    ensures KeyEntry('-', k) != MissingSection(name)
  {
    var e := KeyEntry('-', k);
    if k.name == "" {
      assert e[1] == '=';
    } else {
      assert e[1] == k.name[0];
    }
  }

  /** So for documents the INI parser produces from unquoted key names, the
      panic needs the `-[S]` of the first missing left section in the report
      passed in; an empty report never panics. */
  lemma PanicNeedsEntryInReport(r0: seq<string>, cfg1: IniDoc, cfg2: IniDoc)
    requires NoBracketKeys(cfg1) && NoBracketKeys(cfg2)
    ensures FilesPanics(r0, cfg1, cfg2) <==>
      exists i | 0 <= i < |cfg1| :: Reached(cfg1, cfg2, i) && GetSection(cfg2, cfg1[i].name).None?
                                    && MissingSection(cfg1[i].name) in r0
    ensures r0 == [] ==> !FilesPanics(r0, cfg1, cfg2)
  {
    forall i | 0 <= i < |cfg1| ensures !FilesKeyMsg(MissingSection(cfg1[i].name), cfg1, cfg2) {
      MissingSectionNotKeyMsg(cfg1[i].name, cfg1, cfg2);
    }
  }

  /** Every section before `n` that is present on the right has all of its
      messages in the report. */
  predicate SectionsReported(r: seq<string>, cfg1: IniDoc, cfg2: IniDoc, n: nat)
    decreases n
  {
    n == 0
    || (SectionsReported(r, cfg1, cfg2, n - 1)
        && (n - 1 < |cfg1| && GetSection(cfg2, cfg1[n - 1].name).Some? ==>
              FilesSectionReported(r, cfg1[n - 1], GetSection(cfg2, cfg1[n - 1].name).value)))
  }

  lemma {:induction false} SectionsGrow(a: seq<string>, b: seq<string>, cfg1: IniDoc, cfg2: IniDoc, n: nat)
    requires a <= b && SectionsReported(a, cfg1, cfg2, n)
    ensures SectionsReported(b, cfg1, cfg2, n)
    decreases n
  {
    if n > 0 {
      SectionsGrow(a, b, cfg1, cfg2, n - 1);
      if n - 1 < |cfg1| && GetSection(cfg2, cfg1[n - 1].name).Some? {
        FilesSectionGrows(a, b, cfg1[n - 1], GetSection(cfg2, cfg1[n - 1].name).value);
      }
    }
  }

  /** Section `i`, now reported, joins the reported ones. */
  lemma SectionsStep(a: seq<string>, b: seq<string>, cfg1: IniDoc, cfg2: IniDoc, i: nat)
    requires a <= b && SectionsReported(a, cfg1, cfg2, i) && i < |cfg1|
    requires GetSection(cfg2, cfg1[i].name).Some?
    requires FilesSectionReported(b, cfg1[i], GetSection(cfg2, cfg1[i].name).value)
    ensures SectionsReported(b, cfg1, cfg2, i + 1)
  {
    SectionsGrow(a, b, cfg1, cfg2, i);
  }

  /** The loop stopped at section `m` (the first one missing on the right,
      or the end): every message for a reached section is in the report. */
  lemma FilesCovers(r: seq<string>, cfg1: IniDoc, cfg2: IniDoc, m: nat)
    requires m <= |cfg1| && Reached(cfg1, cfg2, m)
    requires SectionsReported(r, cfg1, cfg2, m)
    requires m < |cfg1| ==> GetSection(cfg2, cfg1[m].name).None? && MissingSection(cfg1[m].name) in r
    ensures forall e | FilesCandidate(e, cfg1, cfg2) :: e in r
  {
    forall e | FilesCandidate(e, cfg1, cfg2) ensures e in r {
      if FilesMissingSection(e, cfg1, cfg2) {
        var i :| 0 <= i < |cfg1| && Reached(cfg1, cfg2, i) &&
          GetSection(cfg2, cfg1[i].name).None? && e == MissingSection(cfg1[i].name);
        ReachedBound(cfg1, cfg2, m, i);
      } else if SomeFilesLeftKeyMsg(e, cfg1, cfg2) {
        var i, j :| 0 <= i < |cfg1| && Reached(cfg1, cfg2, i) && GetSection(cfg2, cfg1[i].name).Some?
                    && 0 <= j < |cfg1[i].keys| &&
          FilesLeftKeyMsg(e, cfg1[i], GetSection(cfg2, cfg1[i].name).value, j);
        SectionCovered(r, cfg1, cfg2, m, i);
        LeftKeyIn(e, r, cfg1[i], GetSection(cfg2, cfg1[i].name).value, j);
      } else {
        var i, j :| 0 <= i < |cfg1| && Reached(cfg1, cfg2, i) && GetSection(cfg2, cfg1[i].name).Some?
                    && 0 <= j < |GetSection(cfg2, cfg1[i].name).value.keys| &&
          FilesRightKeyMsg(e, cfg1[i], GetSection(cfg2, cfg1[i].name).value, j);
        SectionCovered(r, cfg1, cfg2, m, i);
        RightKeyIn(e, r, cfg1[i], GetSection(cfg2, cfg1[i].name).value, j);
      }
    }
  }

  /** A reached section present on the right is one the loop reported. */
  lemma SectionCovered(r: seq<string>, cfg1: IniDoc, cfg2: IniDoc, m: nat, i: nat)
    requires m <= |cfg1| && Reached(cfg1, cfg2, m)
    requires SectionsReported(r, cfg1, cfg2, m)
    requires m < |cfg1| ==> GetSection(cfg2, cfg1[m].name).None?
    requires i < |cfg1| && Reached(cfg1, cfg2, i) && GetSection(cfg2, cfg1[i].name).Some?
    ensures FilesSectionReported(r, cfg1[i], GetSection(cfg2, cfg1[i].name).value)
  {
    ReachedBound(cfg1, cfg2, m, i);
    SectionReportedAt(r, cfg1, cfg2, m, i);
  }

  lemma LeftKeyIn(e: string, r: seq<string>, sec1: IniSection, sec2: IniSection, j: nat)
    requires FilesSectionReported(r, sec1, sec2) && FilesLeftKeyMsg(e, sec1, sec2, j)
    ensures e in r
  {
  }

  lemma RightKeyIn(e: string, r: seq<string>, sec1: IniSection, sec2: IniSection, j: nat)
    requires FilesSectionReported(r, sec1, sec2) && FilesRightKeyMsg(e, sec1, sec2, j)
    ensures e in r
  {
  }

  lemma {:induction false} SectionReportedAt(r: seq<string>, cfg1: IniDoc, cfg2: IniDoc, n: nat, i: nat)
    requires SectionsReported(r, cfg1, cfg2, n) && i < n && i < |cfg1| && GetSection(cfg2, cfg1[i].name).Some?
    ensures FilesSectionReported(r, cfg1[i], GetSection(cfg2, cfg1[i].name).value)
    decreases n
  {
    if i < n - 1 {
      SectionReportedAt(r, cfg1, cfg2, n - 1, i);
    } else {
      assert SectionsReported(r, cfg1, cfg2, n);
    }
  }

  /** With section `m` reached and missing on the right (or `m` the end),
      a reached section `i` is `m` itself or comes before it, and only `m`
      can be missing. */
  lemma ReachedBound(cfg1: IniDoc, cfg2: IniDoc, m: nat, i: nat)
    requires m <= |cfg1| && Reached(cfg1, cfg2, m) && i < |cfg1| && Reached(cfg1, cfg2, i)
    requires m < |cfg1| ==> GetSection(cfg2, cfg1[m].name).None?
    ensures i <= m && (i < m ==> GetSection(cfg2, cfg1[i].name).Some?)
  {
    if m < |cfg1| {
      var s2 := GetSection(cfg2, cfg1[m].name);
      assert m < i ==> s2.Some?;
    }
  }

  /** A message of `CompareIniFiles` stems from a left section that differs. */
  lemma FilesCandidateShowsDifference(e: string, cfg1: IniDoc, cfg2: IniDoc)
    requires FilesCandidate(e, cfg1, cfg2)
    ensures exists i | 0 <= i < |cfg1| :: SectionDiffers(cfg1[i], cfg2)
  {
    if FilesMissingSection(e, cfg1, cfg2) {
      var i :| 0 <= i < |cfg1| && Reached(cfg1, cfg2, i) &&
        GetSection(cfg2, cfg1[i].name).None? && e == MissingSection(cfg1[i].name);
      assert SectionDiffers(cfg1[i], cfg2);
    } else if SomeFilesLeftKeyMsg(e, cfg1, cfg2) {
      var i, j :| 0 <= i < |cfg1| && Reached(cfg1, cfg2, i) && GetSection(cfg2, cfg1[i].name).Some?
                  && 0 <= j < |cfg1[i].keys| &&
        FilesLeftKeyMsg(e, cfg1[i], GetSection(cfg2, cfg1[i].name).value, j);
      LeftKeyShowsDifference(e, cfg1[i], cfg2, j);
    } else {
      var i, j :| 0 <= i < |cfg1| && Reached(cfg1, cfg2, i) && GetSection(cfg2, cfg1[i].name).Some?
                  && 0 <= j < |GetSection(cfg2, cfg1[i].name).value.keys| &&
        FilesRightKeyMsg(e, cfg1[i], GetSection(cfg2, cfg1[i].name).value, j);
      RightKeyShowsDifference(e, cfg1[i], cfg2, j);
    }
  }

  lemma LeftKeyShowsDifference(e: string, sec1: IniSection, cfg2: IniDoc, j: int)
    requires GetSection(cfg2, sec1.name).Some?
    requires FilesLeftKeyMsg(e, sec1, GetSection(cfg2, sec1.name).value, j)
    ensures SectionDiffers(sec1, cfg2)
  {
    assert KeyDiffers(sec1.keys[j], GetSection(cfg2, sec1.name).value);
  }

  lemma RightKeyShowsDifference(e: string, sec1: IniSection, cfg2: IniDoc, j: int)
    requires GetSection(cfg2, sec1.name).Some?
    requires FilesRightKeyMsg(e, sec1, GetSection(cfg2, sec1.name).value, j)
    ensures SectionDiffers(sec1, cfg2)
  {
    assert KeyMissing(GetSection(cfg2, sec1.name).value.keys[j], sec1);
  }

  /** The converse: when some left section differs, the loop reaches a
      difference (that section, or an earlier one missing on the right) and
      so has a message to report. */
  lemma {:induction false} FilesDifferenceHasCandidate(cfg1: IniDoc, cfg2: IniDoc, i: nat)
    requires i < |cfg1| && SectionDiffers(cfg1[i], cfg2)
    ensures exists e :: FilesCandidate(e, cfg1, cfg2)
    decreases i
  {
    if !Reached(cfg1, cfg2, i) {
      var i' :| 0 <= i' < i && i' < |cfg1| && GetSection(cfg2, cfg1[i'].name).None?;
      FilesDifferenceHasCandidate(cfg1, cfg2, i');
    } else {
      var s2 := GetSection(cfg2, cfg1[i].name);
      if s2.None? {
        assert FilesMissingSection(MissingSection(cfg1[i].name), cfg1, cfg2);
        assert FilesCandidate(MissingSection(cfg1[i].name), cfg1, cfg2);
      } else if exists j | 0 <= j < |cfg1[i].keys| :: KeyDiffers(cfg1[i].keys[j], s2.value) {
        var j :| 0 <= j < |cfg1[i].keys| && KeyDiffers(cfg1[i].keys[j], s2.value);
        var e := FilesLeftMsg(cfg1[i], s2.value, j);
        assert FilesLeftKeyMsg(e, cfg1[i], GetSection(cfg2, cfg1[i].name).value, j);
        assert SomeFilesLeftKeyMsg(e, cfg1, cfg2);
        assert FilesCandidate(e, cfg1, cfg2);
      } else {
        var j :| 0 <= j < |s2.value.keys| && KeyMissing(s2.value.keys[j], cfg1[i]);
        var e := FilesRightMsg(cfg1[i], s2.value, j);
        assert FilesRightKeyMsg(e, cfg1[i], GetSection(cfg2, cfg1[i].name).value, j);
        assert SomeFilesRightKeyMsg(e, cfg1, cfg2);
        assert FilesCandidate(e, cfg1, cfg2);
      }
    }
  }

  /** `CompareIniFiles` on the report `r0`: load errors first; a panic
      exactly when the first left section missing on the right finds its
      `-[S]` entry already in the report (`FilesPanics`), since then the
      `break` is skipped; otherwise the report is `r0` unchanged, or the header followed by `r0` and the new messages,
      and every message for a section the loop reaches is in it. On an empty
      report, the result is empty exactly when no left section differs from
      its counterpart (sections only on the right never count). */
  method IniFilesDiff(r0: seq<string>, doc1: Result<IniDoc>, doc2: Result<IniDoc>, origin: string, dest: string)
    returns (res: Result<seq<string>>)
    ensures !doc1.Ok? ==> res == Err("Error while loading file " + origin + ": " + ErrorText(doc1))
    ensures doc1.Ok? && !doc2.Ok? ==> res == Err("Erro while loading file " + dest + ": " + ErrorText(doc2))
    ensures doc1.Ok? && doc2.Ok? ==> !res.Err?
    ensures res.Panic? <==> doc1.Ok? && doc2.Ok? && FilesPanics(r0, doc1.value, doc2.value)
    ensures res.Ok? ==>
      (res.value == r0
       || (|res.value| > |r0| && res.value[0] == GodiffRaw.Header(origin, dest) && r0 <= res.value[1..]
           && (NoDup(r0) ==> NoDup(res.value[1..]))
           && forall k | 1 + |r0| <= k < |res.value| :: FilesCandidate(res.value[k], doc1.value, doc2.value)))
    ensures res.Ok? ==> forall e | FilesCandidate(e, doc1.value, doc2.value) :: e in res.value
    ensures res.Ok? && r0 == [] ==>
      (res.value == [] <==> forall i | 0 <= i < |doc1.value| :: !SectionDiffers(doc1.value[i], doc2.value))
  {
    if !doc1.Ok? {
      return Err("Error while loading file " + origin + ": " + ErrorText(doc1));
    }
    if !doc2.Ok? {
      return Err("Erro while loading file " + dest + ": " + ErrorText(doc2));
    }
    var cfg1, cfg2 := doc1.value, doc2.value;
    var body, diffFound := FilesSections(r0, cfg1, cfg2);
    if body.Panic? {
      return body;
    }
    var r := body.value;
    if r0 == [] && r != [] {
      FilesCandidateShowsDifference(r[0], cfg1, cfg2);
    }
    if exists i | 0 <= i < |cfg1| :: SectionDiffers(cfg1[i], cfg2) {
      var i :| 0 <= i < |cfg1| && SectionDiffers(cfg1[i], cfg2);
      FilesDifferenceHasCandidate(cfg1, cfg2, i);
      var e :| FilesCandidate(e, cfg1, cfg2);
      assert e in r;
    }
    if diffFound {
      InFront(GodiffRaw.Header(origin, dest), r);
      r := [GodiffRaw.Header(origin, dest)] + r;
      assert r[1..] == body.value;
    }
    return Ok(r);
  }
}
