/** `LoadCinderOpenShiftConfig` of `pkg/servicecfg/cinder.go`: the
    `customServiceConfig` snippets of a decoded Cinder resource that open
    with a section header are concatenated and then cleaned as INI text.
    Reading and decoding the resource enter as a `Result`; both failures
    panic in the source. */
module Cinder {
  import opened GoStrings
  import opened Results
  import opened ServicecfgUtils
  import GodiffMaps
  import GodiffClean

  /** The four `customServiceConfig` fields of `spec.cinder.template`; the
      rest of the resource plays no part. */
  datatype CinderTemplate = CinderTemplate(
    apiConfig: string,        // cinderAPI.customServiceConfig
    schedulerConfig: string,  // cinderScheduler.customServiceConfig
    iscsiConfig: string,      // cinderVolumes.tripleo-iscsi.customServiceConfig
    templateConfig: string    // customServiceConfig of the template itself
  )

  /** The fields in the order the source tests them. */
  function Configs(t: CinderTemplate): (cs: seq<string>)
    ensures |cs| == 4
  {
    [t.apiConfig, t.schedulerConfig, t.iscsiConfig, t.templateConfig]
  }

  /** The string builder: each field that starts with `[` is written, in
      order. */
  method Gather(t: CinderTemplate) returns (sb: string)
    ensures sb == Kept(Configs(t))
  {
    ghost var cs := Configs(t);
    sb := "";
    assert sb == Kept(cs[..0]);
    KeptStep(cs, 0);
    if HasPrefix(t.apiConfig, "[") {
      sb := sb + t.apiConfig;
    }
    assert sb == Kept(cs[..1]);
    KeptStep(cs, 1);
    if HasPrefix(t.schedulerConfig, "[") {
      sb := sb + t.schedulerConfig;
    }
    assert sb == Kept(cs[..2]);
    KeptStep(cs, 2);
    if HasPrefix(t.iscsiConfig, "[") {
      sb := sb + t.iscsiConfig;
    }
    assert sb == Kept(cs[..3]);
    KeptStep(cs, 3);
    if HasPrefix(t.templateConfig, "[") {
      sb := sb + t.templateConfig;
    }
    assert sb == Kept(cs[..4]);
    assert cs[..4] == cs;
  }

  /** `LoadCinderOpenShiftConfig`: a read or decode error panics; otherwise
      the kept snippets are cleaned, their sections rendered in the order
      the cleaning walks them. */
  method LoadCinderOpenShiftConfig(doc: Result<CinderTemplate>) returns (res: Result<string>, ghost order: seq<string>)
    ensures !doc.Ok? <==> res.Panic?
    ensures !doc.Ok? ==> res.reason == ErrorText(doc)
    ensures doc.Ok? ==> var text := Kept(Configs(doc.value));
      GodiffMaps.Enumerates(order, GodiffClean.Sections(text).Keys)
      && res == Ok(GodiffClean.Render(order, GodiffClean.Sections(text)))
  {
    order := [];
    if !doc.Ok? {
      return Panic(ErrorText(doc)), order;
    }
    var sb := Gather(doc.value);
    var out;
    out, order := GodiffClean.CleanIniSections(sb);
    return Ok(out), order;
  }

  /** A resource none of whose snippets opens with a section header gives
      the empty configuration. */
  lemma NoneBracketedGivesEmpty(t: CinderTemplate, order: seq<string>)
    requires forall c | c in Configs(t) :: !Bracketed(c)
    ensures var text := Kept(Configs(t));
      text == ""
      && (GodiffMaps.Enumerates(order, GodiffClean.Sections(text).Keys) ==>
            GodiffClean.Render(order, GodiffClean.Sections(text)) == "")
  {
    KeptEmptyIff(Configs(t));
    GodiffClean.CleanOfEmpty(order);
  }

  /** The text handed to the cleaning holds each bracketed snippet whole
      and, when not empty, opens with a section header. */
  lemma GatheredText(t: CinderTemplate)
    ensures var text := Kept(Configs(t));
      (text == "" || Bracketed(text))
      && (forall i | 0 <= i < 4 && Bracketed(Configs(t)[i]) :: Contains(text, Configs(t)[i]))
  {
    KeptStartsBracketed(Configs(t));
    forall i | 0 <= i < 4 && Bracketed(Configs(t)[i])
      ensures Contains(Kept(Configs(t)), Configs(t)[i])
    {
      KeptContains(Configs(t), i);
    }
  }
}
