/** `LoadGlanceOpenShiftConfig` of `pkg/servicecfg/glance.go`: the
    template's `customServiceConfig` is cleaned as INI text when it opens
    with a section header, and the empty text is cleaned otherwise.
    Reading and decoding the resource enter as a `Result`; both failures
    panic in the source. */
module Glance {
  import opened GoStrings
  import opened Results
  import opened ServicecfgUtils
  import GodiffMaps
  import GodiffClean

  /** The one field of `spec.glance.template` the loader reads. */
  datatype GlanceTemplate = GlanceTemplate(customServiceConfig: string)

  /** `LoadGlanceOpenShiftConfig`: a read or decode error panics; otherwise
      the configuration, when kept, is cleaned. */
  method LoadGlanceOpenShiftConfig(doc: Result<GlanceTemplate>) returns (res: Result<string>, ghost order: seq<string>)
    ensures !doc.Ok? <==> res.Panic?
    ensures !doc.Ok? ==> res.reason == ErrorText(doc)
    ensures doc.Ok? ==> var text := Kept([doc.value.customServiceConfig]);
      GodiffMaps.Enumerates(order, GodiffClean.Sections(text).Keys)
      && res == Ok(GodiffClean.Render(order, GodiffClean.Sections(text)))
  {
    order := [];
    if !doc.Ok? {
      return Panic(ErrorText(doc)), order;
    }
    var sb := "";
    var config := doc.value.customServiceConfig;
    if HasPrefix(config, "[") {
      sb := sb + config;
    }
    assert [config][..0] == [];
    var out;
    out, order := GodiffClean.CleanIniSections(sb);
    return Ok(out), order;
  }

  /** A configuration that does not open with a section header is dropped:
      the loader gives the empty text. A kept one is cleaned as it is. */
  lemma GlanceSelection(config: string, order: seq<string>)
    ensures !Bracketed(config) ==> Kept([config]) == ""
    ensures Bracketed(config) ==> Kept([config]) == config
    ensures !Bracketed(config) && GodiffMaps.Enumerates(order, GodiffClean.Sections(Kept([config])).Keys) ==>
      GodiffClean.Render(order, GodiffClean.Sections(Kept([config]))) == ""
  {
    assert [config][..0] == [];
    GodiffClean.CleanOfEmpty(order);
  }
}
