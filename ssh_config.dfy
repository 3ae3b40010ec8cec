/** The ssh configuration generator of `pkg/common/ssh_config.go`: three
    inventory readers (an INI inventory, an /etc/hosts file, a YAML
    inventory) each produce host stanzas, written one after another into a
    fresh configuration file. File contents and the decoded YAML inventory
    are parameters; the file being written is a `ConfigFile` object. */
module SshConfig {
  import opened GoStrings
  import opened Results
  import opened CommonUtils

  /** One `Host` stanza's settings. */
  datatype Host = Host(Name: string, HostName: string, IdentityFile: string, Port: string, User: string,
                       AdditionalLines: seq<string>, StrictHostKeyChecking: string, UserKnownHostsFile: string)

  /** `&Host{Name: name, HostName: hostName}`: every other field empty. */
  function NewHost(name: string, hostName: string): Host {
    Host(name, hostName, "", "", "", [], "", "")
  }

  /** The concatenation of the written pieces. */
  function Concat(pieces: seq<string>): string {
    if pieces == [] then "" else Concat(pieces[..|pieces| - 1]) + pieces[|pieces| - 1]
  }

  lemma ConcatSnoc(pieces: seq<string>, x: string)
    ensures Concat(pieces + [x]) == Concat(pieces) + x
  {
    assert (pieces + [x])[..|pieces|] == pieces;
  }

  // ---------------------------------------------------------------------
  // writeHostConfig

  /** Each additional line, indented by two spaces. */
  function Indented(lines: seq<string>): (r: seq<string>)
    ensures |r| == |lines|
  {
    if lines == [] then [] else Indented(lines[..|lines| - 1]) + [IndentedLine(lines[|lines| - 1])]
  }

  function IndentedLine(line: string): string { "  " + line + "\n" }

  /** Line `i` of the block is additional line `i`, indented. */
  lemma {:induction false} IndentedAt(lines: seq<string>, i: nat)
    requires i < |lines|
    ensures Indented(lines)[i] == "  " + lines[i] + "\n"
  {
    if i < |lines| - 1 {
      IndentedAt(lines[..|lines| - 1], i);
    }
  }

  /** The known-hosts line as `writeHostConfig` writes it: a non-empty
      file name comes out under the `StrictHostKeyChecking` label. */
  function KnownHostsLineAsWritten(h: Host): string {
    if h.UserKnownHostsFile == "" then "  UserKnownHostsFile /dev/null\n"
    else "  StrictHostKeyChecking " + h.UserKnownHostsFile + "\n"
  }

  /** The known-hosts line under its own label. */
  function KnownHostsLine(h: Host): string {
    if h.UserKnownHostsFile == "" then "  UserKnownHostsFile /dev/null\n"
    else "  UserKnownHostsFile " + h.UserKnownHostsFile + "\n"
  }

  function HostLine(h: Host): string { "Host " + h.Name + "\n" }
  function HostNameLine(h: Host): string { "  HostName " + h.HostName + "\n" }
  function IdentityLine(h: Host): string { "  IdentityFile " + h.IdentityFile + "\n" }
  function PortLine(h: Host): string { "  Port " + h.Port + "\n" }

  /** `Host`, `HostName`, then `IdentityFile` and `Port` when set. */
  function AddressLines(h: Host): seq<string> {
    var names := [HostLine(h), HostNameLine(h)];
    var identity := if h.IdentityFile != "" then names + [IdentityLine(h)] else names;
    if h.Port != "" then identity + [PortLine(h)] else identity
  }

  /** The settings lines of a stanza, in their fixed order, with `known`
      as the known-hosts line: `Host`, `HostName`, `IdentityFile` and `Port`
      when set, `User` (default `root`), `StrictHostKeyChecking` (default
      `no`), the known-hosts line. */
  function SettingLines(h: Host, known: string): seq<string> {
    AddressLines(h) + [UserLine(h), StrictLine(h), known]
  }

  /** `User`, defaulting to `root`. */
  function UserLine(h: Host): string {
    if h.User != "" then "  User " + h.User + "\n" else "  User root\n"
  }

  /** `StrictHostKeyChecking`, defaulting to `no`. */
  function StrictLine(h: Host): string {
    if h.StrictHostKeyChecking == "" then "  StrictHostKeyChecking no\n"
    else "  StrictHostKeyChecking " + h.StrictHostKeyChecking + "\n"
  }

  /** The stanza as the source writes it. */
  function StanzaLinesAsWritten(h: Host): seq<string> {
    SettingLines(h, KnownHostsLineAsWritten(h)) + Indented(h.AdditionalLines) + ["\n"]
  }

  /** The stanza with the known-hosts label corrected; the builders below
      use this one. */
  function StanzaLines(h: Host): seq<string> {
    SettingLines(h, KnownHostsLine(h)) + Indented(h.AdditionalLines) + ["\n"]
  }

  /** The number of lines starting with `tag`. */
  function CountLabel(lines: seq<string>, tag: string): nat {
    if lines == [] then 0
    else CountLabel(lines[..|lines| - 1], tag) + (if HasPrefix(lines[|lines| - 1], tag) then 1 else 0)
  }

  lemma CountLabelSnoc(lines: seq<string>, x: string, tag: string)
    ensures CountLabel(lines + [x], tag) == CountLabel(lines, tag) + (if HasPrefix(x, tag) then 1 else 0)
  {
    assert (lines + [x])[..|lines|] == lines;
  }

  /** A line whose char `i` differs from the label's does not start with it. */
  lemma Untagged(x: string, tag: string, i: nat)
    requires i < |x| && i < |tag| && x[i] != tag[i]
    ensures !HasPrefix(x, tag)
  {
    assert |tag| <= |x| ==> x[..|tag|][i] == x[i];
  }

  const StrictLabel := "  StrictHostKeyChecking "
  const KnownLabel := "  UserKnownHostsFile "

  /** In the settings block only the line a label names starts with it:
      `StrictHostKeyChecking` once, plus the known-hosts line if it carries that label. */
  lemma LabelCounts(h: Host, known: string)
    ensures CountLabel(SettingLines(h, known), StrictLabel)
            == 1 + (if HasPrefix(known, StrictLabel) then 1 else 0)
    ensures CountLabel(SettingLines(h, known), KnownLabel)
            == if HasPrefix(known, KnownLabel) then 1 else 0
  {
    var a := AddressLines(h);
    var l4 := UserLine(h);
    var l5 := StrictLine(h);
    assert CountLabel(a, StrictLabel) == 0 && CountLabel(a, KnownLabel) == 0 by {
      AddressLinesUntagged(h, StrictLabel);
      AddressLinesUntagged(h, KnownLabel);
    }
    assert !HasPrefix(l4, StrictLabel) && !HasPrefix(l4, KnownLabel) by {
      Untagged(l4, StrictLabel, 2);
      Untagged(l4, KnownLabel, 6);
    }
    assert HasPrefix(l5, StrictLabel) && !HasPrefix(l5, KnownLabel) by {
      Untagged(l5, KnownLabel, 2);
      assert l5[..|StrictLabel|] == StrictLabel;
    }
    assert SettingLines(h, known) == a + [l4] + [l5] + [known];
    CountLabelSnoc(a, l4, StrictLabel);
    CountLabelSnoc(a, l4, KnownLabel);
    CountLabelSnoc(a + [l4], l5, StrictLabel);
    CountLabelSnoc(a + [l4], l5, KnownLabel);
    CountLabelSnoc(a + [l4] + [l5], known, StrictLabel);
    CountLabelSnoc(a + [l4] + [l5], known, KnownLabel);
  }

  /** No address line carries either label. */
  lemma AddressLinesUntagged(h: Host, tag: string)
    requires tag == StrictLabel || tag == KnownLabel
    ensures CountLabel(AddressLines(h), tag) == 0
  {
    var l0 := HostLine(h);
    var l1 := HostNameLine(h);
    var l2 := IdentityLine(h);
    var l3 := PortLine(h);
    assert !HasPrefix(l0, tag) by {
      Untagged(l0, tag, 0);
    }
    assert !HasPrefix(l1, tag) by {
      Untagged(l1, tag, 2);
    }
    assert !HasPrefix(l2, tag) by {
      Untagged(l2, tag, 2);
    }
    assert !HasPrefix(l3, tag) by {
      Untagged(l3, tag, 2);
    }
    assert forall l | l in AddressLines(h) :: l == l0 || l == l1 || l == l2 || l == l3;
    CountLabelZero(AddressLines(h), tag);
  }

  lemma {:induction false} CountLabelZero(lines: seq<string>, tag: string)
    requires forall l | l in lines :: !HasPrefix(l, tag)
    ensures CountLabel(lines, tag) == 0
  {
    if lines != [] {
      var init := lines[..|lines| - 1];
      assert forall l | l in init :: l in lines;
      CountLabelZero(init, tag);
    }
  }

  /** As written, a host with a known-hosts file gets two
      `StrictHostKeyChecking` settings and no `UserKnownHostsFile` one. */
  lemma KnownHostsMislabelled(h: Host)
    requires h.UserKnownHostsFile != ""
    ensures CountLabel(SettingLines(h, KnownHostsLineAsWritten(h)), StrictLabel) == 2
    ensures CountLabel(SettingLines(h, KnownHostsLineAsWritten(h)), KnownLabel) == 0
  {
    var known := KnownHostsLineAsWritten(h);
    assert HasPrefix(known, StrictLabel) && !HasPrefix(known, KnownLabel) by {
      assert known[..|StrictLabel|] == StrictLabel;
      assert known[2] == 'S';
      Untagged(known, KnownLabel, 2);
    }
    LabelCounts(h, known);
  }

  /** With the label corrected, each of the two settings appears exactly
      once in the settings block. */
  lemma KnownHostsLabelled(h: Host)
    ensures CountLabel(SettingLines(h, KnownHostsLine(h)), StrictLabel) == 1
    ensures CountLabel(SettingLines(h, KnownHostsLine(h)), KnownLabel) == 1
  {
    var known := KnownHostsLine(h);
    assert HasPrefix(known, KnownLabel) && !HasPrefix(known, StrictLabel) by {
      assert known[..|KnownLabel|] == KnownLabel;
      assert known[2] == 'U';
      Untagged(known, StrictLabel, 2);
    }
    LabelCounts(h, known);
  }

  /** The two renderings agree on every host without a known-hosts file,
      which is every host the builders produce. */
  lemma StanzasAgree(h: Host)
    requires h.UserKnownHostsFile == ""
    ensures StanzaLines(h) == StanzaLinesAsWritten(h)
  {
  }

  /** The stanza starts with the `Host` line, ends with an empty line, and
      has six lines plus one per set optional setting and per
      additional line. */
  lemma StanzaShape(h: Host)
    ensures StanzaLines(h)[0] == "Host " + h.Name + "\n"
    ensures StanzaLines(h)[|StanzaLines(h)| - 1] == "\n"
    ensures |StanzaLines(h)| == 6 + |h.AdditionalLines|
              + (if h.IdentityFile != "" then 1 else 0) + (if h.Port != "" then 1 else 0)
  {
  }

  /** The pieces written for the hosts: every stanza, one after another. */
  function Render(hosts: seq<Host>): seq<string> {
    if hosts == [] then [] else Render(hosts[..|hosts| - 1]) + StanzaLines(hosts[|hosts| - 1])
  }

  lemma RenderSnoc(hosts: seq<Host>, h: Host)
    ensures Render(hosts + [h]) == Render(hosts) + StanzaLines(h)
  {
    assert (hosts + [h])[..|hosts|] == hosts;
  }

  /** The configuration file being written: the pieces passed to
      `WriteString`, in order; its text is their concatenation. */
  class ConfigFile {
    var pieces: seq<string>

    function Text(): string
      reads this
    {
      Concat(pieces)
    }

    /** `os.Create`: an empty file. */
    constructor()
      ensures pieces == []
    {
      pieces := [];
    }

    method WriteString(s: string)
      modifies this
      ensures pieces == old(pieces) + [s]
    {
      pieces := pieces + [s];
    }

    /** The additional lines, each on its own indented line. */
    method WriteIndented(lines: seq<string>)
      modifies this
      ensures pieces == old(pieces) + Indented(lines)
    {
      for i := 0 to |lines|
        invariant pieces == old(pieces) + Indented(lines[..i])
      {
        WriteString(IndentedLine(lines[i]));
        assert lines[..i + 1][..i] == lines[..i];
      }
      assert lines[..|lines|] == lines;
    }

    /** `writeHostConfig`: the host's stanza, line after line, with the
        known-hosts line as the source labels it; for a host without a
        known-hosts file that is the corrected stanza. */
    method WriteHostConfig(host: Host)
      modifies this
      ensures pieces == old(pieces) + StanzaLinesAsWritten(host)
      ensures host.UserKnownHostsFile == "" ==> pieces == old(pieces) + StanzaLines(host)
    {
      ghost var p0 := pieces;
      WriteString(HostLine(host));
      WriteString(HostNameLine(host));
      if host.IdentityFile != "" {
        WriteString(IdentityLine(host));
      }
      if host.Port != "" {
        WriteString(PortLine(host));
      }
      assert pieces == p0 + AddressLines(host);
      WriteString(UserLine(host));
      WriteString(StrictLine(host));
      WriteString(KnownHostsLineAsWritten(host));
      AppendThree(p0, AddressLines(host), UserLine(host), StrictLine(host), KnownHostsLineAsWritten(host));
      WriteIndented(host.AdditionalLines);
      WriteString("\n");
      AppendTwo(p0, SettingLines(host, KnownHostsLineAsWritten(host)), Indented(host.AdditionalLines), "\n");
      if host.UserKnownHostsFile == "" {
        StanzasAgree(host);
      }
    }
  }

  lemma AppendThree<T>(p: seq<T>, a: seq<T>, x: T, y: T, z: T)
    ensures p + a + [x] + [y] + [z] == p + (a + [x, y, z])
  {
  }

  lemma AppendTwo<T>(p: seq<T>, a: seq<T>, b: seq<T>, x: T)
    ensures p + a + b + [x] == p + (a + b + [x])
  {
  }

  // ---------------------------------------------------------------------
  // /etc/hosts

  /** A blank line has no fields. */
  lemma BlankHasNoFields(line: string)
    requires |TrimSpace(line)| == 0
    ensures Fields(line) == []
  {
    var t := TrimLeft(line, SpaceChars);
    assert TrimSpace(line) == TrimRight(t, SpaceChars);
    assert |t| == 0;
  }

  /** The host one /etc/hosts line gives: none for a comment or a line with
      fewer than two fields (a blank line has none), else `HostName` is the
      second field and `Name` the third when there are exactly three, the
      second otherwise. */
  function EtcHost(line: string): (h: Option<Host>)
    ensures h.None? <==> HasPrefix(line, "#") || |Fields(line)| < 2
    ensures h.Some? ==> IsWord(h.value.Name) && IsWord(h.value.HostName)
    ensures h.Some? ==> h.value.HostName == Fields(line)[1]
    ensures h.Some? ==> h.value == NewHost(if |Fields(line)| == 3 then Fields(line)[2] else Fields(line)[1],
                                           Fields(line)[1])
  {
    if HasPrefix(line, "#") || |TrimSpace(line)| == 0 then
      (if |TrimSpace(line)| == 0 then BlankHasNoFields(line); None else None)
    else
      var fields := Fields(line);
      if |fields| < 2 then None
      else
        assert fields[1] in fields;
        assert |fields| == 3 ==> fields[2] in fields;
        Some(NewHost(if |fields| == 3 then fields[2] else fields[1], fields[1]))
  }

  function EtcHosts(lines: seq<string>): seq<Host> {
    if lines == [] then []
    else
      var last := EtcHost(lines[|lines| - 1]);
      EtcHosts(lines[..|lines| - 1]) + (if last.Some? then [last.value] else [])
  }

  lemma EtcHostsStep(lines: seq<string>, i: nat)
    requires i < |lines|
    ensures EtcHost(lines[i]).None? ==> EtcHosts(lines[..i + 1]) == EtcHosts(lines[..i])
    ensures EtcHost(lines[i]).Some? ==> EtcHosts(lines[..i + 1]) == EtcHosts(lines[..i]) + [EtcHost(lines[i]).value]
  {
    assert lines[..i + 1][..i] == lines[..i];
  }

  /** `BuildSshConfigFileFromEtcHosts`: one stanza per host line, in file
      order. */
  method FromEtcHosts(data: Result<string>) returns (res: Result<string>)
    ensures !data.Ok? ==> res == Err(ErrorText(data))
    ensures data.Ok? ==> res == Ok(Concat(Render(EtcHosts(Split(data.value, '\n')))))
  {
    if !data.Ok? {
      return Err(ErrorText(data));
    }
    var lines := Split(data.value, '\n');
    var f := new ConfigFile();
    for i := 0 to |lines|
      invariant f.pieces == Render(EtcHosts(lines[..i]))
    {
      EtcHostsStep(lines, i);
      var line := lines[i];
      if HasPrefix(line, "#") || |TrimSpace(line)| == 0 {
        assert EtcHost(line).None?;
        continue;
      }
      var fields := Fields(line);
      if |fields| < 2 {
        assert EtcHost(line).None?;
        continue;
      }
      var host;
      if |fields| == 3 {
        host := NewHost(fields[2], fields[1]);
      } else {
        host := NewHost(fields[1], fields[1]);
      }
      assert EtcHost(line) == Some(host);
      RenderSnoc(EtcHosts(lines[..i]), host);
      f.WriteHostConfig(host);

    }
    assert lines[..|lines|] == lines;
    return Ok(f.Text());
  }

  // ---------------------------------------------------------------------
  // INI inventory

  const IdentityKey := "ansible_ssh_private_key_file="
  const PortKey := "ansible_port="
  const UserKey := "ansible_user="

  /** A separator that occurs splits the text in at least two parts. */
  lemma SplitAtPresent(s: string, c: char)
    requires c in s
    ensures |Split(s, c)| >= 2
  {
    var parts := Split(s, c);
    assert Join([parts[0]], [c]) == parts[0];
  }

  /** `strings.Split(param, "=")[1]`: the text between the first and the
      second `=`. */
  function SecondField(param: string): (v: string)
    requires '=' in param
    ensures '=' !in v
  {
    SplitAtPresent(param, '=');
    Split(param, '=')[1]
  }

  /** A parameter that sets one of the three settings. */
  predicate IsSetting(param: string) {
    HasPrefix(param, IdentityKey) || HasPrefix(param, PortKey) || HasPrefix(param, UserKey)
  }

  lemma KeyHasEquals(param: string, key: string)
    requires key in {IdentityKey, PortKey, UserKey} && HasPrefix(param, key)
    ensures '=' in param
  {
    assert param[|key| - 1] == key[|key| - 1] == '=';
  }

  /** What one parameter does to the host. */
  function ApplyParam(h: Host, param: string): Host {
    if HasPrefix(param, IdentityKey) then KeyHasEquals(param, IdentityKey); h.(IdentityFile := SecondField(param))
    else if HasPrefix(param, PortKey) then KeyHasEquals(param, PortKey); h.(Port := SecondField(param))
    else if HasPrefix(param, UserKey) then KeyHasEquals(param, UserKey); h.(User := SecondField(param))
    else h.(AdditionalLines := h.AdditionalLines + [param])
  }

  function ApplyParams(h: Host, params: seq<string>): Host {
    if params == [] then h else ApplyParam(ApplyParams(h, params[..|params| - 1]), params[|params| - 1])
  }

  /** The parameters that set nothing, in order. */
  function Others(params: seq<string>): seq<string> {
    if params == [] then [] else (if IsSetting(params[0]) then [] else [params[0]]) + Others(params[1..])
  }

  lemma {:induction false} OthersAppend(params: seq<string>, p: string)
    ensures Others(params + [p]) == Others(params) + (if IsSetting(p) then [] else [p])
    decreases |params|
  {
    if params != [] {
      assert (params + [p])[1..] == params[1..] + [p];
      OthersAppend(params[1..], p);
    }
  }

  /** Parameters that set nothing become additional lines, in order and
      including empty ones; name, host name and the two unused settings
      stay as they were. */
  lemma {:induction false} ApplyParamsOthers(h: Host, params: seq<string>)
    ensures ApplyParams(h, params).AdditionalLines == h.AdditionalLines + Others(params)
    ensures ApplyParams(h, params).Name == h.Name && ApplyParams(h, params).HostName == h.HostName
    ensures ApplyParams(h, params).StrictHostKeyChecking == h.StrictHostKeyChecking
    ensures ApplyParams(h, params).UserKnownHostsFile == h.UserKnownHostsFile
  {
    if params != [] {
      var init := params[..|params| - 1];
      ApplyParamsOthers(h, init);
      OthersAppend(init, params[|params| - 1]);
      assert params == init + [params[|params| - 1]];
    }
  }

  /** The setting a key names. */
  function Setting(h: Host, key: string): string {
    if key == IdentityKey then h.IdentityFile else if key == PortKey then h.Port else h.User
  }

  lemma KeysExclusive(param: string)
    ensures !(HasPrefix(param, IdentityKey) && HasPrefix(param, PortKey))
    ensures !(HasPrefix(param, IdentityKey) && HasPrefix(param, UserKey))
    ensures !(HasPrefix(param, PortKey) && HasPrefix(param, UserKey))
  {
    if HasPrefix(param, IdentityKey) {
      assert param[8] == 's';
    } else if HasPrefix(param, PortKey) {
      assert param[8] == 'p';
    }
  }

  /** One parameter sets the setting its key names and leaves the others. */
  lemma SettingAfter(h: Host, param: string, key: string)
    requires key in {IdentityKey, PortKey, UserKey}
    ensures HasPrefix(param, key) ==>
      '=' in param && Setting(ApplyParam(h, param), key) == SecondField(param)
    ensures !HasPrefix(param, key) ==> Setting(ApplyParam(h, param), key) == Setting(h, key)
  {
    KeysExclusive(param);
    if HasPrefix(param, key) {
      KeyHasEquals(param, key);
    }
  }

  /** A setting that no parameter names keeps its value. */
  lemma {:induction false} UnsetSettingKept(h: Host, params: seq<string>, key: string)
    requires key in {IdentityKey, PortKey, UserKey}
    requires forall i | 0 <= i < |params| :: !HasPrefix(params[i], key)
    ensures Setting(ApplyParams(h, params), key) == Setting(h, key)
  {
    if params != [] {
      var init := params[..|params| - 1];
      assert forall i | 0 <= i < |init| :: init[i] == params[i];
      UnsetSettingKept(h, init, key);
      SettingAfter(ApplyParams(h, init), params[|params| - 1], key);
    }
  }

  /** Otherwise the last parameter that names it wins. */
  lemma {:induction false} LastSettingWins(h: Host, params: seq<string>, key: string, i: nat)
    requires key in {IdentityKey, PortKey, UserKey}
    requires i < |params| && HasPrefix(params[i], key)
    requires forall j | i < j < |params| :: !HasPrefix(params[j], key)
    ensures '=' in params[i] && Setting(ApplyParams(h, params), key) == SecondField(params[i])
  {
    var init := params[..|params| - 1];
    var p := params[|params| - 1];
    SettingAfter(ApplyParams(h, init), p, key);
    if i < |params| - 1 {
      assert forall j | i < j < |init| :: init[j] == params[j];
      LastSettingWins(h, init, key, i);
    }
  }

  /** Skipped INI lines: empty, comments and `[group]` headers (after
      trimming). */
  predicate IniSkipped(line: string) {
    |line| == 0 || HasPrefix(line, "#") || (HasPrefix(line, "[") && HasSuffix(line, "]"))
  }

  /** The host one INI inventory line gives: the first space-separated part
      names it, the rest are its parameters. */
  function IniHost(raw: string): (h: Option<Host>)
    ensures h.None? <==> IniSkipped(TrimSpace(raw))
  {
    var line := TrimSpace(raw);
    if IniSkipped(line) then None
    else
      var parts := Split(line, ' ');
      Some(ApplyParams(NewHost(parts[0], parts[0]), parts[1..]))
  }

  function IniHosts(lines: seq<string>): seq<Host> {
    if lines == [] then []
    else
      var last := IniHost(lines[|lines| - 1]);
      IniHosts(lines[..|lines| - 1]) + (if last.Some? then [last.value] else [])
  }

  /** Name and host name of an INI host are its first part, the
      parameters that set nothing are its additional lines, and it never
      has a known-hosts file. */
  lemma IniHostFacts(raw: string)
    requires !IniSkipped(TrimSpace(raw))
    ensures var parts := Split(TrimSpace(raw), ' ');
      var h := IniHost(raw).value;
      h.Name == parts[0] && h.HostName == parts[0] && h.AdditionalLines == Others(parts[1..])
      && h.UserKnownHostsFile == "" && h.StrictHostKeyChecking == ""
  {
    var parts := Split(TrimSpace(raw), ' ');
    ApplyParamsOthers(NewHost(parts[0], parts[0]), parts[1..]);
  }

  /** The parameter loop of `BuildSshConfigFileFromIni`. */
  method SetParameters(h0: Host, params: seq<string>) returns (h: Host)
    ensures h == ApplyParams(h0, params)
  {
    h := h0;
    for i := 0 to |params|
      invariant h == ApplyParams(h0, params[..i])
    {
      var param := params[i];
      assert params[..i + 1][..i] == params[..i];
      if HasPrefix(param, IdentityKey) {
        KeyHasEquals(param, IdentityKey);
        h := h.(IdentityFile := Split(param, '=')[1]);
      } else if HasPrefix(param, PortKey) {
        KeyHasEquals(param, PortKey);
        h := h.(Port := Split(param, '=')[1]);
      } else if HasPrefix(param, UserKey) {
        KeyHasEquals(param, UserKey);
        h := h.(User := Split(param, '=')[1]);
      } else {
        h := h.(AdditionalLines := h.AdditionalLines + [param]);
      }
    }
    assert params[..|params|] == params;
  }

  lemma IniHostsStep(lines: seq<string>, i: nat)
    requires i < |lines|
    ensures IniHost(lines[i]).None? ==> IniHosts(lines[..i + 1]) == IniHosts(lines[..i])
    ensures IniHost(lines[i]).Some? ==> IniHosts(lines[..i + 1]) == IniHosts(lines[..i]) + [IniHost(lines[i]).value]
  {
    assert lines[..i + 1][..i] == lines[..i];
  }

  /** One line of the inventory: skipped, or a host with its parameters. */
  method ReadIniHost(raw: string) returns (host: Option<Host>)
    ensures host == IniHost(raw)
  {
    var line := TrimSpace(raw);
    if |line| == 0 || HasPrefix(line, "#") {
      return None;
    }
    if HasPrefix(line, "[") && HasSuffix(line, "]") {
      return None;
    }
    var parts := Split(line, ' ');
    var hostName := parts[0];
    var h := SetParameters(NewHost(hostName, hostName), parts[1..]);
    return Some(h);
  }

  lemma LastSplit(hs: seq<Host>)
    requires hs != []
    ensures hs == hs[..|hs| - 1] + [hs[|hs| - 1]]
  {
  }

  /** What the loop of `BuildSshConfigFileFromIni` keeps after `i` lines:
      the host still pending is the last one read, and every earlier one
      has been written. */
  ghost predicate IniLoopInv(lines: seq<string>, i: nat, current: Option<Host>, pieces: seq<string>)
    requires i <= |lines|
  {
    var hs := IniHosts(lines[..i]);
    if current.None? then hs == [] && pieces == []
    else hs != [] && hs[|hs| - 1] == current.value && pieces == Render(hs[..|hs| - 1])
  }

  /** One line of the loop: a skipped line changes nothing. */
  lemma IniLoopSkip(lines: seq<string>, i: nat, current: Option<Host>, pieces: seq<string>)
    requires i < |lines| && IniLoopInv(lines, i, current, pieces)
    requires IniHost(lines[i]).None?
    ensures IniLoopInv(lines, i + 1, current, pieces)
  {
    IniHostsStep(lines, i);
  }

  /** A host line writes the pending host, if any, and becomes the pending
      one. */
  lemma IniLoopHost(lines: seq<string>, i: nat, current: Option<Host>, pieces: seq<string>)
    requires i < |lines| && IniLoopInv(lines, i, current, pieces)
    requires IniHost(lines[i]).Some?
    ensures IniLoopInv(lines, i + 1, IniHost(lines[i]),
                       if current.Some? then pieces + StanzaLines(current.value) else pieces)
  {
    var hs := IniHosts(lines[..i]);
    var hs1 := IniHosts(lines[..i + 1]);
    IniHostsStep(lines, i);
    assert hs1 == hs + [IniHost(lines[i]).value];
    assert hs1[..|hs1| - 1] == hs;
    if current.Some? {
      PendingWritten(hs, pieces);
    }
  }

  /** Writing the last host of `hs` after the others renders them all. */
  lemma PendingWritten(hs: seq<Host>, pieces: seq<string>)
    requires hs != [] && pieces == Render(hs[..|hs| - 1])
    ensures pieces + StanzaLines(hs[|hs| - 1]) == Render(hs)
  {
    LastSplit(hs);
    RenderSnoc(hs[..|hs| - 1], hs[|hs| - 1]);
  }

  /** After the last line, writing the pending host renders them all. */
  lemma IniLoopDone(lines: seq<string>, current: Option<Host>, pieces: seq<string>)
    requires IniLoopInv(lines, |lines|, current, pieces)
    ensures current.None? ==> pieces == Render(IniHosts(lines))
    ensures current.Some? ==> pieces + StanzaLines(current.value) == Render(IniHosts(lines))
  {
    assert lines[..|lines|] == lines;
    if current.Some? {
      PendingWritten(IniHosts(lines), pieces);
    }
  }

  /** `BuildSshConfigFileFromIni`: a host is written only when the next
      host line is met, and the last one after the loop; every host line
      gives exactly one stanza, in file order. */
  method FromIni(data: Result<string>) returns (res: Result<string>)
    ensures !data.Ok? ==> res == Err(ErrorText(data))
    ensures data.Ok? ==> res == Ok(Concat(Render(IniHosts(Split(data.value, '\n')))))
  {
    if !data.Ok? {
      return Err(ErrorText(data));
    }
    var lines := Split(data.value, '\n');
    var text := WriteIniHosts(lines);
    return Ok(text);
  }

  /** The line loop of `BuildSshConfigFileFromIni`, writing to a fresh
      file. */
  method WriteIniHosts(lines: seq<string>) returns (text: string)
    ensures text == Concat(Render(IniHosts(lines)))
  {
    var f := new ConfigFile();
    var current: Option<Host> := None;
    for i := 0 to |lines|
      invariant IniLoopInv(lines, i, current, f.pieces)
      invariant current.Some? ==> current.value.UserKnownHostsFile == ""
    {
      var next := ReadIniHost(lines[i]);
      if next.None? {
        IniLoopSkip(lines, i, current, f.pieces);
        continue;
      }
      IniHostFacts(lines[i]);
      IniLoopHost(lines, i, current, f.pieces);
      if current.Some? {
        f.WriteHostConfig(current.value);
      }
      current := next;
    }
    IniLoopDone(lines, current, f.pieces);
    if current.Some? {
      f.WriteHostConfig(current.value);
    }
    text := f.Text();
  }

  // ---------------------------------------------------------------------
  // YAML inventory

  /** The four variables of an inventory host. */
  datatype AnsibleHost = AnsibleHost(AnsibleHost: string, AnsibleUser: string, AnsiblePort: string,
                                     AnsibleSSHPrivateKeyFile: string)
  datatype Group = Group(hosts: map<string, AnsibleHost>)
  type Inventory = map<string, Group>

  /** The stanza settings of one inventory host: its name, and as host name
      its `ansible_ssh_host`, or its name when that is empty. */
  function YamlHost(name: string, ah: AnsibleHost): Host {
    NewHost(name, if ah.AnsibleHost != "" then ah.AnsibleHost else name)
  }

  /** A (group, host) pair of the inventory. */
  predicate InInventory(p: (string, string), inv: Inventory) {
    p.0 in inv && p.1 in inv[p.0].hosts
  }

  function YamlHosts(pairs: seq<(string, string)>, inv: Inventory): (r: seq<Host>)
    requires forall p | p in pairs :: InInventory(p, inv)
    ensures |r| == |pairs|
  {
    if pairs == [] then []
    else
      var p := pairs[|pairs| - 1];
      assert p in pairs;
      assert InInventory(p, inv);
      YamlHosts(pairs[..|pairs| - 1], inv) + [YamlHost(p.1, inv[p.0].hosts[p.1])]
  }

  /** `pairs` lists, without repetition, exactly the (group, host) pairs
      whose group is in `groups`. */
  ghost predicate Covers(pairs: seq<(string, string)>, inv: Inventory, groups: set<string>) {
    NoDup(pairs)
    && (forall p | p in pairs :: InInventory(p, inv) && p.0 in groups)
    && (forall p: (string, string) | InInventory(p, inv) && p.0 in groups :: p in pairs)
  }

  /** As `Covers`, plus the pairs of group `g` whose host is in `names`. */
  ghost predicate Visited(pairs: seq<(string, string)>, inv: Inventory, groups: set<string>, g: string, names: set<string>) {
    NoDup(pairs)
    && (forall p | p in pairs :: InInventory(p, inv) && (p.0 in groups || (p.0 == g && p.1 in names)))
    && (forall p: (string, string) | InInventory(p, inv) && p.0 in groups :: p in pairs)
    && (forall n | n in names :: (g, n) in pairs)
  }

  lemma VisitStart(pairs: seq<(string, string)>, inv: Inventory, groups: set<string>, g: string)
    requires Covers(pairs, inv, groups)
    ensures Visited(pairs, inv, groups, g, {})
  {
  }

  lemma VisitStep(pairs: seq<(string, string)>, inv: Inventory, groups: set<string>, g: string,
                  names: set<string>, n: string)
    requires Visited(pairs, inv, groups, g, names)
    requires g in inv && g !in groups && n in inv[g].hosts && n !in names
    ensures Visited(pairs + [(g, n)], inv, groups, g, names + {n})
  {
    assert (g, n) !in pairs;
    NoDupAppend(pairs, (g, n));
  }

  lemma VisitEnd(pairs: seq<(string, string)>, inv: Inventory, groups: set<string>, g: string)
    requires g in inv && Visited(pairs, inv, groups, g, inv[g].hosts.Keys)
    ensures Covers(pairs, inv, groups + {g})
  {
    forall p: (string, string) | InInventory(p, inv) && p.0 in groups + {g}
      ensures p in pairs
    {
      if p.0 !in groups {
        assert p == (g, p.1);
      }
    }
  }

  lemma YamlHostsSnoc(pairs: seq<(string, string)>, p: (string, string), inv: Inventory)
    requires forall q | q in pairs :: InInventory(q, inv)
    requires InInventory(p, inv)
    ensures YamlHosts(pairs + [p], inv) == YamlHosts(pairs, inv) + [YamlHost(p.1, inv[p.0].hosts[p.1])]
  {
    assert (pairs + [p])[..|pairs|] == pairs;
  }

  /** Writing host `n` of group `g` visits the pair `(g, n)` and renders
      its stanza after the others. */
  lemma GroupStep(pairs: seq<(string, string)>, inv: Inventory, groups: set<string>, g: string,
                  names: set<string>, rest: set<string>, n: string)
    requires g in inv && g !in groups && n in rest
    requires rest + names == inv[g].hosts.Keys && rest !! names
    requires Visited(pairs, inv, groups, g, names)
    ensures (rest - {n}) + (names + {n}) == inv[g].hosts.Keys && (rest - {n}) !! (names + {n})
    ensures Visited(pairs + [(g, n)], inv, groups, g, names + {n})
    ensures Render(YamlHosts(pairs + [(g, n)], inv))
            == Render(YamlHosts(pairs, inv)) + StanzaLines(YamlHost(n, inv[g].hosts[n]))
  {
    MoveName(rest, names, inv[g].hosts.Keys, n);
    VisitStep(pairs, inv, groups, g, names, n);
    YamlHostsSnoc(pairs, (g, n), inv);
    RenderSnoc(YamlHosts(pairs, inv), YamlHost(n, inv[g].hosts[n]));
  }

  lemma MoveName(rest: set<string>, names: set<string>, keys: set<string>, n: string)
    requires rest + names == keys && rest !! names && n in rest
    ensures (rest - {n}) + (names + {n}) == keys && (rest - {n}) !! (names + {n})
  {
  }

  /** One group's hosts, in some order. */
  method WriteGroup(f: ConfigFile, inv: Inventory, g: string, ghost groups: set<string>,
                    ghost pairs0: seq<(string, string)>)
    returns (ghost pairs: seq<(string, string)>)
    requires g in inv && g !in groups
    requires Covers(pairs0, inv, groups)
    requires f.pieces == Render(YamlHosts(pairs0, inv))
    modifies f
    ensures Covers(pairs, inv, groups + {g})
    ensures f.pieces == Render(YamlHosts(pairs, inv))
  {
    var hosts := inv[g].hosts;
    var rest := hosts.Keys;
    ghost var names: set<string> := {};
    pairs := pairs0;
    VisitStart(pairs, inv, groups, g);
    while rest != {}
      invariant rest + names == hosts.Keys && rest !! names
      invariant Visited(pairs, inv, groups, g, names)
      invariant f.pieces == Render(YamlHosts(pairs, inv))
      decreases rest
    {
      var n :| n in rest;
      var host := YamlHost(n, hosts[n]);
      f.WriteHostConfig(host);
      GroupStep(pairs, inv, groups, g, names, rest, n);
      pairs := pairs + [(g, n)];
      rest := rest - {n};
      names := names + {n};
    }
    VisitEnd(pairs, inv, groups, g);
  }

  /** `BuildSshConfigFileFromYaml`: one stanza per (group, host) pair of
      the inventory, each exactly once, in map order. */
  method FromYaml(data: Result<string>, inv: Result<Inventory>)
    returns (res: Result<string>, ghost pairs: seq<(string, string)>)
    ensures !data.Ok? ==> res == Err(ErrorText(data))
    ensures data.Ok? && !inv.Ok? ==> res == Err(ErrorText(inv))
    ensures data.Ok? && inv.Ok? ==>
      NoDup(pairs)
      && (forall p | p in pairs :: InInventory(p, inv.value))
      && (forall p: (string, string) | InInventory(p, inv.value) :: p in pairs)
      && res == Ok(Concat(Render(YamlHosts(pairs, inv.value))))
  {
    pairs := [];
    if !data.Ok? {
      return Err(ErrorText(data)), pairs;
    }
    if !inv.Ok? {
      return Err(ErrorText(inv)), pairs;
    }
    var f := new ConfigFile();
    var rest := inv.value.Keys;
    ghost var groups: set<string> := {};
    while rest != {}
      invariant rest + groups == inv.value.Keys && rest !! groups
      invariant Covers(pairs, inv.value, groups)
      invariant f.pieces == Render(YamlHosts(pairs, inv.value))
      decreases rest
    {
      var g :| g in rest;
      pairs := WriteGroup(f, inv.value, g, groups, pairs);
      rest := rest - {g};
      groups := groups + {g};
    }
    return Ok(f.Text()), pairs;
  }

  // ---------------------------------------------------------------------
  // The mislabelled known-hosts line and the builders

  /** The pieces the source writes for the hosts. */
  function RenderAsWritten(hosts: seq<Host>): seq<string> {
    if hosts == [] then [] else RenderAsWritten(hosts[..|hosts| - 1]) + StanzaLinesAsWritten(hosts[|hosts| - 1])
  }

  predicate NoKnownHostsFile(hosts: seq<Host>) {
    forall i | 0 <= i < |hosts| :: hosts[i].UserKnownHostsFile == ""
  }

  /** Hosts without a known-hosts file come out the same either way. */
  lemma {:induction false} RenderAgrees(hosts: seq<Host>)
    requires NoKnownHostsFile(hosts)
    ensures RenderAsWritten(hosts) == Render(hosts)
  {
    if hosts != [] {
      var init := hosts[..|hosts| - 1];
      assert forall i | 0 <= i < |init| :: init[i] == hosts[i];
      RenderAgrees(init);
      StanzasAgree(hosts[|hosts| - 1]);
    }
  }

  /** No /etc/hosts line sets a known-hosts file. */
  lemma {:induction false} EtcHostsNoKnownHosts(lines: seq<string>)
    ensures NoKnownHostsFile(EtcHosts(lines))
  {
    if lines != [] {
      EtcHostsNoKnownHosts(lines[..|lines| - 1]);
    }
  }

  /** No INI inventory line sets a known-hosts file. */
  lemma {:induction false} IniHostsNoKnownHosts(lines: seq<string>)
    ensures NoKnownHostsFile(IniHosts(lines))
  {
    if lines != [] {
      var init := lines[..|lines| - 1];
      var last := IniHost(lines[|lines| - 1]);
      var tail := if last.Some? then [last.value] else [];
      assert IniHosts(lines) == IniHosts(init) + tail;
      IniHostsNoKnownHosts(init);
      assert NoKnownHostsFile(tail) by {
        if last.Some? {
          IniHostFacts(lines[|lines| - 1]);
        }
      }
      NoKnownHostsAppend(IniHosts(init), tail);
    }
  }

  lemma NoKnownHostsAppend(a: seq<Host>, b: seq<Host>)
    requires NoKnownHostsFile(a) && NoKnownHostsFile(b)
    ensures NoKnownHostsFile(a + b)
  {
    forall i | 0 <= i < |a + b| ensures (a + b)[i].UserKnownHostsFile == "" {
      if i >= |a| {
        assert (a + b)[i] == b[i - |a|];
      }
    }
  }

  /** No YAML inventory host sets a known-hosts file. */
  lemma {:induction false} YamlHostsNoKnownHosts(pairs: seq<(string, string)>, inv: Inventory)
    requires forall p | p in pairs :: InInventory(p, inv)
    ensures NoKnownHostsFile(YamlHosts(pairs, inv))
  {
    if pairs != [] {
      YamlHostsNoKnownHosts(pairs[..|pairs| - 1], inv);
    }
  }

  // ---------------------------------------------------------------------

  /** `BuildSshConfigFile`: the YAML reader when `yaml` is set, else the
      /etc/hosts reader when `etc` is set, else the INI reader. */
  method BuildSshConfigFile(data: Result<string>, inv: Result<Inventory>, yaml: bool, etc: bool)
    returns (res: Result<string>, ghost pairs: seq<(string, string)>)
    ensures !data.Ok? ==> res == Err(ErrorText(data))
    ensures yaml && data.Ok? && !inv.Ok? ==> res == Err(ErrorText(inv))
    ensures yaml && data.Ok? && inv.Ok? ==>
      NoDup(pairs)
      && (forall p | p in pairs :: InInventory(p, inv.value))
      && (forall p: (string, string) | InInventory(p, inv.value) :: p in pairs)
      && res == Ok(Concat(Render(YamlHosts(pairs, inv.value))))
    ensures !yaml && etc && data.Ok? ==> res == Ok(Concat(Render(EtcHosts(Split(data.value, '\n')))))
    ensures !yaml && !etc && data.Ok? ==> res == Ok(Concat(Render(IniHosts(Split(data.value, '\n')))))
  {
    pairs := [];
    if yaml {
      res, pairs := FromYaml(data, inv);
    } else if etc {
      res := FromEtcHosts(data);
    } else {
      res := FromIni(data);
    }
  }
}
