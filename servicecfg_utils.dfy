/** The helpers of `pkg/servicecfg/utils.go` whose logic is not process
    execution: the `key=value` / `key: value` line parser behind
    `LoadFilesIntoMap`, the classification of `stat` output in
    `RemoteStatDir`, and the trimming in `GetPodFullName`. The command
    outputs and the file contents are parameters. */
module ServicecfgUtils {
  import opened GoStrings
  import opened Results

  // ---------------------------------------------------------------------
  // LoadFilesIntoMap

  /** `strings.SplitN(s, sep, 2)` has two parts exactly when the separator
      occurs, and then they are the text before and after its first
      occurrence. */
  lemma SplitTwo(s: string, c: char)
    ensures |SplitN(s, c, 2)| == 2 <==> c in s
    ensures c in s ==> SplitN(s, c, 2) == [s[..IndexOf(s, c)], s[IndexOf(s, c) + 1..]]
  {
  }

  /** The key and value one line gives: split at the first `=`, or, only
      when there is none, at the first `:`; both halves trimmed. A line
      with neither gives nothing. */
  function ParseLine(line: string): (kv: Option<(string, string)>)
    ensures kv.None? <==> '=' !in line && ':' !in line
  {
    var e := IndexOf(line, '=');
    if e >= 0 then Some((TrimSpace(line[..e]), TrimSpace(line[e + 1..])))
    else
      var c := IndexOf(line, ':');
      if c >= 0 then Some((TrimSpace(line[..c]), TrimSpace(line[c + 1..]))) else None
  }

  /** Trimming adds no char. */
  lemma TrimSpaceWithout(x: string, c: char)
    requires c !in x
    ensures c !in TrimSpace(x)
  {
    var l := TrimLeft(x, SpaceChars);
    var r := TrimRight(l, SpaceChars);
    assert forall k | 0 <= k < |r| :: r[k] == l[k] == x[|x| - |l| + k];
  }

  /** The key stops at the first `=`, so it never holds one, and it holds
      no `:` when the split was at a `:`. */
  lemma KeyHasNoSeparator(line: string)
    requires ParseLine(line).Some?
    ensures '=' !in ParseLine(line).value.0
    ensures '=' !in line ==> ':' !in ParseLine(line).value.0
  {
    var e := IndexOf(line, '=');
    if e >= 0 {
      assert '=' !in line[..e];
      TrimSpaceWithout(line[..e], '=');
    } else {
      var c := IndexOf(line, ':');
      assert '=' !in line[..c] && ':' !in line[..c];
      TrimSpaceWithout(line[..c], '=');
      TrimSpaceWithout(line[..c], ':');
    }
  }

  /** Each line's parse, in order. */
  function Entries(lines: seq<string>): (es: seq<Option<(string, string)>>)
    ensures |es| == |lines|
  {
    if lines == [] then [] else Entries(lines[..|lines| - 1]) + [ParseLine(lines[|lines| - 1])]
  }

  lemma {:induction false} EntriesAt(lines: seq<string>, i: nat)
    requires i < |lines|
    ensures Entries(lines)[i] == ParseLine(lines[i])
  {
    if i < |lines| - 1 {
      EntriesAt(lines[..|lines| - 1], i);
    }
  }

  /** The map the parsed entries give: each sets its key, later entries
      overwriting earlier ones. */
  function Fill(es: seq<Option<(string, string)>>): map<string, string> {
    if es == [] then map[]
    else
      var m := Fill(es[..|es| - 1]);
      var e := es[|es| - 1];
      if e.Some? then m[e.value.0 := e.value.1] else m
  }

  /** The map `LoadFilesIntoMap` fills from the lines. */
  function LoadMap(lines: seq<string>): map<string, string> {
    Fill(Entries(lines))
  }

  /** The entry sets the key `key`. */
  predicate SetsKey(e: Option<(string, string)>, key: string) {
    e.Some? && e.value.0 == key
  }

  /** The keys are exactly those some entry sets. */
  lemma {:induction false} FillKeys(es: seq<Option<(string, string)>>, key: string)
    ensures key in Fill(es) <==> exists i | 0 <= i < |es| :: SetsKey(es[i], key)
  {
    if es != [] {
      var init := es[..|es| - 1];
      FillKeys(init, key);
      if key in Fill(init) {
        var i :| 0 <= i < |init| && SetsKey(init[i], key);
        assert es[i] == init[i];
        assert SetsKey(es[i], key);
      }
      if exists i | 0 <= i < |es| :: SetsKey(es[i], key) {
        var i :| 0 <= i < |es| && SetsKey(es[i], key);
        if i < |init| {
          assert init[i] == es[i];
          assert SetsKey(init[i], key);
        }
      }
    }
  }

  /** The value of a key is the one of the last entry that sets it. */
  lemma {:induction false} FillLastWins(es: seq<Option<(string, string)>>, i: nat)
    requires i < |es| && es[i].Some?
    requires forall j | i < j < |es| :: !SetsKey(es[j], es[i].value.0)
    ensures es[i].value.0 in Fill(es) && Fill(es)[es[i].value.0] == es[i].value.1
  {
    var init := es[..|es| - 1];
    if i < |es| - 1 {
      assert forall j | i < j < |init| :: init[j] == es[j];
      FillLastWins(init, i);
      assert !SetsKey(es[|es| - 1], es[i].value.0);
    }
  }

  /** A key is in the map exactly when some line parses to it. */
  lemma LoadMapKeys(lines: seq<string>, key: string)
    ensures key in LoadMap(lines) <==> exists i | 0 <= i < |lines| :: SetsKey(ParseLine(lines[i]), key)
  {
    FillKeys(Entries(lines), key);
    forall i | 0 <= i < |lines| ensures Entries(lines)[i] == ParseLine(lines[i]) {
      EntriesAt(lines, i);
    }
  }

  /** A key's value comes from the last line that parses to it. */
  lemma LoadMapLastWins(lines: seq<string>, i: nat)
    requires i < |lines| && ParseLine(lines[i]).Some?
    requires forall j | i < j < |lines| :: !SetsKey(ParseLine(lines[j]), ParseLine(lines[i]).value.0)
    ensures var kv := ParseLine(lines[i]).value; kv.0 in LoadMap(lines) && LoadMap(lines)[kv.0] == kv.1
  {
    forall j | 0 <= j < |lines| ensures Entries(lines)[j] == ParseLine(lines[j]) {
      EntriesAt(lines, j);
    }
    FillLastWins(Entries(lines), i);
  }

  lemma LoadMapStep(lines: seq<string>, i: nat)
    requires i < |lines|
    ensures var e := ParseLine(lines[i]);
      LoadMap(lines[..i + 1]) == if e.Some? then LoadMap(lines[..i])[e.value.0 := e.value.1] else LoadMap(lines[..i])
  {
    assert lines[..i + 1][..i] == lines[..i];
  }

  /** `LoadFilesIntoMap`: an open error is returned, otherwise every line
      of the file is parsed into the result map. */
  method LoadFilesIntoMap(data: Result<string>) returns (res: Result<map<string, string>>)
    ensures !data.Ok? ==> res == Err(ErrorText(data))
    ensures data.Ok? ==> res == Ok(LoadMap(Split(data.value, '\n')))
  {
    if !data.Ok? {
      return Err(ErrorText(data));
    }
    var lines := Split(data.value, '\n');
    var result: map<string, string> := map[];
    for i := 0 to |lines|
      invariant result == LoadMap(lines[..i])
    {
      LoadMapStep(lines, i);
      var line := lines[i];
      SplitTwo(line, '=');
      SplitTwo(line, ':');
      var parts := SplitN(line, '=', 2);
      if |parts| != 2 {
        parts := SplitN(line, ':', 2);
      }
      if |parts| == 2 {
        var key := TrimSpace(parts[0]);
        var value := TrimSpace(parts[1]);
        result := result[key := value];
      }
    }
    assert lines[..|lines|] == lines;
    return Ok(result);
  }

  // ---------------------------------------------------------------------
  // RemoteStatDir

  /** The error of an unclassified output: the message has no verb, so Go
      prints the path as an extra argument. */
  function StatError(path: string): string {
    "Unable to stat: %!(EXTRA string=" + path + ")"
  }

  /** `RemoteStatDir` on the output of `stat --printf='%F'`: a command
      error is returned; output contained in `"regular file"` (including
      empty output) is a file, else output contained in `"directory"` is a
      directory, and anything else is an error. */
  function StatDir(output: Result<string>, path: string): (r: Result<bool>)
    ensures !r.Panic?
    ensures r == Ok(false) <==> output.Ok? && Contains("regular file", output.value)
    ensures r == Ok(true) <==> output.Ok? && !Contains("regular file", output.value)
                                           && Contains("directory", output.value)
    ensures r.Err? && output.Ok? ==> r.msg == StatError(path)
    ensures !output.Ok? ==> r == Err(ErrorText(output))
  {
    if !output.Ok? then Err(ErrorText(output))
    else if Contains("regular file", output.value) then Ok(false)
    else if Contains("directory", output.value) then Ok(true)
    else Err(StatError(path))
  }

  /** The outputs `stat` actually prints for the two kinds. */
  lemma StatKinds(path: string)
    ensures StatDir(Ok("regular file"), path) == Ok(false)
    ensures StatDir(Ok(""), path) == Ok(false)
    ensures StatDir(Ok("directory"), path) == Ok(true)
    ensures StatDir(Ok("symbolic link"), path) == Err(StatError(path))
  {
    var file := "regular file";
    assert OccursAt(file, file, 0);
    assert OccursAt(file, "", 0);
    var dir := "directory";
    assert OccursAt(dir, dir, 0);
    forall i | 0 <= i <= |file| - |dir| ensures !OccursAt(file, dir, i) {
      assert file[i..i + |dir|][0] == file[i];
    }
    var link := "symbolic link";
    assert |link| > |file| && |link| > |dir|;
  }

  // ---------------------------------------------------------------------
  // GetPodFullName

  /** `GetPodFullName` on the shell pipeline's output: a command error is
      returned; otherwise the output loses its last byte (the newline `cut`
      ends with), which panics on empty output. */
  function PodFullName(output: Result<string>): (r: Result<string>)
    ensures output.Ok? && output.value != [] ==>
      r.Ok? && r.value + [output.value[|output.value| - 1]] == output.value
    ensures r.Panic? <==> output == Ok("")
    ensures !output.Ok? ==> r == Err(ErrorText(output))
  {
    if !output.Ok? then Err(ErrorText(output))
    else if |output.value| == 0 then Panic("slice bounds out of range [:-1]")
    else Ok(output.value[..|output.value| - 1])
  }

  /** A name printed on its own line comes back without the newline. */
  lemma PodFullNameStripsNewline(name: string)
    ensures PodFullName(Ok(name + "\n")) == Ok(name)
  {
    assert (name + "\n")[..|name|] == name;
  }

  // ---------------------------------------------------------------------
  // customServiceConfig selection, shared by the service loaders

  /** A `customServiceConfig` is kept only when it starts with `[`, i.e.
      when it opens with an INI section header. */
  predicate Bracketed(config: string) {
    HasPrefix(config, "[")
  }

  /** The kept configurations written one after the other, in order. */
  function Kept(configs: seq<string>): string {
    if configs == [] then ""
    else
      var c := configs[|configs| - 1];
      Kept(configs[..|configs| - 1]) + (if Bracketed(c) then c else "")
  }

  lemma KeptStep(configs: seq<string>, i: nat)
    requires i < |configs|
    ensures Kept(configs[..i + 1]) == Kept(configs[..i]) + (if Bracketed(configs[i]) then configs[i] else "")
  {
    assert configs[..i + 1][..i] == configs[..i];
  }

  /** Keeping distributes over concatenation of the inputs. */
  lemma {:induction false} KeptAppend(a: seq<string>, b: seq<string>)
    ensures Kept(a + b) == Kept(a) + Kept(b)
  {
    if b != [] {
      var init := b[..|b| - 1];
      assert (a + b)[..|a + b| - 1] == a + init;
      KeptAppend(a, init);
    } else {
      assert a + b == a;
    }
  }

  /** The text is empty exactly when no configuration is kept. */
  lemma {:induction false} KeptEmptyIff(configs: seq<string>)
    ensures Kept(configs) == "" <==> forall c | c in configs :: !Bracketed(c)
  {
    if configs != [] {
      var init := configs[..|configs| - 1];
      var c := configs[|configs| - 1];
      KeptEmptyIff(init);
      assert forall x | x in configs :: x in init || x == c;
      assert forall x | x in init :: x in configs;
    }
  }

  /** A non-empty text starts with the `[` of its first kept section. */
  lemma {:induction false} KeptStartsBracketed(configs: seq<string>)
    ensures Kept(configs) == "" || Bracketed(Kept(configs))
  {
    if configs != [] {
      var init := configs[..|configs| - 1];
      KeptStartsBracketed(init);
      var k := Kept(init);
      if k != "" {
        assert Kept(configs)[..1] == k[..1];
      }
    }
  }

  /** Every kept configuration appears, whole, in the text. */
  lemma {:induction false} KeptContains(configs: seq<string>, i: nat)
    requires i < |configs| && Bracketed(configs[i])
    ensures Contains(Kept(configs), configs[i])
  {
    var init := configs[..i];
    var tail := configs[i + 1..];
    assert configs == init + [configs[i]] + tail;
    KeptAppend(init + [configs[i]], tail);
    KeptAppend(init, [configs[i]]);
    assert Kept([configs[i]]) == Kept([]) + configs[i];
    var t := Kept(configs);
    var at := |Kept(init)|;
    assert t == Kept(init) + configs[i] + Kept(tail);
    assert t[at..at + |configs[i]|] == configs[i];
    assert OccursAt(t, configs[i], at);
  }
}
