/** The string and slice utilities of `pkg/common/utils.go`. The private
    copies `stringInSlice`, `sliceIndex` and `isIni` in `pkg/godiff/utils.go`
    have the same bodies and are modelled by the members here.

    Byte slices are modelled as strings, one char per byte. */
module CommonUtils {
  import opened GoStrings
  import opened Results

  /** `StringInSlice`: a linear search for `a`. */
  method StringInSlice(a: string, list: seq<string>) returns (found: bool)
    ensures found <==> a in list
  {
    var i := 0;
    while i < |list|
      invariant 0 <= i <= |list|
      invariant a !in list[..i]
    {
      if list[i] == a {
        return true;
      }
      i := i + 1;
    }
    assert list[..i] == list;
    return false;
  }

  /** No element occurs twice. */
  predicate NoDup<T(==)>(s: seq<T>) {
    forall a, b | 0 <= a < b < |s| :: s[a] != s[b]
  }

  /** A non-empty sequence is its front followed by its last element. */
  lemma SplitLast<T>(s: seq<T>)
    requires s != []
    ensures s[..|s| - 1] + [s[|s| - 1]] == s
  {
  }

  /** Appending an element not yet present keeps a sequence duplicate-free. */
  /** Without its last element, a repetition-free sequence is still free
      of repetitions and no longer holds that element. */
  lemma NoDupInit<T>(s: seq<T>)
    requires NoDup(s) && s != []
    ensures NoDup(s[..|s| - 1]) && s[|s| - 1] !in s[..|s| - 1]
    ensures forall x :: x in s <==> x in s[..|s| - 1] || x == s[|s| - 1]
  {
    var init := s[..|s| - 1];
    assert s == init + [s[|s| - 1]];
    assert s[|s| - 1] !in init by {
      forall a | 0 <= a < |init| ensures init[a] != s[|s| - 1] {
        assert init[a] == s[a];
      }
    }
  }

  lemma NoDupAppend<T>(s: seq<T>, x: T)
    requires NoDup(s) && x !in s
    ensures NoDup(s + [x])
  {
    forall a, b | 0 <= a < b < |s + [x]| ensures (s + [x])[a] != (s + [x])[b] {
      assert (s + [x])[a] == s[a];
      if b < |s| {
        assert (s + [x])[b] == s[b];
      } else {
        assert s[a] in s;
      }
    }
  }

  /** `SliceIndex`: the first position of `element`, or -1. */
  method SliceIndex(element: string, data: seq<string>) returns (k: int)
    ensures -1 <= k < |data|
    ensures k >= 0 ==> data[k] == element && element !in data[..k]
    ensures k == -1 <==> element !in data
  {
    k := 0;
    while k < |data|
      invariant 0 <= k <= |data|
      invariant element !in data[..k]
    {
      if element == data[k] {
        return k;
      }
      k := k + 1;
    }
    assert data[..k] == data;
    return -1;
  }

  /** `TestEqualSlice`: equal lengths and equal elements position by position. */
  method TestEqualSlice(a: seq<string>, b: seq<string>) returns (eq: bool)
    ensures eq <==> a == b
  {
    if |a| != |b| {
      return false;
    }
    var i := 0;
    while i < |a|
      invariant 0 <= i <= |a|
      invariant a[..i] == b[..i]
    {
      if a[i] != b[i] {
        return false;
      }
      assert a[..i + 1] == a[..i] + [a[i]];
      assert b[..i + 1] == b[..i] + [b[i]];
      i := i + 1;
    }
    assert a == a[..i] && b == b[..i];
    return true;
  }

  /** `ToLowerSlice`: every element lower-cased, in order. */
  method ToLowerSlice(data: seq<string>) returns (lower: seq<string>)
    ensures |lower| == |data|
    ensures forall i | 0 <= i < |data| :: lower[i] == ToLower(data[i])
  {
    lower := [];
    for i := 0 to |data|
      invariant |lower| == i
      invariant forall j | 0 <= j < i :: lower[j] == ToLower(data[j])
    {
      lower := lower + [ToLower(data[i])];
    }
  }

  /** Each part title-cased. */
  function TitleAll(parts: seq<string>): (titled: seq<string>)
    ensures |titled| == |parts|
    ensures forall i | 0 <= i < |parts| :: titled[i] == Title(parts[i])
  {
    if |parts| == 0 then []
    else
      var init := parts[..|parts| - 1];
      var t := TitleAll(init);
      assert forall i | 0 <= i < |init| :: t[i] == Title(parts[i]) by {
        forall i | 0 <= i < |init| ensures t[i] == Title(parts[i]) {
          assert init[i] == parts[i];
        }
      }
      t + [Title(parts[|parts| - 1])]
  }

  /** The result `SnakeToCamel` computes: the `_`-separated parts of `s`,
      each title-cased, concatenated. */
  function CamelCase(s: string): string {
    Join(TitleAll(Split(s, '_')), "")
  }

  /** `SnakeToCamel`: the loop over the parts of `s`. */
  method SnakeToCamel(s: string) returns (r: string)
    ensures r == CamelCase(s)
  {
    var parts := Split(s, '_');
    r := "";
    for i := 0 to |parts|
      invariant r == Join(TitleAll(parts[..i]), "")
    {
      CamelStep(parts, i, r);
      r := r + Title(parts[i]);
    }
    assert parts[..|parts|] == parts;
  }

  /** One more part of the loop appends its title-cased form. */
  lemma CamelStep(parts: seq<string>, i: nat, r: string)
    requires i < |parts| && r == Join(TitleAll(parts[..i]), "")
    ensures r + Title(parts[i]) == Join(TitleAll(parts[..i + 1]), "")
  {
    assert parts[..i + 1] == parts[..i] + [parts[i]];
    var t := TitleAll(parts[..i]);
    assert TitleAll(parts[..i + 1]) == t + [Title(parts[i])];
    JoinAppend(t, Title(parts[i]), "");
    assert r + "" + Title(parts[i]) == r + Title(parts[i]);
  }

  /** The total length of some strings. */
  function SumLen(parts: seq<string>): nat {
    if |parts| == 0 then 0 else |parts[0]| + SumLen(parts[1..])
  }

  /** Joining separator-free parts with a one-char separator adds exactly
      one separator between each two parts. */
  lemma {:induction false} JoinLengthAndCount(parts: seq<string>, sep: char)
    requires |parts| >= 1
    requires forall p | p in parts :: sep !in p
    ensures |Join(parts, [sep])| == SumLen(parts) + |parts| - 1
    ensures multiset(Join(parts, [sep]))[sep] == |parts| - 1
    decreases |parts|
  {
    assert parts[0] in parts;
    assert multiset(parts[0])[sep] == 0;
    if |parts| > 1 {
      assert forall p | p in parts[1..] :: p in parts;
      JoinLengthAndCount(parts[1..], sep);
      assert Join(parts, [sep]) == parts[0] + [sep] + Join(parts[1..], [sep]);
    }
  }

  /** Title-casing keeps every part's length and never makes a `_`. */
  lemma {:induction false} ConcatTitled(parts: seq<string>)
    requires forall p | p in parts :: '_' !in p
    ensures |Join(TitleAll(parts), "")| == SumLen(parts)
    ensures '_' !in Join(TitleAll(parts), "")
    decreases |parts|
  {
    if |parts| > 0 {
      var t := TitleAll(parts);
      assert parts[0] in parts;
      assert forall k | 0 <= k < |parts[0]| :: Title(parts[0])[k] != '_' by {
        forall k | 0 <= k < |parts[0]| ensures Title(parts[0])[k] != '_' {
          assert parts[0][k] != '_';
        }
      }
      assert forall p | p in parts[1..] :: p in parts;
      ConcatTitled(parts[1..]);
      TitleAllTail(parts);
      if |parts| > 1 {
        assert Join(t, "") == t[0] + "" + Join(t[1..], "");
      }
    }
  }

  lemma TitleAllTail(parts: seq<string>)
    requires |parts| > 0
    ensures TitleAll(parts)[1..] == TitleAll(parts[1..])
  {
  }

  /** `SnakeToCamel` drops every `_` and keeps every other char, so the
      result is as long as the input less its underscores. */
  lemma CamelCaseDropsUnderscores(s: string)
    ensures '_' !in CamelCase(s)
    ensures |CamelCase(s)| == |s| - multiset(s)['_']
  {
    var parts := Split(s, '_');
    SplitJoins(s, '_');
    JoinLengthAndCount(parts, '_');
    ConcatTitled(parts);
  }

  /** `IsIni`: whether the first byte is `[`; it indexes `data[0]` and so
      panics on empty data. */
  function IsIni(data: string): (r: Result<bool>)
    ensures !r.Err?
    ensures r.Panic? <==> |data| == 0
    ensures r.Ok? ==> (r.value <==> data[0] == '[')
  {
    if |data| == 0 then Panic("index out of range [0] with length 0")
    else Ok(data[0] == '[')
  }

  const DetectedTypes: set<string> := {"ini", "yaml", "json", "raw"}

  /** `DetectType`, with the YAML and JSON parsers' verdicts as parameters.
      The INI test comes first, then YAML, then JSON. */
  function DetectType(value: string, isYaml: string -> bool, isJson: string -> bool): (r: Result<string>)
    ensures !r.Err?
    ensures r.Panic? <==> |value| == 0
    ensures r.Ok? ==> r.value in DetectedTypes
    ensures r.Ok? ==> (r.value == "ini" <==> value[0] == '[')
    ensures r.Ok? ==> (r.value == "yaml" <==> value[0] != '[' && isYaml(value))
    ensures r.Ok? ==> (r.value == "json" <==> value[0] != '[' && !isYaml(value) && isJson(value))
  {
    match IsIni(value)
    case Panic(why) => Panic(why)
    case Err(e) => Err(e)
    case Ok(ini) =>
      if ini then Ok("ini")
      else if isYaml(value) then Ok("yaml")
      else if isJson(value) then Ok("json")
      else Ok("raw")
  }

  /** `FormatShellCommand`'s state: the finished tokens, the token being
      built, whether a quote is open and which quote char was seen last. */
  datatype Lexer = Lexer(tokens: seq<string>, current: string, inQuote: bool, quoteChar: char)

  const Start := Lexer([], "", false, '\0')

  predicate IsQuote(c: char) {
    c == '"' || c == '\''
  }

  predicate IsBlank(c: char) {
    c == ' ' || c == '\t'
  }

  /** One iteration of the tokenizer loop. A quote char toggles the quote
      state only outside quotes or inside a quote of the same kind. */
  function Step(st: Lexer, c: char): Lexer {
    if IsQuote(c) then
      if !st.inQuote || st.quoteChar == c then
        st.(inQuote := !st.inQuote, quoteChar := c, current := st.current + [c])
      else st.(current := st.current + [c])
    else if IsBlank(c) && !st.inQuote then
      if st.current != "" then st.(tokens := st.tokens + [st.current], current := "")
      else st
    else st.(current := st.current + [c])
  }

  /** The state after the loop has consumed `s`. */
  function Run(s: string): Lexer {
    if |s| == 0 then Start else Step(Run(s[..|s| - 1]), s[|s| - 1])
  }

  /** The tokens `FormatShellCommand` returns for `s`. */
  function Tokens(s: string): seq<string> {
    var st := Run(s);
    if st.current != "" then st.tokens + [st.current] else st.tokens
  }

  /** `FormatShellCommand`: the character loop, then the last token. */
  method FormatShellCommand(input: string) returns (tokens: seq<string>)
    ensures tokens == Tokens(input)
  {
    tokens := [];
    var currentToken := "";
    var inQuote := false;
    var quoteChar := '\0';
    for i := 0 to |input|
      invariant Lexer(tokens, currentToken, inQuote, quoteChar) == Run(input[..i])
    {
      var c := input[i];
      assert input[..i + 1][..i] == input[..i];
      if c == '"' || c == '\'' {
        if !inQuote || quoteChar == c {
          inQuote := !inQuote;
          quoteChar := c;
        }
        currentToken := currentToken + [c];
      } else if c == ' ' || c == '\t' {
        if !inQuote {
          if currentToken != "" {
            tokens := tokens + [currentToken];
            currentToken := "";
          }
        } else {
          currentToken := currentToken + [c];
        }
      } else {
        currentToken := currentToken + [c];
      }
    }
    assert input[..|input|] == input;
    if currentToken != "" {
      tokens := tokens + [currentToken];
    }
  }

  /** Whether a quote is open after `s`, and the last quote char that
      toggled it; tokens play no part. */
  function QuoteState(s: string): (bool, char) {
    if |s| == 0 then (false, '\0')
    else
      var (open, q) := QuoteState(s[..|s| - 1]);
      var c := s[|s| - 1];
      if IsQuote(c) && (!open || q == c) then (!open, c) else (open, q)
  }

  /** `s` with every space and tab outside quotes removed. */
  function Unblanked(s: string): string {
    if |s| == 0 then ""
    else
      var c := s[|s| - 1];
      var prefix := s[..|s| - 1];
      if IsBlank(c) && !QuoteState(prefix).0 then Unblanked(prefix)
      else Unblanked(prefix) + [c]
  }

  /** The loop keeps its quote state equal to `QuoteState`, never finishes an
      empty token, and the tokens plus the current one spell `Unblanked`. */
  lemma {:induction false} RunInvariant(s: string)
    ensures (Run(s).inQuote, Run(s).quoteChar) == QuoteState(s)
    ensures forall t | t in Run(s).tokens :: t != ""
    ensures Join(Run(s).tokens, "") + Run(s).current == Unblanked(s)
    decreases |s|
  {
    if |s| > 0 {
      var prefix := s[..|s| - 1];
      var c := s[|s| - 1];
      RunInvariant(prefix);
      var st := Run(prefix);
      if IsBlank(c) && !st.inQuote && st.current != "" {
        JoinAppend(st.tokens, st.current, "");
      }
    }
  }

  /** `FormatShellCommand` never returns an empty token, and its tokens
      concatenated give the input without the spaces and tabs outside quotes. */
  lemma TokensSpellInput(s: string)
    ensures forall t | t in Tokens(s) :: t != ""
    ensures Join(Tokens(s), "") == Unblanked(s)
  {
    RunInvariant(s);
    var st := Run(s);
    if st.current != "" {
      assert Tokens(s) == st.tokens + [st.current];
      JoinAppend(st.tokens, st.current, "");
    } else {
      assert Tokens(s) == st.tokens;
      assert Join(st.tokens, "") + st.current == Join(st.tokens, "");
    }
  }

  /** An unterminated quote runs to the end as one token, blanks included. */
  lemma UnterminatedQuoteExample()
    ensures Tokens("ls 'a b") == ["ls", "'a b"]
  {
    QuotedBlankExample();
    assert "ls 'a b"[..6] == "ls 'a ";
    assert Run("ls 'a b") == Lexer(["ls"], "'a b", true, '\'');
  }

  lemma QuotedBlankExample()
    ensures Run("ls 'a ") == Lexer(["ls"], "'a ", true, '\'')
  {
    OpenQuoteExample();
    assert "ls 'a"[..4] == "ls '";
    assert Run("ls 'a") == Lexer(["ls"], "'a", true, '\'');
    assert "ls 'a "[..5] == "ls 'a";
  }

  lemma OpenQuoteExample()
    ensures Run("ls '") == Lexer(["ls"], "'", true, '\'')
  {
    assert "l"[..0] == "";
    assert Run("l") == Lexer([], "l", false, '\0');
    assert "ls"[..1] == "l";
    assert Run("ls") == Lexer([], "ls", false, '\0');
    assert "ls "[..2] == "ls";
    assert Run("ls ") == Lexer(["ls"], "", false, '\0');
    assert "ls '"[..3] == "ls ";
  }

  /** What `BuildFullSshCmd` returns on success: the full ssh command and the
      director host. */
  datatype SshTarget = SshTarget(fullCmd: string, directorHost: string)

  const TooManyArgsError := "error: Too many arguments after -F option"

  function ConfigHostMismatch(cmdHost: string, host: string): string {
    "error: The host in the ssh_cmd: " + cmdHost + " does not match the director_host: " + host
  }

  function UserHostMismatch(cmdHost: string, host: string): string {
    "error: The host in the sshCmd " + cmdHost + " does not match the directorHost " + host
  }

  /** The ssh command with its whitespace runs collapsed to single spaces. */
  function Collapse(sshCmd: string): string {
    Join(Fields(sshCmd), " ")
  }

  /** `BuildFullSshCmd`: completes `sshCmd` with the director host, or checks
      that the host it already names agrees with `host`. Success always
      yields a full command that starts with the collapsed command, and the
      director host is `host` whenever `host` is set; an error other than
      the too-many-arguments one only arises when `host` is set. */
  function BuildFullSshCmd(sshCmd: string, host: string): (r: Result<SshTarget>)
    ensures !r.Panic?
    ensures r.Ok? ==> HasPrefix(r.value.fullCmd, Collapse(sshCmd))
    ensures r.Ok? && host != "" ==> r.value.directorHost == host
    ensures r.Err? ==> host != "" || r.msg == TooManyArgsError
  {
    CompleteSshCmd(Collapse(sshCmd), host)
  }

  /** The body of `BuildFullSshCmd` after the whitespace is collapsed. */
  function CompleteSshCmd(cmd: string, host: string): (r: Result<SshTarget>)
    ensures !r.Panic?
    ensures r.Ok? ==> HasPrefix(r.value.fullCmd, cmd)
    ensures r.Ok? && host != "" ==> r.value.directorHost == host
    ensures r.Err? ==> host != "" || r.msg == TooManyArgsError
  {
    var at := LastIndexOf(cmd, '@');
    if at == -1 then
      var f := Index(cmd, "-F");
      if f == -1 then Ok(SshTarget(cmd + " " + host, host))
      else
        var fParts := SplitN(cmd[f..], ' ', 4);
        if |fParts| < 3 then Ok(SshTarget(cmd + " " + host, host))
        else if |fParts| == 3 && (host == "" || fParts[2] == host) then Ok(SshTarget(cmd, fParts[2]))
        else if |fParts| == 3 then Err(ConfigHostMismatch(fParts[2], host))
        else Err(TooManyArgsError)
    else if at == |cmd| - 1 then Ok(SshTarget(cmd + host, host))
    else
      var cmdHost := cmd[at + 1..];
      if host == "" then Ok(SshTarget(cmd, cmdHost))
      else if cmdHost != host then Err(UserHostMismatch(cmdHost, host))
      else Ok(SshTarget(cmd, cmdHost))
  }

  /** The host after `-F <config>` ends the command. */
  lemma ConfigHostIsSuffix(cmd: string, f: nat)
    requires f <= |cmd| && |SplitN(cmd[f..], ' ', 4)| == 3
    ensures HasSuffix(cmd, SplitN(cmd[f..], ' ', 4)[2])
  {
    var fParts := SplitN(cmd[f..], ' ', 4);
    SplitNJoins(cmd[f..], ' ', 4);
    JoinEndsWithLast(fParts, " ");
    assert HasSuffix(cmd, cmd[f..]);
    SuffixOfSuffix(cmd, cmd[f..], fParts[2]);
  }

  /** A successful `BuildFullSshCmd` returns a command that ends with the
      director host it returns. */
  lemma FullCmdEndsWithHost(cmd: string, host: string)
    requires CompleteSshCmd(cmd, host).Ok?
    ensures HasSuffix(CompleteSshCmd(cmd, host).value.fullCmd, CompleteSshCmd(cmd, host).value.directorHost)
  {
    var at := LastIndexOf(cmd, '@');
    if at == -1 {
      NoAtEndsWithHost(cmd, host);
    } else {
      AtEndsWithHost(cmd, host);
    }
  }

  lemma NoAtEndsWithHost(cmd: string, host: string)
    requires CompleteSshCmd(cmd, host).Ok? && LastIndexOf(cmd, '@') == -1
    ensures HasSuffix(CompleteSshCmd(cmd, host).value.fullCmd, CompleteSshCmd(cmd, host).value.directorHost)
  {
    var r := CompleteSshCmd(cmd, host);
    var f := Index(cmd, "-F");
    if f != -1 && |SplitN(cmd[f..], ' ', 4)| == 3 {
      assert r.value.fullCmd == cmd && r.value.directorHost == SplitN(cmd[f..], ' ', 4)[2];
      ConfigHostIsSuffix(cmd, f);
    } else {
      assert r.value.fullCmd == cmd + " " + host && r.value.directorHost == host;
      ConcatAffixes(cmd + " ", host);
    }
  }

  lemma AtEndsWithHost(cmd: string, host: string)
    requires CompleteSshCmd(cmd, host).Ok? && LastIndexOf(cmd, '@') != -1
    ensures HasSuffix(CompleteSshCmd(cmd, host).value.fullCmd, CompleteSshCmd(cmd, host).value.directorHost)
  {
    var r := CompleteSshCmd(cmd, host);
    var at := LastIndexOf(cmd, '@');
    if at == |cmd| - 1 {
      assert r.value.fullCmd == cmd + host && r.value.directorHost == host;
      ConcatAffixes(cmd, host);
    } else {
      assert r.value.fullCmd == cmd && r.value.directorHost == cmd[at + 1..];
      ConcatAffixes(cmd[..at + 1], cmd[at + 1..]);
      assert cmd == cmd[..at + 1] + cmd[at + 1..];
    }
  }

  /** A command ending in `@` gets the host appended (the "without host"
      case of the package's tests). */
  lemma SshCmdEndingInAtExample()
    ensures CompleteSshCmd("ssh -i key.pem user@", "example.com")
         == Ok(SshTarget("ssh -i key.pem user@example.com", "example.com"))
  {
    var cmd := "ssh -i key.pem user@";
    assert cmd[19] == '@';
    assert LastIndexOf(cmd, '@') == 19;
    assert cmd + "example.com" == "ssh -i key.pem user@example.com";
  }

  /** A user@host command naming another host than the director host is
      refused (the "wrong host" case of the package's tests). */
  lemma SshCmdWrongHostExample()
    ensures CompleteSshCmd("ssh -i key.pem root@foo", "example.com")
         == Err(UserHostMismatch("foo", "example.com"))
  {
    var cmd := "ssh -i key.pem root@foo";
    assert cmd[19] == '@' && cmd[20] == 'f' && cmd[21] == 'o' && cmd[22] == 'o';
    assert LastIndexOf(cmd, '@') == 19;
    var h := cmd[20..];
    assert |h| == 3 && h[0] == 'f' && h[1] == 'o' && h[2] == 'o';
    assert h == "foo";
  }
}
