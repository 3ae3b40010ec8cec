/** `CleanIniSections` of `pkg/godiff/utils.go`: normalises INI text by
    keeping only `key=value` lines under named sections, merging repeated
    sections, and rendering every section once. The section map is a Go
    map, so the order sections are rendered in is unspecified; the
    rendering method reports the order it used as a ghost out-parameter. */
module GodiffClean {
  import opened GoStrings
  import opened CommonUtils
  import GodiffMaps

  /** A trimmed line that opens a section: it starts with `[` and ends
      with `]` (so `[]` opens the unnamed section). */
  predicate IsHeader(line: string) {
    HasPrefix(line, "[") && HasSuffix(line, "]")
  }

  /** The section name of a header line. */
  function SectionName(line: string): string {
    TrimPrefix(TrimSuffix(line, "]"), "[")
  }

  /** The loop state: the current section and the lines collected so far. */
  datatype Collector = Collector(current: string, sections: map<string, seq<string>>)

  const Start := Collector("", map[])

  /** The lines collected for the current section (a nil slice before
      the first append). */
  function CurrentLines(st: Collector): seq<string> {
    if st.current in st.sections then st.sections[st.current] else []
  }

  /** Every line trimmed, as the collecting loop does first. */
  function TrimLines(lines: seq<string>): (r: seq<string>)
    ensures |r| == |lines|
  {
    seq(|lines|, i requires 0 <= i < |lines| => TrimSpace(lines[i]))
  }

  /** One iteration of the collecting loop on a trimmed line
      (`strings.Contains(line, "=")` is `'=' in line`, see `ContainsChar`). */
  function Step(st: Collector, line: string): Collector {
    if IsHeader(line) then st.(current := SectionName(line))
    else if line == "" || '=' !in line then st
    else if st.current != "" then st.(sections := st.sections[st.current := CurrentLines(st) + [line]])
    else st
  }

  /** The collecting loop over `lines`. */
  function Fold(st: Collector, lines: seq<string>): Collector {
    if lines == [] then st else Step(Fold(st, lines[..|lines| - 1]), lines[|lines| - 1])
  }

  /** The section map built from `config`. */
  function Sections(config: string): map<string, seq<string>> {
    Fold(Start, TrimLines(Split(config, '\n'))).sections
  }

  /** Neither end of `l` is a space (what `TrimSpace` leaves). */
  predicate Trimmed(l: string) {
    |l| == 0 || (!IsSpace(l[0]) && !IsSpace(l[|l| - 1]))
  }

  /** A line that survives collection: trimmed, non-empty, holding `=`,
      not a header, on one line. */
  predicate KeyLine(l: string) {
    Trimmed(l) && l != "" && '=' in l && !IsHeader(l) && '\n' !in l
  }

  /** Every section has a non-empty, newline-free name and at least one
      key line. */
  predicate WellFormed(m: map<string, seq<string>>) {
    forall s | s in m :: s != "" && '\n' !in s && m[s] != [] && forall l | l in m[s] :: KeyLine(l)
  }

  // ---------------------------------------------------------------------
  // Facts about trimming

  lemma TrimNoop(s: string, cut: set<char>)
    requires |s| == 0 || (s[0] !in cut && s[|s| - 1] !in cut)
    ensures Trim(s, cut) == s
  {
    assert TrimLeft(s, cut) == s;
  }

  /** `strings.TrimSpace` keeps a contiguous part of its input, trimmed. */
  lemma TrimSpaceFacts(s: string)
    ensures forall c | c in TrimSpace(s) :: c in s
    ensures Trimmed(TrimSpace(s))
  {
    var u := TrimLeft(s, SpaceChars);
    var t := TrimRight(u, SpaceChars);
    assert t == TrimSpace(s);
    forall c | c in t ensures c in s {
      var k :| 0 <= k < |t| && t[k] == c;
      assert t[k] == u[k] == s[|s| - |u| + k];
    }
    if |t| > 0 {
      assert t[0] == u[0];
    }
  }

  lemma SectionNameFacts(line: string)
    ensures forall c | c in SectionName(line) :: c in line
  {
    var a := TrimSuffix(line, "]");
    assert forall c | c in a :: c in line;
    assert forall c | c in SectionName(line) :: c in a;
  }

  /** A header rendered from a newline-free name reads back as that name. */
  lemma HeaderRoundTrip(s: string)
    ensures IsHeader("[" + s + "]")
    ensures SectionName("[" + s + "]") == s
  {
    var open := "[" + s;
    var h := open + "]";
    ConcatAffixes(open, "]");
    ConcatAffixes("[", s);
    assert h[..|h| - 1] == open;
    assert open[1..] == s;
  }

  // ---------------------------------------------------------------------
  // What the collecting loop builds

  lemma {:induction false} FoldAppend(st: Collector, a: seq<string>, b: seq<string>)
    ensures Fold(st, a + b) == Fold(Fold(st, a), b)
    decreases |b|
  {
    if b == [] {
      assert a + b == a;
    } else {
      assert (a + b)[..|a + b| - 1] == a + b[..|b| - 1];
      FoldAppend(st, a, b[..|b| - 1]);
    }
  }

  /** The collected map is well formed whatever the input: no section
      without key lines, no unnamed section, only key lines. */
  lemma StepWellFormed(st: Collector, line: string)
    requires WellFormed(st.sections) && '\n' !in st.current
    requires '\n' !in line && Trimmed(line)
    ensures WellFormed(Step(st, line).sections)
    ensures '\n' !in Step(st, line).current
  {
    SectionNameFacts(line);
  }

  lemma {:induction false} FoldWellFormed(lines: seq<string>)
    requires forall l | l in lines :: '\n' !in l && Trimmed(l)
    ensures WellFormed(Fold(Start, lines).sections)
    ensures '\n' !in Fold(Start, lines).current
  {
    if lines != [] {
      var init := lines[..|lines| - 1];
      var line := lines[|lines| - 1];
      assert forall l | l in init :: l in lines;
      assert line in lines;
      FoldWellFormed(init);
      StepWellFormed(Fold(Start, init), line);
    }
  }

  /** Whatever the input, no section is unnamed or without key lines, and
      only key lines are kept. */
  lemma SectionsWellFormed(config: string)
    ensures WellFormed(Sections(config))
  {
    var raw := Split(config, '\n');
    var lines := TrimLines(raw);
    forall l | l in lines ensures '\n' !in l && Trimmed(l) {
      var i :| 0 <= i < |lines| && lines[i] == l;
      assert raw[i] in raw;
      TrimSpaceFacts(raw[i]);
    }
    FoldWellFormed(lines);
  }

  /** The empty configuration cleans to no section. */
  lemma SectionsOfEmpty()
    ensures Sections("") == map[]
  {
    SplitEmpty('\n');
    TrimEmpty(SpaceChars);
    TrimLinesOne("");
    FoldBlank(Start);
  }

  lemma TrimLinesOne(l: string)
    ensures TrimLines([l]) == [TrimSpace(l)]
  {
  }

  /** Cleaning the empty configuration gives the empty text, whatever
      order the (empty) section map is walked in. */
  lemma CleanOfEmpty(order: seq<string>)
    ensures GodiffMaps.Enumerates(order, Sections("").Keys) ==> Render(order, Sections("")) == ""
  {
    SectionsOfEmpty();
    GodiffMaps.EnumeratesNothing(order);
  }

  // ---------------------------------------------------------------------
  // Rendering

  /** Each line followed by a newline. */
  function Terminated(ls: seq<string>): string {
    if ls == [] then "" else Terminated(ls[..|ls| - 1]) + ls[|ls| - 1] + "\n"
  }

  /** `[s]`, then the section's lines, then an empty line. */
  function Block(s: string, ls: seq<string>): string {
    "[" + s + "]\n" + Terminated(ls) + "\n"
  }

  /** The sections rendered in `order`. */
  function Render(order: seq<string>, m: map<string, seq<string>>): string
    requires forall s | s in order :: s in m
  {
    if order == [] then "" else Render(order[..|order| - 1], m) + Block(order[|order| - 1], m[order[|order| - 1]])
  }

  lemma RenderSnoc(order: seq<string>, s: string, m: map<string, seq<string>>, before: string)
    requires (forall x | x in order :: x in m) && s in m && before == Render(order, m)
    ensures forall x | x in order + [s] :: x in m
    ensures Render(order + [s], m) == before + "[" + s + "]\n" + Terminated(m[s]) + "\n"
  {
    assert (order + [s])[..|order|] == order;
  }

  /** The rendering loop over the keys of the section map. */
  method RenderSections(m: map<string, seq<string>>) returns (out: string, ghost order: seq<string>)
    ensures GodiffMaps.Enumerates(order, m.Keys)
    ensures out == Render(order, m)
  {
    var rest := m.Keys;
    out, order := "", [];
    while rest != {}
      invariant rest <= m.Keys
      invariant NoDup(order) && forall s :: s in order <==> s in m.Keys - rest
      invariant out == Render(order, m)
      decreases |rest|
    {
      var section :| section in rest;
      var lines := m[section];
      ghost var before := out;
      out := out + "[" + section + "]\n";
      for j := 0 to |lines|
        invariant out == before + "[" + section + "]\n" + Terminated(lines[..j])
      {
        assert lines[..j + 1][..j] == lines[..j];
        out := out + lines[j] + "\n";
      }
      assert lines[..|lines|] == lines;
      out := out + "\n";
      RenderSnoc(order, section, m, before);
      GodiffMaps.VisitKey(order, m.Keys, rest, section);
      order := order + [section];
      rest := rest - {section};
    }
  }

  /** The lines of `config`, collected into sections. */
  method CollectSections(config: string) returns (m: map<string, seq<string>>)
    ensures m == Sections(config)
  {
    var lines := Split(config, '\n');
    m := CollectLines(lines);
  }

  /** The collecting loop. */
  method CollectLines(lines: seq<string>) returns (m: map<string, seq<string>>)
    ensures m == Fold(Start, TrimLines(lines)).sections
  {
    ghost var trimmed := TrimLines(lines);
    m := map[];
    var currentSection := "";
    for i := 0 to |lines|
      invariant Collector(currentSection, m) == Fold(Start, trimmed[..i])
    {
      assert trimmed[..i + 1][..i] == trimmed[..i];
      var line := TrimSpace(lines[i]);
      assert line == trimmed[i];
      if HasPrefix(line, "[") && HasSuffix(line, "]") {
        currentSection := TrimPrefix(TrimSuffix(line, "]"), "[");
        continue;
      }
      ContainsChar(line, '=');
      if line == "" || !Contains(line, "=") {
        continue;
      }
      if currentSection != "" {
        var existing := if currentSection in m then m[currentSection] else [];
        m := m[currentSection := existing + [line]];
      }
    }
    assert trimmed[..|trimmed|] == trimmed;
  }

  /** `CleanIniSections`: the sections collected from `config`, each rendered
      once, in the order the map was visited. */
  method CleanIniSections(config: string) returns (out: string, ghost order: seq<string>)
    ensures GodiffMaps.Enumerates(order, Sections(config).Keys)
    ensures out == Render(order, Sections(config))
  {
    var m := CollectSections(config);
    out, order := RenderSections(m);
  }

  // ---------------------------------------------------------------------
  // Cleaning twice

  /** The lines of the rendering, one per element. */
  function RenderLines(order: seq<string>, m: map<string, seq<string>>): seq<string>
    requires forall s | s in order :: s in m
  {
    if order == [] then []
    else
      var s := order[|order| - 1];
      RenderLines(order[..|order| - 1], m) + (["[" + s + "]"] + m[s] + [""])
  }

  lemma {:induction false} TerminatedAppend(a: seq<string>, b: seq<string>)
    ensures Terminated(a + b) == Terminated(a) + Terminated(b)
    decreases |b|
  {
    if b == [] {
      assert a + b == a;
    } else {
      var init := b[..|b| - 1];
      assert (a + b)[..|a + b| - 1] == a + init;
      assert (a + b)[|a + b| - 1] == b[|b| - 1];
      TerminatedAppend(a, init);
      assert Terminated(a + b) == Terminated(a + init) + b[|b| - 1] + "\n";
      assert Terminated(b) == Terminated(init) + b[|b| - 1] + "\n";
    }
  }

  lemma {:induction false} TerminatedIsJoin(ls: seq<string>)
    ensures Terminated(ls) == Join(ls + [""], "\n")
    decreases |ls|
  {
    if ls == [] {
      assert [] + [""] == [""];
    } else {
      var init := ls[..|ls| - 1];
      var l := ls[|ls| - 1];
      TerminatedIsJoin(init);
      SplitLast(ls);
      JoinAppend(ls, "", "\n");
      JoinAppend(init, l, "\n");
      JoinAppend(init, "", "\n");
      assert Terminated(ls) == Join(init + [""], "\n") + l + "\n";
      assert Join(ls + [""], "\n") == Join(ls, "\n") + "\n";
      if init == [] {
        assert Join(ls, "\n") == l;
        assert Join(init + [""], "\n") == "";
      } else {
        assert Join(ls, "\n") == Join(init, "\n") + "\n" + l;
        assert Join(init + [""], "\n") == Join(init, "\n") + "\n";
      }
    }
  }

  lemma {:induction false} RenderIsTerminated(order: seq<string>, m: map<string, seq<string>>)
    requires forall s | s in order :: s in m
    ensures Render(order, m) == Terminated(RenderLines(order, m))
    decreases |order|
  {
    if order != [] {
      var init := order[..|order| - 1];
      var s := order[|order| - 1];
      var block := ["[" + s + "]"] + m[s] + [""];
      RenderIsTerminated(init, m);
      assert Render(order, m) == Render(init, m) + Block(s, m[s]);
      assert RenderLines(order, m) == RenderLines(init, m) + block;
      TerminatedAppend(RenderLines(init, m), block);
      BlockIsTerminated(s, m[s]);
    }
  }

  /** A section block is its header line, its lines and an empty line,
      each followed by a newline. */
  lemma BlockIsTerminated(s: string, ls: seq<string>)
    ensures Block(s, ls) == Terminated(["[" + s + "]"] + ls + [""])
  {
    TerminatedAppend(["[" + s + "]"] + ls, [""]);
    TerminatedAppend(["[" + s + "]"], ls);
    assert Terminated(["[" + s + "]"]) == "[" + s + "]" + "\n";
    assert Terminated([""]) == "\n";
  }

  lemma StepKeyLine(st: Collector, l: string)
    requires st.current != "" && KeyLine(l)
    ensures Step(st, l) == st.(sections := st.sections[st.current := CurrentLines(st) + [l]])
  {
  }

  /** Collecting a run of key lines inside a named section appends them to
      that section. */
  lemma {:induction false} FoldKeyLines(st: Collector, ls: seq<string>)
    requires st.current != "" && ls != []
    requires forall i | 0 <= i < |ls| :: KeyLine(ls[i])
    ensures Fold(st, ls).current == st.current
    ensures Fold(st, ls).sections == st.sections[st.current := CurrentLines(st) + ls]
    decreases |ls|
  {
    var init := ls[..|ls| - 1];
    var l := ls[|ls| - 1];
    SplitLast(ls);
    var mid := Fold(st, init);
    assert Fold(st, ls) == Step(mid, l);
    if init != [] {
      FoldKeyLines(st, init);
      StepKeyLine(mid, l);
      assert CurrentLines(mid) == CurrentLines(st) + init;
      assert (CurrentLines(st) + init) + [l] == CurrentLines(st) + ls;
    } else {
      assert mid == st;
      StepKeyLine(st, l);
      assert ls == [l];
    }
  }

  /** The map the rendered lines of `order` collect into. */
  function Restrict(m: map<string, seq<string>>, order: seq<string>): map<string, seq<string>> {
    map s | s in m && s in order :: m[s]
  }

  lemma FoldHeader(st: Collector, s: string)
    ensures Fold(st, ["[" + s + "]"]) == st.(current := s)
  {
    HeaderRoundTrip(s);
    assert ["[" + s + "]"][..0] == [];
    assert Fold(st, ["[" + s + "]"]) == Step(Fold(st, []), "[" + s + "]");
  }

  lemma FoldBlank(st: Collector)
    ensures Fold(st, [""]) == st
  {
    assert [""][..0] == [];
    assert Fold(st, [""]) == Step(Fold(st, []), "");
  }

  /** Collecting one rendered block adds its section with its lines. */
  lemma FoldBlock(st0: Collector, s: string, ls: seq<string>)
    requires s != "" && ls != [] && s !in st0.sections
    requires forall i | 0 <= i < |ls| :: KeyLine(ls[i])
    ensures Fold(st0, ["[" + s + "]"] + ls + [""]).sections == st0.sections[s := ls]
  {
    var header := "[" + s + "]";
    var lines := [header] + ls;
    FoldAppend(st0, lines, [""]);
    FoldBlank(Fold(st0, lines));
    FoldAppend(st0, [header], ls);
    FoldHeader(st0, s);
    var st1 := st0.(current := s);
    assert Fold(st0, lines) == Fold(st1, ls);
    FoldKeyLines(st1, ls);
    assert CurrentLines(st1) == [];
    assert [] + ls == ls;
    assert Fold(st1, ls).sections == st0.sections[s := ls];
    assert Fold(st0, lines + [""]) == Fold(st1, ls);
  }

  lemma RestrictLast(m: map<string, seq<string>>, order: seq<string>)
    requires order != [] && order[|order| - 1] in m
    ensures Restrict(m, order)
         == Restrict(m, order[..|order| - 1])[order[|order| - 1] := m[order[|order| - 1]]]
  {
    var init, s := order[..|order| - 1], order[|order| - 1];
    SplitLast(order);
    var r1, r2 := Restrict(m, order), Restrict(m, init)[s := m[s]];
    forall x ensures (x in r1 <==> x in r2) && (x in r1 ==> r1[x] == r2[x]) {
      assert x in order <==> x in init || x == s;
    }
  }

  lemma {:induction false} FoldRenderLines(order: seq<string>, m: map<string, seq<string>>)
    requires WellFormed(m) && NoDup(order)
    requires forall s | s in order :: s in m
    ensures Fold(Start, RenderLines(order, m)).sections == Restrict(m, order)
    decreases |order|
  {
    if order != [] {
      var init := order[..|order| - 1];
      var s := order[|order| - 1];
      assert forall x | x in init :: x in order;
      assert NoDup(init) by {
        forall a, b | 0 <= a < b < |init| ensures init[a] != init[b] {
          assert init[a] == order[a] && init[b] == order[b];
        }
      }
      assert s !in init by {
        forall a | 0 <= a < |init| ensures init[a] != s {
          assert init[a] == order[a];
        }
      }
      FoldRenderLines(init, m);
      var st0 := Fold(Start, RenderLines(init, m));
      var block := ["[" + s + "]"] + m[s] + [""];
      assert RenderLines(order, m) == RenderLines(init, m) + block;
      FoldAppend(Start, RenderLines(init, m), block);
      assert forall i | 0 <= i < |m[s]| :: KeyLine(m[s][i]) by {
        forall i | 0 <= i < |m[s]| ensures KeyLine(m[s][i]) {
          assert m[s][i] in m[s];
        }
      }
      FoldBlock(st0, s, m[s]);
      RestrictLast(m, order);
    }
  }

  /** The rendered text splits back into its lines, already trimmed. */
  lemma LinesOfRender(order: seq<string>, m: map<string, seq<string>>)
    requires WellFormed(m) && forall s | s in order :: s in m
    ensures TrimLines(Split(Render(order, m), '\n')) == RenderLines(order, m) + [""]
  {
    var lines := RenderLines(order, m);
    RenderIsTerminated(order, m);
    TerminatedIsJoin(lines);
    RenderLinesNoNewline(order, m);
    assert forall l | l in lines + [""] :: '\n' !in l && Trimmed(l);
    SplitOfJoin(lines + [""], '\n');
    TrimLinesNoop(lines + [""]);
  }

  /** Cleaning is idempotent up to section order: the text rendered from a
      well-formed section map, in any order, collects back into exactly
      that map. Together with `SectionsWellFormed`, cleaning the output of
      `CleanIniSections` yields the same sections again. */
  lemma CleanIdempotent(order: seq<string>, m: map<string, seq<string>>)
    requires WellFormed(m) && GodiffMaps.Enumerates(order, m.Keys)
    ensures Sections(Render(order, m)) == m
  {
    assert NoDup(order) && forall s | s in order :: s in m;
    assert forall s | s in m :: s in order;
    var lines := RenderLines(order, m);
    var st := Fold(Start, lines);
    assert Fold(Start, lines + [""]) == st by {
      FoldAppend(Start, lines, [""]);
      FoldBlank(st);
    }
    assert st.sections == m by {
      FoldRenderLines(order, m);
      RestrictAll(m, order);
    }
    LinesOfRender(order, m);
  }

  lemma RestrictAll(m: map<string, seq<string>>, order: seq<string>)
    requires forall s | s in m :: s in order
    ensures Restrict(m, order) == m
  {
  }

  lemma {:induction false} RenderLinesNoNewline(order: seq<string>, m: map<string, seq<string>>)
    requires WellFormed(m) && forall s | s in order :: s in m
    ensures forall l | l in RenderLines(order, m) :: '\n' !in l && Trimmed(l)
    decreases |order|
  {
    if order != [] {
      var init := order[..|order| - 1];
      var s := order[|order| - 1];
      assert forall x | x in init :: x in order;
      RenderLinesNoNewline(init, m);
      BlockLinesClean(s, m[s]);
      assert RenderLines(order, m) == RenderLines(init, m) + (["[" + s + "]"] + m[s] + [""]);
    }
  }

  /** The lines of one section block: its header, its key lines and an
      empty line, none holding a newline or surrounding spaces. */
  lemma BlockLinesClean(s: string, ls: seq<string>)
    requires '\n' !in s && forall l | l in ls :: KeyLine(l)
    ensures forall l | l in ["[" + s + "]"] + ls + [""] :: '\n' !in l && Trimmed(l)
  {
    var h := "[" + s + "]";
    assert '\n' !in h;
    assert h[0] == '[' && h[|h| - 1] == ']';
  }

  /** Trimming lines that are already trimmed changes nothing. */
  lemma TrimLinesNoop(lines: seq<string>)
    requires forall l | l in lines :: Trimmed(l)
    ensures TrimLines(lines) == lines
  {
    forall i | 0 <= i < |lines| ensures TrimLines(lines)[i] == lines[i] {
      assert lines[i] in lines;
      TrimNoop(lines[i], SpaceChars);
    }
  }
}
