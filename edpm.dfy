/** The EDPM comparison of `pkg/servicecfg/edpm.go`: a `{k=v,...}` dump of
    Open vSwitch external ids is parsed into a map and compared, through the
    service's key mapping, with the Ansible variables of a decoded
    `OpenStackDataPlaneNodeSet`.

    The decoded node set enters as the function `field`: for a snake-case
    name `v` of the mapping it gives the printed value (`ConvertToString`)
    of the Ansible variable the source looks up under the CamelCase form of
    `v`; the name conversion and the reflective lookup are both folded into
    it. Reading and decoding the node set can only fail, which the source
    turns into a panic. */
module Edpm {
  import opened GoStrings
  import opened Results
  import opened CommonUtils
  import opened ServicecfgUtils
  import GodiffMaps
  import GodiffClean

  // ---------------------------------------------------------------------
  // The source dump

  const Braces: set<char> := {'{', '}'}
  const Quote: set<char> := {'"'}

  /** The items of the dump: braces trimmed from both ends, then split at
      every comma. */
  function Items(data: string): seq<string> {
    Split(Trim(data, Braces), ',')
  }

  /** An item can be parsed only when it holds a `=`; `parts[1]` panics
      otherwise. */
  predicate Parsable(items: seq<string>) {
    forall i | 0 <= i < |items| :: '=' in items[i]
  }

  /** The key and value of one item: the trimmed text before the first
      `=`, and the text up to the second `=` with quotes trimmed. */
  function SrcPair(kv: string): (string, string)
    requires '=' in kv
  {
    var parts := Split(kv, '=');
    SplitHasTwo(kv);
    (TrimSpace(parts[0]), Trim(parts[1], Quote))
  }

  lemma SplitHasTwo(s: string)
    requires '=' in s
    ensures |Split(s, '=')| >= 2
  {
    var parts := Split(s, '=');
    assert Join([parts[0]], "=") == parts[0];
  }

  lemma SplitHasTwoIff(s: string)
    ensures |Split(s, '=')| >= 2 <==> '=' in s
  {
    if '=' in s {
      SplitHasTwo(s);
    } else {
      SplitHead(s, '=');
    }
  }

  /** The first part of a split is the text up to the first separator. */
  lemma SplitHead(s: string, c: char)
    ensures c in s ==> Split(s, c)[0] == s[..IndexOf(s, c)]
    ensures c !in s ==> Split(s, c) == [s]
  {
  }

  /** The value sits between the first and the second `=` (or the end). */
  lemma SrcPairShape(kv: string)
    requires '=' in kv
    ensures SrcPair(kv).0 == TrimSpace(kv[..IndexOf(kv, '=')])
    ensures var rest := kv[IndexOf(kv, '=') + 1..];
      '=' in rest ==> SrcPair(kv).1 == Trim(rest[..IndexOf(rest, '=')], Quote)
    ensures var rest := kv[IndexOf(kv, '=') + 1..];
      '=' !in rest ==> SrcPair(kv).1 == Trim(rest, Quote)
  {
    var i := IndexOf(kv, '=');
    var rest := kv[i + 1..];
    var raw := Split(rest, '=')[0];
    assert SrcPair(kv) == (TrimSpace(kv[..i]), Trim(raw, Quote)) by {
      var parts := Split(kv, '=');
      assert |parts| >= 2 && parts[0] == kv[..i] && parts[1] == raw by {
        SplitTail(kv, '=');
      }
    }
    assert '=' in rest ==> raw == rest[..IndexOf(rest, '=')] by {
      SplitHead(rest, '=');
    }
    assert '=' !in rest ==> raw == rest by {
      SplitHead(rest, '=');
    }
  }

  lemma SplitTail(s: string, c: char)
    requires c in s
    ensures var i := IndexOf(s, c); Split(s, c) == [s[..i]] + Split(s[i + 1..], c)
  {
  }

  /** The entries the items give, each setting its key. */
  function Pairs(items: seq<string>): seq<Option<(string, string)>>
    requires Parsable(items)
  {
    seq(|items|, i requires 0 <= i < |items| && '=' in items[i] => Some(SrcPair(items[i])))
  }

  /** The source map: a panic when some item has no `=`, else every item
      sets its key, the last one winning. */
  function SrcMap(items: seq<string>): Result<map<string, string>> {
    if Parsable(items) then Ok(Fill(Pairs(items))) else Panic("index out of range [1] with length 1")
  }

  /** The keys of the source map are the keys of the items, and each
      has the value of the last item with that key. */
  lemma SrcMapEntries(items: seq<string>, i: nat)
    requires Parsable(items) && i < |items|
    requires forall j | i < j < |items| :: SrcPair(items[j]).0 != SrcPair(items[i]).0
    ensures SrcPair(items[i]).0 in SrcMap(items).value
    ensures SrcMap(items).value[SrcPair(items[i]).0] == SrcPair(items[i]).1
  {
    FillLastWins(Pairs(items), i);
  }

  lemma SrcMapKeys(items: seq<string>, key: string)
    requires Parsable(items)
    ensures key in SrcMap(items).value <==> exists i | 0 <= i < |items| :: SrcPair(items[i]).0 == key
  {
    var ps := Pairs(items);
    var m := Fill(ps);
    assert SrcMap(items).value == m;
    assert key in m ==> exists i | 0 <= i < |items| :: SrcPair(items[i]).0 == key by {
      if key in m {
        FillKeys(ps, key);
        var i :| 0 <= i < |ps| && SetsKey(ps[i], key);
        assert ps[i] == Some(SrcPair(items[i]));
        assert SrcPair(items[i]).0 == key;
      }
    }
    assert (exists i | 0 <= i < |items| :: SrcPair(items[i]).0 == key) ==> key in m by {
      if exists i | 0 <= i < |items| :: SrcPair(items[i]).0 == key {
        var i :| 0 <= i < |items| && SrcPair(items[i]).0 == key;
        assert ps[i] == Some(SrcPair(items[i]));
        assert SetsKey(ps[i], key);
        FillKeys(ps, key);
      }
    }
  }

  /** An unreadable source is read as empty, and the empty dump's single
      item has no `=`: the comparison panics. */
  lemma EmptySourcePanics()
    ensures SrcMap(Items("")).Panic?
  {
    TrimEmpty(Braces);
    SplitEmpty(',');
    assert Items("")[0] == "";
  }

  lemma PairsStep(items: seq<string>, i: nat)
    requires i < |items| && Parsable(items[..i]) && '=' in items[i]
    ensures Parsable(items[..i + 1])
    ensures Pairs(items[..i + 1]) == Pairs(items[..i]) + [Some(SrcPair(items[i]))]
  {
    assert items[..i + 1][..i] == items[..i];
    assert items[..i + 1] == items[..i] + [items[i]];
  }

  lemma FillSnoc(es: seq<Option<(string, string)>>, kv: (string, string))
    ensures Fill(es + [Some(kv)]) == Fill(es)[kv.0 := kv.1]
  {
    assert (es + [Some(kv)])[..|es|] == es;
  }

  /** The parse loop of `DiffEdpmCrdFromFile`. */
  method ParseSource(data: string) returns (r: Result<map<string, string>>)
    ensures r == SrcMap(Items(data))
  {
    var items := Items(data);
    var srcMap: map<string, string> := map[];
    for i := 0 to |items|
      invariant Parsable(items[..i])
      invariant srcMap == Fill(Pairs(items[..i]))
    {
      var parts := Split(items[i], '=');
      SplitHasTwoIff(items[i]);
      if |parts| < 2 {
        assert !Parsable(items);
        return Panic("index out of range [1] with length 1");
      }
      PairsStep(items, i);
      var key := TrimSpace(parts[0]);
      var value := Trim(parts[1], Quote);
      assert SrcPair(items[i]) == (key, value);
      FillSnoc(Pairs(items[..i]), (key, value));
      srcMap := srcMap[key := value];
    }
    assert items[..|items|] == items;
    return Ok(srcMap);
  }

  // ---------------------------------------------------------------------
  // The mapped comparison

  /** A missing key reads as the empty string. */
  function Lookup(m: map<string, string>, k: string): string {
    if k in m then m[k] else ""
  }

  /** The report's first line. */
  function Header(srcFile: string, edpmPath: string): string {
    "Start to compare file contents for: " + srcFile + " and: " + edpmPath + " \n"
  }

  /** The two entries of a mapping `k -> v` whose values differ: the
      source's key and value, then the mapped name and the EDPM value. */
  function MappingDiff(k: string, v: string, srcMap: map<string, string>, field: string -> string): seq<string> {
    var edpm := field(v);
    if Lookup(srcMap, k) != edpm then DiffLines(k, Lookup(srcMap, k), v, edpm) else []
  }

  /** The two lines reporting that `k` has `srcValue` in the source while
      its mapped name `v` has `edpmValue`. */
  function DiffLines(k: string, srcValue: string, v: string, edpmValue: string): seq<string> {
    ["-" + k + "=" + srcValue + "\n", "+" + v + "=" + edpmValue + "\n"]
  }

  /** The entries for the mapping keys in `order`. */
  function MappingEntries(order: seq<string>, mapping: map<string, string>, srcMap: map<string, string>,
                          field: string -> string): seq<string>
    requires forall k | k in order :: k in mapping
  {
    if order == [] then []
    else
      var k := order[|order| - 1];
      MappingEntries(order[..|order| - 1], mapping, srcMap, field) + MappingDiff(k, mapping[k], srcMap, field)
  }

  /** A mapping agrees when the source value equals the EDPM value. */
  predicate Agrees(k: string, mapping: map<string, string>, srcMap: map<string, string>, field: string -> string)
    requires k in mapping
  {
    Lookup(srcMap, k) == field(mapping[k])
  }

  /** No entry exactly when every mapping agrees. */
  lemma {:induction false} MappingEntriesEmptyIff(order: seq<string>, mapping: map<string, string>,
                                                  srcMap: map<string, string>, field: string -> string)
    requires forall k | k in order :: k in mapping
    ensures MappingEntries(order, mapping, srcMap, field) == [] <==>
      forall k | k in order :: Agrees(k, mapping, srcMap, field)
  {
    if order != [] {
      var init := order[..|order| - 1];
      var k := order[|order| - 1];
      assert forall x | x in init :: x in order;
      MappingEntriesEmptyIff(init, mapping, srcMap, field);
      if !Agrees(k, mapping, srcMap, field) {
        assert |MappingDiff(k, mapping[k], srcMap, field)| == 2;
      }
      if forall x | x in init :: Agrees(x, mapping, srcMap, field) {
        if Agrees(k, mapping, srcMap, field) {
          assert forall x | x in order :: x in init || x == k;
        }
      }
    }
  }

  /** Entries that come in pairs: a `-` entry, then a `+` entry. */
  predicate Paired(e: seq<string>) {
    |e| % 2 == 0 && forall j | 0 <= j < |e| / 2 :: e[2 * j] != [] && e[2 * j][0] == '-' && e[2 * j + 1] != [] && e[2 * j + 1][0] == '+'
  }

  lemma PairedAppend(a: seq<string>, x: string, y: string)
    requires Paired(a) && x != [] && x[0] == '-' && y != [] && y[0] == '+'
    ensures Paired(a + [x, y])
  {
    var e := a + [x, y];
    assert |e| / 2 == |a| / 2 + 1;
    forall j | 0 <= j < |e| / 2
      ensures e[2 * j] != [] && e[2 * j][0] == '-' && e[2 * j + 1] != [] && e[2 * j + 1][0] == '+'
    {
      if j < |a| / 2 {
        assert e[2 * j] == a[2 * j] && e[2 * j + 1] == a[2 * j + 1];
      } else {
        assert 2 * j == |a|;
      }
    }
  }

  /** The entries come in pairs: a `-` entry, then a `+` entry. */
  lemma {:induction false} MappingEntriesPaired(order: seq<string>, mapping: map<string, string>,
                                                srcMap: map<string, string>, field: string -> string)
    requires forall k | k in order :: k in mapping
    ensures Paired(MappingEntries(order, mapping, srcMap, field))
  {
    if order != [] {
      var init := order[..|order| - 1];
      var k := order[|order| - 1];
      assert forall x | x in init :: x in order;
      MappingEntriesPaired(init, mapping, srcMap, field);
      var d := MappingDiff(k, mapping[k], srcMap, field);
      if d != [] {
        PairedAppend(MappingEntries(init, mapping, srcMap, field), d[0], d[1]);
        assert d == [d[0], d[1]];
      } else {
        assert MappingEntries(order, mapping, srcMap, field) == MappingEntries(init, mapping, srcMap, field);
      }
    }
  }

  lemma MappingEntriesStep(order: seq<string>, k: string, mapping: map<string, string>,
                           srcMap: map<string, string>, field: string -> string)
    requires forall x | x in order :: x in mapping
    requires k in mapping
    ensures MappingEntries(order + [k], mapping, srcMap, field)
            == MappingEntries(order, mapping, srcMap, field) + MappingDiff(k, mapping[k], srcMap, field)
  {
    assert (order + [k])[..|order|] == order;
  }

  lemma AppendAssoc(a: seq<string>, b: seq<string>, c: seq<string>)
    ensures a + b + c == a + (b + c)
  {
  }

  /** The loop over the mapping: for each `k -> v`, in map order, the two
      entries when the values differ. */
  method CompareMapping(r0: seq<string>, mapping: map<string, string>, srcMap: map<string, string>,
                        field: string -> string)
    returns (report: seq<string>, ghost order: seq<string>)
    ensures GodiffMaps.Enumerates(order, mapping.Keys)
    ensures report == r0 + MappingEntries(order, mapping, srcMap, field)
  {
    var rest := mapping.Keys;
    report, order := r0, [];
    while rest != {}
      invariant rest <= mapping.Keys
      invariant NoDup(order) && forall k :: k in order <==> k in mapping.Keys - rest
      invariant report == r0 + MappingEntries(order, mapping, srcMap, field)
      decreases |rest|
    {
      var k :| k in rest;
      var v := mapping[k];
      var value := field(v);
      ghost var done := MappingEntries(order, mapping, srcMap, field);
      ghost var d := MappingDiff(k, v, srcMap, field);
      MappingEntriesStep(order, k, mapping, srcMap, field);
      if Lookup(srcMap, k) != value {
        assert d == DiffLines(k, Lookup(srcMap, k), v, value);
        report := report + DiffLines(k, Lookup(srcMap, k), v, value);
      } else {
        assert d == [];
      }
      AppendAssoc(r0, done, d);
      GodiffMaps.VisitKey(order, mapping.Keys, rest, k);
      order := order + [k];
      rest := rest - {k};
    }
  }

  /** The service whose external ids are compared. */
  const OvsExternalIds := "ovs_external_ids"

  /** `DiffEdpmCrdFromFile`: the header, then, for `ovs_external_ids` only,
      the entries of every mapping whose values differ, in map order. An
      unreadable source reads as empty; an item without `=` and an EDPM file
      that cannot be read or decoded panic. */
  method DiffEdpmCrdFromFile(srcFile: string, edpmPath: string, serviceName: string, src: Result<string>,
                             edpmError: Option<string>, mapping: map<string, string>, field: string -> string)
    returns (res: Result<seq<string>>, ghost order: seq<string>)
    ensures var items := Items(if src.Ok? then src.value else "");
      res.Panic? <==> !Parsable(items) || edpmError.Some?
    ensures res.Err? == false
    ensures res.Ok? ==> src.Ok?
    ensures res.Ok? ==> serviceName == OvsExternalIds ==>
      GodiffMaps.Enumerates(order, mapping.Keys)
      && res.value == [Header(srcFile, edpmPath)]
                      + MappingEntries(order, mapping, SrcMap(Items(src.value)).value, field)
    ensures res.Ok? ==> serviceName != OvsExternalIds ==> res.value == [Header(srcFile, edpmPath)]
  {
    order := [];
    EmptySourcePanics();
    var data := if src.Ok? then src.value else "";
    var parsed := ParseSource(data);
    if !parsed.Ok? {
      return Panic(ErrorText(parsed)), order;
    }
    var srcMap := parsed.value;
    if edpmError.Some? {
      return Panic(edpmError.value), order;
    }
    var report := [Header(srcFile, edpmPath)];
    if serviceName == OvsExternalIds {
      report, order := CompareMapping(report, mapping, srcMap, field);
    }
    return Ok(report), order;
  }

  // ---------------------------------------------------------------------
  // LoadOpenStackDataPlaneNodeSetConfig

  /** `LoadOpenStackDataPlaneNodeSetConfig`: a read or decode error
      panics; otherwise nothing is written to the builder, so the result is
      the cleaning of the empty text, which is empty. */
  method LoadOpenStackDataPlaneNodeSetConfig(docError: Option<string>) returns (res: Result<string>)
    ensures docError.Some? <==> res.Panic?
    ensures docError.None? ==> res == Ok("")
  {
    if docError.Some? {
      return Panic(docError.value);
    }
    var sb := "";
    var out, order := GodiffClean.CleanIniSections(sb);
    GodiffClean.CleanOfEmpty(order);
    return Ok(out);
  }
}
