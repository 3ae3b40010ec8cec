/** The top-level map comparators of `pkg/godiff/utils.go`: `CompareYAML`
    over decoded YAML mappings and `CompareJSON` over decoded JSON values.

    Go visits a map's keys in an unspecified order. The methods pick the
    next key with `:|` and hand back, as ghost out-parameters, the order
    they used; the reports are specified as functions of that order. How
    a key or a value prints (`%v`, `%s`) is a parameter. */
module GodiffMaps {
  import opened Results
  import opened GoStrings
  import opened CommonUtils

  /** `order` lists every element of `keys` exactly once. */
  predicate Enumerates<K(==)>(order: seq<K>, keys: set<K>) {
    NoDup(order) && (forall k | k in order :: k in keys) && (forall k | k in keys :: k in order)
  }

  /** One more key taken out of `rest` and appended to `order`: `order`
      still lists, without repetition, exactly the keys no longer in
      `rest`, and `rest` shrinks. */
  lemma VisitKey<K>(order: seq<K>, keys: set<K>, rest: set<K>, key: K)
    requires rest <= keys && key in rest
    requires NoDup(order) && forall k :: k in order <==> k in keys - rest
    ensures rest - {key} <= keys
    ensures NoDup(order + [key]) && forall k :: k in order + [key] <==> k in keys - (rest - {key})
    ensures |rest - {key}| < |rest|
  {
    NoDupAppend(order, key);
  }

  /** Only the empty order lists no key. */
  lemma EnumeratesNothing<K>(order: seq<K>)
    ensures Enumerates(order, {}) ==> order == []
  {
    if order != [] {
      assert order[0] in order;
    }
  }

  // ---------------------------------------------------------------------
  // CompareYAML

  /** `+k: v` for a key only in the origin. */
  function OriginOnly<K(==), V(==)>(k: K, v: V, showK: K -> string, showV: V -> string): string {
    "+" + showK(k) + ": " + showV(v) + "\n"
  }

  /** `+k: v1` then `-k:v2` (no space after the second colon) for a key
      whose values differ; the values print with `%s`. */
  function Changed<K(==), V(==)>(k: K, v1: V, v2: V, showK: K -> string, showS: V -> string): string {
    "+" + showK(k) + ": " + showS(v1) + "\n-" + showK(k) + ":" + showS(v2) + "\n"
  }

  /** `-k: v` for a key only in the destination. */
  function DestOnly<K(==), V(==)>(k: K, v: V, showK: K -> string, showV: V -> string): string {
    "-" + showK(k) + ": " + showV(v) + "\n"
  }

  /** What the first loop reports for key `k` of `m1`. */
  function LeftEntry<K(==), V(==)>(k: K, m1: map<K, V>, m2: map<K, V>,
                           showK: K -> string, showV: V -> string, showS: V -> string): seq<string>
    requires k in m1
  {
    if k !in m2 then [OriginOnly(k, m1[k], showK, showV)]
    else if m1[k] != m2[k] then [Changed(k, m1[k], m2[k], showK, showS)]
    else []
  }

  /** The first loop's entries for the keys of `m1` visited in `order`. */
  function LeftEntries<K(==), V(==)>(order: seq<K>, m1: map<K, V>, m2: map<K, V>,
                             showK: K -> string, showV: V -> string, showS: V -> string): seq<string>
    requires forall k | k in order :: k in m1
  {
    if order == [] then []
    else
      LeftEntries(order[..|order| - 1], m1, m2, showK, showV, showS)
      + LeftEntry(order[|order| - 1], m1, m2, showK, showV, showS)
  }

  /** The second loop's entries for the keys of `m2` visited in `order`. */
  function RightEntries<K(==), V(==)>(order: seq<K>, m1: map<K, V>, m2: map<K, V>,
                              showK: K -> string, showV: V -> string): seq<string>
    requires forall k | k in order :: k in m2
  {
    if order == [] then []
    else
      var k := order[|order| - 1];
      RightEntries(order[..|order| - 1], m1, m2, showK, showV)
      + (if k !in m1 then [DestOnly(k, m2[k], showK, showV)] else [])
  }

  /** The first loop reports nothing exactly when every key it visits is in
      `m2` with the same value. */
  lemma {:induction false} LeftEntriesEmptyIff<K, V>(order: seq<K>, m1: map<K, V>, m2: map<K, V>,
                                                    showK: K -> string, showV: V -> string, showS: V -> string)
    requires forall k | k in order :: k in m1
    ensures LeftEntries(order, m1, m2, showK, showV, showS) == []
            <==> forall k | k in order :: k in m2 && m1[k] == m2[k]
  {
    if order != [] {
      var init := order[..|order| - 1];
      assert forall k | k in order :: k in init || k == order[|order| - 1];
      assert forall k | k in init :: k in order;
      LeftEntriesEmptyIff(init, m1, m2, showK, showV, showS);
    }
  }

  /** The second loop reports nothing exactly when every key it visits is
      in `m1`. */
  lemma {:induction false} RightEntriesEmptyIff<K, V>(order: seq<K>, m1: map<K, V>, m2: map<K, V>,
                                                     showK: K -> string, showV: V -> string)
    requires forall k | k in order :: k in m2
    ensures RightEntries(order, m1, m2, showK, showV) == [] <==> forall k | k in order :: k in m1
  {
    if order != [] {
      var init := order[..|order| - 1];
      assert forall k | k in order :: k in init || k == order[|order| - 1];
      assert forall k | k in init :: k in order;
      RightEntriesEmptyIff(init, m1, m2, showK, showV);
    }
  }

  /** Every first-loop entry is justified by a key of `m1` missing from `m2`
      or carrying another value there, and every such key is reported. */
  lemma {:induction false} LeftEntriesExact<K, V>(order: seq<K>, m1: map<K, V>, m2: map<K, V>,
                                                 showK: K -> string, showV: V -> string, showS: V -> string)
    requires forall k | k in order :: k in m1
    ensures forall e | e in LeftEntries(order, m1, m2, showK, showV, showS) ::
      exists k | k in order :: e in LeftEntry(k, m1, m2, showK, showV, showS)
    ensures forall k | k in order && k !in m2 ::
      OriginOnly(k, m1[k], showK, showV) in LeftEntries(order, m1, m2, showK, showV, showS)
    ensures forall k | k in order && k in m2 && m1[k] != m2[k] ::
      Changed(k, m1[k], m2[k], showK, showS) in LeftEntries(order, m1, m2, showK, showV, showS)
  {
    if order != [] {
      var init := order[..|order| - 1];
      var last := order[|order| - 1];
      assert forall k | k in order :: k in init || k == last;
      assert forall k | k in init :: k in order;
      LeftEntriesExact(init, m1, m2, showK, showV, showS);
      var all := LeftEntries(order, m1, m2, showK, showV, showS);
      assert all == LeftEntries(init, m1, m2, showK, showV, showS) + LeftEntry(last, m1, m2, showK, showV, showS);
    }
  }

  /** The two loops together report nothing exactly when the maps are
      equal. */
  lemma MapDiffEmptyIff<K, V>(o1: seq<K>, o2: seq<K>, m1: map<K, V>, m2: map<K, V>,
                              showK: K -> string, showV: V -> string, showS: V -> string)
    requires Enumerates(o1, m1.Keys) && Enumerates(o2, m2.Keys)
    ensures LeftEntries(o1, m1, m2, showK, showV, showS) + RightEntries(o2, m1, m2, showK, showV) == []
            <==> m1 == m2
  {
    LeftEntriesEmptyIff(o1, m1, m2, showK, showV, showS);
    RightEntriesEmptyIff(o2, m1, m2, showK, showV);
    if LeftEntries(o1, m1, m2, showK, showV, showS) + RightEntries(o2, m1, m2, showK, showV) == [] {
      assert m1.Keys == m2.Keys;
    }
  }

  lemma LeftEntriesSnoc<K, V>(order: seq<K>, key: K, m1: map<K, V>, m2: map<K, V>,
                              showK: K -> string, showV: V -> string, showS: V -> string)
    requires (forall k | k in order :: k in m1) && key in m1
    ensures forall k | k in order + [key] :: k in m1
    ensures LeftEntries(order + [key], m1, m2, showK, showV, showS)
            == LeftEntries(order, m1, m2, showK, showV, showS) + LeftEntry(key, m1, m2, showK, showV, showS)
  {
    assert (order + [key])[..|order|] == order;
  }

  lemma RightEntriesSnoc<K, V>(order: seq<K>, key: K, m1: map<K, V>, m2: map<K, V>,
                               showK: K -> string, showV: V -> string)
    requires (forall k | k in order :: k in m2) && key in m2
    ensures forall k | k in order + [key] :: k in m2
    ensures RightEntries(order + [key], m1, m2, showK, showV)
            == RightEntries(order, m1, m2, showK, showV) + (if key !in m1 then [DestOnly(key, m2[key], showK, showV)] else [])
  {
    assert (order + [key])[..|order|] == order;
  }

  /** The loop over the keys of `m1`. */
  method YamlLeftLoop<K(==), V(==)>(r0: seq<string>, m1: map<K, V>, m2: map<K, V>,
                            showK: K -> string, showV: V -> string, showS: V -> string)
    returns (r: seq<string>, ghost order: seq<K>)
    ensures Enumerates(order, m1.Keys)
    ensures r == r0 + LeftEntries(order, m1, m2, showK, showV, showS)
  {
    var rest := m1.Keys;
    r, order := r0, [];
    while rest != {}
      invariant rest <= m1.Keys
      invariant NoDup(order) && forall k :: k in order <==> k in m1.Keys - rest
      invariant r == r0 + LeftEntries(order, m1, m2, showK, showV, showS)
      decreases |rest|
    {
      var key :| key in rest;
      LeftEntriesSnoc(order, key, m1, m2, showK, showV, showS);
      ghost var done := LeftEntries(order, m1, m2, showK, showV, showS);
      if key !in m2 {
        r := r + [OriginOnly(key, m1[key], showK, showV)];
        assert r == r0 + (done + [OriginOnly(key, m1[key], showK, showV)]);
      } else if m1[key] != m2[key] {
        r := r + [Changed(key, m1[key], m2[key], showK, showS)];
        assert r == r0 + (done + [Changed(key, m1[key], m2[key], showK, showS)]);
      } else {
        assert done + [] == done;
      }
      VisitKey(order, m1.Keys, rest, key);
      order := order + [key];
      rest := rest - {key};
    }
  }

  /** The loop over the keys of `m2`. */
  method YamlRightLoop<K(==), V(==)>(r0: seq<string>, m1: map<K, V>, m2: map<K, V>,
                             showK: K -> string, showV: V -> string)
    returns (r: seq<string>, ghost order: seq<K>)
    ensures Enumerates(order, m2.Keys)
    ensures r == r0 + RightEntries(order, m1, m2, showK, showV)
  {
    var rest := m2.Keys;
    r, order := r0, [];
    while rest != {}
      invariant rest <= m2.Keys
      invariant NoDup(order) && forall k :: k in order <==> k in m2.Keys - rest
      invariant r == r0 + RightEntries(order, m1, m2, showK, showV)
      decreases |rest|
    {
      var key :| key in rest;
      RightEntriesSnoc(order, key, m1, m2, showK, showV);
      if key !in m1 {
        r := r + [DestOnly(key, m2[key], showK, showV)];
      }
      VisitKey(order, m2.Keys, rest, key);
      order := order + [key];
      rest := rest - {key};
    }
  }

  /** `CompareYAML` after both documents decoded: nothing for equal maps;
      otherwise the first loop's entries, in the order the keys of `m1`
      were visited, then the second loop's. The report is empty exactly
      when the maps are equal. */
  method YamlDiff<K(==), V(==)>(m1: map<K, V>, m2: map<K, V>,
                        showK: K -> string, showV: V -> string, showS: V -> string)
    returns (report: seq<string>, ghost o1: seq<K>, ghost o2: seq<K>)
    ensures report == [] <==> m1 == m2
    ensures m1 != m2 ==>
      Enumerates(o1, m1.Keys) && Enumerates(o2, m2.Keys)
      && report == LeftEntries(o1, m1, m2, showK, showV, showS) + RightEntries(o2, m1, m2, showK, showV)
  {
    report, o1, o2 := [], [], [];
    if m1 != m2 {
      report, o1 := YamlLeftLoop([], m1, m2, showK, showV, showS);
      report, o2 := YamlRightLoop(report, m1, m2, showK, showV);
      MapDiffEmptyIff(o1, o2, m1, m2, showK, showV, showS);
    }
  }

  /** `CompareYAML`: the decoding errors, then the comparison. `text1` and
      `text2` are the raw documents, which the error message quotes. */
  method CompareYAML<K(==), V(==)>(doc1: Result<map<K, V>>, doc2: Result<map<K, V>>, text1: string, text2: string,
                           showK: K -> string, showV: V -> string, showS: V -> string)
    returns (r: Result<seq<string>>, ghost o1: seq<K>, ghost o2: seq<K>)
    ensures !doc1.Ok? ==> r == Err("Error unmarshalling " + text1 + ", error: " + ErrorText(doc1))
    ensures doc1.Ok? && !doc2.Ok? ==> r == Err("Error unmarshalling " + text2 + ", error: " + ErrorText(doc2))
    ensures doc1.Ok? && doc2.Ok? ==> r.Ok? && (r.value == [] <==> doc1.value == doc2.value)
    ensures doc1.Ok? && doc2.Ok? && doc1.value != doc2.value ==>
      Enumerates(o1, doc1.value.Keys) && Enumerates(o2, doc2.value.Keys)
      && r.value == LeftEntries(o1, doc1.value, doc2.value, showK, showV, showS)
                    + RightEntries(o2, doc1.value, doc2.value, showK, showV)
  {
    o1, o2 := [], [];
    if !doc1.Ok? {
      return Err("Error unmarshalling " + text1 + ", error: " + ErrorText(doc1)), o1, o2;
    }
    if !doc2.Ok? {
      return Err("Error unmarshalling " + text2 + ", error: " + ErrorText(doc2)), o1, o2;
    }
    var report;
    report, o1, o2 := YamlDiff(doc1.value, doc2.value, showK, showV, showS);
    return Ok(report), o1, o2;
  }

  // ---------------------------------------------------------------------
  // CompareJSON

  /** A value decoded by `encoding/json` into `interface{}`. */
  datatype Json =
    | JNull
    | JBool(b: bool)
    | JNum(n: real)
    | JStr(s: string)
    | JArr(items: seq<Json>)
    | JObj(fields: map<string, Json>)

  /** What `%T` prints for the dynamic type of a decoded value. */
  function TypeName(j: Json): (t: string)
    ensures t == "<nil>" <==> j.JNull?
    ensures t == "[]interface {}" <==> j.JArr?
    ensures t == "map[string]interface {}" <==> j.JObj?
  {
    match j
    case JNull => "<nil>"
    case JBool(_) => "bool"
    case JNum(_) => "float64"
    case JStr(_) => "string"
    case JArr(_) => "[]interface {}"
    case JObj(_) => "map[string]interface {}"
  }

  function TypeMismatch(path: string, a: Json, b: Json): string {
    "Type mismatch at " + path + ": " + TypeName(a) + " != " + TypeName(b) + "\n"
  }

  function LengthMismatch(path: string, n1: nat, n2: nat): string {
    "Array length mismatch at " + path + ": " + IntToString(n1) + " != " + IntToString(n2) + "\n"
  }

  /** `sign + k` for each key visited in `order` that `other` lacks. */
  function KeysOnlyIn(order: seq<string>, other: map<string, Json>, sign: string): seq<string> {
    if order == [] then []
    else
      var k := order[|order| - 1];
      KeysOnlyIn(order[..|order| - 1], other, sign) + (if k !in other then [sign + k] else [])
  }

  /** Prepending the same text keeps strings apart. */
  lemma ConcatCancel(sign: string, a: string, b: string)
    ensures sign + a == sign + b ==> a == b
  {
    if sign + a == sign + b {
      assert a == (sign + a)[|sign|..];
      assert b == (sign + b)[|sign|..];
    }
  }

  /** `KeysOnlyIn` reports exactly the keys in `order` missing from `other`,
      each once, and nothing when `other` has them all. */
  lemma {:induction false} KeysOnlyInExact(order: seq<string>, other: map<string, Json>, sign: string)
    requires NoDup(order)
    ensures forall e :: e in KeysOnlyIn(order, other, sign) <==> exists k | k in order && k !in other :: e == sign + k
    ensures NoDup(KeysOnlyIn(order, other, sign))
    ensures KeysOnlyIn(order, other, sign) == [] <==> forall k | k in order :: k in other
  {
    if order != [] {
      var init := order[..|order| - 1];
      var last := order[|order| - 1];
      NoDupInit(order);
      KeysOnlyInExact(init, other, sign);
      var pre := KeysOnlyIn(init, other, sign);
      var all := KeysOnlyIn(order, other, sign);
      var tail := if last !in other then [sign + last] else [];
      assert all == pre + tail;
      forall e ensures e in all <==> exists k | k in order && k !in other :: e == sign + k {
        if exists k | k in order && k !in other :: e == sign + k {
          var k :| k in order && k !in other && e == sign + k;
          assert e in pre || (k == last && e in tail);
        }
      }
      if last !in other {
        assert sign + last !in pre by {
          forall k | k in init ensures sign + k != sign + last {
            ConcatCancel(sign, k, last);
          }
        }
        NoDupAppend(pre, sign + last);
      } else {
        assert all == pre;
      }
    }
  }

  /** The loop over the keys of one object, appending `sign + k` for each
      key the other object lacks. */
  method ObjectKeysLoop(r0: seq<string>, fields: map<string, Json>, other: map<string, Json>, sign: string)
    returns (diff: seq<string>, ghost order: seq<string>)
    ensures Enumerates(order, fields.Keys)
    ensures diff == r0 + KeysOnlyIn(order, other, sign)
  {
    var rest := fields.Keys;
    diff, order := r0, [];
    while rest != {}
      invariant rest <= fields.Keys
      invariant NoDup(order) && forall k :: k in order <==> k in fields.Keys - rest
      invariant diff == r0 + KeysOnlyIn(order, other, sign)
      decreases |rest|
    {
      var key :| key in rest;
      assert (order + [key])[..|order|] == order;
      if key !in other {
        diff := diff + [sign + key];
      }
      VisitKey(order, fields.Keys, rest, key);
      order := order + [key];
      rest := rest - {key};
    }
  }

  /** `CompareJSON`. The recursive calls on shared keys and on array
      elements are left out: their results and errors are discarded and
      they have no other effect, so only the top level can produce entries
      or an error. */
  method CompareJSON(org: Json, dest: Json, path: string)
    returns (r: Result<seq<string>>, ghost o1: seq<string>, ghost o2: seq<string>)
    ensures TypeName(org) != TypeName(dest) ==> r == Err(TypeMismatch(path, org, dest))
    ensures TypeName(org) == TypeName(dest) && org.JArr? && |org.items| != |dest.items| ==>
      r == Err(LengthMismatch(path, |org.items|, |dest.items|))
    ensures TypeName(org) == TypeName(dest) && org.JObj? ==>
      Enumerates(o1, org.fields.Keys) && Enumerates(o2, dest.fields.Keys)
      && r == Ok(KeysOnlyIn(o1, dest.fields, "+") + KeysOnlyIn(o2, org.fields, "-"))
    ensures TypeName(org) == TypeName(dest) && !org.JObj? && !(org.JArr? && |org.items| != |dest.items|) ==>
      r == Ok([])
  {
    o1, o2 := [], [];
    if TypeName(org) != TypeName(dest) {
      return Err(TypeMismatch(path, org, dest)), o1, o2;
    }
    var diff: seq<string> := [];
    match org {
      case JObj(fields1) =>
        var plus;
        plus, o1 := ObjectKeysLoop([], fields1, dest.fields, "+");
        assert plus == KeysOnlyIn(o1, dest.fields, "+");
        diff, o2 := ObjectKeysLoop(plus, dest.fields, fields1, "-");
      case JArr(items1) =>
        if |items1| != |dest.items| {
          return Err(LengthMismatch(path, |items1|, |dest.items|)), o1, o2;
        }
      case _ =>
    }
    return Ok(diff), o1, o2;
  }

  /** For two objects, `CompareJSON` reports `+k` for each key only in the
      origin and `-k` for each key only in the destination, nothing else
      and nothing twice; the values under shared keys never matter. */
  lemma JsonObjectEntries(o1: seq<string>, o2: seq<string>, f1: map<string, Json>, f2: map<string, Json>)
    requires Enumerates(o1, f1.Keys) && Enumerates(o2, f2.Keys)
    ensures forall e :: e in KeysOnlyIn(o1, f2, "+") + KeysOnlyIn(o2, f1, "-") <==>
      (exists k | k in f1 && k !in f2 :: e == "+" + k) || (exists k | k in f2 && k !in f1 :: e == "-" + k)
    ensures NoDup(KeysOnlyIn(o1, f2, "+") + KeysOnlyIn(o2, f1, "-"))
    ensures KeysOnlyIn(o1, f2, "+") + KeysOnlyIn(o2, f1, "-") == [] <==> f1.Keys == f2.Keys
  {
    KeysOnlyInExact(o1, f2, "+");
    KeysOnlyInExact(o2, f1, "-");
    var plus, minus := KeysOnlyIn(o1, f2, "+"), KeysOnlyIn(o2, f1, "-");
    var all := plus + minus;
    forall a, b | 0 <= a < b < |all| ensures all[a] != all[b] {
      if b < |plus| {
        assert all[a] == plus[a] && all[b] == plus[b];
      } else if a >= |plus| {
        assert all[a] == minus[a - |plus|] && all[b] == minus[b - |plus|];
      } else {
        assert all[a] == plus[a] && all[b] == minus[b - |plus|];
        assert plus[a] in plus && minus[b - |plus|] in minus;
        assert all[a][0] == '+' && all[b][0] == '-';
      }
    }
    assert f1.Keys == f2.Keys <==> (forall k | k in o1 :: k in f2) && (forall k | k in o2 :: k in f1);
  }
}
