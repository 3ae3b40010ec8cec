/** The functions of Go's `strings` package (and `strconv.Itoa`) that the
    core of os-diff relies on, over `string` = `seq<char>`, one char per rune.

    Case mapping (`ToLower`, `Title`) follows the ASCII rules only; every
    other function is exact for all runes. */
module GoStrings {

  /** Go's `unicode.IsSpace`: the Latin-1 spaces and the other code points
      with the Unicode White_Space property. */
  const SpaceChars: set<char> :=
    {'\t', '\n', '\U{0B}', '\U{0C}', '\r', ' ', '\U{85}', '\U{A0}',
     '\U{1680}', '\U{2000}', '\U{2001}', '\U{2002}', '\U{2003}', '\U{2004}',
     '\U{2005}', '\U{2006}', '\U{2007}', '\U{2008}', '\U{2009}', '\U{200A}',
     '\U{2028}', '\U{2029}', '\U{202F}', '\U{205F}', '\U{3000}'}

  predicate IsSpace(c: char) {
    c in SpaceChars
  }

  predicate HasPrefix(s: string, prefix: string) {
    |prefix| <= |s| && s[..|prefix|] == prefix
  }

  predicate HasSuffix(s: string, suffix: string) {
    |suffix| <= |s| && s[|s| - |suffix|..] == suffix
  }

  /** `sub` occurs in `s` at position `i`. */
  predicate OccursAt(s: string, sub: string, i: int) {
    0 <= i <= |s| - |sub| && s[i..i + |sub|] == sub
  }

  /** `strings.Contains(s, sub)`. */
  predicate Contains(s: string, sub: string) {
    exists i | 0 <= i <= |s| - |sub| :: OccursAt(s, sub, i)
  }

  /** Splitting the empty string gives one empty part. */
  lemma SplitEmpty(sep: char)
    ensures Split("", sep) == [""]
  {
  }

  /** Trimming the empty string gives the empty string. */
  lemma TrimEmpty(cut: set<char>)
    ensures Trim("", cut) == ""
  {
  }

  /** For a one-char `sub`, `Contains` is membership. */
  lemma ContainsChar(s: string, c: char)
    ensures Contains(s, [c]) <==> c in s
  {
    if c in s {
      var i :| 0 <= i < |s| && s[i] == c;
      assert s[i..i + 1] == [c];
      assert OccursAt(s, [c], i);
    }
    if Contains(s, [c]) {
      var i :| 0 <= i <= |s| - 1 && OccursAt(s, [c], i);
      assert s[i] == s[i..i + 1][0];
    }
  }

  /** The first position of `c` in `s`, or -1 (`strings.IndexByte` on a
      string, a linear search on a slice). */
  function IndexOf<T(==)>(s: seq<T>, c: T): (i: int)
    ensures -1 <= i < |s|
    ensures i >= 0 ==> s[i] == c && forall k | 0 <= k < i :: s[k] != c
    ensures i == -1 <==> c !in s
  {
    if |s| == 0 then -1
    else if s[0] == c then 0
    else
      var j := IndexOf(s[1..], c);
      if j < 0 then -1 else j + 1
  }

  /** `strings.LastIndex` with a one-rune separator: the last position of `c`, or -1. */
  function LastIndexOf<T(==)>(s: seq<T>, c: T): (i: int)
    ensures -1 <= i < |s|
    ensures i >= 0 ==> s[i] == c && forall k | i < k < |s| :: s[k] != c
    ensures i == -1 <==> c !in s
  {
    if |s| == 0 then -1
    else if s[|s| - 1] == c then |s| - 1
    else
      var t := s[..|s| - 1];
      assert s == t + [s[|s| - 1]];
      LastIndexOf(t, c)
  }

  /** `strings.Index(s, sub)`: the first position where `sub` occurs, or -1. */
  function Index(s: string, sub: string): (i: int)
    ensures i == -1 || OccursAt(s, sub, i)
    ensures forall k | 0 <= k && (i == -1 || k < i) :: !OccursAt(s, sub, k)
    decreases |s|
  {
    if |s| < |sub| then -1
    else if s[..|sub|] == sub then 0
    else
      var j := Index(s[1..], sub);
      assert forall k | 0 <= k && (j == -1 || k < j + 1) :: !OccursAt(s, sub, k) by {
        forall k | 0 <= k && (j == -1 || k < j + 1) ensures !OccursAt(s, sub, k) {
          if k > 0 {
            OccursShift(s, sub, k - 1);
          }
        }
      }
      if j < 0 then -1
      else
        OccursShift(s, sub, j);
        j + 1
  }

  /** An occurrence after the first char is an occurrence in the tail. */
  lemma OccursShift(s: string, sub: string, k: nat)
    requires |s| > 0
    ensures OccursAt(s, sub, k + 1) <==> OccursAt(s[1..], sub, k)
  {
    if k + 1 <= |s| - |sub| {
      assert s[k + 1..k + 1 + |sub|] == s[1..][k..k + |sub|];
    }
  }

  /** `strings.Join(parts, sep)`. */
  function Join(parts: seq<string>, sep: string): string {
    if |parts| == 0 then ""
    else if |parts| == 1 then parts[0]
    else parts[0] + sep + Join(parts[1..], sep)
  }

  /** `strings.Split(s, sep)` for a one-rune separator. Splitting never
      yields an empty list and no part holds the separator; `SplitJoins`
      shows that joining the parts back gives the input. */
  function Split(s: string, sep: char): (parts: seq<string>)
    ensures |parts| >= 1
    ensures forall p | p in parts :: sep !in p
    decreases |s|
  {
    var i := IndexOf(s, sep);
    if i < 0 then [s]
    else [s[..i]] + Split(s[i + 1..], sep)
  }

  /** Joining the parts of a split with its separator gives the string
      back. */
  lemma {:induction false} SplitJoins(s: string, sep: char)
    ensures Join(Split(s, sep), [sep]) == s
    decreases |s|
  {
    var i := IndexOf(s, sep);
    if i >= 0 {
      var rest := Split(s[i + 1..], sep);
      SplitJoins(s[i + 1..], sep);
      JoinCons(s[..i], rest, [sep]);
      assert s == s[..i] + [sep] + s[i + 1..];
    }
  }

  /** Joining a part in front of at least one other adds it and the
      separator in front. */
  lemma JoinCons(a: string, rest: seq<string>, sep: string)
    requires |rest| >= 1
    ensures Join([a] + rest, sep) == a + sep + Join(rest, sep)
  {
    assert ([a] + rest)[1..] == rest;
  }

  /** `strings.SplitN(s, sep, n)` for n >= 1 and a one-rune separator: at
      most n parts, the last one holding the unsplit rest. */
  function SplitN(s: string, sep: char, n: nat): (parts: seq<string>)
    requires n >= 1
    ensures 1 <= |parts| <= n
    ensures forall k | 0 <= k < |parts| - 1 :: sep !in parts[k]
    ensures |parts| < n ==> sep !in parts[|parts| - 1]
    decreases n
  {
    var i := IndexOf(s, sep);
    if n == 1 || i < 0 then [s]
    else
      var rest := SplitN(s[i + 1..], sep, n - 1);
      assert ([s[..i]] + rest)[1..] == rest;
      [s[..i]] + rest
  }

  /** Joining the parts of `SplitN` with its separator gives the string
      back. */
  lemma {:induction false} SplitNJoins(s: string, sep: char, n: nat)
    requires n >= 1
    ensures Join(SplitN(s, sep, n), [sep]) == s
    decreases n
  {
    var i := IndexOf(s, sep);
    if n > 1 && i >= 0 {
      var rest := SplitN(s[i + 1..], sep, n - 1);
      SplitNJoins(s[i + 1..], sep, n - 1);
      JoinCons(s[..i], rest, [sep]);
      assert s == s[..i] + [sep] + s[i + 1..];
    }
  }

  /** Drops every leading char that is in `cut`. */
  function TrimLeft(s: string, cut: set<char>): (r: string)
    ensures |r| <= |s| && r == s[|s| - |r|..]
    ensures |r| > 0 ==> r[0] !in cut
    ensures forall k | 0 <= k < |s| - |r| :: s[k] in cut
  {
    if |s| > 0 && s[0] in cut then
      var r := TrimLeft(s[1..], cut);
      assert forall k | 1 <= k < |s| - |r| :: s[k] in cut by {
        forall k | 1 <= k < |s| - |r| ensures s[k] in cut {
          assert s[k] == s[1..][k - 1];
        }
      }
      r
    else s
  }

  /** Drops every trailing char that is in `cut`. */
  function TrimRight(s: string, cut: set<char>): (r: string)
    ensures |r| <= |s| && r == s[..|r|]
    ensures |r| > 0 ==> r[|r| - 1] !in cut
    ensures forall k | |r| <= k < |s| :: s[k] in cut
  {
    if |s| > 0 && s[|s| - 1] in cut then
      var r := TrimRight(s[..|s| - 1], cut);
      assert forall k | |r| <= k < |s| - 1 :: s[k] in cut by {
        forall k | |r| <= k < |s| - 1 ensures s[k] in cut {
          assert s[k] == s[..|s| - 1][k];
        }
      }
      r
    else s
  }

  /** `strings.Trim(s, cutset)`. */
  function Trim(s: string, cut: set<char>): string {
    TrimRight(TrimLeft(s, cut), cut)
  }

  /** `strings.TrimSpace(s)`. */
  function TrimSpace(s: string): string {
    Trim(s, SpaceChars)
  }

  function TrimPrefix(s: string, prefix: string): string {
    if HasPrefix(s, prefix) then s[|prefix|..] else s
  }

  function TrimSuffix(s: string, suffix: string): string {
    if HasSuffix(s, suffix) then s[..|s| - |suffix|] else s
  }

  /** The length of the run of non-space chars at the start of `s`. */
  function WordLength(s: string): (n: nat)
    ensures n <= |s|
    ensures forall k | 0 <= k < n :: !IsSpace(s[k])
    ensures n < |s| ==> IsSpace(s[n])
  {
    if |s| == 0 || IsSpace(s[0]) then 0 else 1 + WordLength(s[1..])
  }

  /** A non-empty run of non-space chars. */
  predicate IsWord(f: string) {
    |f| > 0 && forall k | 0 <= k < |f| :: !IsSpace(f[k])
  }

  /** `strings.Fields(s)`: the maximal runs of non-space chars. */
  function Fields(s: string): (fields: seq<string>)
    ensures forall f | f in fields :: IsWord(f)
    decreases |s|
  {
    var t := TrimLeft(s, SpaceChars);
    if |t| == 0 then []
    else
      var w := WordLength(t);
      assert IsWord(t[..w]);
      [t[..w]] + Fields(t[w..])
  }

  /** The decimal digit for 0 <= d <= 9. */
  function DigitChar(d: nat): char
    requires d < 10
  {
    (48 + d) as char
  }

  /** `strconv.Itoa` (and `%d`) on a non-negative integer. */
  function IntToString(n: nat): (s: string)
    ensures |s| > 0
    ensures forall k | 0 <= k < |s| :: '0' <= s[k] <= '9'
  {
    if n < 10 then [DigitChar(n)] else IntToString(n / 10) + [DigitChar(n % 10)]
  }

  function LowerChar(c: char): char {
    if 'A' <= c <= 'Z' then (c as int + 32) as char else c
  }

  function UpperChar(c: char): char {
    if 'a' <= c <= 'z' then (c as int - 32) as char else c
  }

  /** `strings.ToLower`, ASCII letters only. */
  function ToLower(s: string): (r: string)
    ensures |r| == |s|
  {
    seq(|s|, i requires 0 <= i < |s| => LowerChar(s[i]))
  }

  /** The word separators of `strings.Title`: every ASCII char other than a
      letter, a digit or `_`, and every non-ASCII space. */
  predicate IsTitleSeparator(c: char) {
    if c as int <= 0x7F then
      !(('0' <= c <= '9') || ('a' <= c <= 'z') || ('A' <= c <= 'Z') || c == '_')
    else IsSpace(c)
  }

  /** `strings.Title`: upper-cases each letter that starts the string or
      follows a separator (ASCII letters only). */
  function Title(s: string): (r: string)
    ensures |r| == |s|
  {
    seq(|s|, i requires 0 <= i < |s| =>
      if i == 0 || IsTitleSeparator(s[i - 1]) then UpperChar(s[i]) else s[i])
  }

  /** Both halves of a concatenation are a prefix and a suffix of it. */
  lemma ConcatAffixes(a: string, b: string)
    ensures HasPrefix(a + b, a) && HasSuffix(a + b, b)
  {
    assert (a + b)[..|a|] == a;
    assert (a + b)[|a + b| - |b|..] == b;
  }

  /** A suffix of a suffix is a suffix. */
  lemma SuffixOfSuffix(a: string, b: string, c: string)
    requires HasSuffix(a, b) && HasSuffix(b, c)
    ensures HasSuffix(a, c)
  {
    assert a[|a| - |c|..] == a[|a| - |b|..][|b| - |c|..];
  }

  /** The last part of a join is a suffix of it. */
  lemma {:induction false} JoinEndsWithLast(parts: seq<string>, sep: string)
    requires |parts| >= 1
    ensures HasSuffix(Join(parts, sep), parts[|parts| - 1])
    decreases |parts|
  {
    if |parts| > 1 {
      JoinEndsWithLast(parts[1..], sep);
      var j := Join(parts, sep);
      var rest := Join(parts[1..], sep);
      assert j == parts[0] + sep + rest;
      assert j[|j| - |rest|..] == rest;
      assert parts[1..][|parts[1..]| - 1] == parts[|parts| - 1];
    }
  }

  /** Joining one more part appends the separator and that part. */
  lemma {:induction false} JoinAppend(parts: seq<string>, x: string, sep: string)
    ensures Join(parts + [x], sep) == if |parts| == 0 then x else Join(parts, sep) + sep + x
    decreases |parts|
  {
    if |parts| > 1 {
      assert (parts + [x])[1..] == parts[1..] + [x];
      JoinAppend(parts[1..], x, sep);
    } else if |parts| == 1 {
      assert (parts + [x])[1..] == [x];
    }
  }

  /** Splitting a join of separator-free parts gives the parts back. */
  lemma {:induction false} SplitOfJoin(parts: seq<string>, sep: char)
    requires |parts| >= 1
    requires forall p | p in parts :: sep !in p
    ensures Split(Join(parts, [sep]), sep) == parts
    decreases |parts|
  {
    if |parts| == 1 {
      assert IndexOf(parts[0], sep) == -1;
    } else {
      var s := Join(parts, [sep]);
      var rest := Join(parts[1..], [sep]);
      assert s == parts[0] + [sep] + rest;
      var i := IndexOf(s, sep);
      assert s[|parts[0]|] == sep;
      assert s[..|parts[0]|] == parts[0];
      assert sep in s;
      assert parts[0] in parts;
      assert i == |parts[0]|;
      assert s[i + 1..] == rest;
      SplitOfJoin(parts[1..], sep);
      assert [parts[0]] + parts[1..] == parts;
    }
  }
}
