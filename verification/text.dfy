/** Text primitives that the order-query builder relies on: the parts of .NET's
    `string` API it calls (`Trim`, `TrimEnd`, `Split`, `EndsWith`,
    `IsNullOrWhiteSpace`, case-insensitive `Equals`), stated over `seq<char>`
    with ASCII whitespace and ASCII case folding. */
module Text {

  datatype Option<T> = None | Some(value: T)

  /** ASCII whitespace: space, tab, line feed, vertical tab, form feed, carriage return. */
  const WhiteSpace: set<char> := {' ', '\t', '\n', '\U{0B}', '\U{0C}', '\r'}

  /** `string.IsNullOrWhiteSpace` on a non-null string: every character is
      whitespace. The empty string is blank, and a blank non-empty string
      starts and ends with whitespace (`Trim` relates blankness to trimming). */
  predicate IsBlank(s: string): (b: bool)
    ensures s == [] ==> b
    ensures b && s != [] ==> s[0] in WhiteSpace && s[|s| - 1] in WhiteSpace
  {
    forall i :: 0 <= i < |s| ==> s[i] in WhiteSpace
  }

  /** `s.TrimStart(chars)`: drops the longest prefix made of characters in `chars`. */
  function TrimStart(s: string, chars: set<char>): (r: string)
    ensures |r| <= |s| && r == s[|s| - |r|..]
    ensures r == [] || r[0] !in chars
    ensures forall i :: 0 <= i < |s| - |r| ==> s[i] in chars
  {
    if s == [] || s[0] !in chars then s else TrimStart(s[1..], chars)
  }

  /** `s.TrimEnd(chars)`: drops the longest suffix made of characters in `chars`. */
  function TrimEnd(s: string, chars: set<char>): (r: string)
    ensures |r| <= |s| && r == s[..|r|]
    ensures r == [] || r[|r| - 1] !in chars
    ensures forall i :: |r| <= i < |s| ==> s[i] in chars
  {
    if s == [] || s[|s| - 1] !in chars then s else TrimEnd(s[..|s| - 1], chars)
  }

  /** `s.Trim()`: drops leading and trailing whitespace, so the result
      neither starts nor ends with whitespace. */
  function Trim(s: string): (r: string)
    ensures |r| <= |s|
    ensures r == [] || (r[0] !in WhiteSpace && r[|r| - 1] !in WhiteSpace)
  {
    var t := TrimStart(s, WhiteSpace);
    var r := TrimEnd(t, WhiteSpace);
    assert r != [] ==> r[0] == t[0];
    r
  }

  /** The trimmed string is empty exactly when the input is blank. */
  lemma TrimEmptyIffBlank(s: string)
    ensures Trim(s) == [] <==> IsBlank(s)
  {
    var t := TrimStart(s, WhiteSpace);
    assert t != [] ==> t[0] == s[|s| - |t|];
  }

  /** Trimming leaves alone a string that neither starts nor ends with whitespace. */
  lemma TrimUnpadded(s: string)
    requires s == [] || (s[0] !in WhiteSpace && s[|s| - 1] !in WhiteSpace)
    ensures Trim(s) == s
  {
    var t := TrimStart(s, WhiteSpace);
    assert t == s;
  }

  /** `TrimEnd` is determined by its contract: a prefix `u` of `s` that does not
      end in `chars`, followed only by characters of `chars`, is the result. */
  lemma TrimEndUnique(s: string, chars: set<char>, u: string)
    requires |u| <= |s| && u == s[..|u|]
    requires u == [] || u[|u| - 1] !in chars
    requires forall i :: |u| <= i < |s| ==> s[i] in chars
    ensures TrimEnd(s, chars) == u
  {
    var r := TrimEnd(s, chars);
    assert r != [] ==> r[|r| - 1] == s[|r| - 1];
    assert u != [] ==> u[|u| - 1] == s[|u| - 1];
  }

  /** `s.EndsWith(suffix)`. The .NET overload taking one string compares with
      the current culture. This model approximates it by the ordinal
      comparison; the two can differ, for example on characters the culture
      ignores. A string that ends with a non-empty suffix ends with the
      suffix's last character and contains its first. */
  predicate EndsWith(s: string, suffix: string): (b: bool)
    ensures b ==> |suffix| <= |s|
    ensures b && |suffix| > 0 ==> s[|s| - 1] == suffix[|suffix| - 1] && suffix[0] in s
  {
    if |suffix| <= |s| && s[|s| - |suffix|..] == suffix then
      assert |suffix| > 0 ==> s[|s| - |suffix|..][0] == s[|s| - |suffix|];
      assert |suffix| > 0 ==> s[|s| - |suffix|..][|suffix| - 1] == s[|s| - 1];
      true
    else false
  }

  /** Position of the first occurrence of `c` in `s`. */
  function IndexOf(s: string, c: char): (k: nat)
    requires c in s
    ensures k < |s| && s[k] == c && c !in s[..k]
  {
    if s[0] == c then 0 else 1 + IndexOf(s[1..], c)
  }

  /** The first `c` in `a + [c] + b` is the one after `a` when `a` holds no `c`. */
  lemma {:induction false} IndexOfAfter(a: string, c: char, b: string)
    requires c !in a
    ensures IndexOf(a + [c] + b, c) == |a|
  {
    if a != [] {
      IndexOfAfter(a[1..], c, b);
      assert (a + [c] + b)[1..] == a[1..] + [c] + b;
    }
  }

  /** `s.Split(sep)` with no options: every piece, empty ones included. */
  function Split(s: string, sep: char): (parts: seq<string>)
    ensures |parts| >= 1
    ensures forall i :: 0 <= i < |parts| ==> sep !in parts[i]
    decreases |s|
  {
    if sep !in s then [s]
    else
      var k := IndexOf(s, sep);
      [s[..k]] + Split(s[k + 1..], sep)
  }

  /** `string.Join(sep, parts)`. */
  function Join(parts: seq<string>, sep: string): string {
    if |parts| == 0 then []
    else if |parts| == 1 then parts[0]
    else parts[0] + sep + Join(parts[1..], sep)
  }

  /** Prepending to the first piece prepends to the join. */
  lemma JoinPrependFirst(p: string, parts: seq<string>, sep: string)
    requires |parts| >= 1
    ensures p + Join(parts, sep) == Join([p + parts[0]] + parts[1..], sep)
  {
    var parts' := [p + parts[0]] + parts[1..];
    assert parts'[0] == p + parts[0];
    if |parts| > 1 {
      var tail := Join(parts[1..], sep);
      assert parts'[1..] == parts[1..];
      assert p + (parts[0] + sep + tail) == (p + parts[0]) + sep + tail;
    }
  }

  /** Joining the pieces of a split with the separator gives back the input. */
  lemma {:induction false} JoinSplit(s: string, sep: char)
    ensures Join(Split(s, sep), [sep]) == s
    decreases |s|
  {
    if sep in s {
      var k := IndexOf(s, sep);
      var rest := Split(s[k + 1..], sep);
      var parts := [s[..k]] + rest;
      JoinSplit(s[k + 1..], sep);
      assert Split(s, sep) == parts;
      assert parts[0] == s[..k] && parts[1..] == rest && |parts| > 1;
      assert Join(parts, [sep]) == s[..k] + [sep] + Join(rest, [sep]);
      assert s == s[..k] + [sep] + s[k + 1..];
    }
  }

  /** Splitting a join of separator-free pieces gives back the pieces. */
  lemma {:induction false} SplitJoin(parts: seq<string>, sep: char)
    requires |parts| >= 1
    requires forall i :: 0 <= i < |parts| ==> sep !in parts[i]
    ensures Split(Join(parts, [sep]), sep) == parts
  {
    if |parts| > 1 {
      var tail := Join(parts[1..], [sep]);
      var s := parts[0] + [sep] + tail;
      var k := |parts[0]|;
      assert Join(parts, [sep]) == s;
      assert s[k] == sep;
      IndexOfAfter(parts[0], sep, tail);
      assert s[..k] == parts[0];
      assert s[k + 1..] == tail;
      assert Split(s, sep) == [parts[0]] + Split(tail, sep);
      SplitJoin(parts[1..], sep);
      assert [parts[0]] + parts[1..] == parts;
    } else {
      assert Join(parts, [sep]) == parts[0];
    }
  }

  /** `s.Split(" ")[0]`: everything before the first space. */
  function FirstWord(s: string): (w: string)
    ensures ' ' !in w
    ensures |w| <= |s| && w == s[..|w|]
    ensures |w| < |s| ==> s[|w|] == ' '
  {
    Split(s, ' ')[0]
  }

  /** The first word of `w + " " + rest` is `w` when `w` holds no space. */
  lemma FirstWordOfPair(w: string, rest: string)
    requires ' ' !in w
    ensures FirstWord(w + " " + rest) == w
  {
    var s := w + " " + rest;
    IndexOfAfter(w, ' ', rest);
    assert s[..|w|] == w;
  }

  /** A string that starts with a space has an empty first word. */
  lemma FirstWordOfLeadingSpace(s: string)
    requires |s| > 0 && s[0] == ' '
    ensures FirstWord(s) == []
  {
    assert IndexOf(s, ' ') == 0;
  }

  /** ASCII lower-casing of one character. */
  function Lower(c: char): char {
    if 'A' <= c <= 'Z' then (c as int + 32) as char else c
  }

  /** ASCII case folding of a string. */
  function Fold(s: string): (f: string)
    ensures |f| == |s|
  {
    seq(|s|, i requires 0 <= i < |s| => Lower(s[i]))
  }

  /** Case-insensitive equality, approximating `InvariantCultureIgnoreCase`:
      the strings have the same length and agree character by character once
      lower-cased. */
  predicate EqualsIgnoreCase(a: string, b: string): (r: bool)
    ensures r <==> |a| == |b| && forall i :: 0 <= i < |a| ==> Lower(a[i]) == Lower(b[i])
  {
    assert |a| == |b| ==> forall i :: 0 <= i < |a| ==> Fold(a)[i] == Lower(a[i]) && Fold(b)[i] == Lower(b[i]);
    Fold(a) == Fold(b)
  }
}
