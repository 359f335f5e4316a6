/**
 * The JavaScript string operations the profile code relies on:
 * `indexOf`/`includes`, `split` and `join` with a string separator,
 * `endsWith`, `trim`, and the decimal rendering of a number in a template
 * literal. Strings are sequences of Unicode scalar values.
 */
module Strings {
  import opened Wrappers

  /** `t` occurs in `s` starting at index `i` */
  ghost predicate OccursAt(s: string, t: string, i: nat) {
    i + |t| <= |s| && s[i..i + |t|] == t
  }

  /** `s.indexOf(t, from)`, with `None` for JavaScript's -1 */
  function IndexOf(s: string, t: string, from: nat): (r: Option<nat>)
    decreases |s| - from
    ensures r.Some? ==> from <= r.value && OccursAt(s, t, r.value)
    ensures r.Some? ==> forall j: nat :: from <= j < r.value ==> !OccursAt(s, t, j)
    ensures r.None? ==> forall j: nat :: from <= j ==> !OccursAt(s, t, j)
  {
    if |s| < from + |t| then None
    else if s[from..from + |t|] == t then Some(from)
    else IndexOf(s, t, from + 1)
  }

  /** `s.includes(t)` */
  predicate Contains(s: string, t: string)
    ensures Contains(s, t) ==> |t| <= |s|
  {
    IndexOf(s, t, 0).Some?
  }

  lemma ContainsIff(s: string, t: string)
    ensures Contains(s, t) <==> exists i: nat :: OccursAt(s, t, i)
  {
    if !Contains(s, t) {
      assert forall j: nat :: !OccursAt(s, t, j);
    }
  }

  /** `s.endsWith(t)` */
  predicate EndsWith(s: string, t: string)
    ensures EndsWith(s, t) ==> |t| <= |s| && s == s[..|s| - |t|] + t
  {
    |t| <= |s| && s[|s| - |t|..] == t
  }

  /** `s.split(sep)` for a non-empty separator: the pieces between non-overlapping occurrences, left to right */
  function Split(s: string, sep: string): (parts: seq<string>)
    requires |sep| > 0
    decreases |s|
    ensures |parts| >= 1
  {
    match IndexOf(s, sep, 0)
    case None => [s]
    case Some(i) => [s[..i]] + Split(s[i + |sep|..], sep)
  }

  /** `parts.join(sep)` */
  function Join(parts: seq<string>, sep: string): (r: string)
    ensures |parts| == 0 ==> r == ""
    ensures |parts| > 0 ==> |r| >= |parts[0]| && r[..|parts[0]|] == parts[0]
  {
    if |parts| == 0 then ""
    else if |parts| == 1 then parts[0]
    else parts[0] + sep + Join(parts[1..], sep)
  }

  /** `xs[xs.length - 1]`, which is what `pop()` returns from a non-empty array */
  function Last(xs: seq<string>): (r: string)
    requires |xs| > 0
    ensures r in xs
  {
    xs[|xs| - 1]
  }

  lemma JoinCons(h: string, tail: seq<string>, sep: string)
    requires |tail| > 0
    ensures Join([h] + tail, sep) == h + sep + Join(tail, sep)
  {
    assert ([h] + tail)[1..] == tail;
  }

  /** Cutting out an occurrence of `sep` and gluing it back in gives the string. */
  lemma Reassemble(s: string, sep: string, i: nat)
    requires OccursAt(s, sep, i)
    ensures s[..i] + sep + s[i + |sep|..] == s
  {
    assert s == s[..i] + s[i..i + |sep|] + s[i + |sep|..];
  }

  /** Joining the pieces of a split with the same separator gives back the string. */
  lemma {:induction false} JoinSplit(s: string, sep: string)
    requires |sep| > 0
    ensures Join(Split(s, sep), sep) == s
    decreases |s|
  {
    match IndexOf(s, sep, 0)
    case None =>
    case Some(i) =>
      var rest := s[i + |sep|..];
      JoinSplit(rest, sep);
      JoinSplitStep(s, sep, i, Split(rest, sep));
  }

  /** One step of `JoinSplit`: the first piece, the separator, then the rejoined rest. */
  lemma JoinSplitStep(s: string, sep: string, i: nat, tail: seq<string>)
    requires OccursAt(s, sep, i) && |tail| > 0 && Join(tail, sep) == s[i + |sep|..]
    ensures Join([s[..i]] + tail, sep) == s
  {
    JoinCons(s[..i], tail, sep);
    Reassemble(s, sep, i);
  }

  /** A one-character separator occurs exactly where that character stands. */
  lemma CharOccursAt(s: string, c: char, i: nat)
    ensures OccursAt(s, [c], i) <==> i < |s| && s[i] == c
  {
    if i < |s| {
      assert s[i..i + 1] == [s[i]];
    }
  }

  /** In `x + [c] + rest` with no `c` in `x`, the first `c` is the one after `x`. */
  lemma FirstCharAfter(x: string, c: char, rest: string)
    requires c !in x
    ensures IndexOf(x + [c] + rest, [c], 0) == Some(|x|)
  {
    var s := x + [c] + rest;
    CharOccursAt(s, c, |x|);
    var r := IndexOf(s, [c], 0);
    if r.Some? {
      CharOccursAt(s, c, r.value);
    }
  }

  /** A string without `c` is not split by `c`. */
  lemma NoCharNoSplit(x: string, c: char)
    requires c !in x
    ensures Split(x, [c]) == [x]
  {
    var r := IndexOf(x, [c], 0);
    if r.Some? {
      CharOccursAt(x, c, r.value);
    }
  }

  /**
   * Splitting a join on a one-character separator gives back the list, when
   * the list is non-empty and no entry contains the separator.
   */
  lemma {:induction false} SplitJoin(parts: seq<string>, c: char)
    requires |parts| > 0
    requires forall k :: 0 <= k < |parts| ==> c !in parts[k]
    ensures Split(Join(parts, [c]), [c]) == parts
  {
    if |parts| == 1 {
      NoCharNoSplit(parts[0], c);
    } else {
      var rest := Join(parts[1..], [c]);
      var s := parts[0] + [c] + rest;
      assert Join(parts, [c]) == s;
      FirstCharAfter(parts[0], c, rest);
      assert s[|parts[0]| + 1..] == rest;
      assert s[..|parts[0]|] == parts[0];
      SplitJoin(parts[1..], c);
      assert [parts[0]] + parts[1..] == parts;
    }
  }

  /** The character of a decimal digit */
  function DigitChar(d: nat): (c: char)
    requires d < 10
    ensures '0' <= c <= '9'
  {
    ('0' as int + d) as char
  }

  /** `String(n)` for a non-negative integer: its decimal digits, no leading zeros */
  function NatToString(n: nat): (s: string)
    ensures |s| >= 1
    ensures n >= 10 ==> |s| >= 2
    ensures forall i :: 0 <= i < |s| ==> '0' <= s[i] <= '9'
  {
    if n < 10 then [DigitChar(n)] else NatToString(n / 10) + [DigitChar(n % 10)]
  }

  /** `String(n)` for any integer */
  function IntToString(n: int): (s: string)
    ensures |s| >= 1
    ensures n < 0 <==> s[0] == '-'
    ensures forall i :: 0 < i < |s| ==> '0' <= s[i] <= '9'
  {
    if n < 0 then "-" + NatToString(-n) else NatToString(n)
  }

  /** Distinct numbers are written differently. */
  lemma {:induction false} NatToStringInjective(m: nat, n: nat)
    requires NatToString(m) == NatToString(n)
    ensures m == n
  {
    if m >= 10 && n >= 10 {
      var sm, sn := NatToString(m), NatToString(n);
      assert sm[..|sm| - 1] == NatToString(m / 10);
      assert sn[..|sn| - 1] == NatToString(n / 10);
      assert DigitChar(m % 10) == sm[|sm| - 1] == sn[|sn| - 1] == DigitChar(n % 10);
      NatToStringInjective(m / 10, n / 10);
    } else if m < 10 && n < 10 {
      assert DigitChar(m) == NatToString(m)[0];
    }
  }

  /** A character that `trim` removes and `\s` matches: ECMAScript WhiteSpace and LineTerminator */
  predicate IsSpace(c: char) {
    || c == '\t' || c == '\U{0B}' || c == '\U{0C}' || c == ' ' || c == '\U{A0}' || c == '\U{FEFF}'
    || c == '\n' || c == '\r' || c == '\U{2028}' || c == '\U{2029}'
    || c == '\U{1680}' || ('\U{2000}' <= c <= '\U{200A}') || c == '\U{202F}' || c == '\U{205F}' || c == '\U{3000}'
  }

  /** `s.trimStart()`: the suffix left after the leading white space */
  function TrimStart(s: string): (r: string)
    ensures |r| <= |s| && r == s[|s| - |r|..]
    ensures forall i :: 0 <= i < |s| - |r| ==> IsSpace(s[i])
    ensures |r| > 0 ==> !IsSpace(r[0])
  {
    if |s| > 0 && IsSpace(s[0]) then TrimStart(s[1..]) else s
  }

  /** `s.trimEnd()`: the prefix left before the trailing white space */
  function TrimEnd(s: string): (r: string)
    ensures |r| <= |s| && r == s[..|r|]
    ensures forall i :: |r| <= i < |s| ==> IsSpace(s[i])
    ensures |r| > 0 ==> !IsSpace(r[|r| - 1])
  {
    if |s| > 0 && IsSpace(s[|s| - 1]) then TrimEnd(s[..|s| - 1]) else s
  }

  /** `s.trim()` */
  function Trim(s: string): (r: string)
    ensures |r| <= |s|
    ensures |r| > 0 ==> !IsSpace(r[0]) && !IsSpace(r[|r| - 1])
  {
    TrimEnd(TrimStart(s))
  }

  /** `s.trim().length > 0` exactly when `s` has a character that is not white space. */
  lemma TrimEmptyIff(s: string)
    ensures |Trim(s)| == 0 <==> forall i :: 0 <= i < |s| ==> IsSpace(s[i])
  {
    var t := TrimStart(s);
    if |Trim(s)| != 0 {
      var r := Trim(s);
      assert r[0] == t[0] == s[|s| - |t|];
    }
  }
}
