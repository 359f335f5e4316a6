/**
 * The business-card text heuristic of the scanner page: the recognised text
 * is split into lines, the first two non-blank lines are guessed to be the
 * name and the company, and the first email-shaped and the first
 * phone-shaped substrings are picked out by two regular expressions.
 *
 * Both patterns are modelled as matchers that mirror the backtracking
 * engine at one start position, and each matcher is proved sound and
 * complete against a declarative shape of the pattern's language.
 */
module CardScanner {
  import opened Wrappers
  import opened Strings

  /** The record the page stores after a scan */
  datatype ScannedCard = ScannedCard(name: string, company: string, email: string, phone: string, notes: string)

  // ---------------------------------------------------------------- lines

  /** `line => line.trim().length > 0` */
  predicate NonBlank(line: string) {
    |Trim(line)| > 0
  }

  /** `ls.filter(keep)` */
  function Filter(ls: seq<string>, keep: string -> bool): (r: seq<string>)
    ensures |r| <= |ls|
    ensures forall i :: 0 <= i < |r| ==> keep(r[i])
  {
    if |ls| == 0 then []
    else (if keep(ls[0]) then [ls[0]] else []) + Filter(ls[1..], keep)
  }

  /** `text.split('\n')` */
  function Lines(text: string): (r: seq<string>)
    ensures |r| >= 1
    ensures Join(r, "\n") == text
  {
    JoinSplit(text, "\n");
    Split(text, "\n")
  }

  /** `text.split('\n').filter(line => line.trim().length > 0)` */
  function NonBlankLines(text: string): (r: seq<string>)
    ensures |r| <= |Lines(text)|
    ensures forall i :: 0 <= i < |r| ==> NonBlank(r[i])
  {
    Filter(Lines(text), NonBlank)
  }

  /** The filter keeps exactly the entries it accepts. */
  lemma {:induction false} FilterMembers(ls: seq<string>, keep: string -> bool, x: string)
    ensures x in Filter(ls, keep) <==> x in ls && keep(x)
  {
    if |ls| > 0 {
      FilterMembers(ls[1..], keep, x);
      assert ls == [ls[0]] + ls[1..];
    }
  }

  /** The filter keeps the original order: filtering a concatenation filters each part. */
  lemma {:induction false} FilterAppend(a: seq<string>, b: seq<string>, keep: string -> bool)
    ensures Filter(a + b, keep) == Filter(a, keep) + Filter(b, keep)
  {
    if |a| == 0 {
      assert a + b == b;
    } else {
      var h := if keep(a[0]) then [a[0]] else [];
      assert (a + b)[0] == a[0];
      assert (a + b)[1..] == a[1..] + b;
      assert Filter(a + b, keep) == h + Filter(a[1..] + b, keep);
      FilterAppend(a[1..], b, keep);
      assert h + (Filter(a[1..], keep) + Filter(b, keep)) == (h + Filter(a[1..], keep)) + Filter(b, keep);
    }
  }

  /**
   * The first kept entry is the first accepted one: every entry before it is
   * refused, and what follows it in the result is the filter of the rest.
   * Nothing is kept exactly when every entry is refused.
   */
  lemma {:induction false} FilterHead(ls: seq<string>, keep: string -> bool)
    ensures |Filter(ls, keep)| == 0 <==> forall i :: 0 <= i < |ls| ==> !keep(ls[i])
    ensures |Filter(ls, keep)| > 0 ==>
      exists i :: 0 <= i < |ls| && keep(ls[i]) && (forall j :: 0 <= j < i ==> !keep(ls[j]))
        && Filter(ls, keep) == [ls[i]] + Filter(ls[i + 1..], keep)
  {
    if |ls| > 0 {
      FilterHead(ls[1..], keep);
      if !keep(ls[0]) {
        assert Filter(ls, keep) == Filter(ls[1..], keep);
        if |Filter(ls[1..], keep)| > 0 {
          var i :| 0 <= i < |ls[1..]| && keep(ls[1..][i]) && (forall j :: 0 <= j < i ==> !keep(ls[1..][j]))
            && Filter(ls[1..], keep) == [ls[1..][i]] + Filter(ls[1..][i + 1..], keep);
          assert ls[1..][i + 1..] == ls[i + 2..];
          assert forall j :: 0 <= j < i + 1 ==> !keep(ls[j]) by {
            forall j | 0 <= j < i + 1 ensures !keep(ls[j]) {
              if j > 0 {
                assert ls[j] == ls[1..][j - 1];
              }
            }
          }
        } else {
          assert forall i :: 0 <= i < |ls| ==> !keep(ls[i]) by {
            forall i | 0 <= i < |ls| ensures !keep(ls[i]) {
              if i > 0 {
                assert ls[i] == ls[1..][i - 1];
              }
            }
          }
        }
      } else {
        assert Filter(ls, keep) == [ls[0]] + Filter(ls[1..], keep);
      }
    }
  }

  /** Every piece of `split(c)` is free of `c`. */
  lemma {:induction false} SplitPartsLackSep(s: string, c: char)
    ensures forall k :: 0 <= k < |Split(s, [c])| ==> c !in Split(s, [c])[k]
    decreases |s|
  {
    var r := IndexOf(s, [c], 0);
    if r.None? {
      forall j | 0 <= j < |s| ensures s[j] != c {
        CharOccursAt(s, c, j);
      }
    } else {
      var i := r.value;
      forall j | 0 <= j < i ensures s[..i][j] != c {
        CharOccursAt(s, c, j);
      }
      SplitPartsLackSep(s[i + 1..], c);
      var parts := Split(s, [c]);
      assert parts == [s[..i]] + Split(s[i + 1..], [c]);
      forall k | 0 <= k < |parts| ensures c !in parts[k] {
        if k > 0 {
          assert parts[k] == Split(s[i + 1..], [c])[k - 1];
        }
      }
    }
  }

  /** The kept lines are lines of `text`: none holds a newline. */
  lemma NonBlankLinesAreLines(text: string)
    ensures forall k :: 0 <= k < |NonBlankLines(text)| ==> '\n' !in NonBlankLines(text)[k]
  {
    SplitPartsLackSep(text, '\n');
    forall k | 0 <= k < |NonBlankLines(text)| ensures '\n' !in NonBlankLines(text)[k] {
      var x := NonBlankLines(text)[k];
      FilterMembers(Lines(text), NonBlank, x);
    }
  }

  // ---------------------------------------------------------------- character classes

  /** `[a-zA-Z0-9._-]`; under the `i` flag without the `u` flag the class stays ASCII */
  predicate EmailChar(c: char) {
    ('a' <= c <= 'z') || ('A' <= c <= 'Z') || ('0' <= c <= '9') || c == '.' || c == '_' || c == '-'
  }

  /** `[\d\s-]` */
  predicate PhoneChar(c: char) {
    ('0' <= c <= '9') || IsSpace(c) || c == '-'
  }

  datatype Pattern = Email | Phone

  predicate InClass(pat: Pattern, c: char) {
    match pat
    case Email => EmailChar(c)
    case Phone => PhoneChar(c)
  }

  ghost predicate AllIn(pat: Pattern, s: string, lo: nat, hi: nat) {
    forall i :: lo <= i < hi && i < |s| ==> InClass(pat, s[i])
  }

  /** Where a greedy run of the class, started at `p`, stops */
  function RunEnd(pat: Pattern, s: string, p: nat): (e: nat)
    requires p <= |s|
    decreases |s| - p
    ensures p <= e <= |s|
    ensures forall i :: p <= i < e ==> InClass(pat, s[i])
    ensures e < |s| ==> !InClass(pat, s[e])
  {
    if p < |s| && InClass(pat, s[p]) then RunEnd(pat, s, p + 1) else p
  }

  /** Any stretch of the class from `p` ends no later than the greedy run. */
  lemma RunEndMax(pat: Pattern, s: string, p: nat, e: nat)
    requires p <= e <= |s| && AllIn(pat, s, p, e)
    ensures e <= RunEnd(pat, s, p)
  {
    var r := RunEnd(pat, s, p);
    if r < e {
      assert false;
    }
  }

  /** A stretch of the class followed by a character outside it is the greedy run. */
  lemma RunEndAt(pat: Pattern, s: string, p: nat, e: nat)
    requires p <= e < |s| && AllIn(pat, s, p, e) && !InClass(pat, s[e])
    ensures RunEnd(pat, s, p) == e
  {
    RunEndMax(pat, s, p, e);
  }

  // ---------------------------------------------------------------- the two patterns

  /**
   * `[a-zA-Z0-9._-]+@[a-zA-Z0-9._-]+\.[a-zA-Z0-9._-]+` tried at `p`: the end of
   * the match, if any. The first run must stop at the `@`; whichever `.` the
   * engine settles on, the last run always reaches the end of the domain run.
   */
  function EmailAt(s: string, p: nat): (r: Option<nat>)
    ensures r.Some? ==> p < r.value <= |s|
  {
    if p >= |s| then None
    else
      var at := RunEnd(Email, s, p);
      if at == p || at == |s| || s[at] != '@' then None
      else
        var e := RunEnd(Email, s, at + 1);
        if at + 2 <= e - 1 && '.' in s[at + 2..e - 1] then Some(e) else None
  }

  /** `\+?[\d\s-]{10,}` tried at `p`: the end of the match, if any */
  function PhoneAt(s: string, p: nat): (r: Option<nat>)
    ensures r.Some? ==> p < r.value <= |s|
  {
    if p >= |s| then None
    else
      var q := if s[p] == '+' then p + 1 else p;
      var e := RunEnd(Phone, s, q);
      if e - q >= 10 then Some(e) else None
  }

  function MatchAt(pat: Pattern, s: string, p: nat): (r: Option<nat>)
    ensures r.Some? ==> p < r.value <= |s|
  {
    match pat
    case Email => EmailAt(s, p)
    case Phone => PhoneAt(s, p)
  }

  /** Neither pattern matches at or past the end of the text. */
  lemma NoMatchPastEnd(pat: Pattern, s: string)
    ensures forall q: nat :: q >= |s| ==> MatchAt(pat, s, q).None?
  {
  }

  /** The leftmost start position, from `p` on, at which the pattern matches */
  function Search(pat: Pattern, s: string, p: nat): (r: Option<nat>)
    decreases |s| - p
    ensures r.Some? ==> p <= r.value < |s| && MatchAt(pat, s, r.value).Some?
    ensures r.Some? ==> forall q :: p <= q < r.value ==> MatchAt(pat, s, q).None?
    ensures r.None? ==> forall q :: p <= q ==> MatchAt(pat, s, q).None?
  {
    if p >= |s| then NoMatchPastEnd(pat, s); None
    else if MatchAt(pat, s, p).Some? then Some(p)
    else Search(pat, s, p + 1)
  }

  /** `text.match(re)`, then `m ? m[0] : ''`: the first match of a global regex */
  function FirstMatch(pat: Pattern, s: string): (r: string)
    ensures |r| <= |s|
    ensures r == "" <==> Search(pat, s, 0).None?
  {
    match Search(pat, s, 0)
    case None => ""
    case Some(q) => s[q..MatchAt(pat, s, q).value]
  }

  // ---------------------------------------------------------------- declarative shapes

  /** `s[p..e]` is in the email pattern's language: local part, `@`, domain with an inner `.` */
  ghost predicate EmailShape(s: string, p: nat, e: nat) {
    p < e <= |s| &&
    exists j :: p < j < e && s[j] == '@' && AllIn(Email, s, p, j) && AllIn(Email, s, j + 1, e) &&
      exists k :: j + 2 <= k <= e - 2 && s[k] == '.'
  }

  /** `s[p..e]` is in the phone pattern's language: an optional `+`, then ten or more of the class */
  ghost predicate PhoneShape(s: string, p: nat, e: nat) {
    p < e <= |s| &&
    ((s[p] == '+' && e - (p + 1) >= 10 && AllIn(Phone, s, p + 1, e)) ||
     (e - p >= 10 && AllIn(Phone, s, p, e)))
  }

  ghost predicate Shape(pat: Pattern, s: string, p: nat, e: nat) {
    match pat
    case Email => EmailShape(s, p, e)
    case Phone => PhoneShape(s, p, e)
  }

  lemma EmailAtSound(s: string, p: nat)
    requires EmailAt(s, p).Some?
    ensures EmailShape(s, p, EmailAt(s, p).value)
  {
    var at := RunEnd(Email, s, p);
    var e := RunEnd(Email, s, at + 1);
    var t := s[at + 2..e - 1];
    var i :| 0 <= i < |t| && t[i] == '.';
    assert s[at + 2 + i] == '.';
  }

  lemma EmailAtComplete(s: string, p: nat, e: nat)
    requires EmailShape(s, p, e)
    ensures EmailAt(s, p).Some? && e <= EmailAt(s, p).value
  {
    var j :| p < j < e && s[j] == '@' && AllIn(Email, s, p, j) && AllIn(Email, s, j + 1, e) &&
      exists k :: j + 2 <= k <= e - 2 && s[k] == '.';
    var k :| j + 2 <= k <= e - 2 && s[k] == '.';
    assert !InClass(Email, s[j]);
    RunEndAt(Email, s, p, j);
    RunEndMax(Email, s, j + 1, e);
    var d := RunEnd(Email, s, j + 1);
    CharInSlice(s, j + 2, d - 1, k, '.');
    EmailAtSplit(s, p, j, d);
  }

  /** The matcher's own steps: a local run stopped by `@`, then a domain run with an inner `.` */
  lemma EmailAtSplit(s: string, p: nat, j: nat, d: nat)
    requires p < j < |s| && s[j] == '@' && RunEnd(Email, s, p) == j
    requires j + 1 <= |s| && d == RunEnd(Email, s, j + 1) && j + 2 <= d - 1 && '.' in s[j + 2..d - 1]
    ensures EmailAt(s, p) == Some(d)
  {
  }

  lemma CharInSlice(s: string, lo: nat, hi: nat, k: nat, c: char)
    requires lo <= k < hi <= |s| && s[k] == c
    ensures c in s[lo..hi]
  {
    assert s[lo..hi][k - lo] == c;
  }

  lemma PhoneAtSound(s: string, p: nat)
    requires PhoneAt(s, p).Some?
    ensures PhoneShape(s, p, PhoneAt(s, p).value)
  {
  }

  lemma PhoneAtComplete(s: string, p: nat, e: nat)
    requires PhoneShape(s, p, e)
    ensures PhoneAt(s, p).Some? && e <= PhoneAt(s, p).value
  {
    if s[p] == '+' {
      assert !InClass(Phone, s[p]);
      RunEndMax(Phone, s, p + 1, e);
    } else {
      RunEndMax(Phone, s, p, e);
    }
  }

  /** At one start the matcher succeeds exactly when the language has a word there, and takes the longest. */
  lemma MatchAtIsLongest(pat: Pattern, s: string, p: nat)
    ensures MatchAt(pat, s, p).Some? ==> Shape(pat, s, p, MatchAt(pat, s, p).value)
    ensures forall e: nat :: Shape(pat, s, p, e) ==> MatchAt(pat, s, p).Some? && e <= MatchAt(pat, s, p).value
  {
    match pat
    case Email =>
      if EmailAt(s, p).Some? {
        EmailAtSound(s, p);
      }
      forall e: nat | EmailShape(s, p, e) ensures EmailAt(s, p).Some? && e <= EmailAt(s, p).value {
        EmailAtComplete(s, p, e);
      }
    case Phone =>
      if PhoneAt(s, p).Some? {
        PhoneAtSound(s, p);
      }
      forall e: nat | PhoneShape(s, p, e) ensures PhoneAt(s, p).Some? && e <= PhoneAt(s, p).value {
        PhoneAtComplete(s, p, e);
      }
  }

  /**
   * The picked substring is the leftmost-longest word of the pattern's
   * language in `s`, and it is empty exactly when `s` has none.
   */
  lemma FirstMatchIsLeftmostLongest(pat: Pattern, s: string)
    ensures FirstMatch(pat, s) == "" <==> forall p: nat, e: nat :: !Shape(pat, s, p, e)
    ensures FirstMatch(pat, s) != "" ==>
      exists p: nat, e: nat :: p < e <= |s| && Shape(pat, s, p, e) && FirstMatch(pat, s) == s[p..e]
        && (forall q: nat, f: nat :: q < p ==> !Shape(pat, s, q, f))
        && (forall f: nat :: Shape(pat, s, p, f) ==> f <= e)
  {
    var r := Search(pat, s, 0);
    if r.None? {
      forall p: nat, e: nat ensures !Shape(pat, s, p, e) {
        MatchAtIsLongest(pat, s, p);
      }
    } else {
      var p := r.value;
      var e := MatchAt(pat, s, p).value;
      MatchAtIsLongest(pat, s, p);
      forall q: nat, f: nat | q < p ensures !Shape(pat, s, q, f) {
        MatchAtIsLongest(pat, s, q);
      }
      assert FirstMatch(pat, s) == s[p..e];
      assert |s[p..e]| > 0;
    }
  }

  /** The email match at `p`, as a string: class characters and one `@`, with a `.` after it */
  lemma EmailRunShape(s: string, p: nat)
    requires EmailAt(s, p).Some?
    ensures var m := s[p..EmailAt(s, p).value];
      (forall i :: 0 <= i < |m| ==> EmailChar(m[i]) || m[i] == '@') &&
      (forall i, k :: 0 <= i < k < |m| && m[i] == '@' ==> m[k] != '@') &&
      exists j :: 0 < j < |m| && m[j] == '@' && '.' in m[j + 2..|m| - 1]
  {
    var e := EmailAt(s, p).value;
    EmailAtSound(s, p);
    var m := s[p..e];
    var j :| p < j < e && s[j] == '@' && AllIn(Email, s, p, j) && AllIn(Email, s, j + 1, e) &&
      exists k :: j + 2 <= k <= e - 2 && s[k] == '.';
    var k :| j + 2 <= k <= e - 2 && s[k] == '.';
    assert m[j - p] == '@';
    assert m[j - p + 2..|m| - 1][k - j - 2] == '.';
    forall i | 0 <= i < |m| ensures EmailChar(m[i]) || m[i] == '@' {
      assert m[i] == s[p + i];
      if p + i != j {
        assert InClass(Email, s[p + i]);
      }
    }
    assert !EmailChar('@');
    forall i, k | 0 <= i < k < |m| && m[i] == '@' ensures m[k] != '@' {
      assert m[i] == s[p + i] && m[k] == s[p + k];
      assert !InClass(Email, s[p + i]);
      assert p + i == j;
      assert InClass(Email, s[p + k]);
    }
  }

  /** Every character of an email match is of the class or the `@`, and a `.` follows the `@`. */
  lemma EmailMatchShape(s: string)
    requires FirstMatch(Email, s) != ""
    ensures var m := FirstMatch(Email, s);
      (forall i :: 0 <= i < |m| ==> EmailChar(m[i]) || m[i] == '@') &&
      (forall i, k :: 0 <= i < k < |m| && m[i] == '@' ==> m[k] != '@') &&
      exists j :: 0 < j < |m| && m[j] == '@' && '.' in m[j + 2..|m| - 1]
  {
    var p := Search(Email, s, 0).value;
    assert FirstMatch(Email, s) == s[p..EmailAt(s, p).value];
    EmailRunShape(s, p);
  }

  /** The phone match at `p`, as a string: an optional `+`, then ten or more of the class */
  lemma PhoneRunShape(s: string, p: nat)
    requires PhoneAt(s, p).Some?
    ensures var m := s[p..PhoneAt(s, p).value];
      var body := if m[0] == '+' then m[1..] else m;
      |body| >= 10 && forall i :: 0 <= i < |body| ==> PhoneChar(body[i])
  {
    var e := PhoneAt(s, p).value;
    var q := if s[p] == '+' then p + 1 else p;
    assert e == RunEnd(Phone, s, q);
    var m := s[p..e];
    var body := if m[0] == '+' then m[1..] else m;
    assert m[0] == s[p];
    assert body == s[q..e];
    forall i | 0 <= i < |body| ensures PhoneChar(body[i]) {
      assert body[i] == s[q + i];
      assert InClass(Phone, s[q + i]);
    }
  }

  /** A phone match is an optional `+` followed by ten or more digits, spaces or dashes. */
  lemma PhoneMatchShape(s: string)
    requires FirstMatch(Phone, s) != ""
    ensures var m := FirstMatch(Phone, s);
      var body := if m[0] == '+' then m[1..] else m;
      |body| >= 10 && forall i :: 0 <= i < |body| ==> PhoneChar(body[i])
  {
    var p := Search(Phone, s, 0).value;
    assert FirstMatch(Phone, s) == s[p..PhoneAt(s, p).value];
    PhoneRunShape(s, p);
  }

  // ---------------------------------------------------------------- parseText

  /** `lines[0] || ''` */
  function FirstKept(ls: seq<string>, keep: string -> bool): (r: string)
    ensures r == "" || (r in ls && keep(r))
  {
    var k := Filter(ls, keep);
    if |k| > 0 then FilterMembers(ls, keep, k[0]); k[0] else ""
  }

  /** `lines[1] || ''` */
  function SecondKept(ls: seq<string>, keep: string -> bool): (r: string)
    ensures r == "" || (r in ls && keep(r))
  {
    var k := Filter(ls, keep);
    if |k| > 1 then FilterMembers(ls, keep, k[1]); k[1] else ""
  }

  /** Nothing is picked exactly when every entry is refused. */
  lemma FirstKeptEmpty(ls: seq<string>, keep: string -> bool)
    requires !keep("")
    ensures FirstKept(ls, keep) == "" <==> forall i :: 0 <= i < |ls| ==> !keep(ls[i])
  {
    FilterHead(ls, keep);
    var k := Filter(ls, keep);
    if |k| > 0 {
      assert keep(k[0]);
    }
  }

  /** The first kept entry is the first accepted one, the second the next accepted one after it. */
  lemma FirstTwoKept(ls: seq<string>, keep: string -> bool)
    requires |Filter(ls, keep)| > 0
    ensures exists i :: 0 <= i < |ls| && ls[i] == FirstKept(ls, keep) && keep(ls[i])
              && (forall j :: 0 <= j < i ==> !keep(ls[j]))
              && SecondKept(ls, keep) == FirstKept(ls[i + 1..], keep)
  {
    FilterHead(ls, keep);
    var k := Filter(ls, keep);
    var i :| 0 <= i < |ls| && keep(ls[i]) && (forall j :: 0 <= j < i ==> !keep(ls[j]))
      && k == [ls[i]] + Filter(ls[i + 1..], keep);
    var rest := Filter(ls[i + 1..], keep);
    assert k[1..] == rest;
    assert ls[i] == FirstKept(ls, keep);
    assert SecondKept(ls, keep) == (if |rest| > 0 then rest[0] else "");
  }

  /** `parseText(text)`: the card fields guessed from the recognised text */
  function ParseText(text: string): (c: ScannedCard)
    ensures c.notes == text
    ensures c.name == "" || NonBlank(c.name)
    ensures c.company == "" || NonBlank(c.company)
    ensures c.name == "" ==> c.company == ""
    ensures |c.email| <= |text| && |c.phone| <= |text|
    ensures c.email == FirstMatch(Email, text) && c.phone == FirstMatch(Phone, text)
  {
    var lines := NonBlankLines(text);
    ScannedCard(
      if |lines| > 0 then lines[0] else "",
      if |lines| > 1 then lines[1] else "",
      FirstMatch(Email, text),
      FirstMatch(Phone, text),
      text)
  }

  /** The name is `''` exactly when every line is blank; the notes are the recognised text, unchanged. */
  lemma ParseTextNoName(text: string)
    ensures ParseText(text).notes == text
    ensures ParseText(text).name == "" <==> forall i :: 0 <= i < |Lines(text)| ==> !NonBlank(Lines(text)[i])
  {
    assert !NonBlank("");
    FirstKeptEmpty(Lines(text), NonBlank);
  }

  /** A non-empty name is the first non-blank line, and the company the first non-blank line after it. */
  lemma ParseTextNameAndCompany(text: string)
    requires ParseText(text).name != ""
    ensures exists i :: 0 <= i < |Lines(text)| && Lines(text)[i] == ParseText(text).name && NonBlank(Lines(text)[i])
              && (forall j :: 0 <= j < i ==> !NonBlank(Lines(text)[j]))
              && ParseText(text).company == FirstKept(Lines(text)[i + 1..], NonBlank)
  {
    FirstTwoKept(Lines(text), NonBlank);
  }
}
