/** The noise linter: four fixed patterns are searched in a source text, each
    left to right with non-overlapping matches, and every match becomes an
    issue carrying its 1-based line number, the rule's message and the
    matched text. The linter's status is 1 when there is any issue and 0
    otherwise; the command line adds status 2 for a bad invocation. Reading
    the file and printing the report are left to the caller. */
module Linter {
  import opened Wrappers

  /** A non-empty literal; the regular expressions `TODO` and `time\.sleep\(`
      match exactly such a text. */
  type Word = w: string | |w| > 0 witness "TODO"

  /** The four noise patterns. `PrintCall` is `print\s*\(` and `ImportPdb`
      is `import\s+pdb`. */
  datatype Pattern = Literal(text: Word) | PrintCall | ImportPdb

  /** A pattern with the message reported for it. */
  datatype Rule = Rule(pattern: Pattern, message: string)

  /** The rules in the order the linter applies them. */
  const NoiseRules: seq<Rule> := [
    Rule(PrintCall, "Direct print statements produce uncontrolled output. Use logging instead."),
    Rule(Literal("TODO"), "TODO markers indicate unfinished thoughts; resolve or remove them."),
    Rule(ImportPdb, "Do not include debugger imports in committed code."),
    Rule(Literal("time.sleep("), "Sleep calls can stall automation; evaluate necessity.")
  ]

  /** One reported finding: line number, message, matched text. */
  datatype Issue = Issue(line: nat, message: string, snippet: string)

  /** Where a finding came from: the index of its rule in `NoiseRules` and the
      half-open range `[start, end)` of the match. */
  datatype Span = Span(rule: nat, start: nat, end: nat)

  // ---------------------------------------------------------------------
  // Matching one pattern at one position
  // ---------------------------------------------------------------------

  /** What `\s` matches in a `str` pattern: the characters for which
      `str.isspace()` holds. */
  predicate IsSpace(c: char) {
    var n := c as int;
    (0x09 <= n <= 0x0D) || (0x1C <= n <= 0x20) || n == 0x85 || n == 0xA0 || n == 0x1680 ||
    (0x2000 <= n <= 0x200A) || n == 0x2028 || n == 0x2029 || n == 0x202F || n == 0x205F || n == 0x3000
  }

  /** `w` occurs in `s` starting at index `i`. */
  predicate OccursAt(s: string, w: string, i: nat) {
    i + |w| <= |s| && s[i..i + |w|] == w
  }

  /** The first index at or after `i` that does not hold whitespace (`|s|` if
      there is none): where a greedy `\s*` starting at `i` stops. */
  function SkipSpace(s: string, i: nat): (j: nat)
    requires i <= |s|
    ensures i <= j <= |s|
    ensures forall k :: i <= k < j ==> IsSpace(s[k])
    ensures j < |s| ==> !IsSpace(s[j])
    decreases |s| - i
  {
    if i < |s| && IsSpace(s[i]) then SkipSpace(s, i + 1) else i
  }

  /** A whitespace run from `i` ended by a non-space at `m` is skipped up to `m`. */
  lemma {:induction false} SkipSpaceStopsAt(s: string, i: nat, m: nat)
    requires i <= m < |s| && !IsSpace(s[m])
    requires forall k :: i <= k < m ==> IsSpace(s[k])
    ensures SkipSpace(s, i) == m
    decreases m - i
  {
    if i < m {
      SkipSpaceStopsAt(s, i + 1, m);
    }
  }

  /** The end of the match of `p` that starts at index `i`, if there is one.
      The whitespace runs are taken greedily; no backtracking is needed, as
      neither `(` nor `p` is whitespace. */
  function MatchAt(p: Pattern, s: string, i: nat): (r: Option<nat>)
    requires i <= |s|
    ensures r.Some? ==> i < r.value <= |s|
  {
    match p
    case Literal(w) => if OccursAt(s, w, i) then Some(i + |w|) else None
    case PrintCall => MatchPrintCall(s, i)
    case ImportPdb => MatchImportPdb(s, i)
  }

  /** `print\s*\(` at `i`: the word, the longest whitespace run, a `(`. */
  function MatchPrintCall(s: string, i: nat): (r: Option<nat>)
    requires i <= |s|
    ensures r.Some? ==> i < r.value <= |s|
  {
    if OccursAt(s, "print", i) then
      var j := SkipSpace(s, i + 5);
      if j < |s| && s[j] == '(' then Some(j + 1) else None
    else None
  }

  /** `import\s+pdb` at `i`: the word, a non-empty whitespace run taken
      whole, then `pdb`. */
  function MatchImportPdb(s: string, i: nat): (r: Option<nat>)
    requires i <= |s|
    ensures r.Some? ==> i < r.value <= |s|
  {
    if OccursAt(s, "import", i) then
      var j := SkipSpace(s, i + 6);
      if j > i + 6 && OccursAt(s, "pdb", j) then Some(j + 3) else None
    else None
  }

  /** The language of each pattern: the texts the regular expression matches
      in full. */
  predicate FullMatch(p: Pattern, w: string) {
    match p
    case Literal(t) => w == t
    case PrintCall =>
      |w| >= 6 && w[..5] == "print" && w[|w| - 1] == '(' &&
      forall k :: 5 <= k < |w| - 1 ==> IsSpace(w[k])
    case ImportPdb =>
      |w| >= 10 && w[..6] == "import" && w[|w| - 3..] == "pdb" &&
      forall k :: 6 <= k < |w| - 3 ==> IsSpace(w[k])
  }

  lemma PrintCallIff(s: string, i: nat, e: nat)
    requires i <= e <= |s|
    ensures MatchAt(PrintCall, s, i) == Some(e) <==> FullMatch(PrintCall, s[i..e])
  {
    var w := s[i..e];
    if MatchAt(PrintCall, s, i) == Some(e) {
      var j := SkipSpace(s, i + 5);
      assert j == e - 1;
      assert w[..5] == s[i..i + 5];
      assert forall k :: 5 <= k < |w| - 1 ==> w[k] == s[i + k];
    }
    if FullMatch(PrintCall, w) {
      assert |w| >= 6 && w[..5] == "print";
      assert s[i..i + 5] == w[..5] by {
        assert forall k :: 0 <= k < 5 ==> s[i..i + 5][k] == w[..5][k];
      }
      assert forall k :: i + 5 <= k < e - 1 ==> s[k] == w[k - i];
      assert !IsSpace('(');
      SkipSpaceStopsAt(s, i + 5, e - 1);
    }
  }

  lemma ImportPdbIff(s: string, i: nat, e: nat)
    requires i <= e <= |s|
    ensures MatchAt(ImportPdb, s, i) == Some(e) <==> FullMatch(ImportPdb, s[i..e])
  {
    var w := s[i..e];
    if MatchAt(ImportPdb, s, i) == Some(e) {
      var j := SkipSpace(s, i + 6);
      assert j == e - 3;
      assert w[..6] == s[i..i + 6];
      assert w[|w| - 3..] == s[j..j + 3];
      assert forall k :: 6 <= k < |w| - 3 ==> w[k] == s[i + k];
    }
    if FullMatch(ImportPdb, w) {
      assert s[i..i + 6] == w[..6];
      assert s[e - 3..e] == w[|w| - 3..];
      assert forall k :: i + 6 <= k < e - 3 ==> s[k] == w[k - i];
      assert !IsSpace('p');
      assert s[e - 3] == 'p';
      SkipSpaceStopsAt(s, i + 6, e - 3);
    }
  }

  /** The matcher finds exactly the texts of the pattern's language: the
      match at `i` ends at `e` if and only if `s[i..e]` is in the language. */
  lemma MatchAtIff(p: Pattern, s: string, i: nat, e: nat)
    requires i <= e <= |s|
    ensures MatchAt(p, s, i) == Some(e) <==> FullMatch(p, s[i..e])
  {
    match p
    case Literal(t) =>
    case PrintCall => PrintCallIff(s, i, e);
    case ImportPdb => ImportPdbIff(s, i, e);
  }

  // ---------------------------------------------------------------------
  // All matches of one pattern, as `finditer` yields them
  // ---------------------------------------------------------------------

  /** The matches of `p` from index `i` on, left to right: try each position
      in turn, and after a match go on from its end. */
  function FindAll(p: Pattern, k: nat, s: string, i: nat): (r: seq<Span>)
    requires i <= |s|
    ensures forall j :: 0 <= j < |r| ==> r[j].rule == k && i <= r[j].start < r[j].end <= |s|
    ensures forall j, l :: 0 <= j < l < |r| ==> r[j].end <= r[l].start
    decreases |s| - i
  {
    if i == |s| then []
    else
      match MatchAt(p, s, i)
      case Some(e) => [Span(k, i, e)] + FindAll(p, k, s, e)
      case None => FindAll(p, k, s, i + 1)
  }

  /** Every reported span is a match of the pattern at its start. */
  lemma {:induction false} FindAllSound(p: Pattern, k: nat, s: string, i: nat)
    requires i <= |s|
    ensures forall j :: 0 <= j < |FindAll(p, k, s, i)| ==>
              MatchAt(p, s, FindAll(p, k, s, i)[j].start) == Some(FindAll(p, k, s, i)[j].end)
    decreases |s| - i
  {
    if i < |s| {
      var r := FindAll(p, k, s, i);
      match MatchAt(p, s, i)
      case Some(e) =>
        FindAllSound(p, k, s, e);
        assert r == [Span(k, i, e)] + FindAll(p, k, s, e);
      case None =>
        FindAllSound(p, k, s, i + 1);
    }
  }

  /** `finditer` finds something exactly when some position holds a match. */
  lemma {:induction false} FindAllEmptyIff(p: Pattern, k: nat, s: string, i: nat)
    requires i <= |s|
    ensures FindAll(p, k, s, i) == [] <==> forall x :: i <= x < |s| ==> MatchAt(p, s, x) == None
    decreases |s| - i
  {
    if i < |s| && MatchAt(p, s, i) == None {
      FindAllEmptyIff(p, k, s, i + 1);
    }
  }

  /** No match is skipped: every position where the pattern matches lies
      inside one of the reported matches, either as its start or overlapped
      by an earlier match. */
  lemma {:induction false} FindAllCovers(p: Pattern, k: nat, s: string, i: nat, x: nat)
    requires i <= x < |s| && MatchAt(p, s, x).Some?
    ensures exists j :: 0 <= j < |FindAll(p, k, s, i)| &&
                        FindAll(p, k, s, i)[j].start <= x < FindAll(p, k, s, i)[j].end
    decreases |s| - i
  {
    var r := FindAll(p, k, s, i);
    match MatchAt(p, s, i)
    case Some(e) =>
      var rest := FindAll(p, k, s, e);
      assert r == [Span(k, i, e)] + rest;
      if x >= e {
        FindAllCovers(p, k, s, e, x);
        var j :| 0 <= j < |rest| && rest[j].start <= x < rest[j].end;
        assert r[j + 1] == rest[j];
      } else {
        assert r[0] == Span(k, i, e);
      }
    case None =>
      FindAllCovers(p, k, s, i + 1, x);
  }

  // ---------------------------------------------------------------------
  // Counting the matches of a literal
  // ---------------------------------------------------------------------

  /** The number of positions from `i` on where `w` occurs, overlaps included. */
  function CountOccurrences(s: string, w: string, i: nat): nat
    requires i <= |s|
    decreases |s| - i
  {
    if i == |s| then 0
    else (if OccursAt(s, w, i) then 1 else 0) + CountOccurrences(s, w, i + 1)
  }

  /** No proper suffix of `w` is also a prefix of it, so that two
      occurrences of `w` can never overlap. */
  predicate NoSelfOverlap(w: string) {
    forall d :: 0 < d < |w| ==> w[d..] != w[..|w| - d]
  }

  /** A word whose first character occurs nowhere else cannot overlap itself. */
  lemma FirstCharOnce(w: string)
    requires forall d :: 0 < d < |w| ==> w[d] != w[0]
    ensures NoSelfOverlap(w)
  {
    forall d | 0 < d < |w| ensures w[d..] != w[..|w| - d] {
      assert w[d..][0] != w[..|w| - d][0];
    }
  }

  lemma NoOverlapAt(s: string, w: string, i: nat, j: nat)
    requires NoSelfOverlap(w) && OccursAt(s, w, i) && i < j < i + |w|
    ensures !OccursAt(s, w, j)
  {
    var d := j - i;
    assert w[d..] == s[j..i + |w|];
    assert w[d..] != w[..|w| - d];
    if j + |w| <= |s| {
      assert s[j..i + |w|] == s[j..j + |w|][..|w| - d];
    }
  }

  lemma {:induction false} CountAcrossOccurrence(s: string, w: string, i: nat, j: nat)
    requires NoSelfOverlap(w) && OccursAt(s, w, i) && i < j <= i + |w|
    ensures CountOccurrences(s, w, j) == CountOccurrences(s, w, i + |w|)
    decreases i + |w| - j
  {
    if j < i + |w| {
      NoOverlapAt(s, w, i, j);
      CountAcrossOccurrence(s, w, i, j + 1);
    }
  }

  /** For a literal that cannot overlap itself, the left-to-right scan
      reports every occurrence: the number of matches is the number of
      positions where the literal occurs. */
  lemma {:induction false} LiteralMatchCount(w: Word, k: nat, s: string, i: nat)
    requires i <= |s| && NoSelfOverlap(w)
    ensures |FindAll(Literal(w), k, s, i)| == CountOccurrences(s, w, i)
    decreases |s| - i
  {
    if i < |s| {
      if OccursAt(s, w, i) {
        LiteralMatchCount(w, k, s, i + |w|);
        CountAcrossOccurrence(s, w, i, i + 1);
      } else {
        LiteralMatchCount(w, k, s, i + 1);
      }
    }
  }

  /** The number of TODO findings is the number of occurrences of `TODO`. */
  lemma TodoCount(s: string)
    ensures |FindAll(NoiseRules[1].pattern, 1, s, 0)| == CountOccurrences(s, "TODO", 0)
  {
    var w: Word := "TODO";
    FirstCharOnce(w);
    LiteralMatchCount(w, 1, s, 0);
  }

  /** The number of `time.sleep(` findings is the number of its occurrences. */
  lemma TimeSleepCount(s: string)
    ensures |FindAll(NoiseRules[3].pattern, 3, s, 0)| == CountOccurrences(s, "time.sleep(", 0)
  {
    var w: Word := "time.sleep(";
    FirstCharOnce(w);
    LiteralMatchCount(w, 3, s, 0);
  }

  // ---------------------------------------------------------------------
  // All findings, and lint_file
  // ---------------------------------------------------------------------

  predicate ValidSpan(s: string, sp: Span) {
    sp.rule < |NoiseRules| && sp.start < sp.end <= |s|
  }

  /** The matches of the first `n` rules, rule after rule. */
  function SpansUpTo(s: string, n: nat): (r: seq<Span>)
    requires n <= |NoiseRules|
    ensures forall j :: 0 <= j < |r| ==> ValidSpan(s, r[j]) && r[j].rule < n
  {
    if n == 0 then [] else SpansUpTo(s, n - 1) + FindAll(NoiseRules[n - 1].pattern, n - 1, s, 0)
  }

  /** The matches of all four rules. */
  function AllSpans(s: string): seq<Span> {
    SpansUpTo(s, |NoiseRules|)
  }

  /** The 1-based line of index `i`: one more than the newlines before it. */
  function LineOf(s: string, i: nat): nat
    requires i <= |s|
  {
    NewlinesBefore(s, i) + 1
  }

  /** The number of `\n` in `s[..i]`, what `s.count("\n", 0, i)` returns. */
  function NewlinesBefore(s: string, i: nat): nat
    requires i <= |s|
  {
    if i == 0 then 0 else NewlinesBefore(s, i - 1) + (if s[i - 1] == '\n' then 1 else 0)
  }

  /** The finding a match is reported as. */
  function IssueOf(s: string, sp: Span): Issue
    requires ValidSpan(s, sp)
  {
    Issue(LineOf(s, sp.start), NoiseRules[sp.rule].message, s[sp.start..sp.end])
  }

  /** The findings of a list of matches, one for one and in the same order. */
  function Issues(s: string, spans: seq<Span>): (r: seq<Issue>)
    requires forall j :: 0 <= j < |spans| ==> ValidSpan(s, spans[j])
    ensures |r| == |spans|
  {
    if spans == [] then [] else [IssueOf(s, spans[0])] + Issues(s, spans[1..])
  }

  /** The `j`-th finding is the finding of the `j`-th match. */
  lemma {:induction false} IssuesAt(s: string, spans: seq<Span>, j: nat)
    requires forall j :: 0 <= j < |spans| ==> ValidSpan(s, spans[j])
    requires j < |spans|
    ensures Issues(s, spans)[j] == IssueOf(s, spans[j])
  {
    if j > 0 {
      IssuesAt(s, spans[1..], j - 1);
    }
  }

  lemma {:induction false} IssuesAppend(s: string, a: seq<Span>, b: seq<Span>)
    requires forall j :: 0 <= j < |a| ==> ValidSpan(s, a[j])
    requires forall j :: 0 <= j < |b| ==> ValidSpan(s, b[j])
    ensures Issues(s, a + b) == Issues(s, a) + Issues(s, b)
  {
    if a != [] {
      assert (a + b)[1..] == a[1..] + b;
      IssuesAppend(s, a[1..], b);
    } else {
      assert a + b == b;
    }
  }

  /** Some piece of `s` is in the language of `p`. */
  predicate HasMatch(p: Pattern, s: string) {
    exists i, e :: 0 <= i <= e <= |s| && FullMatch(p, s[i..e])
  }

  /** The content is noisy: some piece of it is in the language of one of
      the four patterns. */
  predicate IsNoisy(s: string) {
    exists k :: 0 <= k < |NoiseRules| && HasMatch(NoiseRules[k].pattern, s)
  }

  /** The scan of one pattern finds something exactly when some piece of the
      text is in the pattern's language. */
  lemma FindAllNonEmptyIff(p: Pattern, k: nat, s: string)
    ensures FindAll(p, k, s, 0) != [] <==> HasMatch(p, s)
  {
    FindAllEmptyIff(p, k, s, 0);
    if FindAll(p, k, s, 0) != [] {
      var x :| 0 <= x < |s| && MatchAt(p, s, x) != None;
      var e := MatchAt(p, s, x).value;
      MatchAtIff(p, s, x, e);
    }
    if HasMatch(p, s) {
      var i, e :| 0 <= i <= e <= |s| && FullMatch(p, s[i..e]);
      MatchAtIff(p, s, i, e);
      assert MatchAt(p, s, i) != None;
    }
  }

  /** There is a finding among the first `n` rules exactly when one of their
      patterns matches somewhere. */
  lemma {:induction false} SpansUpToNonEmptyIff(s: string, n: nat)
    requires n <= |NoiseRules|
    ensures SpansUpTo(s, n) != [] <==> exists k :: 0 <= k < n && HasMatch(NoiseRules[k].pattern, s)
  {
    if n > 0 {
      var prev, here := SpansUpTo(s, n - 1), FindAll(NoiseRules[n - 1].pattern, n - 1, s, 0);
      assert SpansUpTo(s, n) == prev + here;
      SpansUpToNonEmptyIff(s, n - 1);
      FindAllNonEmptyIff(NoiseRules[n - 1].pattern, n - 1, s);
      if exists k :: 0 <= k < n && HasMatch(NoiseRules[k].pattern, s) {
        var k :| 0 <= k < n && HasMatch(NoiseRules[k].pattern, s);
        assert k < n - 1 ==> prev != [];
        assert k == n - 1 ==> here != [];
      }
    }
  }

  /** The findings of one more rule are those of the rules before it
      followed by the findings of that rule alone. */
  lemma IssuesUpToStep(s: string, k: nat)
    requires k < |NoiseRules|
    ensures Issues(s, SpansUpTo(s, k + 1)) ==
            Issues(s, SpansUpTo(s, k)) + Issues(s, FindAll(NoiseRules[k].pattern, k, s, 0))
  {
    var done, all := SpansUpTo(s, k), FindAll(NoiseRules[k].pattern, k, s, 0);
    assert SpansUpTo(s, k + 1) == done + all;
    IssuesAppend(s, done, all);
  }

  /** The file has findings exactly when it is noisy. */
  lemma IssuesNonEmptyIff(s: string)
    ensures Issues(s, AllSpans(s)) != [] <==> IsNoisy(s)
  {
    SpansUpToNonEmptyIff(s, |NoiseRules|);
  }

  /** The scan past a position without a match keeps the same findings ahead. */
  lemma ScanSkip(s: string, k: nat, pos: nat, issues: seq<Issue>, goal: seq<Issue>)
    requires k < |NoiseRules| && pos < |s| && MatchAt(NoiseRules[k].pattern, s, pos) == None
    requires issues + Issues(s, FindAll(NoiseRules[k].pattern, k, s, pos)) == goal
    ensures issues + Issues(s, FindAll(NoiseRules[k].pattern, k, s, pos + 1)) == goal
  {
    assert FindAll(NoiseRules[k].pattern, k, s, pos) == FindAll(NoiseRules[k].pattern, k, s, pos + 1);
  }

  /** The scan past a match at `pos` has recorded that match's finding. */
  lemma ScanMatch(s: string, k: nat, pos: nat, e: nat, issues: seq<Issue>, goal: seq<Issue>)
    requires k < |NoiseRules| && pos < |s| && MatchAt(NoiseRules[k].pattern, s, pos) == Some(e)
    requires issues + Issues(s, FindAll(NoiseRules[k].pattern, k, s, pos)) == goal
    ensures (issues + [Issue(LineOf(s, pos), NoiseRules[k].message, s[pos..e])]) +
            Issues(s, FindAll(NoiseRules[k].pattern, k, s, e)) == goal
  {
    var r := FindAll(NoiseRules[k].pattern, k, s, pos);
    var later := FindAll(NoiseRules[k].pattern, k, s, e);
    assert r == [Span(k, pos, e)] + later;
    assert r[1..] == later;
    var issue := Issue(LineOf(s, pos), NoiseRules[k].message, s[pos..e]);
    assert Issues(s, r) == [issue] + Issues(s, later);
    assert issues + ([issue] + Issues(s, later)) == (issues + [issue]) + Issues(s, later);
  }

  /** The inner loop of `lint_file`: every non-overlapping match of rule `k`,
      left to right, appended to the findings so far with its line number. */
  method ScanRule(content: string, k: nat, before: seq<Issue>) returns (issues: seq<Issue>)
    requires k < |NoiseRules|
    ensures issues == before + Issues(content, FindAll(NoiseRules[k].pattern, k, content, 0))
  {
    var rule := NoiseRules[k];
    ghost var goal := before + Issues(content, FindAll(rule.pattern, k, content, 0));
    issues := before;
    var pos := 0;
    while pos < |content|
      invariant pos <= |content|
      invariant issues + Issues(content, FindAll(rule.pattern, k, content, pos)) == goal
      decreases |content| - pos
    {
      var m := MatchAt(rule.pattern, content, pos);
      if m.Some? {
        var e := m.value;
        var line := NewlinesBefore(content, pos) + 1;
        ScanMatch(content, k, pos, e, issues, goal);
        issues := issues + [Issue(line, rule.message, content[pos..e])];
        pos := e;
      } else {
        ScanSkip(content, k, pos, issues, goal);
        pos := pos + 1;
      }
    }
    assert issues + [] == issues;
  }

  /** `lint_file` on the text of the file: every rule, every match of it in
      turn, each recorded with its line number; status 1 when anything was
      found and 0 otherwise. */
  method LintFile(content: string) returns (issues: seq<Issue>, status: int)
    ensures issues == Issues(content, AllSpans(content))
    ensures status == (if issues == [] then 0 else 1)
    ensures status == 1 <==> IsNoisy(content)
  {
    issues := [];
    for k := 0 to |NoiseRules|
      invariant issues == Issues(content, SpansUpTo(content, k))
    {
      IssuesUpToStep(content, k);
      issues := ScanRule(content, k, issues);
    }
    status := if |issues| > 0 then 1 else 0;
    IssuesNonEmptyIff(content);
  }

  // ---------------------------------------------------------------------
  // What the report says
  // ---------------------------------------------------------------------

  /** The line count is the number of newlines in the text before the index. */
  lemma {:induction false} NewlinesBeforeCount(s: string, i: nat)
    requires i <= |s|
    ensures NewlinesBefore(s, i) == multiset(s[..i])['\n']
  {
    if i > 0 {
      NewlinesBeforeCount(s, i - 1);
      assert s[..i] == s[..i - 1] + [s[i - 1]];
    }
  }

  lemma {:induction false} NewlinesBeforeMono(s: string, i: nat, j: nat)
    requires i <= j <= |s|
    ensures NewlinesBefore(s, i) <= NewlinesBefore(s, j)
    decreases j - i
  {
    if i < j {
      NewlinesBeforeMono(s, i, j - 1);
    }
  }

  /** Every span among the findings of the first `n` rules is a match of its
      own rule's pattern at its start. */
  lemma {:induction false} SpansUpToSound(s: string, n: nat, j: nat)
    requires n <= |NoiseRules| && j < |SpansUpTo(s, n)|
    ensures MatchAt(NoiseRules[SpansUpTo(s, n)[j].rule].pattern, s, SpansUpTo(s, n)[j].start) ==
            Some(SpansUpTo(s, n)[j].end)
  {
    var r := SpansUpTo(s, n);
    var prev, here := SpansUpTo(s, n - 1), FindAll(NoiseRules[n - 1].pattern, n - 1, s, 0);
    assert r == prev + here;
    if j < |prev| {
      SpansUpToSound(s, n - 1, j);
      assert r[j] == prev[j];
    } else {
      FindAllSound(NoiseRules[n - 1].pattern, n - 1, s, 0);
      assert r[j] == here[j - |prev|];
    }
  }

  /** Report order: by the rule's place in the list, and within one rule by
      position, without overlap. */
  predicate InReportOrder(a: Span, b: Span) {
    a.rule < b.rule || (a.rule == b.rule && a.end <= b.start)
  }

  lemma {:induction false} SpansUpToOrdered(s: string, n: nat, a: nat, b: nat)
    requires n <= |NoiseRules| && a < b < |SpansUpTo(s, n)|
    ensures InReportOrder(SpansUpTo(s, n)[a], SpansUpTo(s, n)[b])
  {
    var r := SpansUpTo(s, n);
    var prev, here := SpansUpTo(s, n - 1), FindAll(NoiseRules[n - 1].pattern, n - 1, s, 0);
    assert r == prev + here;
    if b < |prev| {
      SpansUpToOrdered(s, n - 1, a, b);
      assert r[a] == prev[a] && r[b] == prev[b];
    } else if a < |prev| {
      assert r[a] == prev[a] && r[b] == here[b - |prev|];
    } else {
      assert r[a] == here[a - |prev|] && r[b] == here[b - |prev|];
    }
  }

  /** The findings come in report order: rule by rule, and within a rule
      left to right, so that their starts strictly increase. */
  lemma AllSpansOrdered(s: string, a: nat, b: nat)
    requires a < b < |AllSpans(s)|
    ensures InReportOrder(AllSpans(s)[a], AllSpans(s)[b])
    ensures AllSpans(s)[a].rule == AllSpans(s)[b].rule ==> AllSpans(s)[a].start < AllSpans(s)[b].start
  {
    SpansUpToOrdered(s, |NoiseRules|, a, b);
  }

  /** What the `j`-th finding says: the 1-based line of the match start,
      which lies between 1 and one more than the newlines of the whole text,
      the rule's message, and the matched text exactly, which is in the
      rule's language. */
  lemma ReportedIssue(s: string, j: nat)
    requires j < |AllSpans(s)|
    ensures Issues(s, AllSpans(s))[j].line == multiset(s[..AllSpans(s)[j].start])['\n'] + 1
    ensures 1 <= Issues(s, AllSpans(s))[j].line <= multiset(s)['\n'] + 1
    ensures Issues(s, AllSpans(s))[j].message == NoiseRules[AllSpans(s)[j].rule].message
    ensures Issues(s, AllSpans(s))[j].snippet == s[AllSpans(s)[j].start..AllSpans(s)[j].end]
    ensures FullMatch(NoiseRules[AllSpans(s)[j].rule].pattern, Issues(s, AllSpans(s))[j].snippet)
  {
    var spans := AllSpans(s);
    var sp := spans[j];
    IssuesAt(s, spans, j);
    NewlinesBeforeCount(s, sp.start);
    NewlinesBeforeCount(s, |s|);
    NewlinesBeforeMono(s, sp.start, |s|);
    assert s[..|s|] == s;
    SpansUpToSound(s, |NoiseRules|, j);
    MatchAtIff(NoiseRules[sp.rule].pattern, s, sp.start, sp.end);
  }

  /** None of the words `print`, `TODO`, `import` and `time.sleep(` occurs
      in the text. */
  predicate Quiet(s: string) {
    forall i :: 0 <= i < |s| ==>
      !OccursAt(s, "print", i) && !OccursAt(s, "TODO", i) &&
      !OccursAt(s, "import", i) && !OccursAt(s, "time.sleep(", i)
  }

  /** In a quiet text no rule finds anything. */
  lemma QuietRule(s: string, k: nat)
    requires Quiet(s) && k < |NoiseRules|
    ensures FindAll(NoiseRules[k].pattern, k, s, 0) == []
  {
    forall x | 0 <= x < |s| ensures MatchAt(NoiseRules[k].pattern, s, x) == None {
      assert !OccursAt(s, "print", x) && !OccursAt(s, "TODO", x);
      assert !OccursAt(s, "import", x) && !OccursAt(s, "time.sleep(", x);
    }
    FindAllEmptyIff(NoiseRules[k].pattern, k, s, 0);
  }

  /** A quiet text has no findings and is not noisy. */
  lemma QuietContent(s: string)
    requires Quiet(s)
    ensures AllSpans(s) == [] && Issues(s, AllSpans(s)) == []
    ensures !IsNoisy(s)
  {
    QuietRule(s, 0);
    QuietRule(s, 1);
    QuietRule(s, 2);
    QuietRule(s, 3);
    assert SpansUpTo(s, 1) == SpansUpTo(s, 0) + FindAll(NoiseRules[0].pattern, 0, s, 0);
    assert SpansUpTo(s, 2) == SpansUpTo(s, 1) + FindAll(NoiseRules[1].pattern, 1, s, 0);
    assert SpansUpTo(s, 3) == SpansUpTo(s, 2) + FindAll(NoiseRules[2].pattern, 2, s, 0);
    assert SpansUpTo(s, 4) == SpansUpTo(s, 3) + FindAll(NoiseRules[3].pattern, 3, s, 0);
    IssuesNonEmptyIff(s);
  }

  // ---------------------------------------------------------------------
  // The command line
  // ---------------------------------------------------------------------

  /** The script's entry point. `argv` is the argument vector, script name
      first; `files` maps each path that names a regular file to its text as
      `read_text` returns it, that is, after universal-newline translation
      has turned each `\r\n` and each lone `\r` into `\n`.
      Exit status 2 for a wrong argument count or a path that is not a file,
      and otherwise the status of `lint_file`, with its findings. */
  method LinterMain(argv: seq<string>, files: map<string, string>) returns (exit: int, issues: seq<Issue>)
    ensures |argv| != 2 ==> exit == 2 && issues == []
    ensures |argv| == 2 && argv[1] !in files ==> exit == 2 && issues == []
    ensures |argv| == 2 && argv[1] in files ==>
              issues == Issues(files[argv[1]], AllSpans(files[argv[1]])) &&
              (exit == 1 <==> IsNoisy(files[argv[1]])) &&
              (exit == 0 <==> !IsNoisy(files[argv[1]]))
  {
    if |argv| != 2 {
      return 2, [];
    }
    if argv[1] !in files {
      return 2, [];
    }
    issues, exit := LintFile(files[argv[1]]);
  }
}
