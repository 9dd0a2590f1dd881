/** Lines up to blanks: what the comparison that ignores white space compares. */
module Blanks {
  predicate Blank(c: char) { c == ' ' || c == '\t' }

  /** Runs of blanks become one space. */
  function Collapsed(line: string): string {
    if line == "" then ""
    else
      var n := |line| - 1;
      Collapsed(line[..n]) + if !Blank(line[n]) then [line[n]] else if n > 0 && Blank(line[n - 1]) then "" else " "
  }

  function TrimEnd(s: string): string {
    if s != "" && Blank(s[|s| - 1]) then TrimEnd(s[..|s| - 1]) else s
  }

  function WSInvariant(line: string): string { TrimEnd(Collapsed(line)) }

  method WSInvariantString(line: string) returns (s: string)
    ensures s == WSInvariant(line) && Neat(s)
  {
    s := "";
    var ws := false;
    var i := 0;
    while i < |line|
      invariant i <= |line| && s == Collapsed(line[..i]) && ws == (i > 0 && Blank(line[i - 1]))
    {
      assert line[..i + 1][..i] == line[..i];
      if line[i] == ' ' || line[i] == '\t' {
        if !ws {
          ws := true;
          s := s + " ";
        }
      } else {
        ws := false;
        s := s + [line[i]];
      }
      i := i + 1;
    }
    assert line[..|line|] == line;
    while s != "" && Blank(s[|s| - 1])
      invariant TrimEnd(s) == WSInvariant(line)
      decreases |s|
    {
      s := s[..|s| - 1];
    }
    InvariantNeat(line);
  }

  // ----- runs without blanks

  datatype Span = Span(start: nat, end: nat)

  /** The maximal runs without blanks, from left to right. */
  ghost predicate IsRuns(line: string, runs: seq<Span>) {
    && (forall k :: 0 <= k < |runs| ==> runs[k].start < runs[k].end <= |line|)
    && (forall k, i :: 0 <= k < |runs| && runs[k].start <= i < runs[k].end ==> !Blank(line[i]))
    && (forall k :: 0 <= k < |runs| - 1 ==> runs[k].end < runs[k + 1].start)
    && (forall i :: 0 <= i < |line| && !Blank(line[i]) ==>
      exists k :: 0 <= k < |runs| && runs[k].start <= i < runs[k].end)
  }

  function Runs(line: string): (runs: seq<Span>)
    ensures forall k :: 0 <= k < |runs| ==> runs[k].start < runs[k].end <= |line|
  {
    if line == "" then []
    else
      var n := |line| - 1;
      var r := Runs(line[..n]);
      if Blank(line[n]) then r
      else if r != [] && r[|r| - 1].end == n then r[|r| - 1 := r[|r| - 1].(end := n + 1)]
      else r + [Span(n, n + 1)]
  }

  function Texts(line: string, runs: seq<Span>): (texts: seq<string>)
    requires forall k :: 0 <= k < |runs| ==> runs[k].start < runs[k].end <= |line|
    ensures |texts| == |runs|
  {
    seq(|runs|, k requires 0 <= k < |runs| => line[runs[k].start..runs[k].end])
  }

  // ----- one more character

  ghost predicate Covered(runs: seq<Span>, i: nat) {
    exists k :: 0 <= k < |runs| && runs[k].start <= i < runs[k].end
  }

  lemma BlankAdded(line: string, runs: seq<Span>)
    requires line != "" && Blank(line[|line| - 1])
    ensures IsRuns(line[..|line| - 1], runs) <==> IsRuns(line, runs)
  {
    var n := |line| - 1;
    if IsRuns(line[..n], runs) {
      forall i | 0 <= i < |line| && !Blank(line[i]) ensures Covered(runs, i) { assert line[..n][i] == line[i]; }
    }
    if IsRuns(line, runs) {
      forall k | 0 <= k < |runs| ensures runs[k].end <= n {
        assert !Blank(line[runs[k].end - 1]);
      }
      forall i | 0 <= i < n && !Blank(line[..n][i]) ensures Covered(runs, i) { assert !Blank(line[i]); }
    }
  }

  lemma RunStarted(line: string, runs: seq<Span>)
    requires line != "" && !Blank(line[|line| - 1]) && IsRuns(line[..|line| - 1], runs)
    requires runs != [] ==> runs[|runs| - 1].end < |line| - 1
    ensures IsRuns(line, runs + [Span(|line| - 1, |line|)])
  {
    var n, more := |line| - 1, runs + [Span(|line| - 1, |line|)];
    forall i | 0 <= i < |line| && !Blank(line[i]) ensures Covered(more, i) {
      if i < n {
        assert !Blank(line[..n][i]);
        var k :| 0 <= k < |runs| && runs[k].start <= i < runs[k].end;
        assert more[k] == runs[k];
      } else {
        assert more[|runs|].start <= i < more[|runs|].end;
      }
    }
  }

  lemma RunExtended(line: string, runs: seq<Span>)
    requires line != "" && !Blank(line[|line| - 1]) && IsRuns(line[..|line| - 1], runs)
    requires runs != [] && runs[|runs| - 1].end == |line| - 1
    ensures IsRuns(line, runs[|runs| - 1 := runs[|runs| - 1].(end := |line|)])
  {
    var n, m := |line| - 1, |runs| - 1;
    var more := runs[m := runs[m].(end := |line|)];
    forall i | 0 <= i < |line| && !Blank(line[i]) ensures Covered(more, i) {
      if i < n {
        assert !Blank(line[..n][i]);
        var k :| 0 <= k < |runs| && runs[k].start <= i < runs[k].end;
        assert more[k].start <= i < more[k].end;
      } else {
        assert more[m].start <= i < more[m].end;
      }
    }
  }

  /** If the last character is not blank, the last run ends the line. */
  lemma LastRun(line: string, runs: seq<Span>)
    requires IsRuns(line, runs) && line != "" && !Blank(line[|line| - 1])
    ensures runs != [] && runs[|runs| - 1].start < runs[|runs| - 1].end == |line|
  {
    var n, m := |line| - 1, |runs| - 1;
    assert Covered(runs, n);
    forall j | 0 <= j < m ensures runs[j].end < |line| { assert runs[j].end < runs[j + 1].start; }
  }

  /** Without that character the run is gone ... */
  lemma RunDropped(line: string, runs: seq<Span>)
    requires IsRuns(line, runs) && line != "" && runs != [] && runs[|runs| - 1] == Span(|line| - 1, |line|)
    ensures var less := runs[..|runs| - 1];
      IsRuns(line[..|line| - 1], less) && (less != [] ==> less[|less| - 1].end < |line| - 1)
  {
    var n, m := |line| - 1, |runs| - 1;
    var less := runs[..m];
    forall k | 0 <= k < m ensures runs[k].end < n {
      RunsOrdered(line, runs, k, m);
    }
    forall i | 0 <= i < n && !Blank(line[..n][i]) ensures Covered(less, i) {
      assert !Blank(line[i]);
      var k :| 0 <= k < |runs| && runs[k].start <= i < runs[k].end;
      assert less[k] == runs[k];
    }
  }

  /** ... or shorter. */
  lemma RunShortened(line: string, runs: seq<Span>)
    requires IsRuns(line, runs) && line != "" && runs != []
    requires runs[|runs| - 1].end == |line| && runs[|runs| - 1].start < |line| - 1
    ensures IsRuns(line[..|line| - 1], runs[|runs| - 1 := runs[|runs| - 1].(end := |line| - 1)])
  {
    var n, m := |line| - 1, |runs| - 1;
    var less := runs[m := runs[m].(end := n)];
    forall k | 0 <= k < m ensures runs[k].end < n {
      RunsOrdered(line, runs, k, m);
    }
    forall i | 0 <= i < n && !Blank(line[..n][i]) ensures Covered(less, i) {
      assert !Blank(line[i]);
      var k :| 0 <= k < |runs| && runs[k].start <= i < runs[k].end;
      assert less[k].start <= i < less[k].end;
    }
  }

  lemma {:induction false} RunsOrdered(line: string, runs: seq<Span>, k: nat, m: nat)
    requires IsRuns(line, runs) && k < m < |runs|
    ensures runs[k].end < runs[m].start
    decreases m
  {
    if k < m - 1 { RunsOrdered(line, runs, k, m - 1); }
  }

  // ----- they exist, and there is only one list of them

  lemma {:induction false} RunsFound(line: string)
    ensures IsRuns(line, Runs(line))
  {
    if line != "" {
      hide IsRuns;
      var r := Runs(line[..|line| - 1]);
      RunsFound(line[..|line| - 1]);
      if Blank(line[|line| - 1]) {
        BlankAdded(line, r);
      } else if r != [] && r[|r| - 1].end == |line| - 1 {
        RunExtended(line, r);
      } else {
        RunStarted(line, r);
      }
    }
  }

  lemma NoRuns(line: string, runs: seq<Span>)
    requires IsRuns(line, runs)
    ensures runs != [] ==> line != ""
  {
    if runs != [] { assert runs[0].start < runs[0].end <= |line|; }
  }

  lemma {:induction false} RunsUnique(line: string, runs: seq<Span>)
    requires IsRuns(line, runs)
    ensures runs == Runs(line)
  {
    hide IsRuns, Blank;
    if line == "" {
      NoRuns(line, runs);
    } else if Blank(line[|line| - 1]) {
      BlankAdded(line, runs);
      RunsUnique(line[..|line| - 1], runs);
    } else {
      LastRun(line, runs);
      var n, m := |line| - 1, |runs| - 1;
      if runs[m].start == n {
        RunDropped(line, runs);
        RunsUnique(line[..n], runs[..m]);
        assert runs == runs[..m] + [Span(n, n + 1)];
      } else {
        var less := runs[m := runs[m].(end := n)];
        RunShortened(line, runs);
        RunsUnique(line[..n], less);
        assert less[m := less[m].(end := n + 1)] == runs;
      }
    }
  }

  // ----- what is compared

  /** Words with one space between them. */
  function Joined(words: seq<string>): string {
    if words == [] then ""
    else if |words| == 1 then words[0]
    else Joined(words[..|words| - 1]) + " " + words[|words| - 1]
  }

  ghost predicate Word(w: string) { w != "" && forall i :: 0 <= i < |w| ==> !Blank(w[i]) }

  ghost predicate Words(words: seq<string>) { forall k :: 0 <= k < |words| ==> Word(words[k]) }

  /** A space for the blanks before the first word. */
  function Lead(line: string, runs: seq<Span>): string {
    if runs != [] && line != "" && Blank(line[0]) then " " else ""
  }

  lemma TextsSnoc(line: string, runs: seq<Span>, s: Span)
    requires (forall k :: 0 <= k < |runs| ==> runs[k].start < runs[k].end <= |line|) && s.start < s.end <= |line|
    ensures Texts(line, runs + [s]) == Texts(line, runs) + [line[s.start..s.end]]
  {
  }

  lemma TextsPrefix(line: string, runs: seq<Span>)
    requires line != "" && forall k :: 0 <= k < |runs| ==> runs[k].start < runs[k].end < |line|
    ensures Texts(line[..|line| - 1], runs) == Texts(line, runs)
  {
    var init := line[..|line| - 1];
    forall k | 0 <= k < |runs| ensures Texts(init, runs)[k] == Texts(line, runs)[k] {
      assert init[runs[k].start..runs[k].end] == line[runs[k].start..runs[k].end];
    }
  }

  lemma JoinedSnoc(words: seq<string>, w: string)
    ensures Joined(words + [w]) == if words == [] then w else Joined(words) + " " + w
  {
    assert (words + [w])[..|words|] == words;
  }

  lemma JoinedLonger(words: seq<string>, w: string, c: char)
    ensures Joined(words + [w + [c]]) == Joined(words + [w]) + [c]
  {
    JoinedSnoc(words, w);
    JoinedSnoc(words, w + [c]);
    if words != [] { assert Joined(words) + " " + (w + [c]) == (Joined(words) + " " + w) + [c]; }
  }

  /** A run that goes on has a longer text. */
  lemma TextLonger(line: string, runs: seq<Span>)
    requires line != "" && runs != [] && runs[|runs| - 1].end == |line| - 1
    requires forall k :: 0 <= k < |runs| ==> runs[k].start < runs[k].end < |line|
    ensures var more := runs[|runs| - 1 := runs[|runs| - 1].(end := |line|)];
      Joined(Texts(line, more)) == Joined(Texts(line[..|line| - 1], runs)) + [line[|line| - 1]]
  {
    var n, m := |line| - 1, |runs| - 1;
    var init, last := runs[..m], runs[m];
    var longer := last.(end := |line|);
    assert runs == init + [last] && runs[m := longer] == init + [longer];
    TextsPrefix(line, runs);
    TextsSnoc(line, init, last);
    TextsSnoc(line, init, longer);
    assert line[last.start..|line|] == line[last.start..n] + [line[n]];
    JoinedLonger(Texts(line, init), line[last.start..n], line[n]);
  }

  /** Where the runs end tells whether the line ends with a blank. */
  lemma RunsEnd(line: string, runs: seq<Span>)
    requires IsRuns(line, runs)
    ensures runs == [] ==> forall i :: 0 <= i < |line| ==> Blank(line[i])
    ensures runs != [] ==> line != "" && (runs[|runs| - 1].end == |line| <==> !Blank(line[|line| - 1]))
  {
    NoRuns(line, runs);
    if runs != [] {
      if !Blank(line[|line| - 1]) { LastRun(line, runs); }
      var m := |runs| - 1;
      assert !Blank(line[runs[m].end - 1]);
    }
  }

  lemma CollapsedStep(line: string)
    requires line != ""
    ensures Blank(line[|line| - 1]) ==>
      Collapsed(line) == Collapsed(line[..|line| - 1]) + if |line| > 1 && Blank(line[|line| - 2]) then "" else " "
    ensures !Blank(line[|line| - 1]) ==> Collapsed(line) == Collapsed(line[..|line| - 1]) + [line[|line| - 1]]
  {
  }

  lemma RunsStep(line: string)
    requires line != ""
    ensures var n := |line| - 1; var r := Runs(line[..n]);
      Runs(line) == if Blank(line[n]) then r
        else if r != [] && r[|r| - 1].end == n then r[|r| - 1 := r[|r| - 1].(end := n + 1)]
        else r + [Span(n, n + 1)]
  {
  }

  /** What Collapsed is in terms of the runs. */
  function Spaced(line: string, runs: seq<Span>): string
    requires forall k :: 0 <= k < |runs| ==> runs[k].start < runs[k].end <= |line|
  {
    if runs == [] then (if line == "" then "" else " ")
    else Lead(line, runs) + Joined(Texts(line, runs)) + (if line != "" && Blank(line[|line| - 1]) then " " else "")
  }

  lemma RunsInside(line: string, runs: seq<Span>)
    requires line != "" && IsRuns(line[..|line| - 1], runs)
    ensures forall k :: 0 <= k < |runs| ==> runs[k].start < runs[k].end < |line|
  {
  }

  lemma SpacedBlank(line: string, runs: seq<Span>)
    requires line != "" && Blank(line[|line| - 1]) && IsRuns(line[..|line| - 1], runs)
    ensures forall k :: 0 <= k < |runs| ==> runs[k].start < runs[k].end < |line|
    ensures Spaced(line, runs) == Spaced(line[..|line| - 1], runs)
      + if |line| > 1 && Blank(line[|line| - 2]) then "" else " "
  {
    hide Joined, Texts, IsRuns;
    RunsEnd(line[..|line| - 1], runs);
    RunsInside(line, runs);
    TextsPrefix(line, runs);
  }

  lemma SpacedStart(line: string, runs: seq<Span>)
    requires line != "" && !Blank(line[|line| - 1]) && IsRuns(line[..|line| - 1], runs)
    requires runs != [] ==> runs[|runs| - 1].end < |line| - 1
    ensures forall k :: 0 <= k < |runs| ==> runs[k].start < runs[k].end < |line|
    ensures Spaced(line, runs + [Span(|line| - 1, |line|)]) == Spaced(line[..|line| - 1], runs) + [line[|line| - 1]]
  {
    hide Joined, Texts, IsRuns, Lead;
    var n, more := |line| - 1, runs + [Span(|line| - 1, |line|)];
    var c := [line[n]];
    RunsEnd(line[..n], runs);
    RunsInside(line, runs);
    TextsPrefix(line, runs);
    TextsSnoc(line, runs, Span(n, n + 1));
    JoinedSnoc(Texts(line, runs), c);
    assert line[n..n + 1] == c;
    LeadStart(line, runs);
    if runs == [] {
      assert Texts(line, []) == [];
      assert Spaced(line, more) == Lead(line, more) + c;
    } else {
      var j := Joined(Texts(line, runs));
      assert Spaced(line, more) == Lead(line, more) + (j + " " + c) + "";
      assert Spaced(line[..n], runs) == Lead(line[..n], runs) + j + " ";
      assert Lead(line, more) + (j + " " + c) + "" == (Lead(line, more) + j + " ") + c;
    }
  }

  lemma LeadStart(line: string, runs: seq<Span>)
    requires line != "" && !Blank(line[|line| - 1]) && IsRuns(line[..|line| - 1], runs)
    ensures var more := runs + [Span(|line| - 1, |line|)];
      Lead(line, more) == if runs != [] then Lead(line[..|line| - 1], runs) else if |line| == 1 then "" else " "
  {
    RunsEnd(line[..|line| - 1], runs);
    if |line| > 1 { assert line[..|line| - 1][0] == line[0]; }
  }

  lemma SpacedLonger(line: string, runs: seq<Span>)
    requires line != "" && !Blank(line[|line| - 1]) && IsRuns(line[..|line| - 1], runs)
    requires runs != [] && runs[|runs| - 1].end == |line| - 1
    ensures forall k :: 0 <= k < |runs| ==> runs[k].start < runs[k].end < |line|
    ensures Spaced(line, runs[|runs| - 1 := runs[|runs| - 1].(end := |line|)])
      == Spaced(line[..|line| - 1], runs) + [line[|line| - 1]]
  {
    hide Joined, Texts, IsRuns;
    var n := |line| - 1;
    RunsEnd(line[..n], runs);
    RunsInside(line, runs);
    TextLonger(line, runs);
    assert line[..n][0] == line[0];
  }

  /** Collapsed, blanks before the first word are one space, and so are those between words and at the
      end. */
  lemma {:induction false} CollapsedIs(line: string)
    ensures Collapsed(line) == Spaced(line, Runs(line))
  {
    if line != "" {
      hide *;
      var n := |line| - 1;
      var init := line[..n];
      var r := Runs(init);
      CollapsedIs(init);
      CollapsedStep(line);
      RunsStep(line);
      RunsFound(init);
      if Blank(line[n]) {
        SpacedBlank(line, r);
      } else if r != [] && r[|r| - 1].end == n {
        SpacedLonger(line, r);
      } else {
        SpacedStart(line, r);
      }
    }
  }

  lemma TrimTail(x: string)
    requires x != "" && !Blank(x[|x| - 1])
    ensures TrimEnd(x) == x && TrimEnd(x + " ") == x
  {
    assert (x + " ")[..|x|] == x;
  }

  lemma {:induction false} JoinedEnd(words: seq<string>)
    requires Words(words) && words != []
    ensures Joined(words) != "" && !Blank(Joined(words)[|Joined(words)| - 1])
  {
    assert Word(words[|words| - 1]);
  }

  lemma TextsAreWords(line: string, runs: seq<Span>)
    requires IsRuns(line, runs)
    ensures Words(Texts(line, runs))
  {
    forall k | 0 <= k < |runs| ensures Word(Texts(line, runs)[k]) {
      forall i | 0 <= i < runs[k].end - runs[k].start ensures !Blank(Texts(line, runs)[k][i]) {
        assert !Blank(line[runs[k].start + i]);
      }
    }
  }

  /** The invariant is the words with one space between them, and one before if the line begins with a
      blank. */
  lemma InvariantIs(line: string)
    ensures var runs := Runs(line); WSInvariant(line) == Lead(line, runs) + Joined(Texts(line, runs))
  {
    hide Joined, Texts, Runs, IsRuns, Lead, Collapsed, TrimEnd, Words;
    var runs := Runs(line);
    CollapsedIs(line);
    RunsFound(line);
    TrimNothing();
    LeadNone(line);
    if runs != [] {
      TextsAreWords(line, runs);
      JoinedEnd(Texts(line, runs));
      var x := Lead(line, runs) + Joined(Texts(line, runs));
      TrimTail(x);
      assert x + "" == x;
    }
  }

  lemma TrimNothing()
    ensures TrimEnd(" ") == "" && TrimEnd("") == ""
  {
    assert " "[..0] == "";
  }

  lemma LeadNone(line: string)
    ensures Lead(line, []) + Joined(Texts(line, [])) == ""
  {
  }

  /** The text before the last of some words. */
  function Before(lead: string, words: seq<string>): string
    requires words != []
  {
    if |words| == 1 then lead else lead + Joined(words[..|words| - 1]) + " "
  }

  /** Only the last word can follow such a text. */
  lemma LastWord(x: string, w: string, y: string, z: string)
    requires Word(w) && Word(z) && x + w == y + z
    requires (x == "" || Blank(x[|x| - 1])) && (y == "" || Blank(y[|y| - 1]))
    ensures x == y && w == z
  {
    var s := x + w;
    assert forall i :: |x| <= i < |s| ==> !Blank(s[i]);
    assert forall i :: |y| <= i < |s| ==> s[i] == z[i - |y|];
    assert |x| > 0 ==> s[|x| - 1] == x[|x| - 1];
    assert |y| > 0 ==> s[|y| - 1] == y[|y| - 1];
    assert |x| == |y|;
    assert x == s[..|x|] == y && w == s[|x|..] == z;
  }

  /** The words, and the space before them, can be read off. */
  lemma {:induction false} JoinedInjective(a: string, u: seq<string>, b: string, v: seq<string>)
    requires Words(u) && Words(v) && a in {"", " "} && b in {"", " "}
    requires (u == [] ==> a == "") && (v == [] ==> b == "")
    requires a + Joined(u) == b + Joined(v)
    ensures a == b && u == v
  {
    if u != [] { JoinedEnd(u); }
    if v != [] { JoinedEnd(v); }
    hide Joined, Before;
    if u != [] && v != [] {
      var m, n := |u| - 1, |v| - 1;
      BeforeLast(a, u);
      BeforeLast(b, v);
      LastWord(Before(a, u), u[m], Before(b, v), v[n]);
      assert m == 0 <==> n == 0;
      if m > 0 {
        JoinedInjective(a, u[..m], b, v[..n]);
        assert u == u[..m] + [u[m]] && v == v[..n] + [v[n]];
      }
    } else {
      JoinedNone();
    }
  }

  lemma JoinedNone()
    ensures Joined([]) == ""
  {
  }

  lemma BeforeLast(lead: string, words: seq<string>)
    requires Words(words) && words != [] && lead in {"", " "}
    ensures var x, n := Before(lead, words), |words| - 1;
      && lead + Joined(words) == x + words[n] && (x == "" || Blank(x[|x| - 1])) && Word(words[n]) && Words(words[..n])
      && (n == 0 ==> x == lead && |x| <= 1)
      && (n > 0 ==> |x| >= 2 && x[..|x| - 1] == lead + Joined(words[..n]))
  {
    var n := |words| - 1;
    if n > 0 {
      JoinedEnd(words[..n]);
      var j := Joined(words[..n]);
      hide Joined;
      JoinedSnoc(words[..n], words[n]);
      assert words == words[..n] + [words[n]];
      assert lead + (j + " " + words[n]) == (lead + j + " ") + words[n];
      assert (lead + j + " ")[..|lead + j|] == lead + j;
    }
  }

  /** The line begins with a blank. */
  predicate Begins(line: string) { line != "" && Blank(line[0]) }

  /** What the comparison compares, with the runs in terms of positions: two lines have the same invariant
      exactly if they have the same runs of characters without blanks, one after the other, and agree on
      whether there are blanks before the first. */
  lemma SameInvariant(a: string, runs: seq<Span>, b: string, others: seq<Span>)
    requires IsRuns(a, runs) && IsRuns(b, others)
    ensures WSInvariant(a) == WSInvariant(b)
      <==> Texts(a, runs) == Texts(b, others) && (runs != [] ==> Begins(a) == Begins(b))
  {
    RunsUnique(a, runs);
    RunsUnique(b, others);
    NoRuns(a, runs);
    NoRuns(b, others);
    InvariantIs(a);
    InvariantIs(b);
    TextsAreWords(a, runs);
    TextsAreWords(b, others);
    hide IsRuns, Joined, WSInvariant, Runs;
    var u, v := Texts(a, runs), Texts(b, others);
    if WSInvariant(a) == WSInvariant(b) { JoinedInjective(Lead(a, runs), u, Lead(b, others), v); }
  }

  /** No blank at the end, no two next to each other, and none but spaces. */
  ghost predicate Neat(s: string) {
    && (s != "" ==> !Blank(s[|s| - 1]))
    && (forall i :: 0 <= i < |s| - 1 ==> !(Blank(s[i]) && Blank(s[i + 1])))
    && (forall i :: 0 <= i < |s| ==> s[i] != '\t')
  }

  lemma {:induction false} CollapsedNeat(line: string)
    ensures var s := Collapsed(line);
      && (forall i :: 0 <= i < |s| - 1 ==> !(Blank(s[i]) && Blank(s[i + 1])))
      && (forall i :: 0 <= i < |s| ==> s[i] != '\t')
      && (line != "" ==> s != "" && (Blank(s[|s| - 1]) <==> Blank(line[|line| - 1])))
  {
    if line != "" {
      CollapsedNeat(line[..|line| - 1]);
      CollapsedStep(line);
      hide Collapsed;
    }
  }

  lemma {:induction false} TrimEndCuts(s: string)
    ensures |TrimEnd(s)| <= |s| && TrimEnd(s) == s[..|TrimEnd(s)|]
    ensures TrimEnd(s) != "" ==> !Blank(TrimEnd(s)[|TrimEnd(s)| - 1])
  {
    if s != "" && Blank(s[|s| - 1]) { TrimEndCuts(s[..|s| - 1]); }
  }

  lemma InvariantNeat(line: string)
    ensures Neat(WSInvariant(line))
  {
    CollapsedNeat(line);
    TrimEndCuts(Collapsed(line));
  }
}
