/** Lines and their endings: a cursor over a text, the check for newline-only changes, and the
    unification of line endings. */
module LineEndings {
  import opened Optional
  import opened Blanks

  datatype LineEndingType = CRLF | LF | CR | EOF

  datatype Line = Line(text: string, ending: LineEndingType)

  // ----- what the lines of a text are

  /** Where the first line ends. */
  function LineEnd(s: string): (k: nat)
    ensures k <= |s|
    ensures forall i :: 0 <= i < k ==> s[i] != '\n' && s[i] != '\r'
    ensures k < |s| ==> s[k] == '\n' || s[k] == '\r'
  {
    if s == "" || s[0] == '\n' || s[0] == '\r' then 0 else 1 + LineEnd(s[1..])
  }

  /** The ending at position k. */
  function EndingAt(s: string, k: nat): LineEndingType
    requires k <= |s| && (k < |s| ==> s[k] == '\n' || s[k] == '\r')
  {
    if k == |s| then EOF
    else if s[k] == '\n' then LF
    else if k + 1 < |s| && s[k + 1] == '\n' then CRLF
    else CR
  }

  function Ending(e: LineEndingType): string {
    match e
    case CRLF => "\r\n"
    case LF => "\n"
    case CR => "\r"
    case EOF => ""
  }

  function Lines(s: string): (lines: seq<Line>)
    decreases |s|
  {
    if s == "" then []
    else
      var k := LineEnd(s);
      var e := EndingAt(s, k);
      [Line(s[..k], e)] + Lines(s[k + |Ending(e)|..])
  }

  function Print(lines: seq<Line>): string {
    if lines == [] then "" else lines[0].text + Ending(lines[0].ending) + Print(lines[1..])
  }

  /** The lists of lines that some text has: no line holds a newline character, only the last may end
      without one, and then it is not empty; a return is not followed by an empty line with a newline,
      which together would be one ending. */
  predicate Tokens(lines: seq<Line>) {
    lines != [] ==>
      && (forall i :: 0 <= i < |lines[0].text| ==> lines[0].text[i] != '\n' && lines[0].text[i] != '\r')
      && (lines[0].ending == EOF ==> lines[0].text != "" && |lines| == 1)
      && (lines[0].ending == CR && |lines| > 1 ==> !(lines[1].text == "" && lines[1].ending == LF))
      && Tokens(lines[1..])
  }

  lemma {:induction false} LineEndIs(s: string, k: nat)
    requires k <= |s| && forall i :: 0 <= i < k ==> s[i] != '\n' && s[i] != '\r'
    requires k < |s| ==> s[k] == '\n' || s[k] == '\r'
    ensures LineEnd(s) == k
  {
    if k > 0 { LineEndIs(s[1..], k - 1); }
  }

  /** The first line of a text, its ending, and the rest. */
  lemma FirstOf(s: string) returns (k: nat, e: LineEndingType, rest: string)
    requires s != ""
    ensures k == LineEnd(s) && e == EndingAt(s, k) && k + |Ending(e)| <= |s| && rest == s[k + |Ending(e)|..]
    ensures |rest| < |s| && s == s[..k] + Ending(e) + rest
    ensures e == EOF ==> rest == "" && k > 0
    ensures e == CR && rest != "" ==> rest[0] != '\n'
  {
    k := LineEnd(s);
    e := EndingAt(s, k);
    rest := s[k + |Ending(e)|..];
  }

  lemma LinesStep(s: string)
    requires s != ""
    ensures var k := LineEnd(s); var e := EndingAt(s, k);
      k + |Ending(e)| <= |s| && Lines(s) == [Line(s[..k], e)] + Lines(s[k + |Ending(e)|..])
  {
    var k, e, rest := FirstOf(s);
    hide LineEnd, EndingAt, Ending;
    assert Lines(s) == [Line(s[..k], e)] + Lines(rest);
  }

  lemma TokensStep(l: Line, rest: seq<Line>)
    requires Tokens(rest) && forall i :: 0 <= i < |l.text| ==> l.text[i] != '\n' && l.text[i] != '\r'
    requires l.ending == EOF ==> l.text != "" && rest == []
    requires l.ending == CR && rest != [] ==> !(rest[0].text == "" && rest[0].ending == LF)
    ensures Tokens([l] + rest) && Print([l] + rest) == l.text + Ending(l.ending) + Print(rest)
  {
    assert ([l] + rest)[1..] == rest;
  }

  /** Lines and endings together are the text. */
  lemma {:induction false} PrintLines(s: string)
    ensures Print(Lines(s)) == s && Tokens(Lines(s))
    decreases |s|
  {
    hide LineEnd, EndingAt, Ending, Tokens, Print, Lines;
    if s == "" {
      PrintNothing();
    } else {
      var k, e, rest := FirstOf(s);
      PrintLines(rest);
      LinesStep(s);
      if rest == "" {
        PrintNothing();
      } else {
        var k2, e2, rest2 := FirstOf(rest);
        LinesStep(rest);
        EmptyFirst(rest);
      }
      TokensStep(Line(s[..k], e), Lines(rest));
    }
  }

  lemma PrintNothing()
    ensures Lines("") == [] && Print([]) == "" && Tokens([])
  {
  }

  /** A text whose first line is empty and ends with a newline begins with a newline. */
  lemma EmptyFirst(s: string)
    requires s != ""
    ensures Lines(s) != [] && (Lines(s)[0].text == "" && Lines(s)[0].ending == LF ==> s[0] == '\n')
  {
    LinesStep(s);
  }

  /** Printing and tokenising again gives the same lines back exactly for such lists. */
  lemma {:induction false} LinesPrint(lines: seq<Line>)
    ensures Tokens(lines) <==> Lines(Print(lines)) == lines
  {
    if Lines(Print(lines)) == lines { PrintLines(Print(lines)); }
    if Tokens(lines) { TokensRead(lines); }
  }

  lemma {:induction false} TokensRead(lines: seq<Line>)
    requires Tokens(lines)
    ensures Lines(Print(lines)) == lines
  {
    hide LineEnd, EndingAt, Lines;
    if lines == [] {
      PrintNothing();
    } else {
      var l, rest := lines[0], lines[1..];
      TokensRead(rest);
      if Print(rest) != "" { NextFirst(rest); }
      ReadFirst(l, Print(rest));
      LinesStep(Print(lines));
      assert lines == [l] + rest;
    }
  }

  /** A printed line is the first line of the text it begins. */
  lemma ReadFirst(l: Line, rest: string)
    requires forall i :: 0 <= i < |l.text| ==> l.text[i] != '\n' && l.text[i] != '\r'
    requires l.ending == EOF ==> l.text != "" && rest == ""
    requires l.ending == CR && rest != "" ==> rest[0] != '\n'
    ensures var s := l.text + Ending(l.ending) + rest; var k := |l.text|;
      && s != "" && LineEnd(s) == k && EndingAt(s, k) == l.ending
      && s[..k] == l.text && s[k + |Ending(l.ending)|..] == rest
  {
    hide LineEnd;
    var s, k, e := l.text + Ending(l.ending) + rest, |l.text|, Ending(l.ending);
    assert forall i :: 0 <= i < k ==> s[i] == l.text[i];
    AfterText(l.text, e, rest);
    LineEndIs(s, k);
  }

  lemma AfterText(text: string, e: string, rest: string)
    ensures var s, k := text + e + rest, |text|;
      && s[..k] == text && s[k + |e|..] == rest && (forall i :: 0 <= i < |e| ==> s[k + i] == e[i])
      && (rest != "" ==> s[k + |e|] == rest[0])
  {
  }

  /** A text begins with a newline only if its first line is empty and ends with one. */
  lemma NextFirst(lines: seq<Line>)
    requires Tokens(lines) && Print(lines) != ""
    ensures lines != [] && (Print(lines)[0] == '\n' ==> lines[0].text == "" && lines[0].ending == LF)
  {
    var l := lines[0];
    if l.text != "" { assert Print(lines)[0] == l.text[0]; }
  }

  // ----- the cursor

  class LineEndingCursor {
    const source: string
    var currentLineStart: nat
    var currentLineEnd: int
    var nextStart: nat

    constructor (s: string)
      ensures source == s && currentLineStart == currentLineEnd == nextStart == 0
    {
      source := s;
      currentLineStart, currentLineEnd, nextStart := 0, 0, 0;
    }

    /** The cursor is on a line. */
    ghost predicate OnLine()
      reads this
    {
      && currentLineStart <= currentLineEnd + 1 <= |source|
      && (currentLineEnd + 1 < |source| ==> source[currentLineEnd + 1] == '\n' || source[currentLineEnd + 1] == '\r')
    }

    method LineText() returns (line: string)
      requires OnLine()
      ensures line == source[currentLineStart..currentLineEnd + 1]
    {
      line := source[currentLineStart..currentLineEnd + 1];
    }

    method LineEnding() returns (e: LineEndingType)
      requires OnLine()
      ensures e == EndingAt(source, currentLineEnd + 1)
    {
      if currentLineEnd + 1 == |source| { return EOF; }
      if source[currentLineEnd + 1] == '\n' { return LF; }
      if currentLineEnd + 2 < |source| && source[currentLineEnd + 2] == '\n' { return CRLF; }
      e := CR;
    }

    ghost function Current(): Line
      requires OnLine()
      reads this
    {
      Line(source[currentLineStart..currentLineEnd + 1], EndingAt(source, currentLineEnd + 1))
    }

    /** The lines not yet visited. */
    ghost function Ahead(): seq<Line>
      requires nextStart <= |source|
      reads this
    {
      Lines(source[nextStart..])
    }

    /** Where the line that starts here ends. */
    method Seek(start: nat) returns (seek: nat)
      requires start <= |source|
      ensures start <= seek <= |source| && forall i :: start <= i < seek ==> source[i] != '\r' && source[i] != '\n'
      ensures seek < |source| ==> source[seek] == '\r' || source[seek] == '\n'
    {
      seek := start;
      while seek < |source| && source[seek] != '\r' && source[seek] != '\n'
        invariant start <= seek <= |source|
        invariant forall i :: start <= i < seek ==> source[i] != '\r' && source[i] != '\n'
      {
        seek := seek + 1;
      }
    }

    /** Moves to the next line, if there is one. */
    method NextLine() returns (moved: bool)
      requires nextStart <= |source|
      modifies this
      ensures nextStart <= |source| && moved == (old(Ahead()) != [])
      ensures moved ==> OnLine() && old(Ahead()) == [Current()] + Ahead()
      ensures moved ==> old(nextStart) < nextStart
    {
      hide Lines, LineEnd;
      LinesNonempty(source[nextStart..]);
      if nextStart == |source| { return false; }
      currentLineStart := nextStart;
      var seek: int := Seek(nextStart);
      FirstLine(source, nextStart, seek);
      currentLineEnd := seek - 1;
      if seek == |source| {
        nextStart := seek;
      } else if source[seek] == '\r' {
        var e := LineEnding();
        nextStart := if e == CRLF then seek + 2 else seek + 1;
      } else {
        nextStart := seek + 1;
      }
      moved := true;
    }
  }

  lemma LinesNonempty(s: string)
    ensures Lines(s) != [] <==> s != ""
  {
    if s != "" { LinesStep(s); }
  }

  lemma FirstLine(source: string, start: nat, seek: nat)
    requires start <= seek <= |source| && start < |source|
    requires forall i :: start <= i < seek ==> source[i] != '\r' && source[i] != '\n'
    requires seek < |source| ==> source[seek] == '\r' || source[seek] == '\n'
    ensures var e := EndingAt(source, seek); seek + |Ending(e)| <= |source| && start < seek + |Ending(e)|
    ensures var e := EndingAt(source, seek);
      Lines(source[start..]) == [Line(source[start..seek], e)] + Lines(source[seek + |Ending(e)|..])
  {
    hide Lines, LineEnd;
    var s, k := source[start..], seek - start;
    assert forall i :: 0 <= i < |s| ==> s[i] == source[start + i];
    LineEndIs(s, k);
    LinesStep(s);
    var e := EndingAt(source, seek);
    assert s[..k] == source[start..seek] && s[k + |Ending(e)|..] == source[seek + |Ending(e)|..];
  }

  // ----- newline-only changes

  /** Lines that may differ by a change that is reverted. */
  predicate Similar(ws: bool, a: Line, b: Line) {
    a.text == b.text || (ws && WSInvariant(a.text) == WSInvariant(b.text))
  }

  /** In terms of the texts: they are the same, or blanks may differ and they have the same words and begin
      alike. */
  lemma SimilarWords(ws: bool, a: Line, runs: seq<Span>, b: Line, others: seq<Span>)
    requires IsRuns(a.text, runs) && IsRuns(b.text, others)
    ensures Similar(ws, a, b) <==> (a.text == b.text
      || (ws && Texts(a.text, runs) == Texts(b.text, others) && (runs != [] ==> Begins(a.text) == Begins(b.text))))
  {
    hide IsRuns, WSInvariant, Begins, Texts;
    SameInvariant(a.text, runs, b.text, others);
  }

  /** Each old line has a similar new line; the new text may go on. */
  predicate AllSimilar(ws: bool, olds: seq<Line>, news: seq<Line>) {
    |olds| <= |news| && forall i :: 0 <= i < |olds| ==> Similar(ws, olds[i], news[i])
  }

  /** Compares two lines; None if they differ by more than blanks, else whether they differ. */
  method CompareLines(ws: bool, oldLine: string, newLine: string) returns (wsChange: Option<bool>)
    ensures wsChange == if oldLine == newLine then Some(false)
      else if ws && WSInvariant(oldLine) == WSInvariant(newLine) then Some(true) else None
  {
    if |oldLine| != |newLine| {
      var same := CompareWSInvariant(oldLine, newLine);
      return if !ws || !same then None else Some(true);
    }
    var i := 0;
    while i < |oldLine|
      invariant i <= |oldLine| && oldLine[..i] == newLine[..i]
    {
      if oldLine[i] != newLine[i] {
        var same := CompareWSInvariant(oldLine, newLine);
        return if ws && same then Some(true) else None;
      }
      i := i + 1;
    }
    assert oldLine[..|oldLine|] == oldLine && newLine[..|oldLine|] == newLine;
    wsChange := Some(false);
  }

  method CompareWSInvariant(oldLine: string, newLine: string) returns (same: bool)
    ensures same == (WSInvariant(oldLine) == WSInvariant(newLine))
  {
    var a := WSInvariantString(oldLine);
    var b := WSInvariantString(newLine);
    same := a == b;
  }

  lemma PrintStep(lines: seq<Line>)
    ensures Print(lines) == if lines == [] then "" else lines[0].text + Ending(lines[0].ending) + Print(lines[1..])
    ensures Print([]) == ""
  {
  }

  lemma {:induction false} PrintSnoc(lines: seq<Line>, l: Line)
    ensures Print(lines + [l]) == Print(lines) + l.text + Ending(l.ending)
  {
    hide Print, Ending;
    PrintStep(lines + [l]);
    PrintStep(lines);
    if lines == [] {
      assert [l][1..] == [];
    } else {
      PrintSnoc(lines[1..], l);
      assert (lines + [l])[1..] == lines[1..] + [l];
      var first, rest, last := lines[0].text + Ending(lines[0].ending), Print(lines[1..]), Ending(l.ending);
      assert first + (rest + l.text + last) == first + rest + l.text + last;
    }
  }

  /** The first n lines have been compared and written. */
  ghost predicate Checked(ws: bool, olds: seq<Line>, news: seq<Line>, n: nat, sb: string, differs: bool) {
    && n <= |olds| && n <= |news| && sb == Print(olds[..n])
    && (forall i :: 0 <= i < n ==> Similar(ws, olds[i], news[i]))
    && (differs <==> exists i :: 0 <= i < n && olds[i] != news[i])
  }

  lemma CheckedStep(ws: bool, olds: seq<Line>, news: seq<Line>, n: nat, sb: string, differs: bool)
    requires Checked(ws, olds, news, n, sb, differs) && n < |olds| && n < |news|
    ensures Similar(ws, olds[n], news[n]) ==>
      Checked(ws, olds, news, n + 1, sb + olds[n].text + Ending(olds[n].ending), differs || olds[n] != news[n])
  {
    hide Print, Similar;
    PrintSnoc(olds[..n], olds[n]);
    assert olds[..n + 1] == olds[..n] + [olds[n]];
  }

  lemma CheckedAll(ws: bool, olds: seq<Line>, news: seq<Line>, sb: string, differs: bool)
    requires Checked(ws, olds, news, |olds|, sb, differs)
    ensures AllSimilar(ws, olds, news) && sb == Print(olds)
    ensures differs <==> exists i :: 0 <= i < |olds| && olds[i] != news[i]
  {
    assert olds[..|olds|] == olds;
  }

  lemma EndingText(e: LineEndingType)
    ensures Ending(e) == if e == CR then "\r" else if e == CRLF then "\r\n" else if e == LF then "\n" else ""
  {
  }

  /** One turn of the loop: compares the current lines and gives the old one with its ending. */
  method CheckLine(oldCursor: LineEndingCursor, newCursor: LineEndingCursor, ws: bool)
    returns (same: bool, leChange: bool, wsChange: bool, text: string)
    requires oldCursor.OnLine() && newCursor.OnLine()
    ensures same == Similar(ws, oldCursor.Current(), newCursor.Current())
    ensures same ==> (leChange || wsChange) == (oldCursor.Current() != newCursor.Current())
    ensures same ==> text == oldCursor.Current().text + Ending(oldCursor.Current().ending)
  {
    hide WSInvariant, Ending, EndingAt;
    var oldLE := oldCursor.LineEnding();
    var newLE := newCursor.LineEnding();
    var oldLine := oldCursor.LineText();
    var newLine := newCursor.LineText();
    var change := CompareLines(ws, oldLine, newLine);
    same, leChange, wsChange, text := change.Some?, oldLE != newLE, false, "";
    if change.None? { return; }
    wsChange := change.value;
    EndingText(oldLE);
    var newline := if oldLE == CR then "\r" else if oldLE == CRLF then "\r\n" else if oldLE == LF then "\n" else "";
    text := oldLine + newline;
  }

  /** NewLineCheckFast: whether the new text has the old lines, up to reverted changes; and, if there
      is something to revert, the text to write, which is the old text. */
  method NewLineCheckFast(newString: string, oldString: string, ws: bool)
    returns (result: bool, resultString: Option<string>)
    ensures result == AllSimilar(ws, Lines(oldString), Lines(newString))
    ensures resultString.Some? ==> resultString.value == oldString
    ensures resultString.Some? <==> result && exists i ::
      0 <= i < |Lines(oldString)| && Lines(oldString)[i] != Lines(newString)[i]
  {
    hide Lines, Print, WSInvariant, Checked, Ending, EndingAt;
    ghost var olds, news := Lines(oldString), Lines(newString);
    var oldCursor := new LineEndingCursor(oldString);
    var newCursor := new LineEndingCursor(newString);
    assert oldString[0..] == oldString && newString[0..] == newString;
    PrintLines(oldString);
    var sb, updatedLines, wsChange := "", false, false;
    ghost var n := 0;
    NothingChecked(ws, olds, news);
    result, resultString := false, None;
    while true
      invariant oldCursor.nextStart <= |oldString| && newCursor.nextStart <= |newString|
      invariant n <= |olds| && oldCursor.Ahead() == olds[n..] && n <= |news| && newCursor.Ahead() == news[n..]
      invariant Checked(ws, olds, news, n, sb, updatedLines || wsChange)
      decreases |olds| - n
    {
      var moved := oldCursor.NextLine();
      if !moved { break; }
      moved := newCursor.NextLine();
      if !moved { return; }
      assert olds[n] == oldCursor.Current() && news[n] == newCursor.Current();
      CheckedStep(ws, olds, news, n, sb, updatedLines || wsChange);
      assert sb + (olds[n].text + Ending(olds[n].ending)) == sb + olds[n].text + Ending(olds[n].ending);
      var same, leChange, change, text := CheckLine(oldCursor, newCursor, ws);
      if !same { return; }
      if change { wsChange := true; }
      if leChange { updatedLines := true; }
      sb := sb + text;
      n := n + 1;
    }
    CheckedAll(ws, olds, news, sb, updatedLines || wsChange);
    if updatedLines || wsChange { resultString := Some(sb); }
    result := true;
  }

  lemma NothingChecked(ws: bool, olds: seq<Line>, news: seq<Line>)
    ensures Checked(ws, olds, news, 0, "", false)
  {
  }

  // ----- unification

  datatype Options = Options(crlf: bool, lf: bool, cr: bool)

  function Count(lines: seq<Line>, e: LineEndingType): nat {
    if lines == [] then 0 else Count(lines[..|lines| - 1], e) + if lines[|lines| - 1].ending == e then 1 else 0
  }

  /** Every line is counted once, under its own ending. */
  lemma {:induction false} CountAll(lines: seq<Line>)
    ensures Count(lines, CRLF) + Count(lines, LF) + Count(lines, CR) + Count(lines, EOF) == |lines|
    ensures forall e :: 0 < Count(lines, e) <==> exists i :: 0 <= i < |lines| && lines[i].ending == e
  {
    if lines != [] {
      var n := |lines| - 1;
      CountAll(lines[..n]);
      forall e ensures 0 < Count(lines, e) <==> exists i :: 0 <= i < |lines| && lines[i].ending == e {
        if 0 < Count(lines[..n], e) {
          var i :| 0 <= i < n && lines[..n][i].ending == e;
          assert lines[i].ending == e;
        }
        if exists i :: 0 <= i < |lines| && lines[i].ending == e {
          var i :| 0 <= i < |lines| && lines[i].ending == e;
          if i < n { assert lines[..n][i].ending == e; }
        }
      }
    }
  }

  /** The ending to set: the one asked for, or the most frequent. */
  function Target(options: Options, lines: seq<Line>): (e: LineEndingType)
    ensures e != EOF
  {
    if options.crlf then CRLF
    else if options.cr then CR
    else if options.lf then LF
    else
      var crlf, lf, cr := Count(lines, CRLF), Count(lines, LF), Count(lines, CR);
      if crlf > lf then (if crlf > cr then CRLF else CR) else (if lf > cr then LF else CR)
  }

  predicate Asked(options: Options) { options.crlf || options.cr || options.lf }

  /** No ending is more frequent than the chosen one, if none is asked for. */
  lemma TargetIsMostFrequent(options: Options, lines: seq<Line>, e: LineEndingType)
    requires !Asked(options) && e != EOF
    ensures Count(lines, e) <= Count(lines, Target(options, lines))
    ensures Count(lines, e) == Count(lines, Target(options, lines)) ==>
      e == Target(options, lines) || Target(options, lines) == CR || (e == CRLF && Target(options, lines) == LF)
  {
  }

  function Retargeted(lines: seq<Line>, e: LineEndingType): (r: seq<Line>)
    ensures |r| == |lines|
  {
    seq(|lines|, i requires 0 <= i < |lines| => if lines[i].ending == EOF then lines[i] else lines[i].(ending := e))
  }

  /** What the command writes, if anything. */
  ghost function Unified(options: Options, s: string): Option<string> {
    var e := Target(options, Lines(s));
    if Retargeted(Lines(s), e) == Lines(s) then None else Some(Print(Retargeted(Lines(s), e)))
  }

  lemma {:induction false} TokensRetargeted(lines: seq<Line>, e: LineEndingType)
    requires Tokens(lines) && e != EOF
    ensures Tokens(Retargeted(lines, e))
  {
    if lines != [] {
      TokensRetargeted(lines[1..], e);
      var a, b := Retargeted(lines, e)[1..], Retargeted(lines[1..], e);
      assert forall i :: 0 <= i < |b| ==> a[i] == b[i];
      assert a == b;
    }
  }

  /** Every newline character of the text belongs to an occurrence of this ending. */
  ghost predicate OnlyEnding(s: string, nl: string) {
    forall p :: 0 <= p < |s| && (s[p] == '\n' || s[p] == '\r') ==> InEnding(s, nl, p)
  }

  ghost predicate InEnding(s: string, nl: string, p: int) {
    exists q :: Occurs(s, nl, q) && q <= p < q + |nl|
  }

  ghost predicate Occurs(s: string, nl: string, q: int) {
    0 <= q && q + |nl| <= |s| && s[q..q + |nl|] == nl
  }

  lemma EndingShifted(a: string, s: string, nl: string, p: int)
    requires InEnding(s, nl, p)
    ensures InEnding(a + s, nl, |a| + p)
  {
    var q :| Occurs(s, nl, q) && q <= p < q + |nl|;
    assert (a + s)[|a| + q..|a| + q + |nl|] == nl;
    assert Occurs(a + s, nl, |a| + q);
  }

  /** One more line in front. */
  lemma LineInFront(text: string, end: string, rest: string, nl: string)
    requires forall i :: 0 <= i < |text| ==> text[i] != '\n' && text[i] != '\r'
    requires (end == nl || end == "") && OnlyEnding(rest, nl)
    ensures OnlyEnding(text + end + rest, nl)
  {
    var a := text + end;
    var s := a + rest;
    assert forall i :: 0 <= i < |text| ==> s[i] == text[i];
    forall p | 0 <= p < |s| && (s[p] == '\n' || s[p] == '\r') ensures InEnding(s, nl, p) {
      if |a| <= p {
        assert s[p] == rest[p - |a|];
        EndingShifted(a, rest, nl, p - |a|);
      } else {
        assert s[|text|..|text| + |nl|] == nl;
        assert Occurs(s, nl, |text|);
      }
    }
  }

  /** Lines that all have one ending print as a text that has no other. */
  lemma {:induction false} PrintsOnly(lines: seq<Line>, e: LineEndingType)
    requires Tokens(lines) && forall i :: 0 <= i < |lines| ==> lines[i].ending == e || lines[i].ending == EOF
    ensures OnlyEnding(Print(lines), Ending(e))
  {
    hide Print, OnlyEnding;
    PrintStep(lines);
    if lines == [] {
      NoEnding(Ending(e));
    } else {
      PrintsOnly(lines[1..], e);
      LineInFront(lines[0].text, Ending(lines[0].ending), Print(lines[1..]), Ending(e));
    }
  }

  lemma NoEnding(nl: string)
    ensures OnlyEnding("", nl)
  {
  }

  /** The text after the command. */
  ghost function After(options: Options, s: string): string {
    if Unified(options, s).Some? then Unified(options, s).value else s
  }

  /** It has the lines of the text before, and no ending but one. */
  lemma OneEnding(options: Options, s: string)
    ensures OnlyEnding(After(options, s), Ending(Target(options, Lines(s))))
    ensures |Lines(After(options, s))| == |Lines(s)|
    ensures forall i :: 0 <= i < |Lines(s)| ==>
      && Lines(After(options, s))[i].text == Lines(s)[i].text
      && (Lines(After(options, s))[i].ending == EOF <==> Lines(s)[i].ending == EOF)
  {
    hide Lines, Print, Tokens, OnlyEnding, Ending, Target;
    var lines, e := Lines(s), Target(options, Lines(s));
    var t := Retargeted(lines, e);
    PrintLines(s);
    TokensRetargeted(lines, e);
    TokensRead(t);
    PrintsOnly(t, e);
  }

  /** With an option that is set, that ending is the one asked for, CRLF before CR before LF. */
  lemma AskedEnding(options: Options, s: string)
    requires Asked(options)
    ensures OnlyEnding(After(options, s), if options.crlf then "\r\n" else if options.cr then "\r" else "\n")
  {
    hide Lines, OnlyEnding, After;
    OneEnding(options, s);
    EndingText(Target(options, Lines(s)));
  }

  /** The written text has the same lines, all with the ending set; and running again changes nothing. */
  lemma UnifiedIsNormal(options: Options, s: string)
    requires Unified(options, s).Some?
    ensures var e := Target(options, Lines(s)); var r := Unified(options, s).value;
      && Lines(r) == Retargeted(Lines(s), e) && Target(options, Lines(r)) == e && Unified(options, r) == None
  {
    hide Lines, Print, Tokens;
    var lines := Lines(s);
    var e := Target(options, lines);
    var t := Retargeted(lines, e);
    PrintLines(s);
    TokensRetargeted(lines, e);
    TokensRead(t);
    assert Retargeted(t, e) == t;
    if !Asked(options) { TargetStays(lines, e); }
  }

  lemma {:induction false} CountRetargeted(lines: seq<Line>, e: LineEndingType, f: LineEndingType)
    requires e != EOF && f != EOF
    ensures Count(Retargeted(lines, e), f)
         == if f == e then Count(lines, CRLF) + Count(lines, LF) + Count(lines, CR) else 0
  {
    if lines != [] {
      var n := |lines| - 1;
      CountRetargeted(lines[..n], e, f);
      assert Retargeted(lines, e)[..n] == Retargeted(lines[..n], e);
    }
  }

  lemma TargetStays(lines: seq<Line>, e: LineEndingType)
    requires e == Target(Options(false, false, false), lines) && Retargeted(lines, e) != lines
    ensures Target(Options(false, false, false), Retargeted(lines, e)) == e
  {
    CountRetargeted(lines, e, CRLF);
    CountRetargeted(lines, e, LF);
    CountRetargeted(lines, e, CR);
    if Count(lines, CRLF) + Count(lines, LF) + Count(lines, CR) == 0 { NoEndings(lines, e); }
  }

  lemma {:induction false} NoEndings(lines: seq<Line>, e: LineEndingType)
    requires Count(lines, CRLF) + Count(lines, LF) + Count(lines, CR) == 0
    ensures Retargeted(lines, e) == lines
  {
    if lines == [] {
    } else {
      var n := |lines| - 1;
      assert lines[n].ending == EOF;
      hide Count, Retargeted;
      CountPrefix(lines);
      NoEndings(lines[..n], e);
      RetargetedSnoc(lines[..n], lines[n], e);
      assert lines == lines[..n] + [lines[n]];
    }
  }

  lemma CountPrefix(lines: seq<Line>)
    requires lines != []
    ensures forall e :: Count(lines[..|lines| - 1], e) <= Count(lines, e)
  {
  }

  lemma RetargetedSnoc(lines: seq<Line>, l: Line, e: LineEndingType)
    ensures Retargeted(lines + [l], e) == Retargeted(lines, e) + [if l.ending == EOF then l else l.(ending := e)]
  {
    var a, b := Retargeted(lines + [l], e), Retargeted(lines, e) + [if l.ending == EOF then l else l.(ending := e)];
    assert forall i :: 0 <= i < |b| ==> a[i] == b[i];
  }

  /** The counting loop. */
  method CountEndings(fullText: string) returns (leTypes: array<nat>)
    ensures fresh(leTypes) && leTypes.Length == 3
    ensures leTypes[0] == Count(Lines(fullText), CRLF) && leTypes[1] == Count(Lines(fullText), LF)
    ensures leTypes[2] == Count(Lines(fullText), CR)
  {
    hide Lines;
    leTypes := new nat[3](_ => 0);
    ghost var lines, n := Lines(fullText), 0;
    var cursor := new LineEndingCursor(fullText);
    assert fullText[0..] == fullText;
    while true
      invariant cursor.nextStart <= |fullText| && n <= |lines| && cursor.Ahead() == lines[n..]
      invariant leTypes[0] == Count(lines[..n], CRLF) && leTypes[1] == Count(lines[..n], LF)
      invariant leTypes[2] == Count(lines[..n], CR)
      decreases |lines| - n
    {
      var moved := cursor.NextLine();
      if !moved { break; }
      assert lines[n] == cursor.Current();
      assert lines[..n + 1][..n] == lines[..n];
      var leType := cursor.LineEnding();
      if leType != EOF {
        var k := match leType case CRLF => 0 case LF => 1 case _ => 2;
        leTypes[k] := leTypes[k] + 1;
      }
      n := n + 1;
    }
    assert lines[..n] == lines;
  }

  /** UnifyLineEndings */
  method UnifyLineEndings(fullText: string, options: Options)
    returns (updated: bool, resultString: Option<string>, let: LineEndingType)
    ensures let == Target(options, Lines(fullText))
    ensures resultString == Unified(options, fullText) && updated == resultString.Some?
    ensures OnlyEnding(if updated then resultString.value else fullText,
      if options.crlf then "\r\n" else if options.cr then "\r" else if options.lf then "\n" else Ending(let))
  {
    OneEnding(options, fullText);
    if Asked(options) { AskedEnding(options, fullText); }
    hide Lines, Print, OnlyEnding;
    resultString := None;
    if options.crlf {
      let := CRLF;
    } else if options.cr {
      let := CR;
    } else if options.lf {
      let := LF;
    } else {
      var leTypes := CountEndings(fullText);
      if leTypes[0] > leTypes[1] {
        let := if leTypes[0] > leTypes[2] then CRLF else CR;
      } else {
        let := if leTypes[1] > leTypes[2] then LF else CR;
      }
      var kinds := (if leTypes[0] > 0 then 1 else 0) + (if leTypes[1] > 0 then 1 else 0)
        + (if leTypes[2] > 0 then 1 else 0);
      if kinds < 2 {
        OneKind(Lines(fullText), let);
        updated := false;
        return;
      }
    }
    var sb;
    updated, sb := Rewrite(fullText, let);
    if updated { resultString := Some(sb); }
  }

  /** If no other ending occurs, there is nothing to do. */
  lemma {:induction false} OneKind(lines: seq<Line>, e: LineEndingType)
    requires forall f :: f != e && f != EOF ==> Count(lines, f) == 0
    ensures Retargeted(lines, e) == lines
  {
    if lines == [] {
    } else {
      var n := |lines| - 1;
      assert Count(lines, lines[n].ending) > 0;
      hide Count, Retargeted;
      CountPrefix(lines);
      forall f | f != e && f != EOF ensures Count(lines[..n], f) == 0 { assert Count(lines, f) == 0; }
      OneKind(lines[..n], e);
      RetargetedSnoc(lines[..n], lines[n], e);
      assert lines == lines[..n] + [lines[n]];
    }
  }

  /** The first n lines have been written with the ending e. */
  ghost predicate Written(lines: seq<Line>, e: LineEndingType, n: nat, sb: string, updated: bool) {
    && n <= |lines| && sb == Print(Retargeted(lines, e)[..n]) && updated == (Retargeted(lines, e)[..n] != lines[..n])
  }

  lemma WrittenStep(lines: seq<Line>, e: LineEndingType, n: nat, sb: string, updated: bool)
    requires Written(lines, e, n, sb, updated) && n < |lines|
    ensures var f := lines[n].ending;
      var sb' := sb + lines[n].text + Ending(if f == EOF then EOF else e);
      Written(lines, e, n + 1, sb', updated || (f != EOF && f != e))
  {
    hide Print;
    var r := Retargeted(lines, e);
    PrintSnoc(r[..n], r[n]);
    assert r[..n + 1] == r[..n] + [r[n]] && lines[..n + 1] == lines[..n] + [lines[n]];
    if r[..n] == lines[..n] && r[n] == lines[n] { assert r[..n + 1] == lines[..n + 1]; }
    assert r[..n + 1][..n] == r[..n] && lines[..n + 1][..n] == lines[..n];
    assert r[..n + 1][n] == r[n] && lines[..n + 1][n] == lines[n];
  }

  lemma WrittenAll(lines: seq<Line>, e: LineEndingType, sb: string, updated: bool)
    requires Written(lines, e, |lines|, sb, updated)
    ensures sb == Print(Retargeted(lines, e)) && updated == (Retargeted(lines, e) != lines)
  {
    assert lines[..|lines|] == lines && Retargeted(lines, e)[..|lines|] == Retargeted(lines, e);
  }

  lemma NothingWritten(lines: seq<Line>, e: LineEndingType)
    ensures Written(lines, e, 0, "", false)
  {
    PrintNothing();
  }

  /** The loop that writes every line with the ending set. */
  method Rewrite(fullText: string, let: LineEndingType) returns (updatedLines: bool, sb: string)
    requires let != EOF
    ensures sb == Print(Retargeted(Lines(fullText), let))
    ensures updatedLines == (Retargeted(Lines(fullText), let) != Lines(fullText))
  {
    hide Lines, Print, Written, Ending, EndingAt, Retargeted, Tokens;
    ghost var lines, n := Lines(fullText), 0;
    var cursor := new LineEndingCursor(fullText);
    assert fullText[0..] == fullText;
    PrintLines(fullText);
    updatedLines, sb := false, "";
    NothingWritten(lines, let);
    while true
      invariant cursor.nextStart <= |fullText| && n <= |lines| && cursor.Ahead() == lines[n..]
      invariant Written(lines, let, n, sb, updatedLines)
      decreases |lines| - n
    {
      var moved := cursor.NextLine();
      if !moved { break; }
      assert lines[n] == cursor.Current();
      WrittenStep(lines, let, n, sb, updatedLines);
      var le := cursor.LineEnding();
      var line := cursor.LineText();
      sb := sb + line;
      n := n + 1;
      EndingText(EOF);
      EndingText(let);
      if le == EOF {
        LastLine(lines, n - 1);
        assert sb + "" == sb;
        break;
      }
      if le != let { updatedLines := true; }
      sb := sb + (if let == CR then "\r" else if let == CRLF then "\r\n" else "\n");
    }
    WrittenAll(lines, let, sb, updatedLines);
  }

  /** A line without an ending is the last. */
  lemma {:induction false} LastLine(lines: seq<Line>, k: nat)
    requires Tokens(lines) && k < |lines| && lines[k].ending == EOF
    ensures k == |lines| - 1
  {
    if k > 0 { LastLine(lines[1..], k - 1); }
  }
}
