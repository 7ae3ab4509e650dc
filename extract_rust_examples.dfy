/**
 * The extractor on particular inputs: the placeholder program, which comes
 * back unchanged, and a few worked examples of each strategy.
 */
module ExtractRustExamples {
  import opened PyStrings
  import opened FenceMatch
  import opened ExtractRust

  /** None of the characters that make a stop line. */
  predicate NotStopChar(c: char)
  {
    c != '`' && c != '#' && c != '*'
  }

  /** A line whose first non-whitespace character, at `i`, cannot begin a stop line. */
  lemma NotStopLine(line: string, i: nat)
    requires i < |line| && !IsWs(line[i]) && forall j :: 0 <= j < i ==> IsWs(line[j])
    requires NotStopChar(line[i])
    ensures !IsStopLine(line)
  {
    StripStartsAt(line, i);
    var t := Strip(line);
    assert t[0] == t[..1][0];
    if |t| >= 3 {
      assert t[0] == t[..3][0];
    }
  }

  /** Text without a backtick goes past both fence patterns. */
  lemma NoBacktickNoFence(s: string)
    requires '`' !in s
    ensures FenceCascade(s, 0).None?
    ensures Extract(s) == AfterFences(s)
  {
    NoMarkerNoMatch(s, RustMarker);
    NoMarkerNoMatch(s, FenceMarker);
  }

  /** A line holding trigger keyword `k` at offset `o` starts the line scan. */
  lemma TriggeredAt(line: string, k: nat, o: nat)
    requires k < |TriggerKeywords| && OccursAt(line, o, TriggerKeywords[k])
    ensures HasTrigger(line)
  {
  }

  /** A line whose first non-whitespace character is `#` stops the line scan. */
  lemma HashStops(line: string)
    requires line != [] && line[0] == '#'
    ensures IsStopLine(line)
  {
    StripStartsAt(line, 0);
    var t := Strip(line);
    assert t[..1] == "#";
  }

  /**
   * Text whose first line triggers the scan and which has no stop line
   * comes back stripped. Such text has no closing fence, so neither fence
   * pattern matches.
   */
  lemma AllCapturedGivesStrip(s: string)
    requires HasTrigger(Split(s)[0])
    requires forall x :: 0 <= x < |Split(s)| ==> !IsStopLine(Split(s)[x])
    ensures Extract(s) == Strip(s)
  {
    var lines := Split(s);
    CapturedRunIsFirstTriggeredRun(lines, 0, |lines|);
    assert lines[0..|lines|] == lines;
    NoStopLineNoFence(s);
    JoinSplit(s);
  }

  /**
   * Text on which neither fence pattern yields code, whose line scan
   * captures nothing and that holds a fallback keyword comes back stripped.
   */
  lemma FallbackGivesStrip(s: string, k: nat, o: nat)
    requires FenceCascade(s, 0).None?
    requires CapturedRun(Split(s)) == []
    requires k < |FallbackKeywords| && OccursAt(s, o, FallbackKeywords[k])
    ensures Extract(s) == Strip(s)
  {
    assert Contains(s, FallbackKeywords[k]);
    assert AfterFences(s) == Strip(s);
  }

  /** The three lines of the placeholder program. */
  function PlaceholderLines(): (lines: seq<string>)
    ensures |lines| == 3 && NoNewlines(lines)
  {
    ["fn main() {", "    println!(\"Hello, world!\");", "}"]
  }

  /** The three lines joined give the placeholder. */
  lemma PlaceholderJoins()
    ensures Join(PlaceholderLines()) == Placeholder
  {
    var lines := PlaceholderLines();
    JoinCons(lines[0], lines[1..]);
    JoinCons(lines[1], lines[2..]);
    assert lines[1..][1..] == lines[2..];
    assert Join(lines[2..]) == "}";
    PlaceholderIsThreeLines();
  }

  /** The placeholder is its three lines with a newline between each two. */
  lemma PlaceholderIsThreeLines()
    ensures "fn main() {" + "\n" + "    println!(\"Hello, world!\");" + "\n" + "}" == Placeholder
  {
  }

  /** The placeholder splits into its three lines. */
  lemma PlaceholderSplits()
    ensures Split(Placeholder) == PlaceholderLines()
  {
    PlaceholderJoins();
    SplitJoin(PlaceholderLines());
  }

  /** No line of the placeholder stops the line scan. */
  lemma PlaceholderHasNoStopLine()
    ensures forall x :: 0 <= x < |PlaceholderLines()| ==> !IsStopLine(PlaceholderLines()[x])
  {
    var lines := PlaceholderLines();
    forall x | 0 <= x < |lines| ensures !IsStopLine(lines[x]) {
      NotStopLine(lines[x], if x == 1 then 4 else 0);
    }
  }

  /** The first line of the placeholder triggers the line scan. */
  lemma PlaceholderTriggers()
    ensures HasTrigger(PlaceholderLines()[0])
  {
    TriggeredAt(PlaceholderLines()[0], 0, 0);
  }

  /** The line scan returns the placeholder stripped. */
  lemma PlaceholderScansToStrip()
    ensures Extract(Placeholder) == Strip(Placeholder)
  {
    PlaceholderSplits();
    PlaceholderTriggers();
    PlaceholderHasNoStopLine();
    AllCapturedGivesStrip(Placeholder);
  }

  /** The placeholder is its own strip. */
  lemma PlaceholderIsTrimmed()
    ensures Strip(Placeholder) == Placeholder
  {
    assert !IsWs(Placeholder[0]) && !IsWs(Placeholder[|Placeholder| - 1]);
    TrimmedIsOwnStrip(Placeholder);
  }

  /**
   * The placeholder is a fixed point: it holds no fence, its first line
   * triggers the line scan, none of its lines stops it, and the three
   * captured lines join back to the placeholder. The whole-input fallback
   * and the placeholder branch are never reached.
   */
  lemma PlaceholderIsFixedPoint()
    ensures Extract(Placeholder) == Placeholder
  {
    PlaceholderScansToStrip();
    PlaceholderIsTrimmed();
  }

  /** The code inside the fenced block of `Answer`. */
  const AnswerCode: string := "fn main() {}"

  /** The prose before the block of `Answer`. */
  const AnswerIntro: string := "Here is code:\n"

  /** A fenced answer with prose around it: "Here is code:\n```rust\nfn main() {}\n```\nThanks". */
  const Answer: string := AnswerIntro + RustMarker + "\n" + AnswerCode + Closer + "\nThanks"

  /** The block of `Answer` opens at 14, its newline is at 21 and it closes at 34. */
  const AnswerMatch: Match := Match(14, 21, 34)

  lemma AnswerLayout()
    ensures |Answer| == 45
    ensures OccursAt(Answer, 14, RustMarker) && Answer[21] == '\n' && CloseAt(Answer, 34)
    ensures Answer[22..34] == AnswerCode
  {
    var a := AnswerIntro + RustMarker;
    var b := a + "\n" + AnswerCode;
    assert Answer == b + (Closer + "\nThanks");
    assert Answer[..|b|] == b;
    assert b[..|a|] == a;
    assert a[14..21] == RustMarker;
    assert Answer[14..21] == b[14..21] == a[14..21];
    assert b[22..34] == AnswerCode;
    assert Answer[34..38] == Closer;
  }

  lemma AnswerProseHasNoBacktick()
    ensures forall p :: 0 <= p < 14 ==> Answer[p] != '`'
  {
    assert Answer[..14] == AnswerIntro;
    forall p | 0 <= p < 14 ensures Answer[p] != '`' {
      assert Answer[p] == Answer[..14][p];
    }
  }

  lemma AnswerCodeHasNoNewline()
    ensures forall q :: 22 <= q < 34 ==> Answer[q] != '\n'
  {
    AnswerLayout();
    forall q | 22 <= q < 34 ensures Answer[q] != '\n' {
      assert Answer[q] == AnswerCode[q - 22];
    }
  }

  /** `Answer` has a match of the rust pattern, and it is the one Python picks. */
  lemma AnswerIsReMatch()
    ensures IsReMatch(Answer, RustMarker, AnswerMatch)
  {
    var s := Answer;
    AnswerLayout();
    AnswerProseHasNoBacktick();
    AnswerCodeHasNoNewline();
    assert IsMatch(s, RustMarker, 14, 21, 34);
    forall p: int, n: int, j: int | p < 14 ensures !IsMatch(s, RustMarker, p, n, j) {
      if IsMatch(s, RustMarker, p, n, j) {
        MatchStartsWithMarker(s, RustMarker, p, n, j);
      }
    }
    forall n: int, j: int | 21 < n ensures !IsMatch(s, RustMarker, 14, n, j) {
      if IsMatch(s, RustMarker, 14, n, j) {
        MatchGapIsWs(s, RustMarker, 14, n, j, 22);
      }
    }
    forall j: int | j < 34 ensures !IsMatch(s, RustMarker, 14, 21, j) {
      if IsMatch(s, RustMarker, 14, 21, j) {
        MatchClosesAtNewline(s, RustMarker, 14, 21, j);
      }
    }
  }

  /**
   * A body of one line with no whitespace at either end and no fence at
   * either end comes through the cleanup unchanged.
   */
  lemma CleanFenceKeepsPlainLine(body: string)
    requires NoNewline(body) && body != [] && !IsWs(body[0]) && !IsWs(body[|body| - 1])
    requires !StartsWith(body, FenceMarker) && !EndsWith(body, FenceMarker)
    ensures CleanFence(body) == body
  {
    TrimmedIsOwnStrip(body);
    assert NoNewlines([body]);
    SplitJoin([body]);
    assert BlankFenceLines(body) == body;
    assert DropTrailingFences(body) == body;
  }

  lemma AnswerCodeIsPlain()
    ensures NoNewline(AnswerCode) && !IsWs(AnswerCode[0]) && !IsWs(AnswerCode[|AnswerCode| - 1])
    ensures !StartsWith(AnswerCode, FenceMarker) && !EndsWith(AnswerCode, FenceMarker)
  {
    assert AnswerCode[..3][0] == 'f';
    assert AnswerCode[|AnswerCode| - 3..][2] == '}';
  }

  /** The rust block of `Answer` is extracted, without the prose around it. */
  lemma AnswerGivesItsCode()
    ensures Extract(Answer) == AnswerCode
  {
    AnswerCandidate();
    RustBlockWins(Answer);
    CandidateIsCleanedMatch(Answer, RustMarker);
  }

  /** The first match of the rust pattern in `Answer` is `AnswerMatch`. */
  lemma AnswerFirstMatch()
    ensures FirstMatch(Answer, RustMarker) == Some(AnswerMatch)
  {
    AnswerIsReMatch();
    var m := FirstMatch(Answer, RustMarker);
    assert m.Some?;
    ReMatchUnique(Answer, RustMarker, m.value, AnswerMatch);
  }

  /** The rust pattern's cleaned match in `Answer` is its code. */
  lemma AnswerCandidate()
    ensures Candidate(Answer, RustMarker) == Some(AnswerCode)
  {
    AnswerFirstMatch();
    AnswerLayout();
    assert Body(Answer, AnswerMatch) == AnswerCode;
    AnswerCodeIsPlain();
    CleanFenceKeepsPlainLine(AnswerCode);
  }

  /** Empty input gives the placeholder. */
  lemma EmptyInputGivesPlaceholder()
    ensures Extract("") == Placeholder
  {
    NoBacktickNoFence("");
    assert !ContainsAny("", TriggerKeywords);
    NoKeywordGivesPlaceholder("");
  }

  /** A comment line that mentions a keyword. */
  const HashLine: string := "# fn main"

  lemma HashLineIsOneLine()
    ensures Split(HashLine) == [HashLine]
  {
    assert NoNewlines([HashLine]);
    SplitJoin([HashLine]);
  }

  lemma HashLineHasNoBacktick()
    ensures '`' !in HashLine
  {
  }

  /** The single line `# fn main` is triggered and stopped at once. */
  lemma HashLineCapturesNothing()
    ensures CapturedRun(Split(HashLine)) == []
  {
    HashLineIsOneLine();
    TriggeredAt(HashLine, 0, 2);
    HashStops(HashLine);
    CapturedRunIsFirstTriggeredRun([HashLine], 0, 0);
  }

  lemma HashLineGivesStrip()
    ensures Extract(HashLine) == Strip(HashLine)
  {
    HashLineCapturesNothing();
    HashLineHasNoBacktick();
    NoBacktickNoFence(HashLine);
    HashLineHoldsFn();
    FallbackGivesStrip(HashLine, 0, 2);
  }

  /** `fn ` occurs in `# fn main` at offset 2. */
  lemma HashLineHoldsFn()
    ensures 0 < |FallbackKeywords| && OccursAt(HashLine, 2, FallbackKeywords[0])
  {
    assert FallbackKeywords[0] == "fn ";
    assert HashLine[2..5] == "fn ";
  }

  lemma HashLineIsTrimmed()
    ensures Strip(HashLine) == HashLine
  {
    TrimmedIsOwnStrip(HashLine);
  }

  /**
   * A `#` line that holds a keyword triggers the scan and stops it at once;
   * the whole-input fallback then returns the input itself.
   */
  lemma HashLineFallsBackToWholeInput()
    ensures Extract(HashLine) == HashLine
  {
    HashLineGivesStrip();
    HashLineIsTrimmed();
  }
}
