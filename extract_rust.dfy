/**
 * `extract_rust_code`: pull Rust source out of free-form model output.
 *
 * A fixed cascade, first success wins:
 *   1. the first ```` ```rust ```` fenced block, then the first bare ```` ``` ````
 *      block, each cleaned of stray fence lines and kept only if non-empty;
 *   2. a line scan that starts capturing at the first line holding a Rust
 *      keyword and stops before the first line whose stripped form starts
 *      with ```` ``` ````, `#` or `*`;
 *   3. the whole input, stripped, if it holds one of a shorter keyword list;
 *   4. a fixed Hello-world program.
 *
 * `Extract` is the cascade as a function of the input; `ExtractRustCode`
 * and `ScanLines` are the loops of the program, proved against it.
 */
module ExtractRust {
  import opened PyStrings
  import opened FenceMatch

  /** The fence patterns, by their opening marker, in the order they are tried. */
  const Patterns: seq<string> := [RustMarker, FenceMarker]

  /** Substrings that switch the line scan into capture mode. */
  const TriggerKeywords: seq<string> :=
    ["fn ", "use ", "mod ", "pub ", "struct ", "enum ", "impl ", "let ", "println!", "use std::"]

  /** Substrings that make the whole input count as code. */
  const FallbackKeywords: seq<string> :=
    ["fn ", "use ", "mod ", "pub ", "struct ", "enum ", "impl "]

  /** The program returned when nothing else applies. */
  const Placeholder: string := "fn main() {\n    println!(\"Hello, world!\");\n}"

  // ------------------------------------------------------- fence cleanup

  /** What `^```.*$` (multi-line) does to one line: a line opening with a fence becomes empty. */
  function BlankFenceLine(line: string): string
  {
    if StartsWith(line, FenceMarker) then "" else line
  }

  /** What `````$` (multi-line) does to one line: a fence that ends the line is cut off. */
  function DropTrailingFence(line: string): (r: string)
    ensures |r| <= |line| && r == line[..|r|]
  {
    if EndsWith(line, FenceMarker) then line[..|line| - |FenceMarker|] else line
  }

  /**
   * `re.sub(r'^```.*$', '', code, flags=re.MULTILINE)`. Without DOTALL, `.`
   * stops at '\n', and `^`/`$` sit at line boundaries, so each line is
   * rewritten on its own.
   */
  function BlankFenceLines(code: string): (r: string)
    ensures |Split(r)| == |Split(code)|
    ensures forall i :: 0 <= i < |Split(code)| ==> Split(r)[i] == BlankFenceLine(Split(code)[i])
  {
    var lines := Split(code);
    var blanked := seq(|lines|, i requires 0 <= i < |lines| => BlankFenceLine(lines[i]));
    SplitHasNoNewlines(code);
    assert NoNewlines(blanked);
    SplitJoin(blanked);
    Join(blanked)
  }

  /** `re.sub(r'```$', '', code, flags=re.MULTILINE)`, again line by line. */
  function DropTrailingFences(code: string): (r: string)
    ensures |Split(r)| == |Split(code)|
    ensures forall i :: 0 <= i < |Split(code)| ==> Split(r)[i] == DropTrailingFence(Split(code)[i])
  {
    var lines := Split(code);
    var dropped := seq(|lines|, i requires 0 <= i < |lines| => DropTrailingFence(lines[i]));
    SplitHasNoNewlines(code);
    assert NoNewlines(dropped);
    SplitJoin(dropped);
    Join(dropped)
  }

  /**
   * The cleanup applied to group 1 of a fence match: strip, the two
   * substitutions, strip again. The result has no whitespace at either
   * end, and a body of whitespace only cleans to nothing.
   */
  function CleanFence(body: string): (code: string)
    ensures code != [] ==> !IsWs(code[0]) && !IsWs(code[|code| - 1])
    ensures Strip(code) == code
    ensures AllWs(body) ==> code == []
  {
    var code := Strip(DropTrailingFences(BlankFenceLines(Strip(body))));
    StripIdempotent(DropTrailingFences(BlankFenceLines(Strip(body))));
    StripEmptyIffBlank(body);
    assert AllWs(body) ==> Split(Strip(body)) == [""];
    code
  }

  /** The cleaned first match of one fence pattern, or None when the pattern does not match. */
  function Candidate(s: string, marker: string): Option<string>
  {
    match FirstMatch(s, marker)
    case None => None
    case Some(m) => Some(CleanFence(Body(s, m)))
  }

  /** A pattern succeeds when it matches and its cleaned match is not empty. */
  predicate Succeeds(s: string, marker: string)
  {
    Candidate(s, marker).Some? && Candidate(s, marker).value != []
  }

  /** Non-empty, with no whitespace at either end. */
  predicate Trimmed(t: string)
  {
    t != [] && !IsWs(t[0]) && !IsWs(t[|t| - 1])
  }

  /** What a pattern that succeeds yields has no whitespace at either end. */
  lemma SucceedsTrimmed(s: string, marker: string)
    requires Succeeds(s, marker)
    ensures Trimmed(Candidate(s, marker).value)
  {
    CandidateIsCleanedMatch(s, marker);
  }

  /**
   * The fence patterns from `Patterns[i]` on, tried in order: the cleaned
   * match of the first that succeeds (`FenceCascadePicksFirst`), or nothing
   * when none does. What it yields is never empty and has no whitespace at
   * either end.
   */
  function FenceCascade(s: string, i: nat): (r: Option<string>)
    requires i <= |Patterns|
    ensures r.None? <==> forall k :: i <= k < |Patterns| ==> !Succeeds(s, Patterns[k])
    ensures r.Some? ==> Trimmed(r.value)
    decreases |Patterns| - i
  {
    if i == |Patterns| then None
    else if Succeeds(s, Patterns[i]) then SucceedsTrimmed(s, Patterns[i]); Candidate(s, Patterns[i])
    else NoneSucceedStep(s, i); FenceCascade(s, i + 1)
  }

  /** No pattern from `i` on succeeds iff `Patterns[i]` does not and none from `i + 1` on does. */
  lemma NoneSucceedStep(s: string, i: nat)
    requires i < |Patterns|
    ensures (forall k :: i <= k < |Patterns| ==> !Succeeds(s, Patterns[k])) <==>
            !Succeeds(s, Patterns[i]) && forall k :: i + 1 <= k < |Patterns| ==> !Succeeds(s, Patterns[k])
  {
  }

  /** The cascade yields the cleaned match of the first pattern, at or after `i`, that succeeds. */
  lemma {:induction false} FenceCascadePicksFirst(s: string, i: nat, k: nat)
    requires i <= k < |Patterns| && Succeeds(s, Patterns[k])
    requires forall j :: i <= j < k ==> !Succeeds(s, Patterns[j])
    ensures FenceCascade(s, i) == Candidate(s, Patterns[k])
    decreases k - i
  {
    if i < k {
      assert !Succeeds(s, Patterns[i]);
      assert FenceCascade(s, i) == FenceCascade(s, i + 1);
      FenceCascadePicksFirst(s, i + 1, k);
    } else {
      assert FenceCascade(s, i) == Candidate(s, Patterns[k]);
    }
  }

  // ------------------------------------------------------ keyword line scan

  /** The line holds one of the keywords that start capture; such a line is not blank. */
  predicate HasTrigger(line: string)
    ensures HasTrigger(line) ==> !AllWs(line)
  {
    if ContainsAny(line, TriggerKeywords) then TriggerLineNotBlank(line); true else false
  }

  /** The stripped line starts with a fence, a `#` or a `*`: capture stops before it. Such a line is not blank. */
  predicate IsStopLine(line: string)
    ensures IsStopLine(line) ==> !AllWs(line)
  {
    var t := Strip(line);
    StripEmptyIffBlank(line);
    StartsWith(t, FenceMarker) || StartsWith(t, "#") || StartsWith(t, "*")
  }

  /** A line that opens with a fence is a stop line. */
  lemma FenceLineStops(line: string)
    requires StartsWith(line, FenceMarker)
    ensures IsStopLine(line)
  {
    assert line[0] == line[..3][0] && line[2] == line[..3][2];
    var lo := LeadingWs(line);
    assert lo == 0;
    var hi := TrailingEnd(line, lo);
    assert hi > 2;
    assert Strip(line)[..3] == line[..3];
  }

  /** The line after a closing fence `\n```` opens with a fence, so it is a stop line. */
  lemma CloserStartsStopLine(s: string, j: nat) returns (x: nat)
    requires CloseAt(s, j)
    ensures x < |Split(s)| && IsStopLine(Split(s)[x])
  {
    assert s[j] == s[j..j + |Closer|][0];
    assert s[j + 1..j + 4] == FenceMarker by {
      assert s[j + 1..j + 4] == s[j..j + |Closer|][1..];
    }
    LineAfterNewline(s, j);
    x :| 0 <= x < |Split(s)| && Split(s)[x] == LineAfter(s, j);
    LineAfterFence(s, j);
    FenceLineStops(Split(s)[x]);
  }

  /** When a fence follows the newline at `j`, the line after it opens with that fence. */
  lemma LineAfterFence(s: string, j: nat)
    requires j + 4 <= |s| && s[j + 1..j + 4] == FenceMarker
    ensures StartsWith(LineAfter(s, j), FenceMarker)
  {
    forall k | j + 1 <= k < j + 4 ensures s[k] != '\n' {
      assert s[k] == s[j + 1..j + 4][k - j - 1];
    }
    assert NewlineFrom(s, j + 1) >= j + 4;
    assert LineAfter(s, j)[..3] == s[j + 1..j + 4];
  }

  /**
   * Text none of whose lines is a stop line holds no closing fence, so
   * neither fence pattern matches and the cascade goes past both.
   */
  lemma NoStopLineNoFence(s: string)
    requires forall x :: 0 <= x < |Split(s)| ==> !IsStopLine(Split(s)[x])
    ensures FenceCascade(s, 0).None?
  {
    forall j: nat | CloseAt(s, j) ensures false {
      var x := CloserStartsStopLine(s, j);
    }
  }

  /** The first line at or after `from` that holds a trigger keyword, or `|lines|`. */
  function FirstTrigger(lines: seq<string>, from: nat): (r: nat)
    requires from <= |lines|
    ensures from <= r <= |lines|
    ensures forall k :: from <= k < r ==> !HasTrigger(lines[k])
    ensures r < |lines| ==> HasTrigger(lines[r])
    decreases |lines| - from
  {
    if from == |lines| || HasTrigger(lines[from]) then from else FirstTrigger(lines, from + 1)
  }

  /** The first stop line at or after `from`, or `|lines|`. */
  function FirstStop(lines: seq<string>, from: nat): (r: nat)
    requires from <= |lines|
    ensures from <= r <= |lines|
    ensures forall k :: from <= k < r ==> !IsStopLine(lines[k])
    ensures r < |lines| ==> IsStopLine(lines[r])
    decreases |lines| - from
  {
    if from == |lines| || IsStopLine(lines[from]) then from else FirstStop(lines, from + 1)
  }

  /**
   * The lines the scan captures: from the first trigger line up to, not
   * including, the first stop line at or after it. Every captured line is
   * a non-stop line and the first one holds a trigger keyword.
   */
  function CapturedRun(lines: seq<string>): (r: seq<string>)
    ensures |r| <= |lines|
    ensures r != [] ==> HasTrigger(r[0])
    ensures forall k :: 0 <= k < |r| ==> !IsStopLine(r[k])
  {
    var t := FirstTrigger(lines, 0);
    if t == |lines| then [] else lines[t..FirstStop(lines, t)]
  }

  /**
   * What the scan knows after its first `i` lines: capture is on exactly
   * when the first trigger line has been seen, nothing is captured before
   * it, and from it on the captured lines are those read so far, none of
   * them a stop line.
   */
  ghost predicate ScanState(lines: seq<string>, i: nat, inCode: bool, rustLines: seq<string>)
    requires i <= |lines|
  {
    var t := FirstTrigger(lines, 0);
    && (inCode <==> t < i)
    && (!inCode ==> rustLines == [])
    && (inCode ==> i <= FirstStop(lines, t) && rustLines == lines[t..i])
  }

  /** Reading line `i` either stops the scan with the captured run complete or moves it on by one line. */
  lemma ScanStep(lines: seq<string>, i: nat, inCode: bool, rustLines: seq<string>)
    requires i < |lines| && ScanState(lines, i, inCode, rustLines)
    ensures var on := inCode || HasTrigger(lines[i]);
      && (on && IsStopLine(lines[i]) ==> rustLines == CapturedRun(lines))
      && (on && !IsStopLine(lines[i]) ==> ScanState(lines, i + 1, true, rustLines + [lines[i]]))
      && (!on ==> ScanState(lines, i + 1, false, rustLines))
  {
    var t := FirstTrigger(lines, 0);
    if inCode || HasTrigger(lines[i]) {
      assert t <= i;
      if IsStopLine(lines[i]) {
        ScanStops(lines, i, t, rustLines);
      } else {
        ScanCaptures(lines, i, t, rustLines);
      }
    }
  }

  /** A stop line met while capturing ends the run. */
  lemma ScanStops(lines: seq<string>, i: nat, t: nat, rustLines: seq<string>)
    requires t <= i < |lines| && t == FirstTrigger(lines, 0) && IsStopLine(lines[i])
    requires i <= FirstStop(lines, t) && rustLines == lines[t..i]
    ensures rustLines == CapturedRun(lines)
  {
    assert FirstStop(lines, t) == i;
  }

  /** A line that does not stop the capture is appended to it. */
  lemma ScanCaptures(lines: seq<string>, i: nat, t: nat, rustLines: seq<string>)
    requires t <= i < |lines| && t == FirstTrigger(lines, 0) && !IsStopLine(lines[i])
    requires i <= FirstStop(lines, t) && (t < i ==> rustLines == lines[t..i]) && (t == i ==> rustLines == [])
    ensures i + 1 <= FirstStop(lines, t) && rustLines + [lines[i]] == lines[t..i + 1]
  {
    assert FirstStop(lines, t) != i;
    SliceExtend(lines, t, i);
  }

  /** Extending a slice by one element appends that element. */
  lemma SliceExtend<T>(xs: seq<T>, lo: nat, hi: nat)
    requires lo <= hi < |xs|
    ensures xs[lo..hi + 1] == xs[lo..hi] + [xs[hi]]
  {
  }

  /** A scan that reads every line without stopping has captured the whole run. */
  lemma ScanDone(lines: seq<string>, inCode: bool, rustLines: seq<string>)
    requires ScanState(lines, |lines|, inCode, rustLines)
    ensures rustLines == CapturedRun(lines)
  {
  }

  /**
   * The keyword line scan as the program runs it: a capture flag that the
   * first trigger line switches on for good, lines appended while it is on,
   * and an early exit at the first stop line.
   */
  method ScanLines(lines: seq<string>) returns (rustLines: seq<string>)
    ensures rustLines == CapturedRun(lines)
  {
    rustLines := [];
    var inCode := false;
    for i := 0 to |lines|
      invariant ScanState(lines, i, inCode, rustLines)
    {
      var line := lines[i];
      ScanStep(lines, i, inCode, rustLines);
      if HasTrigger(line) {
        inCode := true;
      }
      if inCode {
        if IsStopLine(line) {
          return;
        }
        rustLines := rustLines + [line];
      }
    }
    ScanDone(lines, inCode, rustLines);
  }

  // ---------------------------------------------------------- the cascade

  /**
   * Strategies 2 to 4: the line scan, the whole-input fallback and the
   * placeholder. None of them yields the empty string.
   */
  function AfterFences(s: string): (r: string)
    ensures r != []
  {
    var captured := CapturedRun(Split(s));
    if captured != [] then
      CapturedRunNotBlank(captured);
      Strip(Join(captured))
    else if ContainsAny(s, FallbackKeywords) then
      FallbackInputNotBlank(s);
      Strip(s)
    else Placeholder
  }

  /** The cascade from the fence pattern `Patterns[i]` onwards. */
  function Cascade(s: string, i: nat): string
    requires i <= |Patterns|
  {
    match FenceCascade(s, i)
    case Some(code) => code
    case None => AfterFences(s)
  }

  /**
   * What `extract_rust_code` returns for `s`. It is never the empty string;
   * `ExtractRustCode` is the program's own form of it.
   */
  function Extract(s: string): (r: string)
    ensures r != []
  {
    Cascade(s, 0)
  }

  /**
   * `extract_rust_code` as the program runs it: a loop over the fence
   * patterns with an early return, then the line scan and the fallbacks.
   * It computes `Extract`, and never returns the empty string.
   */
  method ExtractRustCode(inputText: string) returns (code: string)
    ensures code == Extract(inputText)
    ensures code != []
  {
    for i := 0 to |Patterns|
      invariant FenceCascade(inputText, i) == FenceCascade(inputText, 0)
    {
      var m := FirstMatch(inputText, Patterns[i]);
      if m.Some? {
        code := CleanFence(Body(inputText, m.value));
        if code != [] {
          return;
        }
      }
    }
    var lines := Split(inputText);
    var rustLines := ScanLines(lines);
    if rustLines != [] {
      code := Strip(Join(rustLines));
      return;
    }
    if ContainsAny(inputText, FallbackKeywords) {
      code := Strip(inputText);
      return;
    }
    code := Placeholder;
  }

  // ---------------------------------------------------------- properties

  /** Every trigger keyword begins with a character that is not whitespace. */
  lemma TriggerKeywordsAreSolid()
    ensures forall k :: 0 <= k < |TriggerKeywords| ==> TriggerKeywords[k] != [] && !IsWs(TriggerKeywords[k][0])
  {
  }

  /** Every keyword of the whole-input fallback is also a trigger keyword. */
  lemma FallbackKeywordsAreTriggers()
    ensures FallbackKeywords == TriggerKeywords[..|FallbackKeywords|]
  {
  }

  /** A line holding a trigger keyword is not blank: every keyword begins with a character that is not whitespace. */
  lemma TriggerLineNotBlank(line: string)
    requires ContainsAny(line, TriggerKeywords)
    ensures !AllWs(line)
  {
    TriggerKeywordsAreSolid();
    var k :| 0 <= k < |TriggerKeywords| && Contains(line, TriggerKeywords[k]);
    var w := TriggerKeywords[k];
    var o :| 0 <= o <= |line| - |w| && OccursAt(line, o, w);
    assert line[o] == line[o..o + |w|][0];
  }

  /** The captured lines, joined and stripped, are not empty: the first one holds a keyword. */
  lemma CapturedRunNotBlank(captured: seq<string>)
    requires captured != [] && HasTrigger(captured[0])
    ensures Strip(Join(captured)) != []
  {
    var first := captured[0];
    var i :| 0 <= i < |first| && !IsWs(first[i]);
    assert Join(captured)[..|first|] == first;
    assert Join(captured)[i] == first[i];
    NonWsSurvivesStrip(Join(captured), i);
  }

  /** An input holding a fallback keyword is not blank, since every fallback keyword is a trigger keyword. */
  lemma FallbackInputNotBlank(s: string)
    requires ContainsAny(s, FallbackKeywords)
    ensures Strip(s) != []
  {
    var k :| 0 <= k < |FallbackKeywords| && Contains(s, FallbackKeywords[k]);
    FallbackKeywordsAreTriggers();
    assert Contains(s, TriggerKeywords[k]);
    TriggerLineNotBlank(s);
    StripEmptyIffBlank(s);
  }

  // ------------------------------------------------- fence cleanup, per line

  /**
   * The two substitutions act line by line and keep the number of lines:
   * a line that began with a fence is blanked, otherwise a fence that ended
   * it is cut off, otherwise it is unchanged; no line of the result begins
   * with a fence.
   */
  lemma CleanupActsPerLine(code: string)
    ensures |Split(DropTrailingFences(BlankFenceLines(code)))| == |Split(code)|
    ensures forall i :: 0 <= i < |Split(code)| ==>
      var line, out := Split(code)[i], Split(DropTrailingFences(BlankFenceLines(code)))[i];
      && (StartsWith(line, FenceMarker) ==> out == "")
      && (!StartsWith(line, FenceMarker) && EndsWith(line, FenceMarker) ==> out == line[..|line| - |FenceMarker|])
      && (!StartsWith(line, FenceMarker) && !EndsWith(line, FenceMarker) ==> out == line)
      && !StartsWith(out, FenceMarker)
  {
    var lines := Split(code);
    var out := Split(DropTrailingFences(BlankFenceLines(code)));
    forall i | 0 <= i < |lines| ensures !StartsWith(out[i], FenceMarker) {
      var line := lines[i];
      if !StartsWith(line, FenceMarker) && EndsWith(line, FenceMarker) {
        var cut := line[..|line| - |FenceMarker|];
        if |FenceMarker| <= |cut| {
          assert cut[..|FenceMarker|] == line[..|FenceMarker|];
        }
      }
    }
  }

  // ------------------------------------------------- the order of strategies

  /** A ```` ```rust ```` block that cleans to something decides the result; nothing after it is consulted. */
  lemma RustBlockWins(s: string)
    requires Succeeds(s, RustMarker)
    ensures FirstMatch(s, RustMarker).Some?
    ensures Extract(s) == CleanFence(Body(s, FirstMatch(s, RustMarker).value))
  {
  }

  /** Without a usable ```` ```rust ```` block, a bare block that cleans to something decides the result. */
  lemma BareBlockSecond(s: string)
    requires !Succeeds(s, RustMarker) && Succeeds(s, FenceMarker)
    ensures FirstMatch(s, FenceMarker).Some?
    ensures Extract(s) == CleanFence(Body(s, FirstMatch(s, FenceMarker).value))
  {
    BareFenceAfterRust(s);
    ExtractIsFenceCode(s);
    CandidateIsCleanedMatch(s, FenceMarker);
  }

  /** A ```` ```rust ```` pattern that does not succeed hands the cascade to the bare fence. */
  lemma BareFenceAfterRust(s: string)
    requires !Succeeds(s, RustMarker) && Succeeds(s, FenceMarker)
    ensures FenceCascade(s, 0) == Candidate(s, FenceMarker)
  {
    assert Patterns[0] == RustMarker && Patterns[1] == FenceMarker;
    assert FenceCascade(s, 0) == FenceCascade(s, 1);
  }

  /** A pattern that matches yields its first match, cleaned. */
  lemma CandidateIsCleanedMatch(s: string, marker: string)
    requires Candidate(s, marker).Some?
    ensures FirstMatch(s, marker).Some?
    ensures Candidate(s, marker).value == CleanFence(Body(s, FirstMatch(s, marker).value))
  {
  }

  /** When neither fence pattern yields code, the result is that of the line scan and the fallbacks. */
  lemma NoFenceFallsToLineScan(s: string)
    requires !Succeeds(s, RustMarker) && !Succeeds(s, FenceMarker)
    ensures Extract(s) == AfterFences(s)
  {
  }

  /**
   * A match whose body is whitespace only cleans to nothing: it counts as
   * no match, and the cascade goes on with the next pattern.
   */
  lemma BlankMatchFallsThrough(s: string, k: nat)
    requires k < |Patterns|
    requires FirstMatch(s, Patterns[k]).Some?
    requires AllWs(Body(s, FirstMatch(s, Patterns[k]).value))
    ensures Candidate(s, Patterns[k]) == Some("")
    ensures Cascade(s, k) == Cascade(s, k + 1)
  {
  }

  /** Code that comes from a fence is non-empty, has no whitespace at either end, and is its own strip. */
  lemma FenceResultTrimmed(s: string)
    requires FenceCascade(s, 0).Some?
    ensures Trimmed(Extract(s))
    ensures Strip(Extract(s)) == Extract(s)
  {
    FenceCodeTrimmed(s);
    TrimmedStripsToItself(Extract(s));
  }

  /** A trimmed string is its own strip. */
  lemma TrimmedStripsToItself(t: string)
    requires Trimmed(t)
    ensures Strip(t) == t
  {
    TrimmedIsOwnStrip(t);
  }

  /** The result taken from a fence is non-empty with no whitespace at either end. */
  lemma FenceCodeTrimmed(s: string)
    requires FenceCascade(s, 0).Some?
    ensures Trimmed(Extract(s))
  {
    ExtractIsFenceCode(s);
    assert Trimmed(FenceCascade(s, 0).value);
  }

  /** When a fence pattern succeeds, its cleaned match is the result. */
  lemma ExtractIsFenceCode(s: string)
    requires FenceCascade(s, 0).Some?
    ensures Extract(s) == FenceCascade(s, 0).value
  {
  }

  /** Both fence markers hold no whitespace. */
  lemma MarkersAreSolid()
    ensures SolidMarker(RustMarker) && SolidMarker(FenceMarker)
  {
  }

  /**
   * Only the first ```` ```rust ```` block is used: when it yields code,
   * replacing everything after its closing fence by any other text, with
   * more fenced blocks or none, leaves the result unchanged.
   */
  lemma LaterTextIgnored(s: string, t: string)
    requires Succeeds(s, RustMarker)
    ensures End(FirstMatch(s, RustMarker).value) <= |s|
    ensures Extract(s[..End(FirstMatch(s, RustMarker).value)] + t) == Extract(s)
  {
    var m := FirstMatch(s, RustMarker).value;
    var s' := LaterTextKeepsCandidate(s, t);
    RustBlockWins(s);
    RustBlockWins(s');
  }

  /** Replacing the text after the first ```` ```rust ```` block leaves its cleaned match as it was. */
  lemma LaterTextKeepsCandidate(s: string, t: string) returns (s': string)
    requires Succeeds(s, RustMarker)
    ensures End(FirstMatch(s, RustMarker).value) <= |s|
    ensures s' == s[..End(FirstMatch(s, RustMarker).value)] + t
    ensures Candidate(s', RustMarker) == Candidate(s, RustMarker)
    ensures Succeeds(s', RustMarker)
  {
    var m := FirstMatch(s, RustMarker).value;
    var body := Body(s, m);
    assert CleanFence(body) != [];
    assert !AllWs(body);
    MarkersAreSolid();
    FirstMatchIgnoresLaterText(s, RustMarker, t);
    s' := s[..End(m)] + t;
    BodyOnPrefix(s, m, t);
  }

  /** The body of a match is the same after the text behind its closing fence is replaced. */
  lemma BodyOnPrefix(s: string, m: Match, t: string)
    requires m.newline < m.close && End(m) <= |s|
    ensures Body(s[..End(m)] + t, m) == Body(s, m)
  {
    var s' := s[..End(m)] + t;
    assert s'[..End(m)] == s[..End(m)];
    assert Body(s', m) == s'[..End(m)][m.newline + 1..m.close];
    assert Body(s, m) == s[..End(m)][m.newline + 1..m.close];
  }

  /** The body of a match is the same after prose is put in front of the text. */
  lemma BodyAfterProse(p: string, s: string, m: Match)
    requires m.newline < m.close <= |s|
    ensures Body(p + s, Shift(m, |p|)) == Body(s, m)
  {
    assert (p + s)[|p|..] == s;
    assert Body(p + s, Shift(m, |p|)) == (p + s)[|p|..][m.newline + 1..m.close];
  }

  /** Prose without a backtick in front of the text leaves what a fence pattern yields as it was. */
  lemma CandidateAfterProse(p: string, s: string, marker: string)
    requires marker != [] && marker[0] == '`' && '`' !in p
    ensures Candidate(p + s, marker) == Candidate(s, marker)
  {
    FirstMatchAfterProse(p, s, marker);
    if FirstMatch(s, marker).Some? {
      BodyAfterProse(p, s, FirstMatch(s, marker).value);
    }
  }

  /** Prose without a backtick in front of the text leaves the fence cascade as it was. */
  lemma {:induction false} FenceCascadeAfterProse(p: string, s: string, i: nat)
    requires i <= |Patterns| && '`' !in p
    ensures FenceCascade(p + s, i) == FenceCascade(s, i)
    decreases |Patterns| - i
  {
    if i < |Patterns| {
      CandidateAfterProse(p, s, Patterns[i]);
      FenceCascadeAfterProse(p, s, i + 1);
    }
  }

  /**
   * The fenced code is the result regardless of the prose before it: when
   * a fence pattern yields code, putting any text without a backtick in
   * front of the input leaves the result unchanged.
   */
  lemma ProseBeforeIgnored(p: string, s: string)
    requires '`' !in p && FenceCascade(s, 0).Some?
    ensures Extract(p + s) == Extract(s)
  {
    FenceCascadeAfterProse(p, s, 0);
  }

  /** In particular, a ```` ```rust ```` block that yields code does so whatever prose comes before it. */
  lemma RustBlockAfterProse(p: string, s: string)
    requires '`' !in p && Succeeds(s, RustMarker)
    ensures Extract(p + s) == Extract(s)
  {
    ProseBeforeIgnored(p, s);
  }

  // ------------------------------------------------------- the line scan

  /**
   * The captured run is exactly `lines[i..k]` when `i` is the first line
   * holding a trigger keyword and `k` the first stop line at or after it
   * (or the end): a contiguous run, in order, trigger line included, stop
   * line excluded.
   */
  lemma CapturedRunIsFirstTriggeredRun(lines: seq<string>, i: nat, k: nat)
    requires i < |lines| && i <= k <= |lines|
    requires HasTrigger(lines[i]) && forall x :: 0 <= x < i ==> !HasTrigger(lines[x])
    requires forall x :: i <= x < k ==> !IsStopLine(lines[x])
    requires k < |lines| ==> IsStopLine(lines[k])
    ensures CapturedRun(lines) == lines[i..k]
  {
    assert FirstTrigger(lines, 0) == i;
    assert FirstStop(lines, i) == k;
  }

  /** Without a trigger line nothing is captured. */
  lemma NoTriggerCapturesNothing(lines: seq<string>)
    requires forall x :: 0 <= x < |lines| ==> !HasTrigger(lines[x])
    ensures CapturedRun(lines) == []
  {
  }

  // ------------------------------------------------------- the fallbacks

  /**
   * Without a usable fence and without any trigger keyword in the input,
   * the result is the placeholder: no line can trigger the scan, and every
   * whole-input keyword is a trigger keyword too.
   */
  lemma NoKeywordGivesPlaceholder(s: string)
    requires FenceCascade(s, 0).None?
    requires !ContainsAny(s, TriggerKeywords)
    ensures Extract(s) == Placeholder
  {
    var lines := Split(s);
    forall x | 0 <= x < |lines| ensures !HasTrigger(lines[x]) {
      forall k | 0 <= k < |TriggerKeywords| ensures !Contains(lines[x], TriggerKeywords[k]) {
        AbsentFromSplitLines(s, TriggerKeywords[k], x);
      }
    }
    NoTriggerCapturesNothing(lines);
    FallbackKeywordsAreTriggers();
    forall k | 0 <= k < |FallbackKeywords| ensures !Contains(s, FallbackKeywords[k]) {
      assert FallbackKeywords[k] == TriggerKeywords[k];
    }
  }
}
