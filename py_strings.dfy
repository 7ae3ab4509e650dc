/**
 * The handful of Python `str` operations the extractor relies on, written
 * out over `seq<char>`: whitespace, `strip`, `split('\n')`, `'\n'.join`,
 * `startswith`, `endswith` and the `in` substring test.
 *
 * Whitespace is Python's `str.isspace` restricted to the ASCII range (the
 * same set `\s` matches in a `str` regular expression within that range).
 */
module PyStrings {

  /** `c.isspace()` for ASCII characters: \t \n \v \f \r, \x1c-\x1f and space. */
  predicate IsWs(c: char)
  {
    c == ' ' || ('\t' <= c <= '\r') || ('\U{1C}' <= c <= '\U{1F}')
  }

  predicate AllWs(s: string)
  {
    forall i :: 0 <= i < |s| ==> IsWs(s[i])
  }

  /** `s.startswith(p)` */
  predicate StartsWith(s: string, p: string)
  {
    |p| <= |s| && s[..|p|] == p
  }

  /** `s.endswith(p)` */
  predicate EndsWith(s: string, p: string)
  {
    |p| <= |s| && s[|s| - |p|..] == p
  }

  /** `w` occurs in `s` starting at index `i`. */
  predicate OccursAt(s: string, i: int, w: string)
  {
    0 <= i <= |s| - |w| && s[i..i + |w|] == w
  }

  /** `w in s` */
  predicate Contains(s: string, w: string)
  {
    exists i :: 0 <= i <= |s| - |w| && OccursAt(s, i, w)
  }

  /** `any(w in s for w in words)` */
  predicate ContainsAny(s: string, words: seq<string>)
  {
    exists k :: 0 <= k < |words| && Contains(s, words[k])
  }

  // ---------------------------------------------------------------- strip

  /** Number of whitespace characters at the front of `s`. */
  function LeadingWs(s: string): (n: nat)
    ensures n <= |s|
    ensures forall i :: 0 <= i < n ==> IsWs(s[i])
    ensures n < |s| ==> !IsWs(s[n])
  {
    if s != [] && IsWs(s[0]) then 1 + LeadingWs(s[1..]) else 0
  }

  /**
   * End of `s[lo..]` once the whitespace at its back is dropped: the
   * characters from there on are all whitespace, and the one before is
   * not (unless nothing of `s[lo..]` is left).
   */
  function TrailingEnd(s: string, lo: nat): (hi: nat)
    requires lo <= |s|
    ensures lo <= hi <= |s|
    ensures forall i :: hi <= i < |s| ==> IsWs(s[i])
    ensures lo < hi ==> !IsWs(s[hi - 1])
    decreases |s| - lo
  {
    if |s| == lo then lo
    else if IsWs(s[|s| - 1]) then TrailingEnd(s[..|s| - 1], lo)
    else |s|
  }

  /**
   * `s.strip()`: drops whitespace from both ends, so the result neither
   * begins nor ends with whitespace. `StripIsSlice` shows it is the slice of
   * `s` between the two whitespace runs, and `StripEmptyIffBlank` that it is
   * empty exactly when `s` is all whitespace.
   */
  function Strip(s: string): (r: string)
    ensures r != [] ==> !IsWs(r[0]) && !IsWs(r[|r| - 1])
  {
    var lo := LeadingWs(s);
    s[lo..TrailingEnd(s, lo)]
  }

  /** `s.strip()` is the slice `s[lo..lo + |s.strip()|]`, with only whitespace around it. */
  lemma StripIsSlice(s: string) returns (lo: nat)
    ensures lo + |Strip(s)| <= |s| && Strip(s) == s[lo..lo + |Strip(s)|]
    ensures AllWs(s[..lo]) && AllWs(s[lo + |Strip(s)|..])
  {
    lo := LeadingWs(s);
    var hi := TrailingEnd(s, lo);
    assert Strip(s) == s[lo..hi];
  }

  /** The first character of `s.strip()` is the first character of `s` that is not whitespace. */
  lemma StripStartsAt(s: string, i: nat)
    requires i < |s| && !IsWs(s[i]) && forall j :: 0 <= j < i ==> IsWs(s[j])
    ensures Strip(s) != [] && Strip(s)[0] == s[i]
  {
    var lo := LeadingWs(s);
    var hi := TrailingEnd(s, lo);
    assert lo == i;
    assert hi > lo;
  }

  /** `s.strip()` is empty exactly when `s` is all whitespace. */
  lemma StripEmptyIffBlank(s: string)
    ensures Strip(s) == [] <==> AllWs(s)
  {
    var lo := LeadingWs(s);
    var hi := TrailingEnd(s, lo);
    assert Strip(s) == s[lo..hi];
  }

  /** Stripping whitespace twice changes nothing. */
  lemma StripIdempotent(s: string)
    ensures Strip(Strip(s)) == Strip(s)
  {
    var r := Strip(s);
    if r != [] {
      TrimmedIsOwnStrip(r);
    }
  }

  /** A string that neither begins nor ends with whitespace is its own strip. */
  lemma TrimmedIsOwnStrip(s: string)
    requires s != [] && !IsWs(s[0]) && !IsWs(s[|s| - 1])
    ensures Strip(s) == s
  {
    var r := Strip(s);
    var lo := StripIsSlice(s);
  }

  /** A string holding a character that is not whitespace does not strip to "". */
  lemma NonWsSurvivesStrip(s: string, i: nat)
    requires i < |s| && !IsWs(s[i])
    ensures Strip(s) != []
  {
    StripEmptyIffBlank(s);
  }

  // ----------------------------------------------------- split and join

  /** Index of the first '\n' in `s[i..]`, counted in `s`, or `|s|` when there is none. */
  function NewlineFrom(s: string, i: nat): (k: nat)
    requires i <= |s|
    ensures i <= k <= |s|
    ensures k < |s| ==> s[k] == '\n'
    decreases |s| - i
  {
    if i == |s| || s[i] == '\n' then i else NewlineFrom(s, i + 1)
  }

  /** No newline lies between `i` and `NewlineFrom(s, i)`. */
  lemma {:induction false} NewlineFromIsFirst(s: string, i: nat)
    requires i <= |s|
    ensures forall j :: i <= j < NewlineFrom(s, i) ==> s[j] != '\n'
    decreases |s| - i
  {
    if i < |s| && s[i] != '\n' {
      NewlineFromIsFirst(s, i + 1);
    }
  }

  /** Index of the first '\n' in `s`, or `|s|` when there is none (`NewlineIndexIsFirst`). */
  function NewlineIndex(s: string): (k: nat)
    ensures k <= |s|
    ensures k < |s| ==> s[k] == '\n'
  {
    NewlineFrom(s, 0)
  }

  /** No newline comes before `NewlineIndex(s)`. */
  lemma NewlineIndexIsFirst(s: string)
    ensures forall i :: 0 <= i < NewlineIndex(s) ==> s[i] != '\n'
  {
    NewlineFromIsFirst(s, 0);
  }

  /** The line holds no '\n'. */
  predicate NoNewline(line: string)
  {
    forall i :: 0 <= i < |line| ==> line[i] != '\n'
  }

  /** `s.split('\n')`: never empty; `SplitHasNoNewlines` shows no piece holds a newline. */
  function Split(s: string): (r: seq<string>)
    ensures |r| >= 1
    decreases |s|
  {
    var k := NewlineIndex(s);
    if k == |s| then [s] else [s[..k]] + Split(s[k + 1..])
  }

  /** No piece of `s.split('\n')` holds a newline. */
  lemma {:induction false} SplitHasNoNewlines(s: string)
    ensures NoNewlines(Split(s))
    decreases |s|
  {
    var k := NewlineIndex(s);
    NewlineIndexIsFirst(s);
    if k < |s| {
      SplitAtNewline(s);
      SplitHasNoNewlines(s[k + 1..]);
    }
  }

  /**
   * `'\n'.join(lines)`: the first line begins the result. `JoinSplit` and
   * `SplitJoin` show it undoes `Split` and is undone by it.
   */
  function Join(lines: seq<string>): (r: string)
    ensures |lines| >= 1 ==> StartsWith(r, lines[0])
  {
    if |lines| == 0 then ""
    else if |lines| == 1 then lines[0]
    else lines[0] + "\n" + Join(lines[1..])
  }

  predicate NoNewlines(lines: seq<string>)
  {
    forall k :: 0 <= k < |lines| ==> NoNewline(lines[k])
  }

  /** Joining the pieces of a split gives back the original text. */
  lemma {:induction false} JoinSplit(s: string)
    ensures Join(Split(s)) == s
    decreases |s|
  {
    var k := NewlineIndex(s);
    if k < |s| {
      JoinSplit(s[k + 1..]);
      JoinSplitStep(s);
    }
  }

  /** If the text after the first newline re-joins from its split, so does the whole text. */
  lemma JoinSplitStep(s: string)
    requires NewlineIndex(s) < |s|
    requires Join(Split(s[NewlineIndex(s) + 1..])) == s[NewlineIndex(s) + 1..]
    ensures Join(Split(s)) == s
  {
    var k := NewlineIndex(s);
    var rest := s[k + 1..];
    SplitAtNewline(s);
    JoinCons(s[..k], Split(rest));
    CutAt(s, k);
  }

  /** Joining a line in front of at least one line puts a newline between them. */
  lemma JoinCons(head: string, lines: seq<string>)
    requires |lines| >= 1
    ensures Join([head] + lines) == head + "\n" + Join(lines)
  {
    assert ([head] + lines)[1..] == lines;
  }

  /** `s` is the text before index `k`, the character at `k` and the text after it. */
  lemma CutAt(s: string, k: nat)
    requires k < |s|
    ensures s == s[..k] + [s[k]] + s[k + 1..]
  {
  }

  /** Splitting a join of newline-free lines gives back those lines. */
  lemma {:induction false} SplitJoin(lines: seq<string>)
    requires |lines| >= 1 && NoNewlines(lines)
    ensures Split(Join(lines)) == lines
  {
    if |lines| == 1 {
      assert NewlineIndex(lines[0]) == |lines[0]|;
    } else {
      var s := Join(lines);
      var head := lines[0];
      assert s == head + "\n" + Join(lines[1..]);
      assert NoNewline(head);
      FirstNewlineAfter(head, Join(lines[1..]));
      assert s[..|head|] == head;
      assert s[|head| + 1..] == Join(lines[1..]);
      SplitJoin(lines[1..]);
    }
  }

  lemma FirstNewlineAfter(head: string, tail: string)
    requires NoNewline(head)
    ensures NewlineIndex(head + "\n" + tail) == |head|
  {
    var s := head + "\n" + tail;
    NewlineIndexIsFirst(s);
    assert s[|head|] == '\n';
  }

  /** An occurrence in a suffix of `s` is an occurrence in `s`. */
  lemma OccursInSuffix(s: string, a: nat, o: nat, w: string, at: nat)
    requires a <= |s| && OccursAt(s[a..], o, w) && at == a + o
    ensures OccursAt(s, at, w)
  {
    assert s[a..][o..o + |w|] == s[at..at + |w|];
  }

  /** A text with a newline splits into the line before it and the split of the rest. */
  lemma SplitAtNewline(s: string)
    requires NewlineIndex(s) < |s|
    ensures Split(s) == [s[..NewlineIndex(s)]] + Split(s[NewlineIndex(s) + 1..])
  {
  }

  /** A prefix of `s` occurs in `s` at offset 0. */
  lemma PrefixOccurs(s: string, n: nat)
    requires n <= |s|
    ensures OccursAt(s, 0, s[..n])
  {
  }

  /** Every piece of a split is a slice of the text it came from, found at offset `o`. */
  lemma {:induction false} SplitPieceIsSlice(s: string, k: nat) returns (o: nat)
    requires k < |Split(s)|
    ensures OccursAt(s, o, Split(s)[k])
    decreases |s|
  {
    var n := NewlineIndex(s);
    if n == |s| {
      PrefixOccurs(s, |s|);
      o := 0;
    } else {
      SplitAtNewline(s);
      if k == 0 {
        PrefixOccurs(s, n);
        o := 0;
      } else {
        o := SplitPieceInRest(s, k);
      }
    }
  }

  /** A piece after the first comes from the text after the first newline. */
  lemma {:induction false} SplitPieceInRest(s: string, k: nat) returns (o: nat)
    requires NewlineIndex(s) < |s| && 0 < k < |Split(s)|
    ensures OccursAt(s, o, Split(s)[k])
    decreases |s|, 0
  {
    var n := NewlineIndex(s);
    var rest := s[n + 1..];
    SplitPieceAfterFirst(s, k);
    var o' := SplitPieceIsSlice(rest, k - 1);
    o := n + 1 + o';
    OccursInSuffix(s, n + 1, o', Split(s)[k], o);
  }

  /** Piece `k` after the first of a split is piece `k - 1` of the split of the text after the first newline. */
  lemma SplitPieceAfterFirst(s: string, k: nat)
    requires NewlineIndex(s) < |s| && 0 < k < |Split(s)|
    ensures k - 1 < |Split(s[NewlineIndex(s) + 1..])|
    ensures Split(s)[k] == Split(s[NewlineIndex(s) + 1..])[k - 1]
  {
    SplitAtNewline(s);
  }

  /** Searching a suffix of `s` for a newline finds the same newline, counted from the suffix. */
  lemma {:induction false} NewlineFromShift(s: string, d: nat, i: nat)
    requires d + i <= |s|
    ensures NewlineFrom(s, d + i) == d + NewlineFrom(s[d..], i)
    decreases |s| - d - i
  {
    if d + i < |s| && s[d + i] != '\n' {
      assert s[d..][i] == s[d + i];
      NewlineFromShift(s, d, i + 1);
    }
  }

  /** The line that follows a newline: from just after it up to the next newline or the end. */
  function LineAfter(s: string, j: nat): (line: string)
    requires j < |s|
    ensures NoNewline(line)
  {
    NewlineFromIsFirst(s, j + 1);
    s[j + 1..NewlineFrom(s, j + 1)]
  }

  /** The text after a newline begins a line of the split: the line up to the next newline or the end. */
  lemma {:induction false} LineAfterNewline(s: string, j: nat)
    requires j < |s| && s[j] == '\n'
    ensures LineAfter(s, j) in Split(s)
    decreases |s|
  {
    var n := NewlineIndex(s);
    NewlineInRest(s, j);
    if n == j {
      LineAfterFirstNewline(s);
    } else {
      var rest := s[n + 1..];
      var j' := j - n - 1;
      LineAfterNewline(rest, j');
      LineFromRest(s, j);
    }
  }

  /** A newline at `j` is the first one, or it is a newline of the text after the first. */
  lemma NewlineInRest(s: string, j: nat)
    requires j < |s| && s[j] == '\n'
    ensures NewlineIndex(s) <= j
    ensures NewlineIndex(s) < j ==> j - NewlineIndex(s) - 1 < |s[NewlineIndex(s) + 1..]|
    ensures NewlineIndex(s) < j ==> s[NewlineIndex(s) + 1..][j - NewlineIndex(s) - 1] == '\n'
  {
    NewlineIndexIsFirst(s);
  }

  /** The line after the first newline is a line of the split. */
  lemma LineAfterFirstNewline(s: string)
    requires NewlineIndex(s) < |s|
    ensures LineAfter(s, NewlineIndex(s)) in Split(s)
  {
    FirstLineOfRest(s);
    RestLinesInSplit(s, Split(s[NewlineIndex(s) + 1..])[0]);
  }

  /** The line after a later newline, already a line of the rest's split, is a line of the whole split. */
  lemma LineFromRest(s: string, j: nat)
    requires NewlineIndex(s) < j < |s|
    requires LineAfter(s[NewlineIndex(s) + 1..], j - NewlineIndex(s) - 1) in Split(s[NewlineIndex(s) + 1..])
    ensures LineAfter(s, j) in Split(s)
  {
    var n := NewlineIndex(s);
    LineAfterInSuffix(s, n + 1, j - n - 1, j);
    RestLinesInSplit(s, LineAfter(s, j));
  }

  /** The line after the first newline is the first line of the text after it. */
  lemma FirstLineOfRest(s: string)
    requires NewlineIndex(s) < |s|
    ensures LineAfter(s, NewlineIndex(s)) == Split(s[NewlineIndex(s) + 1..])[0]
  {
    var n := NewlineIndex(s);
    var rest := s[n + 1..];
    NewlineFromShift(s, n + 1, 0);
    var k := NewlineFrom(rest, 0);
    assert s[n + 1..n + 1 + k] == rest[..k];
  }

  /** A line after a newline in a suffix of `s` is the same line of `s`. */
  lemma LineAfterInSuffix(s: string, d: nat, i: nat, j: nat)
    requires d <= |s| && i < |s| - d && j == d + i
    ensures LineAfter(s, j) == LineAfter(s[d..], i)
  {
    NewlineFromShift(s, d, i + 1);
    var k := NewlineFrom(s[d..], i + 1);
    assert s[d + i + 1..d + k] == s[d..][i + 1..k];
  }

  /** Every line of the split of the text after the first newline is a line of the whole split. */
  lemma RestLinesInSplit(s: string, line: string)
    requires NewlineIndex(s) < |s| && line in Split(s[NewlineIndex(s) + 1..])
    ensures line in Split(s)
  {
    SplitAtNewline(s);
  }

  /** A word found in a slice of `s` is found in `s`. */
  lemma ContainsInSlice(s: string, o: nat, len: nat, w: string)
    requires o + len <= |s| && Contains(s[o..o + len], w)
    ensures Contains(s, w)
  {
    var t := s[o..o + len];
    var i :| 0 <= i <= |t| - |w| && OccursAt(t, i, w);
    forall j | 0 <= j < |w| ensures s[o + i + j] == w[j] {
      assert w[j] == t[i..i + |w|][j] == t[i + j];
    }
    assert OccursAt(s, o + i, w);
  }

  /** A word not in `s` is not in any line of `s.split('\n')`. */
  lemma AbsentFromSplitLines(s: string, w: string, k: nat)
    requires !Contains(s, w) && k < |Split(s)|
    ensures !Contains(Split(s)[k], w)
  {
    var o := SplitPieceIsSlice(s, k);
    var line := Split(s)[k];
    if Contains(line, w) {
      ContainsInSlice(s, o, |line|, w);
    }
  }
}
