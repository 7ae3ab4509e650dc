/**
 * The two fence patterns of the extractor,
 *
 *     ```rust\s*\n(.*?)\n```        and        ```\s*\n(.*?)\n```
 *
 * searched with `re.DOTALL`, written out as a scanner over `seq<char>`
 * instead of a general regular-expression engine. Both have the shape
 * `<marker>\s*\n(.*?)\n```` for a literal marker.
 *
 * `IsMatch` says when a region of the text fits the pattern at all;
 * `IsReMatch` says which of the fitting regions Python's backtracking
 * engine reports first: the leftmost start, then the longest `\s*` (it is
 * greedy), then the shortest body (it is lazy). `FirstMatch` is the scanner,
 * and its contract is that it finds exactly that region, or reports that
 * there is none.
 */
module FenceMatch {
  import opened PyStrings

  datatype Option<+T> = None | Some(value: T)

  /**
   * A match of `<marker>\s*\n(.*?)\n````: the marker begins at `start`, the
   * `\n` that ends `\s*` sits at `newline`, and the `\n` of the closing
   * fence sits at `close`. Group 1 is the text strictly between the two.
   */
  datatype Match = Match(start: nat, newline: nat, close: nat)

  /** The opening marker of the first pattern. */
  const RustMarker: string := "```rust"
  /** The opening marker of the second pattern, and the fence itself. */
  const FenceMarker: string := "```"
  /** The tail `\n```` that closes both patterns. */
  const Closer: string := "\n```"

  /** Every position in [lo, hi) is a whitespace character of `s`. */
  predicate WsBetween(s: string, lo: int, hi: int)
  {
    forall i :: lo <= i < hi ==> 0 <= i < |s| && IsWs(s[i])
  }

  /** A marker the scanner can look for: non-empty, with no whitespace in it. */
  predicate SolidMarker(marker: string)
  {
    marker != [] && forall i :: 0 <= i < |marker| ==> !IsWs(marker[i])
  }

  /** `\n```` occurs at `j`. */
  predicate CloseAt(s: string, j: int)
  {
    OccursAt(s, j, Closer)
  }

  /** The region (p, n, j) fits `<marker>\s*\n(.*?)\n````. */
  ghost predicate IsMatch(s: string, marker: string, p: int, n: int, j: int)
  {
    && OccursAt(s, p, marker)
    && p + |marker| <= n < j
    && CloseAt(s, j)
    && WsBetween(s, p + |marker|, n)
    && s[n] == '\n'
  }

  /**
   * `m` is the match Python reports first: leftmost, then greedy `\s*`, then
   * lazy body. Such a match lies inside the text, with the marker before its
   * first newline and its body before the closer.
   */
  ghost predicate IsReMatch(s: string, marker: string, m: Match)
    ensures IsReMatch(s, marker, m) ==> m.start + |marker| <= m.newline < m.close && End(m) <= |s|
  {
    && IsMatch(s, marker, m.start, m.newline, m.close)
    && (forall p: int, n: int, j: int :: p < m.start ==> !IsMatch(s, marker, p, n, j))
    && (forall n: int, j: int :: m.newline < n ==> !IsMatch(s, marker, m.start, n, j))
    && (forall j: int :: j < m.close ==> !IsMatch(s, marker, m.start, m.newline, j))
  }

  /** Group 1 of a match: the text between the two newlines. */
  function Body(s: string, m: Match): string
    requires m.newline < m.close <= |s|
  {
    s[m.newline + 1..m.close]
  }

  /** Index one past the closing fence of a match. */
  function End(m: Match): nat
  {
    m.close + |Closer|
  }

  // ------------------------------------------------------------ scanning

  /** The first `\n```` at or after `from`: the lazy `(.*?)\n```` tail. */
  function FindClose(s: string, from: nat): (r: Option<nat>)
    requires from <= |s|
    ensures r.Some? ==> from <= r.value && CloseAt(s, r.value)
    ensures r.Some? ==> forall k :: from <= k < r.value ==> !CloseAt(s, k)
    ensures r.None? ==> forall k :: from <= k ==> !CloseAt(s, k)
    decreases |s| - from
  {
    if from + |Closer| > |s| then None
    else if CloseAt(s, from) then Some(from)
    else FindClose(s, from + 1)
  }

  /** End of the run of whitespace beginning at `q`: how far `\s*` can reach. */
  function WsRunEnd(s: string, q: nat): (e: nat)
    requires q <= |s|
    ensures q <= e <= |s| && WsBetween(s, q, e)
    ensures e < |s| ==> !IsWs(s[e])
    decreases |s| - q
  {
    if q < |s| && IsWs(s[q]) then WsRunEnd(s, q + 1) else q
  }

  /**
   * Backtracking over `\s*`: try the `\n` at `n`, then the positions before
   * it, down to the end of the marker, keeping the first that is followed
   * somewhere by a closing fence.
   */
  function LastNewlineWithClose(s: string, marker: string, p: nat, n: nat): (r: Option<Match>)
    requires OccursAt(s, p, marker) && p + |marker| <= n < |s|
    requires WsBetween(s, p + |marker|, n + 1)
    ensures r.Some? ==> r.value.start == p && r.value.newline <= n
    ensures r.Some? ==> IsMatch(s, marker, p, r.value.newline, r.value.close)
    ensures r.Some? ==> forall n', j :: r.value.newline < n' <= n ==> !IsMatch(s, marker, p, n', j)
    ensures r.Some? ==> forall j :: j < r.value.close ==> !IsMatch(s, marker, p, r.value.newline, j)
    ensures r.None? ==> forall n', j :: n' <= n ==> !IsMatch(s, marker, p, n', j)
    decreases n
  {
    var c := if s[n] == '\n' then FindClose(s, n + 1) else None;
    if c.Some? then Some(Match(p, n, c.value))
    else if n == p + |marker| then None
    else LastNewlineWithClose(s, marker, p, n - 1)
  }

  /** The match the pattern reports when its attempt starts at `p`, if any. */
  function MatchAt(s: string, marker: string, p: nat): (r: Option<Match>)
    requires OccursAt(s, p, marker)
    ensures r.Some? ==> r.value.start == p && IsMatch(s, marker, p, r.value.newline, r.value.close)
    ensures r.Some? ==> forall n, j :: r.value.newline < n ==> !IsMatch(s, marker, p, n, j)
    ensures r.Some? ==> forall j :: j < r.value.close ==> !IsMatch(s, marker, p, r.value.newline, j)
    ensures r.None? ==> forall n, j :: !IsMatch(s, marker, p, n, j)
  {
    var q := p + |marker|;
    var e := WsRunEnd(s, q);
    assert forall n, j :: IsMatch(s, marker, p, n, j) ==> n < e;
    if e == q then None else LastNewlineWithClose(s, marker, p, e - 1)
  }

  /** The leftmost match starting at or after `from`. */
  function FirstMatchFrom(s: string, marker: string, from: nat): (r: Option<Match>)
    requires from <= |s|
    ensures r.Some? ==> from <= r.value.start && IsMatch(s, marker, r.value.start, r.value.newline, r.value.close)
    ensures r.Some? ==> forall p, n, j :: from <= p < r.value.start ==> !IsMatch(s, marker, p, n, j)
    ensures r.Some? ==> forall n, j :: r.value.newline < n ==> !IsMatch(s, marker, r.value.start, n, j)
    ensures r.Some? ==> forall j :: j < r.value.close ==> !IsMatch(s, marker, r.value.start, r.value.newline, j)
    ensures r.None? ==> forall p, n, j :: from <= p ==> !IsMatch(s, marker, p, n, j)
    decreases |s| - from
  {
    var here := if OccursAt(s, from, marker) then MatchAt(s, marker, from) else None;
    if here.Some? then here
    else if from == |s| then None
    else FirstMatchFrom(s, marker, from + 1)
  }

  /**
   * `re.findall(<marker>\s*\n(.*?)\n```, s, re.DOTALL)[0]`, as the match
   * region rather than only its group: the first match Python reports, or
   * None when the pattern does not occur.
   */
  function FirstMatch(s: string, marker: string): (r: Option<Match>)
    ensures r.Some? ==> IsReMatch(s, marker, r.value)
    ensures r.None? ==> forall p, n, j :: !IsMatch(s, marker, p, n, j)
  {
    FirstMatchFrom(s, marker, 0)
  }

  // ---------------------------------------------------------- properties

  /** Text without the first character of the marker holds no match. */
  lemma NoMarkerNoMatch(s: string, marker: string)
    requires marker != [] && marker[0] !in s
    ensures FirstMatch(s, marker).None?
  {
  }

  /** A match begins with its marker's first character. */
  lemma MatchStartsWithMarker(s: string, marker: string, p: int, n: int, j: int)
    requires marker != [] && IsMatch(s, marker, p, n, j)
    ensures s[p] == marker[0]
  {
    assert s[p..p + |marker|][0] == s[p];
  }

  /** Between the marker and the body's newline, inclusive, everything is whitespace. */
  lemma MatchGapIsWs(s: string, marker: string, p: int, n: int, j: int, q: int)
    requires IsMatch(s, marker, p, n, j) && p + |marker| <= q <= n
    ensures IsWs(s[q])
  {
  }

  /** A match closes at a newline. */
  lemma MatchClosesAtNewline(s: string, marker: string, p: int, n: int, j: int)
    requires IsMatch(s, marker, p, n, j)
    ensures s[j] == '\n'
  {
    assert s[j..j + |Closer|][0] == s[j];
  }

  /** Python's choice of first match is unique. */
  lemma ReMatchUnique(s: string, marker: string, m1: Match, m2: Match)
    requires IsReMatch(s, marker, m1) && IsReMatch(s, marker, m2)
    ensures m1 == m2
  {
  }

  /**
   * A match attempt starting before another occurrence of a solid marker
   * has its `\s*\n` end before that occurrence: whitespace cannot run
   * through a marker.
   */
  lemma EarlierAttemptEndsBefore(s: string, marker: string, p: int, n: int, j: int, a: int)
    requires SolidMarker(marker) && IsMatch(s, marker, p, n, j)
    requires p < a && OccursAt(s, a, marker)
    ensures n < a
  {
    var x := p + |marker|;
    assert IsWs(s[x]);
    forall i | a <= i < a + |marker| ensures !IsWs(s[i]) {
      assert s[i] == s[a..a + |marker|][i - a];
    }
    assert x < a;
    assert !IsWs(s[a]);
  }

  /** Whether a region fits the pattern depends only on the text up to its closer. */
  lemma IsMatchOnPrefix(s: string, s': string, len: nat, marker: string, p: int, n: int, j: int)
    requires len <= |s| && len <= |s'| && s[..len] == s'[..len]
    requires j + |Closer| <= len
    ensures IsMatch(s, marker, p, n, j) <==> IsMatch(s', marker, p, n, j)
  {
    forall i | 0 <= i < len ensures s[i] == s'[i] {
      assert s[..len][i] == s'[..len][i];
    }
    if 0 <= p && p + |marker| <= n < j {
      assert s[p..p + |marker|] == s'[p..p + |marker|];
      assert s[j..j + |Closer|] == s'[j..j + |Closer|];
    }
  }

  /**
   * Only the first match is used: once the first match has a body that is
   * not all whitespace, replacing everything after its closing fence with
   * any other text leaves the first match unchanged. (With an all-whitespace
   * body the greedy `\s*` can later reach a newline whose closer lies in the
   * replaced text, so the hypothesis is needed.)
   */
  lemma FirstMatchIgnoresLaterText(s: string, marker: string, t: string)
    requires SolidMarker(marker)
    requires FirstMatch(s, marker).Some?
    requires !AllWs(Body(s, FirstMatch(s, marker).value))
    ensures End(FirstMatch(s, marker).value) <= |s|
    ensures FirstMatch(s[..End(FirstMatch(s, marker).value)] + t, marker) == FirstMatch(s, marker)
  {
    var m := FirstMatch(s, marker).value;
    var len := End(m);
    var s' := s[..len] + t;
    assert s'[..len] == s[..len];
    forall i | 0 <= i < len ensures s'[i] == s[i] {
      assert s'[..len][i] == s[..len][i];
    }
    IsMatchOnPrefix(s, s', len, marker, m.start, m.newline, m.close);
    // Leftmost: an earlier start would already have matched in `s`.
    forall p: int, n: int, j: int | p < m.start
      ensures !IsMatch(s', marker, p, n, j)
    {
      if IsMatch(s', marker, p, n, j) {
        assert s'[m.start..m.start + |marker|] == s[m.start..m.start + |marker|];
        EarlierAttemptEndsBefore(s', marker, p, n, j, m.start);
        assert s'[p..p + |marker|] == s[p..p + |marker|];
        assert IsMatch(s, marker, p, n, m.close);
      }
    }
    // Greedy: a later newline would sit in the body, which then is all whitespace.
    forall n: int, j: int | m.newline < n
      ensures !IsMatch(s', marker, m.start, n, j)
    {
      if IsMatch(s', marker, m.start, n, j) {
        assert n <= m.close;
        if n < m.close {
          assert IsMatch(s, marker, m.start, n, m.close);
        }
      }
    }
    // Lazy: an earlier closer would lie inside the unchanged prefix.
    forall j: int | j < m.close
      ensures !IsMatch(s', marker, m.start, m.newline, j)
    {
      IsMatchOnPrefix(s, s', len, marker, m.start, m.newline, j);
    }
    assert IsReMatch(s', marker, m);
    ReMatchUnique(s', marker, m, FirstMatch(s', marker).value);
  }

  /** `m` moved `d` characters to the right. */
  function Shift(m: Match, d: nat): Match
  {
    Match(m.start + d, m.newline + d, m.close + d)
  }

  /** A region fits the pattern in `s` exactly when the same region, moved past `p`, fits it in `p + s`. */
  lemma IsMatchShift(p: string, s: string, marker: string, a: int, n: int, j: int)
    requires 0 <= a
    ensures IsMatch(s, marker, a, n, j) <==> IsMatch(p + s, marker, a + |p|, n + |p|, j + |p|)
  {
    var d := |p|;
    OccursShift(p, s, a, a + d, marker);
    if 0 <= j {
      OccursShift(p, s, j, j + d, Closer);
    }
    if 0 <= a + |marker| <= n < |s| {
      WsShift(p, s, a + |marker|, n, a + d + |marker|, n + d);
      assert (p + s)[n + d] == s[n];
    }
  }

  /** `w` occurs in `s` at `i` exactly when it occurs in `p + s` at `i + |p|`. */
  lemma OccursShift(p: string, s: string, i: nat, i': nat, w: string)
    requires i' == i + |p|
    ensures OccursAt(s, i, w) <==> OccursAt(p + s, i', w)
  {
    if i + |w| <= |s| {
      assert (p + s)[i'..i' + |w|] == s[i..i + |w|];
    }
  }

  /** A run of whitespace in `s` is the same run in `p + s`, moved past `p`. */
  lemma WsShift(p: string, s: string, lo: nat, hi: nat, lo': nat, hi': nat)
    requires hi <= |s| && lo' == lo + |p| && hi' == hi + |p|
    ensures WsBetween(s, lo, hi) <==> WsBetween(p + s, lo', hi')
  {
    var t := p + s;
    forall i | lo <= i < hi ensures t[i + |p|] == s[i] {
    }
    if WsBetween(t, lo', hi') {
      forall i | lo <= i < hi ensures 0 <= i < |s| && IsWs(s[i]) {
        assert t[i + |p|] == s[i];
      }
    }
  }

  /** No match of the pattern starts inside a prefix that lacks the marker's first character. */
  lemma NoMatchInProse(p: string, s: string, marker: string, a: int, n: int, j: int)
    requires marker != [] && marker[0] !in p && a < |p|
    ensures !IsMatch(p + s, marker, a, n, j)
  {
    if IsMatch(p + s, marker, a, n, j) {
      MatchStartsWithMarker(p + s, marker, a, n, j);
    }
  }

  /** A match in `p + s`, when `p` lacks the marker's first character, is a match of `s` moved past `p`. */
  lemma UnshiftMatch(p: string, s: string, marker: string, a: int, n: int, j: int)
    requires marker != [] && marker[0] !in p && IsMatch(p + s, marker, a, n, j)
    ensures |p| <= a && IsMatch(s, marker, a - |p|, n - |p|, j - |p|)
  {
    if a < |p| {
      NoMatchInProse(p, s, marker, a, n, j);
    } else {
      IsMatchShift(p, s, marker, a - |p|, n - |p|, j - |p|);
    }
  }

  /** Leftmost: nothing in `p + s` starts before the moved match. */
  lemma ShiftKeepsLeftmost(p: string, s: string, marker: string, m: Match)
    requires marker != [] && marker[0] !in p && IsReMatch(s, marker, m)
    ensures forall a: int, n: int, j: int :: a < m.start + |p| ==> !IsMatch(p + s, marker, a, n, j)
  {
    forall a: int, n: int, j: int | a < m.start + |p|
      ensures !IsMatch(p + s, marker, a, n, j)
    {
      if IsMatch(p + s, marker, a, n, j) {
        UnshiftMatch(p, s, marker, a, n, j);
      }
    }
  }

  /** Greedy: from the moved start, no later `\s*` newline fits in `p + s`. */
  lemma ShiftKeepsGreedy(p: string, s: string, marker: string, m: Match)
    requires marker != [] && marker[0] !in p && IsReMatch(s, marker, m)
    ensures forall n: int, j: int :: Shift(m, |p|).newline < n ==> !IsMatch(p + s, marker, Shift(m, |p|).start, n, j)
  {
    var m' := Shift(m, |p|);
    forall n: int, j: int | m'.newline < n
      ensures !IsMatch(p + s, marker, m'.start, n, j)
    {
      if IsMatch(p + s, marker, m'.start, n, j) {
        UnshiftMatch(p, s, marker, m'.start, n, j);
      }
    }
  }

  /** Lazy: from the moved start and newline, no earlier closer fits in `p + s`. */
  lemma ShiftKeepsLazy(p: string, s: string, marker: string, m: Match)
    requires marker != [] && marker[0] !in p && IsReMatch(s, marker, m)
    ensures forall j: int :: j < Shift(m, |p|).close ==> !IsMatch(p + s, marker, Shift(m, |p|).start, Shift(m, |p|).newline, j)
  {
    var m' := Shift(m, |p|);
    forall j: int | j < m'.close
      ensures !IsMatch(p + s, marker, m'.start, m'.newline, j)
    {
      if IsMatch(p + s, marker, m'.start, m'.newline, j) {
        UnshiftMatch(p, s, marker, m'.start, m'.newline, j);
      }
    }
  }

  /** The match Python reports first in `s`, moved past `p`, is the one it reports first in `p + s`. */
  lemma ShiftKeepsReMatch(p: string, s: string, marker: string, m: Match)
    requires marker != [] && marker[0] !in p && IsReMatch(s, marker, m)
    ensures IsReMatch(p + s, marker, Shift(m, |p|))
  {
    IsMatchShift(p, s, marker, m.start, m.newline, m.close);
    ShiftKeepsLeftmost(p, s, marker, m);
    ShiftKeepsGreedy(p, s, marker, m);
    ShiftKeepsLazy(p, s, marker, m);
  }

  /** Without a match in `s`, there is none in `p + s`. */
  lemma NoMatchAfterProse(p: string, s: string, marker: string)
    requires marker != [] && marker[0] !in p
    requires forall a, n, j :: !IsMatch(s, marker, a, n, j)
    ensures forall a, n, j :: !IsMatch(p + s, marker, a, n, j)
  {
    forall a, n, j | IsMatch(p + s, marker, a, n, j) ensures false {
      UnshiftMatch(p, s, marker, a, n, j);
    }
  }

  /**
   * Prose in front of the text that lacks the marker's first character
   * moves the first match by its length and changes nothing else: the
   * pattern matches `p + s` exactly when it matches `s`.
   */
  lemma FirstMatchAfterProse(p: string, s: string, marker: string)
    requires marker != [] && marker[0] !in p
    ensures FirstMatch(s, marker).None? ==> FirstMatch(p + s, marker).None?
    ensures FirstMatch(s, marker).Some? ==> FirstMatch(p + s, marker) == Some(Shift(FirstMatch(s, marker).value, |p|))
  {
    var t := p + s;
    var r := FirstMatch(s, marker);
    var r' := FirstMatch(t, marker);
    if r.Some? {
      ShiftKeepsReMatch(p, s, marker, r.value);
      ReMatchUnique(t, marker, Shift(r.value, |p|), r'.value);
    } else {
      NoMatchAfterProse(p, s, marker);
    }
  }
}
