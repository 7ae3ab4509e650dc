# extract_rust in Dafny

A model of `extract_rust_code`, the function that holds all of the logic of
the `extract_rust.py` script. The function takes the free-form text of a language-model answer and
returns the Rust source in it. It tries four strategies in a fixed order, and
the first that yields something wins:

1. the first ```` ```rust ```` fenced block, then the first bare ```` ``` ````
   block. Each is cleaned: stripped, lines opening with a fence blanked, a
   fence at the end of a line cut off, stripped again. It is kept only if
   something is left. The final strip can bring a fence back to the front:
   `` ```\n  ```foo `` cleans to `` ```foo ``, because the indented line does
   not open with a fence until that strip. So the cleaned code itself can
   still begin with a fence;
2. a line scan. It starts capturing at the first line that holds a Rust
   keyword (`fn `, `use `, `let `, `println!`, ...). It stops before the
   first line whose stripped form starts with ```` ``` ````, `#` or `*`;
3. the whole input, stripped, if it holds one of a shorter keyword list;
4. a fixed Hello-world `main`.

The project has four modules, one per file:

- `PyStrings` (`py_strings.dfy`): the Python `str` operations the function
  uses, written out over `seq<char>`. These are `strip`, `split('\n')`,
  `'\n'.join`, `startswith`, `endswith` and `in`. Whitespace is the ASCII
  part of Python's `str.isspace`.
- `FenceMatch` (`fence_match.dfy`): the two fence patterns
  `` ```rust\s*\n(.*?)\n``` `` and `` ```\s*\n(.*?)\n``` ``, searched with
  `re.DOTALL`. `IsMatch` says when a region fits a pattern. `IsReMatch`
  says which fitting region a backtracking engine reports first: leftmost
  start, then the longest `\s*`, then the shortest body. `FirstMatch` is a
  scanner proved to find exactly that region, or to report that none exists.
- `ExtractRust` (`extract_rust.dfy`): the cleanup, the line scan and the
  cascade. `Extract` states the whole function as a function of its input.
  `ExtractRustCode` and `ScanLines` are the program's loops, proved equal to
  it: the early-return loop over the patterns, and the `for` loop with its
  `in_code` flag and `break`.
- `ExtractRustExamples` (`extract_rust_examples.dfy`): the placeholder as a
  fixed point, and worked inputs for each strategy.

The placeholder is a fixed point of the extractor. It gets there through the
line scan, not the whole-input fallback. Its first line `fn main() {` holds
`fn `, and none of its three lines is a stop line, so the scan captures all
three lines. Joined and stripped, they give back the placeholder.

"Only the first match is used" holds in full when the first match has a body
that is not all whitespace. Take `` ```rust\n\n``` `` followed by more text.
Alone, it matches with an empty body: `\s*` takes nothing and the fence
closes right after the first newline. But the greedy `\s*` first tries to
take the first newline and end at the second. If the later text holds a
`\n```` closer, that attempt succeeds, and the body runs up to that later
closer. So text after an all-whitespace first block can change the match.
When the `rust` block yields code, its body is never all whitespace, so
`LaterTextIgnored` needs no hypothesis beyond "the `rust` block yields code".

The text before the block is ignored as long as it holds no backtick. Both
patterns begin with a backtick, so such prose can hold no match. Put in front
of the input, it moves every match by its own length and changes nothing
else (`FirstMatchAfterProse`, `ProseBeforeIgnored`). Prose with a backtick
can open a fence of its own, so the hypothesis is needed.

## Model

| member | source | states |
|---|---|---|
| `PyStrings.Strip` | scripts/extract_rust.py:23 | `str.strip()`: the result neither begins nor ends with whitespace |
| `PyStrings.StripIsSlice` | scripts/extract_rust.py:23 | `strip` returns a slice of its input with only whitespace cut from either side |
| `PyStrings.StripEmptyIffBlank` | scripts/extract_rust.py:30-32 | a stripped string is empty exactly when the string was all whitespace |
| `PyStrings.StripIdempotent` | scripts/extract_rust.py:30 | stripping twice is stripping once |
| `PyStrings.Split` | scripts/extract_rust.py:36 | `s.split('\n')`: always at least one piece; `SplitHasNoNewlines`, `JoinSplit` and `SplitJoin` pin it down |
| `PyStrings.Join` | scripts/extract_rust.py:52 | `'\n'.join(lines)`: the first line begins the result; `JoinSplit` and `SplitJoin` make it the inverse of `Split` |
| `PyStrings.SplitHasNoNewlines` | scripts/extract_rust.py:36 | no piece of `split('\n')` holds a newline |
| `PyStrings.JoinSplit` | scripts/extract_rust.py:36-52 | `'\n'.join(s.split('\n')) == s` for every `s` |
| `PyStrings.SplitJoin` | scripts/extract_rust.py:36-52 | splitting a join of newline-free lines gives back those lines |
| `PyStrings.AbsentFromSplitLines` | scripts/extract_rust.py:42-55 | a word absent from the text is absent from every line of its split |
| `PyStrings.LineAfterNewline` | scripts/extract_rust.py:36 | the text after any newline, up to the next newline or the end, is one of the lines of `split('\n')` |
| `FenceMatch.IsReMatch` | scripts/extract_rust.py:15-20 | the reference definition of the match `findall` reports first: leftmost start, then longest `\s*`, then shortest body; such a match lies inside the text with the body before the closer |
| `FenceMatch.FindClose` | scripts/extract_rust.py:15-16 | the lazy `(.*?)\n```` tail: the first closing fence at or after a position, or none at all |
| `FenceMatch.MatchAt` | scripts/extract_rust.py:15-16 | an attempt at one start: the longest `\s*` whose `\n` has a closer, with the nearest closer; None iff no region from that start fits |
| `FenceMatch.FirstMatch` | scripts/extract_rust.py:20 | the first match `findall` reports is `IsReMatch` (leftmost, greedy `\s*`, lazy body); None iff no region fits the pattern |
| `FenceMatch.ReMatchUnique` | scripts/extract_rust.py:20-23 | the first match is uniquely determined |
| `FenceMatch.NoMarkerNoMatch` | scripts/extract_rust.py:20-21 | text without the marker's first character has no match |
| `FenceMatch.FirstMatchIgnoresLaterText` | scripts/extract_rust.py:20-23 | with a body not all whitespace, replacing the text after the first match's closing fence leaves the first match unchanged |
| `FenceMatch.FirstMatchAfterProse` | scripts/extract_rust.py:15-20 | text without the marker's first character put in front of the input moves the first match by its length: the pattern matches the longer text exactly when it matches the input, at the same place relative to it |
| `ExtractRust.BlankFenceLines` | scripts/extract_rust.py:26 | `re.sub(r'^```.*$', '', code, flags=re.MULTILINE)`: the same number of lines, each one blanked if it opens with a fence and unchanged otherwise |
| `ExtractRust.DropTrailingFences` | scripts/extract_rust.py:27 | `re.sub(r'```$', '', code, flags=re.MULTILINE)`: the same number of lines, each one with a fence that ends it cut off |
| `ExtractRust.CleanFence` | scripts/extract_rust.py:23-30 | cleaned fence code has no whitespace at either end, is its own strip, and is empty when the body is all whitespace |
| `ExtractRust.CleanupActsPerLine` | scripts/extract_rust.py:26-27 | the two substitutions keep the line count; a line opening with a fence is blanked, else a fence ending it is cut off, else it is unchanged; no line opens with a fence afterwards |
| `ExtractRust.FenceCascade` | scripts/extract_rust.py:19-33 | the pattern loop yields nothing iff no remaining pattern matches with non-empty cleaned code; what it yields is non-empty and trimmed |
| `ExtractRust.FenceCascadePicksFirst` | scripts/extract_rust.py:19-33 | the pattern loop returns the cleaned match of the first pattern that succeeds |
| `ExtractRust.RustBlockWins` | scripts/extract_rust.py:19-33 | a `rust` block with non-empty cleaned code is the result; the bare pattern and the line scan are not consulted |
| `ExtractRust.BareBlockSecond` | scripts/extract_rust.py:19-33 | without a usable `rust` block, a bare block with non-empty cleaned code is the result |
| `ExtractRust.NoFenceFallsToLineScan` | scripts/extract_rust.py:19-36 | when neither pattern succeeds, the result is that of the line scan and the fallbacks |
| `ExtractRust.BlankMatchFallsThrough` | scripts/extract_rust.py:30-33 | a match with an all-whitespace body cleans to "" and the cascade moves on to the next pattern |
| `ExtractRust.FenceResultTrimmed` | scripts/extract_rust.py:23-33 | code from a fence is non-empty, has no whitespace at either end, and is its own strip |
| `ExtractRust.LaterTextIgnored` | scripts/extract_rust.py:20-23 | when the `rust` block yields code, any text after its closing fence, more fenced blocks included, leaves the result unchanged |
| `ExtractRust.FenceCascadeAfterProse` | scripts/extract_rust.py:19-33 | text without a backtick put in front of the input leaves what the pattern loop yields unchanged, for both patterns |
| `ExtractRust.ProseBeforeIgnored` | scripts/extract_rust.py:19-33 | when a fence pattern yields code, any text without a backtick put in front of the input leaves the result unchanged |
| `ExtractRust.RustBlockAfterProse` | scripts/extract_rust.py:19-33 | a `rust` block that yields code is the result whatever backtick-free prose comes before it |
| `ExtractRust.NoStopLineNoFence` | scripts/extract_rust.py:15-47 | text none of whose lines is a stop line holds no closing fence, so neither fence pattern matches it |
| `ExtractRust.HasTrigger` | scripts/extract_rust.py:42 | the line holds one of the ten trigger keywords; such a line is never blank |
| `ExtractRust.IsStopLine` | scripts/extract_rust.py:47 | the stripped line starts with ```` ``` ````, `#` or `*`; such a line is never blank |
| `ExtractRust.CapturedRun` | scripts/extract_rust.py:40-49 | the capture has at most as many lines as the input; none is a stop line, and the first holds a trigger keyword |
| `ExtractRust.ScanStep` | scripts/extract_rust.py:40-49 | one iteration keeps the scan invariant: capture is on exactly once the first trigger line is read; a stop line ends the run |
| `ExtractRust.ScanLines` | scripts/extract_rust.py:38-49 | the loop with its sticky `in_code` flag and `break` returns exactly `CapturedRun` of the lines |
| `ExtractRust.CapturedRunIsFirstTriggeredRun` | scripts/extract_rust.py:40-49 | the capture is `lines[i..k]`: `i` is the first trigger line (included), `k` the first stop line at or after it (excluded) or the end |
| `ExtractRust.NoTriggerCapturesNothing` | scripts/extract_rust.py:42-45 | without a trigger line nothing is captured |
| `ExtractRust.AfterFences` | scripts/extract_rust.py:36-61 | the line scan's stripped join if it captured anything, else the stripped input if it holds a fallback keyword, else the placeholder; never the empty string |
| `ExtractRust.FallbackKeywordsAreTriggers` | scripts/extract_rust.py:42-55 | every keyword of the whole-input fallback is a trigger keyword of the line scan |
| `ExtractRust.NoKeywordGivesPlaceholder` | scripts/extract_rust.py:42-61 | with no usable fence and no trigger keyword in the text, the result is exactly the placeholder |
| `ExtractRust.Extract` | scripts/extract_rust.py:10-61 | the whole cascade as a function of the input; the result is never the empty string |
| `ExtractRust.ExtractRustCode` | scripts/extract_rust.py:10-61 | the function as written computes `Extract` and never returns "" |
| `ExtractRustExamples.AllCapturedGivesStrip` | scripts/extract_rust.py:36-52 | text whose first line holds a trigger keyword and none of whose lines is a stop line comes back stripped, backticks inside lines included |
| `ExtractRustExamples.FallbackGivesStrip` | scripts/extract_rust.py:51-56 | text on which neither fence pattern yields code, whose line scan captures nothing, and that holds a fallback keyword comes back stripped |
| `ExtractRustExamples.PlaceholderIsFixedPoint` | scripts/extract_rust.py:59-61 | extracting from the placeholder gives the placeholder back |
| `ExtractRustExamples.AnswerGivesItsCode` | scripts/extract_rust.py:15-33 | `Here is code:\n```rust\nfn main() {}\n```\nThanks` gives `fn main() {}` |
| `ExtractRustExamples.EmptyInputGivesPlaceholder` | scripts/extract_rust.py:36-61 | empty input gives the placeholder |
| `ExtractRustExamples.HashLineFallsBackToWholeInput` | scripts/extract_rust.py:42-56 | the one-line input `# fn main` triggers the scan and stops it at once; the whole-input fallback returns it |

## Left out

- `main` (scripts/extract_rust.py:63-81): reading stdin, printing, the
  exception handler and `sys.exit(1)` are I/O with no logic of their own.
  The model has no exceptions: every step of `extract_rust_code` is total
  on any string.
- Unicode whitespace: `str.strip`, `\s` and `str.isspace` also treat non-ASCII
  spaces (U+0085, U+00A0, U+2028, ...) as whitespace. The model uses the
  ASCII part of that set only.
- Python's general `re` engine: only the two fence patterns and the two
  cleanup substitutions are modelled, each by its own scanner.
- `FenceMatch.FirstMatchIgnoresLaterText`: stated only for a first match
  whose body is not all whitespace, because without that hypothesis the
  property does not hold (see above).
- `ExtractRust.ProseBeforeIgnored`: stated only for prose without a
  backtick, because prose with one can begin a fence of its own (see above).
