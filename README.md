# readme2tex rendering core, in Dafny

readme2tex turns LaTeX in a Markdown document into SVG images and rewrites the
document to show them. This project models the core of its `render` module
(`readme2tex/render.py`) and proves what that code promises.

- **Scanner** (`scanner.dfy`, module `Scanner`): `extract_equations`.
  - A cursor loop looks for the leftmost opener: a backtick fence
    (`([`]{3,})[ \t]*(\w+)?[ \t]*`) or `\begin{env}`.
  - It then looks for the first closer after the opener: the same backtick
    string, or the literal `\end{env}`.
  - A fence tagged `tex` yields its inner text. An environment yields its full
    text, and it is inline exactly when `env` is `math`.
  - A fence with any other tag is skipped along with its contents.
  - An unclosed opener that the cursor reaches raises `ValueError`. Its
    message quotes a pattern that matches exactly the missing closer.
  - The regular expressions are modelled as character-level functions:
    greedy runs (`Run`) and a literal search (`Find`). `Blocks` holds, for
    every position, the opener matched there and the result of its closer
    search.
- **Dedup and cache** (`render_cache.dfy`, module `RenderCache`): the loop of
  `render` that fills `seen` and `equation_map` and sets `has_changes`, and the
  write-back loop that stores every entry that has a DVI file.
  - The image store, the MD5 naming, the reader of the `offset` attribute and
    the typesetter are fields of a `Context`.
- **Rewriter** (`rewriter.dfy`, module `Rewriter`): the loop that splices every
  span's markup into the document, from the last span to the first. A block
  span's image is wrapped in `<p align="center">…</p>`.
- **Options and URL** (`url.dfy`, module `UrlOptions`):
  - `htmlize` forces `nocdn` and clears the branch.
  - `nocdn` chooses between the local and the jsDelivr URL template, and
    `pngtrick` swaps the `.svg` suffix for `.png`.
  - `str.format` fills in the template.
- `wrappers.dfy` (module `Wrappers`) holds `Option` and `Result`.

## Model

| member | source | states |
|---|---|---|
| Scanner.RunIsLongest | readme2tex/render.py:92-98 | a greedy run consumes only characters of its class and stops before the first one outside it (or at the end) |
| Scanner.OpenerMatches | readme2tex/render.py:92-105 | the opener at a position is a fence exactly when three backticks start there, and an environment exactly when `\begin{`, a non-empty `[\w*]` name and `}` do. A fence takes the whole backtick run, the blanks, the longest word as its tag (absent when empty) and the blanks after it. An environment takes the name up to `}` |
| Scanner.FindIsLeftmost | readme2tex/render.py:125-126 | the closer search returns the first occurrence at or after the opener's end, and returns nothing only when there is none |
| Scanner.FindOpenerIsLeftmost | readme2tex/render.py:99-103 | the opener search stops at the first position with an opener and finds nothing only when no later position has one |
| Scanner.ScanFromSound | readme2tex/render.py:121-178 | every successful scan from a cursor returns spans at or after the cursor. The spans are non-empty, strictly increasing and non-overlapping, and each matches the source's definition |
| Scanner.SpanOfMatches | readme2tex/render.py:130-136 | a `tex` fence yields the text between the opener's end and the closer, and its `[start, end)` covers both fences. An environment yields `content[start:end]`, inline exactly for `math` (the definition is `SpanMatches`) |
| Scanner.SkippedFenceHidesContents | readme2tex/render.py:130-138 | after a fence not tagged `tex`, every span reported starts after its closing backticks, so nothing inside it (not even a `\begin`) is reported |
| Scanner.EscapedRoundTrip | readme2tex/render.py:158 | `re.escape` of an environment name, read back as a pattern, matches the name itself |
| Scanner.EscapedWithoutStar | readme2tex/render.py:158 | a name without `*` is its own escape |
| Scanner.PatternIsCloser | readme2tex/render.py:158 | the closing pattern matches exactly the closer searched for: `\end{env}` for an environment, and the backtick string for a fence (line 125) |
| Scanner.MessageQuotesCloser | readme2tex/render.py:158-162 | the `ValueError` text is the fixed prefix, then a pattern that matches exactly the missing closer, then a closing quote (the same text as line 128 for a fence) |
| Scanner.ScanErrorIsUnclosedOpener | readme2tex/render.py:126-128 | an opener with no closer fails the whole scan, naming that opener, and every failure names an unclosed opener in the rest of the document |
| Scanner.ScanBlocks | readme2tex/render.py:79-178 | the cursor loop returns exactly the recursive scan, and its spans are sound. The loop stops when the cursor is at or past the last character or no opener follows it (`ScanFromStops`). Each iteration emits the first block's span, when it emits one, and resumes right after the closer (`ScanFromStep`) |
| Scanner.ExtractEquations | readme2tex/render.py:79-178 | `list(extract_equations(content))` equals `Scan(content)`. On success the spans are ordered, non-overlapping and each matches the source's definition of a span |
| RenderCache.OrderedDistinctKeys | readme2tex/render.py:207-213 | the scanner's ordered spans have distinct `(start, end)` keys, so `equation_map` gets one key per span |
| RenderCache.Cached | readme2tex/render.py:217-238 | a stored image is used only without `rerender`, when the store has the expression's name, and the image is non-empty with an offset that reads back. It is then reused unchanged, with no DVI, under that name |
| RenderCache.Fresh | readme2tex/render.py:28-32 | typesetting fails exactly when the engine is not `latex`. Otherwise the entry holds the typeset SVG in the span's own mode and a DVI, under the expression's name |
| RenderCache.FirstOfIsFirst | readme2tex/render.py:212-215 | `seen` records the first span with each expression: no earlier span has it |
| RenderCache.MissedOnce | readme2tex/render.py:212-215 | the list of expressions to typeset holds each expression without a usable stored image exactly once, and no other expression |
| RenderCache.ResolveEquations | readme2tex/render.py:207-240 | the loop fails exactly when some expression must be typeset and the engine is not `latex`. Otherwise every span gets the entry decided for the first span with its expression. `has_changes` is set exactly when some expression has no usable stored image, and the typesetter runs once per such expression and never for the others |
| RenderCache.RepeatsShareEntry | readme2tex/render.py:211-215 | spans with the same expression text get the very same entry |
| RenderCache.DviIffTypeset | readme2tex/render.py:231-236 | an entry has a DVI file exactly when its expression had no usable stored image. A stored image is reused unchanged, and every entry is named after its expression |
| RenderCache.WrittenWasTypeset | readme2tex/render.py:240-287 | an entry that will be written back was typeset in this run, from the first span with its expression, and is named after that expression |
| RenderCache.PersistFresh | readme2tex/render.py:299-308 | the write-back runs only under `has_changes`, and stores the SVG of each entry whose DVI is truthy under its name, in span order |
| RenderCache.PersistedNames | readme2tex/render.py:304-308 | after the write-back the store's names are the old names plus the names of the written entries |
| RenderCache.PersistedKeeps | readme2tex/render.py:304-308 | a name no entry writes keeps its old image |
| RenderCache.PersistedLast | readme2tex/render.py:304-308 | a written name holds the SVG of the last span written under it |
| RenderCache.NothingFreshWithoutChanges | readme2tex/render.py:299-306 | without `has_changes` no entry has a DVI file, so the write-back filter leaves the store as it was |
| RenderCache.SecondRunTypesetsNothing | readme2tex/render.py:221-236 | after the write-back, a second run over the same document without `rerender` that reads the store the first run wrote finds a usable stored image for every expression. It therefore typesets nothing, provided the typesetter's SVGs are non-empty and their offsets parse |
| Rewriter.MarkupWraps | readme2tex/render.py:407 | a block span's image sits unchanged between `<p align="center">` and `</p>`, and an inline span's markup is the image itself |
| Rewriter.OrderedIsSorted | readme2tex/render.py:385 | scanner output is strictly sorted by `(start, end)` as tuples compare, so the sort leaves it unchanged and the reversal visits the spans last to first |
| Rewriter.MakeReplacements | readme2tex/render.py:385-408 | splicing the spans from the last to the first gives the left-to-right interleaving of the untouched gaps and the markups |
| Rewriter.SpliceMarkups | readme2tex/render.py:407-408 | the result is as long as the content plus the growth of all spans, and each span's markup sits at its start shifted by the growth of the spans before it |
| Rewriter.SpliceKeepsGaps | readme2tex/render.py:408 | every character outside all spans is kept, in order, shifted by the growth of the spans before it |
| Rewriter.SelfImagesRoundTrip | readme2tex/render.py:408 | replacing every inline span by its own text gives back the document |
| UrlOptions.Normalize | readme2tex/render.py:198-200 | under `htmlize`, `nocdn` is set and the branch is cleared. The other options are kept, and nothing changes without `htmlize` |
| UrlOptions.BranchInForce | readme2tex/render.py:289-302 | a given (non-empty) branch is never rebound. A missing one stays missing without a write-back and becomes `NONE` after one |
| UrlOptions.FormatFills | readme2tex/render.py:396 | `format` on a template without stray braces replaces each `{key}` by its value and copies the rest |
| UrlOptions.TemplateIsPattern | readme2tex/render.py:377-383 | the template chosen by `nocdn`, with its last four characters replaced by `.png` under `pngtrick`, is the base template followed by the image suffix |
| UrlOptions.UrlShape | readme2tex/render.py:377-383 | the address is `svgdir/name` or `https://cdn.jsdelivr.net/gh/user/project@branch/svgdir/name` with the branch in force (`None` when there is none), followed by `.svg`, or by `.png` under `pngtrick`. Under `htmlize` it is always the local one |

## Left out

- `\w` is modelled as ASCII `[A-Za-z0-9_]`. Python's `re` on `str` also
  matches non-ASCII letters and digits.
- `rendertex` shells out to `latex` and `dvisvgm` and does file I/O. It is
  left out except for the check that the engine is `latex`, which the
  `typeset` field of `Context` stands behind.
  - `typeset` is total in the model. The source also aborts when `dvisvgm`
    fails (render.py:67-68, outside the `try` of 37-65) and when the SVG
    post-processing finds no `<g>` or `<use>` element (render.py:245-249).
    These aborts are not modelled.
  - `svg2png` is a foreign call, and so is the PNG rasterizing under
    `pngtrick`.
  - The git workflow is left out for the same reason: branch detection,
    stash, checkout, commit, rollback and the remote URL parsing.
- The MD5 naming is the abstract `digest`. Reading the stored image from the
  working tree or from `git show` is one abstract `store` map, so the model
  does not tell the local directory from the branch. The write-back of the
  other-branch case writes under the same filter and is covered by the same
  `PersistFresh`.
- The XML parsing and the float arithmetic on the SVG are left out. So are the
  viewBox and baseline adjustment, the 1.65 scaling, the near-zero offset snap
  and the random cache-busting token. The offset reader is the abstract
  `parseOffset`, which returns an `Option`.
- The `<img>` tag (`alt`, URL, alignment, size) is an abstract string per span.
  Only its `<p align="center">` wrapper and the splicing are modelled.
- File reads and writes, the temporary directory, `\r` stripping and the
  Markdown/HTML export are left out.
- Scanner.ExtractEquations: the source is a generator. The model is its list,
  because `render` consumes it with `list(...)`, so an error loses every span
  yielded before it. The opening search is modelled as a lookup in a
  per-position table of matches (`Blocks`) rather than a search of the
  remaining text. Both give the leftmost match at or after the cursor, since
  each match only reads forward from where it starts. The closing search is
  read from the same table, whose entry is the leftmost occurrence of the
  closer after the opener (`BlocksClosersFound`, `FindIsLeftmost`).
- Scanner.PatternIsCloser: a pattern is read by `Unescaped`, which knows only
  plain characters and backslash escapes. Those are the only kinds of item in
  the closing patterns. The regular-expression engine is not modelled.
- Rewriter.MakeReplacements: requires the spans in scanner order
  (`OrderedIsSorted`), so the `sorted(...)[::-1]` of the source appears as the
  loop running from the last span to the first.
- UrlOptions.Format: handles plain `{key}` fields only. `{{`, `}}`, format
  specs and conversions are not modelled because the templates of `render`
  use none of them.
- UrlOptions.BranchInForce: the checked-out branch is a parameter, and the
  exit when it cannot be read (outside a git repository) is left out with the
  rest of the git workflow.
- RenderCache.SecondRunTypesetsNothing: holds only when the second run reads
  the store the first run wrote. That is so when no branch is given (both read
  and write use the working tree) and when the branch is another one (the
  write-back is committed there). It is not so when the branch given is the
  checked-out one. Then the images are written to the working tree but read
  back with `git show` from the last commit, so the next run typesets them
  again until they are committed. The model has a single store and does not
  capture that case.
