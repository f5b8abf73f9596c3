# Markdown and Mermaid preview: segmentation, diagram extraction, theme

This project models the preview pane of a Next.js Markdown editor that renders
embedded Mermaid diagrams (`src/app/page.tsx`). It covers three things.

- **Segmentation.** `renderContent` splits the editor text with
  `content.split(/(```mermaid[\s\S]*?```)/g)`. The model is the loop of
  ECMAScript's `RegExp.prototype[Symbol.split]` (`Segmenter.SplitFrom`). It tries
  the expression (`Segmenter.MatchAt`) at each position it reaches. After a
  match it resumes at the match's end, so positions inside a block are never
  tried. Separately from
  that loop, `Segmenter.BlockAt` states which text the expression matches: an
  opener "```mermaid", the shortest stretch of text after it, and a closing
  "```".
- **Span rendering.** Every piece that starts with "```mermaid" becomes a Mermaid
  node. Its source is `part.replace('```mermaid','').replace('```','').trim()`.
  Every other piece becomes a Markdown node holding the piece verbatim. Each node
  is keyed by its index, and empty or absent text renders nothing
  (`Preview.RenderContent`). The JavaScript string built-ins involved are
  `indexOf`, `startsWith`, first-occurrence `replace` and `trim`; they are in
  `JsString`.
- **Theme.** The Mermaid theme is `darkMode ? 'dark' : 'neutral'`. The toggle
  initialises Mermaid from `!darkMode`. The system-preference effect runs again
  after every change of `darkMode` (`Theme`). React state is modelled as values:
  every handler or effect maps the state one render sees to the state of the
  next.

The segmentation and rendering code is pure, and no loop is written out beyond
the scan that `split` itself performs, so that part of the model is made of
datatypes, functions and lemmas. The theme code does update things in place:
React state, the document root's class list and Mermaid's global
configuration. The root class and Mermaid's configuration, which the page
updates in place, are fields of the value `Theme.Ui`, and every handler or
effect is a function from one such value to the next.

**Unterminated openers.** One might expect an opener with no closing fence to
stay prose for the rest of the text. The code does something else, and the
model follows the code. When such an opener sits at the start of the
text, or right after a matched block, its piece starts with "```mermaid". That
piece goes to the diagram branch, and its source is everything after the opener,
trimmed (`Preview.RenderedLast`, `Preview.UnterminatedOpenerAtStart`). When
other text comes before it in the same piece, the piece stays Markdown
(`Preview.UnmatchedTextIsProse`).

## Model

| member | source | states |
|---|---|---|
| JsString.IndexOf | src/app/page.tsx:160 | The result is -1 when `pat` does not occur at or after `from`, and otherwise the least such index. This is how the lazy `[\s\S]*?` finds its closing fence. |
| JsString.StartsWith | src/app/page.tsx:162 | `part.startsWith('```mermaid')` holds exactly when the opener occurs at index 0. |
| JsString.RemoveFirst | src/app/page.tsx:163 | `replace` with a string pattern removes only the first occurrence of `pat`, and returns the input unchanged when `pat` does not occur. |
| JsString.Trim | src/app/page.tsx:163 | The result is a slice of the input with only whitespace outside it, and it has no whitespace at either end. |
| JsString.TrimUnique | src/app/page.tsx:163 | Any slice with no whitespace at its ends and only whitespace around it is the result of `trim`, so `Trim` is the only function that fits its contract. |
| JsString.TrimIdempotent | src/app/page.tsx:163 | Trimming twice gives the same result as trimming once. |
| JsString.TrimOfTrimmed | src/app/page.tsx:163 | A string with no whitespace at either end is its own trim. |
| Segmenter.BlockAt | src/app/page.tsx:160 | Defines what `/```mermaid[\s\S]*?```/` matches at `q` ending at `e`: the opener at `q`, a closing "```" ending at `e`, and, the quantifier being lazy, no "```" starting between the end of the opener and that closing fence. Every split lemma is stated against it. |
| Segmenter.SplitFrom | src/app/page.tsx:160 | The `RegExp.prototype[Symbol.split]` loop: a match at `q` emits the prose since `p` and the captured block and resumes after the block; no match moves on by one; the end emits the rest. Its result always has an odd number of pieces. |
| Segmenter.MatchAt | src/app/page.tsx:160 | A match found at `q` is exactly a `BlockAt` match. When none is found, no end works at `q`, and if an opener is at `q` then no fence follows it. |
| Segmenter.BlockEndUnique | src/app/page.tsx:160 | A lazy match has at most one end at a given start. |
| Segmenter.Split | src/app/page.tsx:160 | The split always has an odd number of pieces, 2k+1 for k matches. |
| Segmenter.SplitJoin | src/app/page.tsx:160 | Joining the pieces gives back the input exactly: the capturing group keeps every block. |
| Segmenter.SplitShape | src/app/page.tsx:160 | Every odd-indexed piece starts with "```mermaid", ends with "```", and holds no "```" in between (lazy matches are minimal). |
| Segmenter.SplitProse | src/app/page.tsx:160 | Matching is leftmost. No prose piece before the last holds "```mermaid". The last piece holds an opener only when no "```" follows that opener. |
| Segmenter.SplitSingle | src/app/page.tsx:160 | The split is the whole text as one piece if and only if the expression matches nowhere. Text without "```mermaid" is one piece. |
| Segmenter.SplitFromMatch | src/app/page.tsx:160 | If the expression matches anywhere at or after the scan position, the scan gives at least three pieces. |
| Segmenter.UnterminatedHasNoBlock | src/app/page.tsx:160 | Text that starts with an opener and has no "```" after it holds no match anywhere. |
| Preview.ExtractDiagram | src/app/page.tsx:163 | The extracted diagram source has no whitespace at either end. |
| Preview.RemoveOpener | src/app/page.tsx:163 | The first `replace` removes the opener that a diagram piece starts with. |
| Preview.RemoveClosingFence | src/app/page.tsx:163 | In a matched block, the second `replace` removes the closing fence and leaves exactly the text between the fences. |
| Preview.ExtractFromBlock | src/app/page.tsx:163 | A matched block's diagram source is the trimmed text between its opener and its closing fence. |
| Preview.ExtractFromUnterminated | src/app/page.tsx:163 | An unterminated opener's diagram source is the rest of the piece after the opener, trimmed. |
| Preview.RenderPart | src/app/page.tsx:161-169 | The node is keyed by its index. It is Mermaid if and only if the piece starts with "```mermaid". A Markdown node holds the piece verbatim, and a Mermaid node holds the extracted source. |
| Preview.RenderContent | src/app/page.tsx:157-161 | Absent or empty text renders nothing (the `value &&` and `!content` guards). Otherwise there is one node per piece, and node i has key i. |
| Preview.RenderedNodeAt | src/app/page.tsx:161 | Node i renders piece i. |
| Preview.RenderedBlocks | src/app/page.tsx:160-164 | Every odd-indexed node is a Mermaid node whose source is the trimmed body of a matched block. |
| Preview.RenderedProse | src/app/page.tsx:166-169 | Every even-indexed node before the last is a Markdown node holding its piece verbatim. |
| Preview.RenderedLast | src/app/page.tsx:162-169 | The last node is Mermaid if and only if its piece starts with "```mermaid" (an unterminated opener), and its source is then the rest of the piece, trimmed. Otherwise the last piece is verbatim Markdown. |
| Preview.SingleNode | src/app/page.tsx:160-161 | Text that the split leaves whole renders as one node. |
| Preview.UnterminatedText | src/app/page.tsx:160-164 | Text that starts with "```mermaid" and has no "```" after it renders as one Mermaid node holding the trimmed rest. |
| Preview.UnterminatedOpenerAtStart | src/app/page.tsx:160-164 | "```mermaid" followed by fence-free text renders as one Mermaid node holding that text, trimmed. |
| Preview.UnmatchedTextIsProse | src/app/page.tsx:160-169 | Text with no match that does not start with "```mermaid" renders as one Markdown node holding the whole text. |
| Theme.MermaidTheme | src/app/page.tsx:81 | The theme is "dark" if and only if dark mode is on, and "neutral" if and only if it is off. |
| Theme.Toggle | src/app/page.tsx:91-99 | The toggle negates the flag and the root `dark` class, and initialises Mermaid with the theme of the new flag. |
| Theme.ToggleTwice | src/app/page.tsx:91-93 | Toggling twice restores the flag and the root class. |
| Theme.DetectEffect | src/app/page.tsx:66-89 | The effect stores the system preference, adds the root class when the preference is dark, and initialises Mermaid from the flag of its own render. |
| Theme.Settle | src/app/page.tsx:66-89 | After the effect has re-run for every change of `darkMode`, the flag is the preference, Mermaid has the preference's theme, and the state is a fixed point of the effect: one more run changes nothing. |
| Theme.MountFollowsPreference | src/app/page.tsx:64-89 | On mount, the flag, the root class and the Mermaid theme all end up following the system preference. |
| Theme.ToggleIsReverted | src/app/page.tsx:66-99 | As written, after a toggle the flag and the Mermaid theme return to the system preference. |
| Theme.ToggleRevertedExample | src/app/page.tsx:66-99 | With a light preference, one toggle leaves the root marked dark while the flag is false and Mermaid uses "neutral". |
| Theme.MountOnce | src/app/page.tsx:66-89 | The intended mount: detection runs on mount only AND Mermaid is initialised with `prefersDark ? 'dark' : 'neutral'`. It stores the preference and leaves the root class and the Mermaid theme in step with the flag. |
| Theme.MountOnlyDepsIsStale | src/app/page.tsx:66-89 | Changing only the dependencies to `[]` is not enough: the single run initialises Mermaid from the first render's `darkMode` (false), so with a dark preference the flag and root are dark while Mermaid is "neutral". As written, the `[darkMode]` re-run is what brings Mermaid into step at mount (`Theme.MountFollowsPreference`). |
| Theme.ToggleKeepsInSync | src/app/page.tsx:91-99 | Without the re-running effect, the toggle flips the flag and keeps the root class and the Mermaid theme in step with it. |
| Theme.TogglesFromMount | src/app/page.tsx:66-99 | With detection on mount only, after n toggles the display is in step and the flag is the preference flipped n times. |

## Left out

- `mermaid.render`, `mermaid.initialize` and the `MermaidComponent` lifecycle (`src/app/page.tsx:14-35`, with the `mermaid.initialize` calls at `src/app/page.tsx:79-88` and `src/app/page.tsx:95-99`): they call an external renderer. The model records only which theme Mermaid is initialised with.
- The `ReactMarkdown` element map (`src/app/page.tsx:170-203`): it is declarative styling handed to an external renderer. A Markdown node records only the text it renders.
- File open, drag and drop, URL fetch and the editor widget: these are I/O around the preview.
- The DOM, `window.matchMedia` and `document.documentElement.classList`: the system preference is a parameter, and the root class is a boolean in `Theme.Ui`.
- React's scheduling, batching and Strict Mode double effects: `Theme.Settle` models each effect re-run as one function application.
- `src/app/layout.tsx` is not part of this model.
- Strings are sequences of Unicode scalar values, not UTF-16 code units. The patterns are ASCII and every character `trim` removes is in the Basic Multilingual Plane, so the two views agree on everything proved here for strings without unpaired surrogates (a JavaScript string may hold one; a Dafny `string` cannot).
- JsString.IndexOf: modelled only for a start position within the string, which is the only way the scan uses it. JavaScript's clamping of larger positions is not modelled.
- Empty prose pieces (between adjacent blocks, or before a block at the very start) are rendered as empty Markdown nodes, as the code does. The model does not skip them.

## Findings

| source | as written | input that shows it | evidently intended | confidence | as-written member | corrected member |
|---|---|---|---|---|---|---|
| src/app/page.tsx:66-89 | The system-preference effect lists `[darkMode]` as a dependency. It therefore runs again after every toggle and stores the system preference back into `darkMode`. | System preference light. Mount, then click the toggle once: `darkMode` goes true, the effect sets it false again, Mermaid is re-initialised with "neutral", and the root keeps the `dark` class. | Detect the preference on mount only and initialise Mermaid with `prefersDark ? 'dark' : 'neutral'` (the first render's `darkMode` is still false), so a toggle lasts and the root class and the Mermaid theme stay in step with `darkMode`. As written, the `[darkMode]` re-run is what brings a dark preference's theme into step at mount. | medium; not executed | Theme.ToggleRevertedExample | Theme.TogglesFromMount |
