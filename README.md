# Markdown renderer: math placeholders and editor toolbar, in Dafny

This project models the text-processing core of a browser Markdown editor and
renderer, and proves properties of that model.

- **Math placeholders** (`markdown-renderer.js`, `render`). Before Markdown is
  parsed, the renderer hides math from the parser.
  - Every display span `$$…$$`, then every inline span `$…$`, is pushed onto
    `mathBlocks` and replaced by an empty
    `<span class="math-placeholder" data-id="k">`.
  - After parsing, every placeholder whose id is in range is replaced by a
    text node holding `mathBlocks[id]`.
  - A parse failure returns a fixed error message instead.
  - The model is imperative, like the source: `Renderer.ExtractMath` runs two
    scan loops with a growing `mathBlocks` sequence, and
    `Renderer.RestoreMathBlocks` rewrites an array of document nodes in place.
  - Both are proved against recursive reference definitions in
    `MathPlaceholders`. The inline scan takes a flag, `crossPlaceholders`.
    With the flag set, the scan is the code as written: placeholder markup
    holds no `$` and no line break, so an inline span may run across a
    display placeholder. With the flag clear, a placeholder ends an inline
    span; this is the correction under "## Findings". `Renderer.ExtractMath`
    and `Renderer.Render` take the flag too.
  - `MathProperties` proves, for both scans:
    - the recorded spans have the shapes of the two regular expressions;
    - new placeholder ids are sequential, inline ids after the display ids,
      and every id left in the text indexes `mathBlocks`;
    - text without `$` passes through unchanged.
  - Extraction followed by restoration gives back the input for the
    corrected scan. For the code as written it holds on text in which `$$`
    does not occur, where the two scans agree; `MathFinding` gives an input
    on which it fails.
- **Editor toolbar** (`script.js`, `applyMarkdownSyntax`). Each toolbar action
  computes a new text and a new selection from the old ones: wrap the
  selection, prefix or number lines, or insert a code fence, an image or a
  horizontal rule.
  - `Toolbar` states each action as a function on `EditorState` (text,
    selection start, selection end).
  - `Editing.Editor` is the text area as an object. Its methods update `text`,
    `selStart` and `selEnd` in place, step by step as the source does, and are
    proved to reach the state the `Toolbar` function describes.
  - `ToolbarProperties` proves what each action promises:
    - wrapping can be undone;
    - prefixed and numbered lines are exactly the selected lines behind their
      prefixes;
    - a prefixed or numbered selection spanning lines ends up selected from
      after the first prefix; its end is the source's estimate, which
      overshoots the end of the block by the text between the line start
      and the selection start (for numbered lines, by nine more characters
      from ten lines on), so for a selection that starts its line it is
      exact up to nine lines;
    - fences, images and rules land on lines of their own.
  - The source's quirks are kept as written, and each has a proved statement:
    - text between the line start and a mid-line selection is dropped, and
      the reselection is shifted right by as many characters, so it may
      collapse to a cursor (`MidLineSelectionDropsText`,
      `MidLineReselectCollapses`);
    - image and rule insertion discard the selection;
    - the ordered-list selection end is a rough estimate.
- **Small pure parts of `script.js`.**
  - `Counts`: the character and word counts of `updateCounts`. The word count
    is proved equal to the number of maximal non-white-space runs.
  - `CodeBlocks`: the language label of `enhanceCodeBlocks`, proved to
    change nothing when applied a second time.
  - `Settings`: `toggleTheme`, and the decoding of stored preferences at
    load, with its defaults and a save/load round trip.

Strings are sequences of `char`. JavaScript white space (`trim`, `\s`) is the
ECMAScript WhiteSpace and LineTerminator set, written out in
`Strings.IsWhitespace`.

The markdown parser is a parameter, `parse: string -> Option<seq<Node>>`:
`None` stands for a thrown exception. A parsed document is modelled as a
sequence of `Text(s)` and `Placeholder(id)` nodes.

Prompt answers are parameters of type `Option<string>`, where `None` is a
cancelled prompt. `hljs.getLanguage` is the parameter `isLanguage`.
`localStorage` is a `map<string, string>`.

The source decodes the stored auto-render flag as true when the key is absent
or holds `'true'`, and false for any other stored value (`script.js:637-639`).

## Model

| member | source | states |
|---|---|---|
| Renderer.FindClosingPair | markdown-renderer.js:9 | the lazy `[\s\S]*?` search: the index of the first `$$` at or after `from`, or the text length when there is none |
| Renderer.ReplaceDisplaySpans | markdown-renderer.js:9-13 | the first `replace` loop yields exactly the leftmost, shortest-match display scan of the reference `DisplayFrom`, with ids numbered from 0 |
| Renderer.FindInlineStop | markdown-renderer.js:15 | the first piece from `from` on that cannot be inside an inline span: a `$` or a line break, and with `crossPlaceholders` (the code as written) never a placeholder, whose markup has neither; with the flag clear a placeholder stops the search too |
| Renderer.ReplaceInlineSpans | markdown-renderer.js:15-19 | the second `replace` loop yields exactly the reference inline scan for the given flag (`crossPlaceholders` set is the code as written), continuing the ids after the existing `mathBlocks` and appending each span to it |
| Renderer.ExtractMath | markdown-renderer.js:8-19 | the two passes give the reference extraction for the given flag, and every placeholder left indexes `mathBlocks`. Expanding the placeholders gives back the input with the flag clear, and as written on text without `$$`. With the flag clear there are as many placeholders as `mathBlocks` entries |
| Renderer.RestoreMathBlocks | markdown-renderer.js:48-54 | in place, every placeholder node with id in `[0, |mathBlocks|)` becomes the text node `mathBlocks[id]`, and every other node is left as it was |
| Renderer.Render | markdown-renderer.js:6-54 | for the given flag (set for the code as written): the result is a parse failure exactly when the parser fails on the placeholder text, in which case it is the fixed alert markup; otherwise it is the restored document |
| MathPlaceholders.FindDollarPair | markdown-renderer.js:9 | a position at or after `from` where `$$` starts, or the text length |
| MathPlaceholders.FindDollarPairFirst | markdown-renderer.js:9 | no `$$` starts between `from` and the position found; when the text length is returned, none starts anywhere from `from` on |
| MathPlaceholders.InlineStop | markdown-renderer.js:15 | a position at or after `from` whose piece is not inline content (`[^$\n]`), or the end of the pieces |
| MathPlaceholders.InlineStopContent | markdown-renderer.js:15 | every piece from `from` up to that position is inline content |
| MathPlaceholders.Restore | markdown-renderer.js:48-54 | one output node per input node, each restored on its own |
| MathProperties.DisplaySpans | markdown-renderer.js:9-13 | every display entry is at least four characters long, starts and ends with `$$`, and holds no `$$` in between (the shortest match) |
| MathProperties.DisplayIds | markdown-renderer.js:10-12 | the display placeholders carry the ids `next, next+1, …` in order, one per recorded entry |
| MathProperties.DisplayExpand | markdown-renderer.js:9-13 | replacing each display placeholder by its recorded entry gives back the scanned text |
| MathProperties.InlineSpans | markdown-renderer.js:15-19 | in both scans, every inline entry is a `$`, one or more characters other than `$` and line break, and a `$`; placeholder markup swallowed by the scan as written has neither |
| MathProperties.InlineIds | markdown-renderer.js:16-18 | in both scans, the new placeholders carry the ids `next, next+1, …` in order, one per recorded entry; when placeholders end inline spans, the earlier placeholders are also kept in order |
| MathProperties.InlineExpand | markdown-renderer.js:15-19 | with placeholders ending inline spans, replacing each inline placeholder by its recorded entry gives back the pass's input |
| MathProperties.ExtractSpans | markdown-renderer.js:8-19 | in both scans, the display entries come first and are display spans, and every later entry is an inline span |
| MathProperties.ExtractIds | markdown-renderer.js:8-19 | in both scans, the ids from the display count D on are `D..` in order, one per inline entry, and every id left in the text indexes `mathBlocks`; with placeholders ending inline spans, the ids below D are `0..D-1` in order and there are as many placeholders as entries |
| MathProperties.NoPairDisplay | markdown-renderer.js:9 | a text in which `$$` does not occur goes through the display pass character for character, and nothing is recorded |
| MathProperties.AsWrittenWithoutDisplay | markdown-renderer.js:9-19 | on a text in which `$$` does not occur, the extraction as written equals the corrected one, so every property of the corrected extraction holds for the code as written there |
| MathProperties.ExtractRoundTrip | markdown-renderer.js:8-19 | with placeholders ending inline spans, expanding every placeholder of the extraction by its `mathBlocks` entry gives back the original text |
| MathProperties.NoDollarUnchanged | markdown-renderer.js:9-19 | in both scans, a text without `$` reaches the parser unchanged and `mathBlocks` stays empty |
| MathProperties.LoneDollarInsideDisplay | markdown-renderer.js:9-19 | in both scans, `$$a$b$$` is recorded as one display entry, and the lone `$` inside it does not start an inline span |
| MathProperties.RestoreExpand | markdown-renderer.js:48-54 | the text of the restored document is the placeholder text with every placeholder expanded |
| MathProperties.AllRestored | markdown-renderer.js:50-53 | when every id is in range, no placeholder survives restoration |
| MathProperties.RenderRoundTrip | markdown-renderer.js:6-54 | with a parser that passes text and placeholders through, rendering succeeds and leaves only text nodes in both scans; its text is the original Markdown with placeholders ending inline spans, and as written when the Markdown has no `$$` |
| MathFinding.InlineSwallowsDisplayPlaceholder | markdown-renderer.js:15-19 | as written, on `$a $$x$$ b$` the inline span swallows display placeholder 0: only id 1 is left, and expansion does not give back the input |
| MathFinding.PlaceholderEndsInlineSpan | markdown-renderer.js:15-19 | when placeholders end inline spans, the same input keeps `$$x$$` as entry 0, its placeholder survives, and expansion gives back the input |
| Toolbar.Select | script.js:369 | `setSelectionRange` keeps the selection inside the text: an in-range request is taken as is, the end is clamped to the text's length, and the start to that end |
| Toolbar.Wrap | script.js:355-374 | with a selection: the text up to the collapsed cursor is the text before + open + selection + close, and the rest is unchanged. Without one: exactly the placeholder is selected, with open right before it and close right after |
| Toolbar.LineStart | script.js:378 | `lastIndexOf('\n') + 1`: the result is 0 or follows a line break, and no line break comes after it |
| Toolbar.InsertAtLineStart | script.js:377-421 | text before the line start is kept. With a selection, the text after it is kept. Without one, prefix + placeholder go in at the line start, everything from the line start on is kept, and the placeholder is selected |
| Toolbar.ReplaceLines | script.js:385-391 | the new text is the text before the line start, then the new block, then the text after the selection |
| Toolbar.PrefixLines | script.js:381-397 | a selection spanning lines becomes the prefixed lines joined by line breaks, placed at the line start; the new selection runs from after the first prefix to the old end plus one prefix per line, cut to the text |
| Toolbar.PrefixSelection | script.js:401-411 | a one-line selection is put at the line start behind the prefix; the new selection is the old one moved right by the prefix length, cut to the text |
| Toolbar.PrefixCursorLine | script.js:412-418 | without a selection, prefix + placeholder go in at the line start and the placeholder is selected |
| Toolbar.InsertOrderedList | script.js:424-451 | text before the line start is kept, and with a selection the text after it is kept. A selection spanning lines is numbered from 1 and selected from after the first label to the estimate, cut to the text; without a selection `1. ` and the placeholder go in at the line start and the placeholder is selected |
| Toolbar.NumberLines | script.js:430-446 | the numbered lines replace the lines from the line start through the selection; the new selection runs from after the label `1. ` to the estimate of script.js:443, cut to the text |
| Toolbar.OpeningFence | script.js:472 | the fence is ```` ``` ````, the language and a line break. It gets a leading line break exactly when the text before is non-empty and does not end in one |
| Toolbar.ClosingFence | script.js:473 | a line break and ```` ``` ````, followed by a line break exactly when the text after does not start with one |
| Toolbar.CodeBlock | script.js:467-487 | the text before and after are kept. Without a selection, exactly `Your code here` is selected. With one, the cursor lands right after the block |
| Toolbar.Fence | script.js:474-486 | the new text is before + opening fence + (selection or placeholder) + closing fence + after |
| Toolbar.FenceSelection | script.js:474-486 | the text before and after are kept. Without a selection, exactly `Your code here` is selected. With one, the cursor lands right after the block |
| Toolbar.BreakBefore | script.js:495 | no line break at the start of the text or after a line break, one otherwise |
| Toolbar.BreakAfter | script.js:496 | no line break at the end of the text or before a line break, one otherwise |
| Toolbar.Image | script.js:488-503 | a cancelled alt-text prompt, or a cancelled or blank URL, changes nothing; the selection always stays inside the text |
| Toolbar.ImagePlaced | script.js:494-502 | with both answers and a URL that is not blank, the text before and after are kept, the cursor follows `![alt](url)` with nothing selected, and the length accounts for the line breaks added around the markup |
| Toolbar.RulePrefix | script.js:511-517 | nothing at the start of the text, one line break after a line break, two otherwise |
| Toolbar.Hr | script.js:510-525 | the text before and after are kept, the selection is replaced, the cursor follows `---\n`, and the length is as computed |
| Toolbar.Link | script.js:461-466 | a cancelled or blank URL changes nothing. Without a selection, `link text` is selected between `[` and `](url)` |
| Toolbar.Apply | script.js:456-526 | every action leaves a selection inside the text |
| ToolbarProperties.WrapUndo | script.js:356-361 | deleting the inserted delimiters from a wrapped selection gives back the old text |
| ToolbarProperties.WrapPlaceholderUndo | script.js:362-369 | deleting the delimiters and the selected placeholder gives back the old text |
| ToolbarProperties.PrefixLinesSelection | script.js:381-397 | for every selection spanning lines, the block sits at the line start, the new selection starts after the first prefix and ends as many characters after the old selection start as the block is long: past the block's end by the text between the line start and the selection, cut to the text |
| ToolbarProperties.PrefixLinesShape | script.js:381-397 | the new block's lines are exactly prefix + each selected line. The block is `lines × |prefix|` longer. For a selection starting at a line start, nothing outside it changes and the new selection covers the block from after the first prefix |
| ToolbarProperties.NumberLinesShape | script.js:430-439 | line i of the new block is `i+1`, `. `, then selected line i; the block is as long as the selection plus the labels |
| ToolbarProperties.OrderedLabelsWidth | script.js:438 | the labels `1.` to `n.` take 3n characters up to nine lines, and 4n−9 from ten to ninety-nine lines |
| ToolbarProperties.OrderedListEstimateError | script.js:443-446 | the ordered list selects from after the first label to the estimate, cut to the text. The block replaces the text from the line start, so the estimate overshoots the block end by the text between the line start and the selection start; up to nine lines that is the whole error, and from ten to ninety-nine lines it is nine characters more. A selection starting at its line start ends exactly at the block's end up to nine lines |
| ToolbarProperties.EstimateOvershoot | script.js:443 | the estimate against the end of the numbered block: the text between the line start and the selection start, plus nine characters from ten to ninety-nine lines |
| ToolbarProperties.MidLineSelectionDropsText | script.js:401-411 | a one-line selection starting after its line start loses the text between the two, and the text shrinks by that much; the reselection lies that many characters right of where the selected text now is, cut to the text |
| ToolbarProperties.MidLineReselectCollapses | script.js:401-411 | selecting `cd` in `ab cd` and prefixing `- ` gives `- cd` with the cursor collapsed at 4, nothing selected |
| ToolbarProperties.LineStartSelectionPrefixed | script.js:401-411 | a one-line selection at a line start gets the prefix in front and stays selected |
| ToolbarProperties.OpeningFenceStartsLine | script.js:472 | the opening fence ```` ```lang ```` and its line break start a line: at the start of the text or right after a line break |
| ToolbarProperties.ClosingFenceOwnLine | script.js:473 | the closing ```` ``` ```` has a line of its own: a line break before it and one right after it |
| ToolbarProperties.FenceLayout | script.js:472-479 | the opening fence starts a line and carries the language; the body follows on the next line; the closing fence has a line of its own |
| ToolbarProperties.ImageOnOwnLine | script.js:495-502 | the image markup starts a line, and the cursor after it ends the text or a line |
| ToolbarProperties.RuleOnOwnLine | script.js:510-524 | `---\n` sits right before the cursor; it opens the text exactly when the text before is empty, and otherwise follows a blank line |
| ToolbarProperties.UnknownSyntaxUnchanged | script.js:456 | an action name the switch does not know changes nothing |
| Editing.Editor.SetSelectionRange | script.js:369 | the new selection is `Toolbar.Select` of the current text |
| Editing.Editor.WrapSelection | script.js:355-374 | the editor ends in `Toolbar.Wrap` of its old state |
| Editing.Editor.InsertAtLineStart | script.js:377-421 | the editor ends in `Toolbar.InsertAtLineStart` of its old state |
| Editing.Editor.PrefixSelectedLines | script.js:381-397 | the editor ends in `Toolbar.PrefixLines` of its old state |
| Editing.Editor.PrefixSelection | script.js:401-411 | the editor ends in `Toolbar.PrefixSelection` of its old state |
| Editing.Editor.PrefixCursorLine | script.js:412-418 | the editor ends in `Toolbar.PrefixCursorLine` of its old state |
| Editing.Editor.InsertOrderedListPrefix | script.js:424-451 | the editor ends in `Toolbar.InsertOrderedList` of its old state |
| Editing.Editor.NumberSelectedLines | script.js:430-446 | the editor ends in `Toolbar.NumberLines` of its old state |
| Editing.Editor.InsertCodeBlock | script.js:467-487 | the editor ends in `Toolbar.CodeBlock` of its old state |
| Editing.Editor.InsertImage | script.js:488-503 | the editor ends in `Toolbar.Image` of its old state |
| Editing.Editor.InsertRule | script.js:510-525 | the editor ends in `Toolbar.Hr` of its old state |
| Editing.Editor.ApplyMarkdownSyntax | script.js:346-526 | the editor ends in `Toolbar.Apply` of its old state, for the given action name and prompt answers |
| Counts.SplitOnWhitespace | script.js:55 | `split(/\s+/)` gives at least one piece, and no piece holds white space |
| Counts.NonEmpty | script.js:55 | `filter(word => word.length > 0)` keeps every non-empty piece as often as it occurs and drops every empty one (multiset equality), never giving more pieces than it got |
| Counts.SplitPiecesAreRuns | script.js:55 | the non-empty pieces of the white-space split are as many as the maximal non-white-space runs |
| Counts.WordCountIsRunCount | script.js:55-56 | the word count of the trimmed text, 0 when blank, is the number of maximal non-white-space runs of the whole text |
| Counts.CountsOf | script.js:52-56 | the character count is the text length; the word count is the number of runs, and 0 exactly when the text is all white space |
| CodeBlocks.FindLanguageClass | script.js:155 | `find(cls => cls.startsWith('language-'))`: the first such class, or none when no class qualifies |
| CodeBlocks.FindKnownClass | script.js:160 | `find(cls => hljs.getLanguage(cls))`: the first known class, or none when no class is known |
| CodeBlocks.DetectLanguage | script.js:153-175 | `hljs` is always present and the old classes are kept in front. A `language-x` class gives label x, and only `hljs` is added. Otherwise the first known class gives the label, and exactly its `language-` class and `hljs` are added. Otherwise the label is `plaintext`: `language-plaintext` and `hljs` are added when the class attribute does not mention `language-`, and only `hljs` when it does |
| CodeBlocks.DetectLanguageIdempotent | script.js:153-175 | labelling an already labelled block changes neither the label nor the classes |
| Settings.ToggleTheme | script.js:273-277 | the new theme is `dark` or `light`, and `dark` exactly when the attribute was not `dark` (missing or empty reads as `light`) |
| Settings.ToggleTwice | script.js:273-277 | toggling twice gives `dark` back from `dark`, and `light` from anything else |
| Settings.StoredOr | script.js:632 | `getItem(key) || fallback`: the stored value when it is non-empty, else the fallback |
| Settings.StoredFlag | script.js:637-639 | a stored flag is true exactly when it holds `'true'`, or is absent with default true |
| Settings.LoadPreferences | script.js:632-674 | theme and each direction are the stored value when it is non-empty, else `'dark'` and `'ltr'`, so never empty. Auto-render and input visibility are on unless stored as something other than `'true'`. Full height is on only when stored `'true'`. Saved content is used, as stored, exactly when non-empty |
| Settings.SavePreferences | script.js:254-283 | the setters write the theme, auto-render, direction, full-height and visibility keys, plus the content when present |
| Settings.EmptyStoreDefaults | script.js:632-665 | an empty store loads dark theme, auto-render on, all directions `ltr`, full height off, input visible, no content |
| Settings.SaveLoadRoundTrip | script.js:632-674 | loading what was saved gives back the saved preferences |
| Settings.ReloadStable | script.js:632-674 | loading, writing back and loading again gives the same preferences |
| Strings.Trim | script.js:55 | `trim()`: empty exactly when the text is all white space; otherwise the slice between leading and trailing white space, not starting or ending with white space |
| Strings.Split | script.js:383 | `split('\n')` gives at least one piece, and no piece holds the separator |
| Strings.JoinSplit | script.js:383-390 | joining the split lines with the separator gives back the text |
| Strings.SplitJoin | script.js:383-390 | splitting joined pieces that hold no separator gives back the pieces |
| Strings.Decimal | script.js:438 | the decimal form of a number is non-empty; `Strings.DecimalValue` states what it denotes |
| Strings.DecimalValue | script.js:438 | the label number `${index + 1}` prints as digits with no leading zero that denote the number (an independent digit-value reading) |
| Strings.DecimalDigits | script.js:438 | every character of the decimal form is a digit |
| Strings.DecimalWidth | script.js:443 | numbers below ten print with one digit, and numbers below a hundred with two |

## Findings

| source | as written | input that shows it | evidently intended | confidence | as-written member | corrected member |
|---|---|---|---|---|---|---|
| markdown-renderer.js:15-19 | the inline pattern `\$([^$\n]+?)\$` runs over text where display math is already a placeholder. The markup `<span class="math-placeholder" data-id="0"></span>` holds no `$` or line break, so an inline span can run across it. The display span then ends up inside an inline entry as raw markup, and its own placeholder is gone | `$a $$x$$ b$`: `mathBlocks` becomes `["$$x$$", "$a <span class=\"math-placeholder\" data-id=\"0\"></span> b$"]`. Only placeholder 1 remains, so `$$x$$` is never restored and the span markup appears as text | display placeholders are opaque: an inline span cannot cross one, so the text restores to `$a $$x$$ b$` | not executed | MathFinding.InlineSwallowsDisplayPlaceholder | MathFinding.PlaceholderEndsInlineSpan |

The as-written and the corrected scans are one definition with the flag
`crossPlaceholders`, set for the code as written. `Renderer.ExtractMath` and
`Renderer.Render` take the flag. `MathProperties.ExtractRoundTrip` proves the
round trip of the corrected scan for every input.
`MathProperties.AsWrittenWithoutDisplay` proves that the two scans agree on
text without `$$`.

## Left out

- `marked.parse` is the parameter `parse`. `RenderRoundTrip` assumes a parser that passes text and placeholders through unchanged. Real HTML parsing, escaping and the custom `code` tokenizer (markdown-renderer.js:22-38) are not modelled.
- The placeholder markup is a structural piece (`Ph(id)`), not characters. The model does not capture input that already contains literal `math-placeholder` span markup.
- The model does not capture a `data-id` that `parseInt` reads as `NaN` or as a number of another form. A placeholder node's id is an integer, and out-of-range ids are left alone as in the source.
- `console.error`, KaTeX rendering (`renderMathInElement`, markdown-renderer.js:57-68) and syntax highlighting (markdown-renderer.js:70-80): foreign libraries with no modelled output.
- All DOM construction: wrappers, headers and copy buttons in `enhanceCodeBlocks`, theme icons and stylesheets in `applyTheme`, layout classes, event listeners and keyboard shortcuts. These are browser tree plumbing.
- Writing the counts into `textContent` (script.js:58-63): only the two numbers are modelled.
- `focus()` and the `updateCounts()` call after each toolbar action (script.js:528-530): focus is UI. The new counts are `Counts.CountsOf` of the new text.
- The clipboard, `setTimeout`, `debounce` and the direction-applying DOM helpers: asynchronous I/O or attribute plumbing.
- Lengths and indices count Unicode characters, where JavaScript counts UTF-16 code units. The two differ only for characters outside the Basic Multilingual Plane.
- Toolbar.Select: clamps both ends to the text and moves a start past the end onto it. It does not model the selection direction or the cursor move when `value` is assigned, which the next `setSelectionRange` overrides.
- Settings.SavePreferences: writes every key at once. The source writes each key from its own setter when that setting changes. The content key is written here only when there is content.
- InlineExpand, ExtractRoundTrip: proved for the corrected scan only. As written, the round trip fails once an inline span runs across a display placeholder (`MathFinding.InlineSwallowsDisplayPlaceholder`). `AsWrittenWithoutDisplay` carries it over to text without `$$`.
- InlineIds, ExtractIds: as written, that earlier placeholders are kept in order is not promised, because an inline span may swallow one.
- Settings.LoadPreferences: returns the decoded values only. Applying them (`applyTheme`, `setTextDirection` and the re-render it triggers) is left out as DOM work.
