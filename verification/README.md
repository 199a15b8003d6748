# mdbook-langtabs: the markdown transform, in Dafny

mdbook-langtabs is an mdBook preprocessor. A chapter may mark a stretch of
markdown with `<!-- langtabs-start -->` and `<!-- langtabs-end -->`. The
preprocessor replaces each such region with one HTML tab widget. The widget
has a button and a content pane per fenced code block of the region. Each
button shows an icon and a display name for the block's language. Each pane
shows the block's code, HTML-escaped.

This project models the transform in `src/preprocessor.rs` and proves what
it promises. It has seven modules:

- `Text`: searching for a literal (`contains`, and the searches the regex
  makes), `str::replace`, and small readers used to take the generated HTML
  apart again.
- `Regions`: the scan `captures_iter` performs for the pattern "start
  marker, shortest text, end marker". The two markers are parameters. The
  module proves that every capture is a match, that the captures are in
  order and do not overlap, that each starts at the first start marker
  after the previous one, and that none is missed.
- `Extract`: `extract_code_blocks`, a loop over the markdown parser's
  events, proved equal to a fold (`CodeBlocks`). The fold is then
  characterised on well-formed event streams: one block per fenced block
  with a non-empty info string, in source order, holding the text of the
  block's body.
- `Languages`: `get_language_display_name` and `get_language_icon`, the
  two case-insensitive lookup tables, with the lower-casing they apply.
- `Escape`: `html_escape` and its inverse. The output holds no `<`, `>`,
  `"` or `'`. Every `&` in it starts an entity. Unescaping gives back the
  input.
- `Render`: `generate_tabs_html`, two loops proved equal to `TabsHtml`.
  The module also has a reader that parses a widget back into its id, its
  buttons and its panes. That reader is how the layout is stated: n
  buttons and n panes in block order, only the first of each active, and
  button i and pane i sharing the `data-lang` of block i.
  The module also proves that a widget holds a marker shaped like an HTML
  comment opening only if its id does (`Render.WidgetFree`).
- `Preprocessor`: `process_markdown`, a loop over the captures proved
  equal to `Processed`, with the end-to-end lemma for one marked region.
- `Chapters`: the end-to-end statement for a chapter with any number of
  marked regions. The chapter is given as gaps and regions. The scan finds
  the regions in order, and each turn of the loop replaces exactly its own
  region.

The markdown parser and the UUID generator are not modelled. The transform
takes them as parameters: `parse` maps a region's inner text to its event
sequence, and `ids` maps the loop index to the widget id.

Some behaviours of the code, as modelled:

- The code finds fenced blocks from the events of a markdown parser, not
  with a line scanner.
- A fence still open when the events run out yields nothing at the
  extractor (`Extract.UnterminatedFenceYieldsNothing`). It is not emitted
  as a best-effort block. Whether the parser closes such a fence itself is
  the parser's business.
- The `data-lang` of a button is the block's first info-string word. It is
  not qualified by the block's index. Two blocks with the same tag share
  one `data-lang`.
- The display name of the empty tag is the empty string. `DisplayName`
  guarantees a non-empty name only for a non-empty tag.
- `str::replace` replaces every occurrence of a region's whole match in the
  text so far. It does not replace just the captured span.

## Model

| member | source | states |
|---|---|---|
| Preprocessor.ProcessMarkdown | src/preprocessor.rs:10-40 | The loop returns the text unchanged when either marker is missing. Otherwise it returns `Processed`: every capture, in scan order, whose extracted block list is non-empty has all occurrences of its whole match replaced by the widget for those blocks. |
| Preprocessor.ProcessedWith | src/preprocessor.rs:14-16 | A text that lacks the start marker or the end marker is returned as it is. |
| Preprocessor.SpliceWithoutBlocks | src/preprocessor.rs:32-36 | Captures whose regions hold no code block with a language change nothing. |
| Preprocessor.NoBlocksNoChange | src/preprocessor.rs:28-37 | A text none of whose regions holds a fenced block with a non-empty info string comes back unchanged. |
| Preprocessor.OneRegionWith | src/preprocessor.rs:14-37 | For any two markers that cannot overlap themselves: in a text with one marked region, the region is replaced by the widget for its blocks, named by the first id, and the text before and after is kept. A region without blocks is left untouched. |
| Preprocessor.OneRegion | src/preprocessor.rs:10-40 | The same end-to-end statement for the two markers of the source. |
| Chapters.MarkersOfSource | src/preprocessor.rs:11-12 | The two markers of the source can be told apart: each begins with a character found nowhere else in either, neither is a prefix of the other, and the start marker begins with `<` and ends with `>`, as a widget does. |
| Chapters.ChapterMarked | src/preprocessor.rs:14 | A chapter with at least one marked region holds both markers, so the early return is not taken. |
| Chapters.ChapterEmpty | src/preprocessor.rs:14-16 | A text with no start marker (a chapter with no parts) comes back as it is. |
| Chapters.CutScan | src/preprocessor.rs:28 | In a text cut into gaps free of start markers and marked regions whose inner texts hold no marker, with no start marker after the last region, the scan finds the regions one after the other. |
| Chapters.LaidOutCaptures | src/preprocessor.rs:19-28 | The scan of a laid-out chapter yields its regions, in order, each at its own position. |
| Chapters.TailMiss | src/preprocessor.rs:35 | A marked region that differs from every region still in place does not occur in the rest of the chapter. |
| Chapters.SpliceHere | src/preprocessor.rs:35 | Replacing a region's whole match replaces that region alone and keeps the text before and after it. |
| Chapters.StageStep | src/preprocessor.rs:29-36 | One turn of the loop replaces the k-th region by its widget, named by the k-th id, when the region holds blocks, and changes nothing else. |
| Chapters.SpliceStages | src/preprocessor.rs:26-37 | After k turns of the loop the text is the chapter with the first k regions handled and the others as written. |
| Chapters.ChapterWith | src/preprocessor.rs:14-37 | For any markers that can be told apart, in a laid-out chapter with any number of regions, each region with code blocks becomes its widget, named by the id of its place in the scan. Every other region and every gap is kept. |
| Chapters.StartIsComment | src/preprocessor.rs:11 | The start marker is an HTML comment opening `<!-- ` with no other `<`, no `"`, `>` only at its end, and at least 20 characters long. |
| Chapters.Chapter | src/preprocessor.rs:10-40 | The same end-to-end statement for the two markers of the source. Of the ids it requires only that none holds the start marker, since the widgets then hold none either. |
| Regions.NextCapture | src/preprocessor.rs:19-24 | The next match starts at or after the search position, ends after it and lies inside the text. |
| Regions.NextCaptureMatches | src/preprocessor.rs:19-24 | What the search finds is the start marker, inner text and end marker at that position, with no end marker inside the inner text (non-greedy). |
| Regions.NextCaptureIsLeftmost | src/preprocessor.rs:19-24 | No start marker occurs between the search position and the match. |
| Regions.NextCaptureNone | src/preprocessor.rs:19-24 | When the search finds nothing, no start marker at or after the search position is followed by an end marker. |
| Regions.CapturesMatch | src/preprocessor.rs:28-30 | Every capture is a non-greedy match: its full text is start marker, inner text and end marker at its position, with no end marker inside the inner text. |
| Regions.CapturesNonEmpty | src/preprocessor.rs:28-29 | No capture's full match is empty. |
| Regions.CapturesInOrder | src/preprocessor.rs:28 | The captures do not overlap: each starts at or after the end of the one before. |
| Regions.CapturesAreLeftmost | src/preprocessor.rs:28 | Each capture starts at the first start marker after the end of the previous one. |
| Regions.CapturesAreExhaustive | src/preprocessor.rs:28 | After the last capture, no start marker is followed by an end marker, so no region is missed. |
| Regions.CaptureBetween | src/preprocessor.rs:19-24 | A start marker, a later end marker and no end marker between them make a match. |
| Regions.RegionAfter | src/preprocessor.rs:19-24 | Resumed after some text, the scan skips a gap free of start markers and finds the marked region that follows it. |
| Regions.RegionMarks | src/preprocessor.rs:11-24 | For markers shaped like the source's, a start marker begins inside a marked region only at the region's start. |
| Regions.SameRegion | src/preprocessor.rs:19-24 | Two marked regions whose inner texts hold no end marker and that begin at the same place are the same region. |
| Regions.OneCapture | src/preprocessor.rs:19-28 | A text with one marked region, with no end marker inside it and no start marker outside it, yields exactly that region as its only capture. |
| Extract.ExtractCodeBlocks | src/preprocessor.rs:42-77 | The loop over the events returns `CodeBlocks` of those events. |
| Extract.ExtractFrom | src/preprocessor.rs:57-60 | Every pushed block has a non-empty language, and there are no more blocks than events. |
| Extract.ExtractFromPieces | src/preprocessor.rs:50-76 | On prose and complete fenced blocks, read from outside a block, the result is one block per fence with a non-empty info string, and the reader ends outside a block. |
| Extract.ExtractAppend | src/preprocessor.rs:50-75 | Reading two event streams one after the other gives the blocks of the first and then those of the second, read from the state the first left. |
| Extract.OutsideIsSilent | src/preprocessor.rs:63-73 | Events outside a fenced block push nothing and leave the extractor outside a block. |
| Extract.InsideAccumulates | src/preprocessor.rs:63-72 | Inside a block, text and inline code are appended to the code in order, and nothing is pushed. |
| Extract.FencedBlock | src/preprocessor.rs:52-62 | A complete fenced block yields one block with its info string and its body's text, because the code is cleared at the start. An empty info string yields nothing. |
| Extract.CodeBlocksOfPieces | src/preprocessor.rs:50-76 | On prose and complete fenced blocks, `CodeBlocks` (the fold of `Next` and `Emitted` over the events) is exactly one block per fence with a non-empty info string, in source order. |
| Extract.UnterminatedFenceYieldsNothing | src/preprocessor.rs:57-59 | A fence with no end event adds no block. |
| Render.SkipWhitespace | src/preprocessor.rs:91 | Skips exactly the leading whitespace. |
| Render.TokenEnd | src/preprocessor.rs:91 | Stops at the first whitespace character. |
| Render.CleanLang | src/preprocessor.rs:91 | A non-empty info string gives a non-empty tag, made of its characters. |
| Render.CleanLangIsFirstWord | src/preprocessor.rs:91 | The tag is the first whitespace-separated word: non-empty, free of whitespace, led only by whitespace and ended by whitespace or the string's end. An all-whitespace info string is kept whole. |
| Render.CleanLangOfWord | src/preprocessor.rs:91 | An info string without whitespace is its own tag. |
| Render.TabsHtml | src/preprocessor.rs:80-82 | The widget is empty exactly when there are no blocks. |
| Render.GenerateTabsHtml | src/preprocessor.rs:79-136 | The two loops build `TabsHtml`: the opening tags, one button per block, the header's close, the content's opening, one pane per block, and the two closing tags. |
| Render.ReadOneTab | src/preprocessor.rs:90-103 | `ButtonHtml` for block i reads back as a button with block i's tab class and tag, followed by whatever came after it. |
| Render.ReadOnePane | src/preprocessor.rs:110-129 | `PaneHtml` for block i reads back as a pane with block i's pane class and tag, with the code language set to that tag and the unescaped code equal to block i's code. |
| Render.ReadButtonOf | src/preprocessor.rs:100-103 | A button whose class and `data-lang` hold no `"`, holding the icon and label of its `data-lang`, reads back as its class and `data-lang`. |
| Render.ReadPaneOf | src/preprocessor.rs:118-129 | A pane whose class and `data-lang` hold no `"` and whose escaped code holds no `<` reads back with its code unescaped. |
| Render.ReadWidgetBack | src/preprocessor.rs:84-134 | The widget parses back to its id, one button view per block and one pane view per block, in block order. Each pane's unescaped code is its block's code. |
| Render.NameFree | src/preprocessor.rs:138-187 | The label of any tag is free of a comment-like marker: a table label is too short to hold it, and any other label is the tag, one word or all whitespace. |
| Render.IconFree | src/preprocessor.rs:190-239 | The icon of any tag is free of a comment-like marker and ends with `>`. |
| Render.ButtonFree | src/preprocessor.rs:90-103 | Each header button is free of a comment-like marker and ends with `>`. |
| Render.PaneFree | src/preprocessor.rs:110-129 | Each content pane is free of a comment-like marker and ends with `>`, its code being escaped. |
| Render.HeaderFree | src/preprocessor.rs:84-88 | The widget's opening tags are free of a comment-like marker when the id is. |
| Render.WidgetFree | src/preprocessor.rs:79-136 | The widget holds a comment-like marker, such as the start marker, only if its id does. So the text the loop writes into the chapter gives the scan no new start marker. |
| Render.WidgetLayout | src/preprocessor.rs:90-131 | There are n buttons and n panes for n blocks. Only button 0 and pane 0 are active. Button i and pane i share the `data-lang` of block i, which is also the pane's code language. Pane i shows block i's code. |
| Languages.ToLower | src/preprocessor.rs:139 | Lower-casing keeps the length and leaves no ASCII capital. |
| Languages.ToLowerIdempotent | src/preprocessor.rs:139 | Lower-casing twice is lower-casing once. |
| Languages.DisplayNameEntry | src/preprocessor.rs:140-184 | Every name in the table is non-empty. |
| Languages.DisplayName | src/preprocessor.rs:138-187 | A non-empty tag gets a non-empty label. A tag the table does not know is its own label. |
| Languages.IconClassOf | src/preprocessor.rs:192-235 | Every class in the icon table starts with `devicon-` and names an icon after it. |
| Languages.IconClass | src/preprocessor.rs:191 | The icon class of any tag, looked up after lower-casing, is a Devicon class with a non-empty name. |
| Languages.IconHtml | src/preprocessor.rs:190-239 | The icon is always an `<i class="langtabs-icon ...">` element with a non-empty class. |
| Languages.LookupsIgnoreCase | src/preprocessor.rs:139-191 | Tags that lower-case alike get the same icon, and the same label whenever the table knows them. |
| Languages.LowerCasedTagLooksUpAlike | src/preprocessor.rs:139-191 | A tag and its lower-cased form look up alike. |
| Languages.NamesShort | src/preprocessor.rs:140-184 | No label in the table is longer than twelve characters. |
| Languages.IconsShort | src/preprocessor.rs:192-235 | No class in the icon table is longer than 27 characters. |
| Languages.PythonAliases | src/preprocessor.rs:138-239 | "PyThOn" and "py" are both labelled Python, and "PY" and "python" get the Python icon. |
| Languages.UnknownTagFallsBack | src/preprocessor.rs:185-235 | An unknown tag keeps its own spelling as its label and gets the generic icon. |
| Escape.EscapeStep | src/preprocessor.rs:242-246 | Each `replace` in the chain turns one more special character into its entity, character by character. |
| Escape.UnescapeStep | src/preprocessor.rs:242-246 | Undoing the replacements one at a time, in reverse order, turns each entity back into its character. |
| Escape.EscapeIsCharwise | src/preprocessor.rs:241-247 | `HtmlEscape`, the five `replace` calls in the source's order with `&` first, escapes each character on its own: the output is the concatenation of each input character's entity or the character itself. |
| Escape.EscapeRemovesMarkup | src/preprocessor.rs:241-247 | The escaped text holds no `<`, `>`, `"` or `'`. |
| Escape.EscapeAmpersandsStartEntities | src/preprocessor.rs:241-247 | Every `&` in the escaped text starts one of the five entities, because `&` is replaced first. |
| Escape.UnescapeEscape | src/preprocessor.rs:241-247 | Unescaping the escaped text gives back the input. |
| Text.FindFromSpec | src/preprocessor.rs:19-28 | The search finds the first occurrence of a literal at or after a position, or reports that there is none. |
| Text.FindFrom | src/preprocessor.rs:19-24 | A search that finds something reports a position at or after its start where the literal fits inside the text. |
| Text.ContainsFinds | src/preprocessor.rs:14 | `Contains`, the model of `str::contains`, holds exactly when the search from the start finds an occurrence. |
| Text.ReplaceKeepsPrefix | src/preprocessor.rs:35 | `ReplaceAll`, the model of `str::replace`, copies unchanged a prefix in which no occurrence starts. |
| Text.ReplaceUnique | src/preprocessor.rs:35 | When the pattern occurs exactly once, that occurrence is replaced and the text around it is kept. |
| Text.ReplaceAbsent | src/preprocessor.rs:35 | Replacing a literal that does not occur changes nothing. |
| Text.ReplaceOnly | src/preprocessor.rs:35 | When the match begins with a marker that cannot overlap itself and occurs nowhere else, replacing the match changes only that occurrence. |

## Left out

- The markdown parser (pulldown_cmark) is not modelled. `parse` is a parameter mapping text to the events the extractor distinguishes. Its other events are collapsed into `Other`. `Preprocessor.OneRegion`, `Chapters.ChapterWith` and `Chapters.Chapter` hold for any `parse`. Only `Extract.CodeBlocksOfPieces` and `Extract.ExtractFromPieces` describe the parser's output, as prose and complete fences.
- The regex engine is not modelled. The pattern is two escaped literals around a lazy `[\s\S]*?`. It is modelled as a literal scan: the first start marker, then the first end marker after it, resuming after the match.
- The UUID generator is not modelled. `ids(k)` stands for the id of the widget built for the k-th capture. The reader's proofs require only that an id holds no `"`. `Chapters.Chapter` also requires that no id holds the start marker. `Render.WidgetFree` shows that the widgets then hold none either.
- `process_chapter`, `src/main.rs`, `src/lib.rs` and `assets/langtabs.js` are not part of this model. They hold I/O, argument parsing, configuration editing and the page's script.
- Languages.ToLower: models `str::to_lowercase` only for `A`-`Z` and U+212A KELVIN SIGN. Every other character is kept. These are the only characters whose lower case is an ASCII table key, so the lookups are exact. The lower-cased text itself is not exact for other scripts.
- Render.ReadWidgetBack: requires tags and ids without `"`. The source writes them into attribute values unescaped, so a `"` ends the value early and the widget no longer reads back.
- Render.WidgetLayout: requires the same quote-free tags and id as `ReadWidgetBack`, for the same reason.
- Chapters.Chapter: requires the regions' inner texts to differ from each other. `str::replace` replaces every occurrence of a region's whole match, so the first of two alike regions that hold blocks takes both, and both get the first id.
- Chapters.Chapter: requires the inner text of each region to hold no start marker. The source pairs the first start marker with the first end marker after it, so with `S` the start marker and `E` the end marker, the inner text of `S a S b E` is `a S b`. `Preprocessor.OneRegion` covers that case for a single region. The multi-region lemma does not.
- Chapters.Chapter: requires the text after the last region to hold no start marker. A chapter that ends with a start marker and no end marker after it is left as it is by the source, but is not covered by the lemma.
- Preprocessor.OneRegion: requires the text after the region to hold no start marker, so it does not cover a trailing start marker with no end marker after it, which the source leaves in place.
- Preprocessor.OneRegionWith: the same exclusion of a trailing start marker as `Preprocessor.OneRegion`.
- Chapters.ChapterWith: the same requirements on the regions as `Chapters.Chapter`, for any markers that can be told apart. For such general markers it requires outright that no widget holds the start marker (`WidgetsFree`). `Chapters.Chapter` derives this for the source's marker from the ids alone.
