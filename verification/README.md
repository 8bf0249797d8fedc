# LuminaReader core, modelled in Dafny

LuminaReader is a Qt desktop viewer for Markdown and PDF files. Almost all of
`main.py` is widget wiring and HTML/JavaScript templates run by browser
libraries. This project models the four pieces of sequential logic in it:

- **The PDF outline builder** (`extract_pdf_bookmarks`). It turns PyMuPDF's
  flat table of contents, a list of `[level, title, page]` entries, into the
  bookmark forest shown in the sidebar. When the document has no outline, it
  falls back to at most 50 "Page n" bookmarks. (`outline.dfy`,
  `outline_builder.dfy`, `pdf_bookmarks.dfy`, `decimal.dfy`)
- **The sidebar layout** (`TOCSidebar._create_bookmark_item`,
  `_create_heading_item`). Bookmarks are walked in pre-order and headings are
  listed in order. Each label gets an indent and a font size from its depth.
  (`toc_sidebar.dfy`)
- **The Markdown escape** (`inject_markdown_content`). A backslash is put
  before every `\`, `` ` `` and `$` so that the text can sit inside a
  JavaScript template literal. (`markdown_escape.dfy`)
- **The open-files tabs** (`add_file_to_tabs`, `switch_to_file`,
  `switch_to_tab`, `close_tab`, and the duplicate check in `load_file`).
  (`open_tabs.dfy`)

`results.dfy` holds the `Option` and `Result` types the other modules share.

## How the builder is modelled

Python builds the forest by aliasing. A bookmark dictionary is appended to its
parent's `children` list, or to the roots, as soon as it is created, and it
stays on `bookmark_stack` to receive later children. The model is a left fold
over the table of contents instead. It carries an explicit *open spine*: the
bookmarks from the current root down to the last one. Popping the spine closes
the innermost bookmark into its parent, or into the roots. `Written` is the
pre-order walk of everything built so far, closed or still open. Every step
preserves it or extends it by exactly one row.

The code nests by the **length** of the stack and never compares stored
levels:

- a level-1 entry starts a new root;
- any other entry lands at depth `min(level - 1, depth of the previous entry + 1)`.

`Placement` and `Annotate` state this rule on their own, as the reference.
`BuildOutlineFlattens` and `BuildOutlineUnique` prove that the built forest is
the one and only forest whose pre-order walk is the table of contents, entry
for entry, each at its `Placement`.

### Nesting by stack length

- A rule that compared levels would pop until the top of the stack has a
  smaller level. The code pops while the stack holds at least `level`
  bookmarks. So levels `[1, 3, 3]` nest the second level-3 entry under the
  first one (`EqualLevelsCanNest`), and levels `[2, 2]` make the second entry
  a child of the first (`OrphanCollectsNextEntry`). A descendant therefore
  need not have a larger level than its ancestor. On tables that start at
  level 1 and go down at most one level at a time, every entry sits at depth
  `level - 1`, the depth that nesting by level would give it
  (`SteppedLevelsNestByLevel`).
- Levels below 1 are not clamped. A level of 0 or less pops the stack empty
  and then pops once more. That raises `IndexError`, which the method's
  `except` catches, and the sidebar is cleared (`LevelZeroFails`,
  `ExtractClearsOnBadLevel`).
- The page fallback bypasses the builder, and its bookmarks have no `level`
  key. That is why `Bookmark.level` is an `Option`.

## Model

| member | source | states |
|---|---|---|
| Outline.FlattenInjective | main.py:2209-2230 | Two forests with the same pre-order walk (titles, pages, levels and depths) are equal, so a forest is fully described by its walk |
| OutlineBuilder.Pop | main.py:2220-2221 | `bookmark_stack.pop()` shortens the stack by one, and the bookmark it closes keeps its place in the walk: nothing written is lost or reordered |
| OutlineBuilder.CloseAll | main.py:2215-2217 | Replacing the stack by a fresh one closes every open bookmark into the roots; the roots then walk exactly as everything written so far |
| OutlineBuilder.PopWhile | main.py:2220-2221 | The pop loop succeeds exactly when `level >= 1`, then leaves `min(len(stack), level - 1)` bookmarks open; a level of 0 or less pops from an empty stack |
| OutlineBuilder.Push | main.py:2222-2230 | A new bookmark becomes the innermost open one, one level below the previous innermost, or a root when nothing is open; the walk grows by its row |
| OutlineBuilder.StepPlaces | main.py:2211-2230 | One loop iteration fails exactly on a level below 1; otherwise it writes the entry at depth `Placement(len(stack), level)` and leaves that depth + 1 bookmarks open |
| OutlineBuilder.BuildFromSucceeds | main.py:2211-2230 | The loop raises exactly when some entry has a level of 0 or less |
| OutlineBuilder.BuildFromWrites | main.py:2209-2230 | Over a valid table of contents, the loop writes each entry once, in input order, at its `Placement` |
| OutlineBuilder.BuildOutlineFlattens | main.py:2209-2230 | The builder fails exactly on a bad level; otherwise the pre-order walk of the forest is the input, with the same count, titles, pages and levels in order, each at its `Placement` depth |
| OutlineBuilder.BuildOutlineUnique | main.py:2209-2230 | For valid input, a forest is the builder's result if and only if its walk is the annotated table of contents |
| OutlineBuilder.AnnotateShape | main.py:2215-2230 | Depths start at 0, grow by at most one from one entry to the next, never exceed `level - 1`, and are 0 for every level-1 entry |
| OutlineBuilder.SteppedLevelsNestByLevel | main.py:2215-2230 | When the table starts at level 1 and each level is at most one more than the previous, every entry sits at depth `level - 1` |
| OutlineBuilder.EqualLevelsCanNest | main.py:2220-2227 | Levels [1, 3, 3] build A > B > C: the second level-3 entry is a child of the first |
| OutlineBuilder.OrphanCollectsNextEntry | main.py:2220-2230 | Levels [2, 2] build one root with one child: the leading level-2 entry becomes a root and receives the next level-2 entry |
| OutlineBuilder.LevelZeroFails | main.py:2220-2221 | A level-0 entry fails the build even after a well-formed prefix |
| PdfBookmarks.BuildOutlineEmpty | main.py:2232 | For valid input, the built forest is empty exactly when the table of contents is empty |
| PdfBookmarks.ExtractShowsOutline | main.py:2232-2233 | A non-empty, valid table of contents is installed as the forest whose walk is that table |
| PdfBookmarks.ExtractClearsOnBadLevel | main.py:2244-2246 | A level of 0 or less anywhere clears the sidebar; no partial outline is installed |
| PdfBookmarks.PageLabel | main.py:2238 | The fallback title is "Page " followed by decimal digits with no leading zero that read back as the page number |
| PdfBookmarks.PageBookmarksNamePages | main.py:2236-2238 | The fallback lists `min(page_count, 50)` bookmarks; the i-th jumps to page i+1, has no level and no children, and its title reads back as i+1, so no two titles are equal |
| PdfBookmarks.ExtractFallsBackToPages | main.py:2234-2239 | With no outline and `page_count > 0`, the sidebar shows exactly the page fallback |
| PdfBookmarks.ExtractClearsWithoutPages | main.py:2240-2241 | With no outline and no pages the sidebar is cleared, as it is when the document cannot be opened |
| Decimal.NatToString | main.py:2238 | `str(n)` gives at least one decimal digit and no leading zero |
| Decimal.ParseNatToString | main.py:2238 | Reading the digits of `str(n)` gives `n` back |
| TocSidebar.BookmarkItemsFollowWalk | main.py:1418-1460 | The recursive widget construction yields one label per bookmark in pre-order; each label has indent 12·depth, font size max(13 − depth, 11) and a click page that defaults to 1 |
| TocSidebar.OutlineLayout | main.py:1429-1448 | For a built outline, label i shows entry i's title with indent 12·d and font size max(13 − d, 11), where d is the entry's depth, and a click emits entry i's page |
| TocSidebar.RefreshHeadings | main.py:1360-1371 | One label per heading, in heading order |
| TocSidebar.HeadingLikeBookmark | main.py:1392-1399 | A heading of level L gets the indent and font size of a bookmark at depth L − 1 |
| TocSidebar.LayoutMonotone | main.py:1429-1430 | Deeper labels are indented further and are never larger; sizes stay between 11 and 13 |
| MarkdownEscape.EscapeIsPerCharacter | main.py:2151 | The three chained replacements escape each character on its own: each `\`, `` ` `` and `$` gets a backslash before it and every other character is kept |
| MarkdownEscape.EscapeLength | main.py:2151 | The output is longer than the input by the number of `\`, `` ` `` and `$` characters |
| MarkdownEscape.UnescapeEscape | main.py:2151-2155 | Dropping the backslash before each escaped character gives back the original text |
| MarkdownEscape.EscapeUnescape | main.py:2151-2155 | Every literal-safe text is the escape of the text it reads back as, so escaping is a bijection onto literal-safe texts |
| MarkdownEscape.LiteralSafeEscape | main.py:2151-2155 | In the escaped text, every backslash starts an escape of a special character, and no backtick or dollar sign stands bare |
| MarkdownEscape.LiteralSafeBackticks | main.py:2155 | In a literal-safe text every backtick directly follows a backslash |
| OpenTabs.FindPath | main.py:2571-2572 | The search returns the first index holding the path, or nothing exactly when no tab holds it |
| OpenTabs.AddFileToTabs | main.py:2568-2584 | A path already open only selects that tab and leaves the list unchanged; a new path is appended and selected; no path is ever listed twice |
| OpenTabs.SwitchToTab | main.py:2650-2665 | A valid index selects that tab and shows its file; any other index changes nothing |
| OpenTabs.SwitchToFile | main.py:2643-2648 | Switches to the tab holding the path, if there is one; otherwise nothing changes |
| OpenTabs.LoadFile | main.py:2090-2093 | Loading a file leaves it selected and shown, whether it was already open or not |
| OpenTabs.CloseTab | main.py:2667-2687 | Closing removes the first tab holding the path, keeps the others in order, and sets the index to `min(old index, len - 1)`; the welcome screen shows exactly when no tab is left; an absent path changes nothing |
| OpenTabs.LoadFileAgreesWithAdd | main.py:2090-2093 | The duplicate check in `load_file` leaves the tabs exactly as `add_file_to_tabs` would |
| OpenTabs.AddThenCloseRestoresFiles | main.py:2667-2687 | Opening a new file and closing it again restores the list of tabs |
| OpenTabs.CloseEarlierTabShiftsSelection | main.py:2673-2675 | Closing a tab left of the selected one keeps the index, so the selection moves to the next file unless the selected tab was the last one |
| OpenTabs.TabBarActions | main.py:2600-2635 | In a valid state, clicking tab i (`switch_to_file` with the tab's path) selects and shows tab i, and its close button (`close_tab` with that path) removes tab i and keeps the rest in order |
| OpenTabs.TabBarOneActive | main.py:2601-2602 | Exactly the selected tab is drawn active, so one tab is active whenever any file is open |
| OpenTabs.Run | main.py:1492-1493 | Starting from no tabs and index −1, any sequence of open, switch and close commands keeps paths distinct, keeps the index in [−1, len − 1], and gives −1 exactly when no tab is open |

## Left out

- PyMuPDF (`fitz.open`, `get_toc`, `page_count`, `doc.close`). The document is an input value holding its table of contents and page count. A document that cannot be opened is `None`. The error message the `except` branch prints (main.py:2245) is console output and is not modelled.
- Qt widgets, style sheets, signals, timers, window chrome and drag handling. A sidebar label keeps its text, indent, font size and click target. Vertical padding and the heading opacity (a floating-point value) are not modelled.
- A bookmark dictionary that never received children has no `children` key. The model uses an empty sequence instead, which the renderer treats the same way (main.py:1455).
- The `bookmark.get('page', 1)` default is modelled in `BookmarkLabel`. Every bookmark the builder or the fallback creates carries a page, so the default never applies to them.
- `load_file`'s existence check, file reading, base64 encoding, the type dispatch on the file suffix, and the exceptions those can raise are I/O. `LoadFile` takes the file's kind and title as inputs and assumes that loading succeeds.
- The `runJavaScript` bridge, the HTML/JavaScript templates, search, zoom, brightness, themes, fonts, `format_file_size`, `count_words_in_markdown` and Markdown-to-PDF export. These are browser code, floating point, or calls into libraries whose behaviour is not visible here.
- The JavaScript template literal around the escaped text is not modelled as a string. `Unescape` and `LiteralSafe` state how its escapes read.
