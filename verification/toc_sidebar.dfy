/**
 The sidebar's item layout (`TOCSidebar`, main.py:1360-1460): each heading of a
 Markdown file, and each bookmark of a PDF outline walked in pre-order, becomes
 one clickable label whose left indent and font size depend on its depth.
 Widgets, style sheets and the opacity of heading labels are not modelled;
 an item keeps its text, the two layout numbers and what a click emits.
 */
module TocSidebar {
  import opened Results
  import opened Outline
  import opened OutlineBuilder

  /** A heading reported by the Markdown page: `{id, text, level}`. */
  datatype Heading = Heading(id: string, text: string, level: int)

  /** What a click emits: `bookmarkClicked(page)` or `headingClicked(id)`. */
  datatype Target = GoToPage(page: int) | ScrollToHeading(id: string)

  /** One label: its text, its `indent` (the label's left padding is `8 + indent` pixels),
      its font size in pixels, and its click target. */
  datatype TocItem = TocItem(text: string, indent: int, fontSize: int, target: Target)

  const IndentStep := 12
  const BaseFontSize := 13
  const MinFontSize := 11

  function Max(a: int, b: int): int {
    if a >= b then a else b
  }

  /** Indent of a label `depth` levels deep. */
  function IndentAt(depth: int): int {
    depth * IndentStep
  }

  /** Font size of a label `depth` levels deep: one pixel smaller per level, never below 11. */
  function FontSizeAt(depth: int): int {
    Max(BaseFontSize - depth, MinFontSize)
  }

  /** The label `_create_bookmark_item(bookmark, level)` makes; the page defaults to 1. */
  function BookmarkLabel(b: Bookmark, depth: nat): TocItem {
    TocItem(b.title, IndentAt(depth), FontSizeAt(depth), GoToPage(b.page.GetOr(1)))
  }

  /** `_create_bookmark_item` on each bookmark of `f`: its label, then its children one
      level deeper, in order. */
  function BookmarkItems(f: seq<Bookmark>, depth: nat): seq<TocItem>
    decreases f
  {
    if f == [] then []
    else [BookmarkLabel(f[0], depth)] + BookmarkItems(f[0].children, depth + 1) + BookmarkItems(f[1..], depth)
  }

  /** `refresh_bookmarks`: the roots at depth 0. */
  function RefreshBookmarks(bookmarks: seq<Bookmark>): seq<TocItem> {
    BookmarkItems(bookmarks, 0)
  }

  /** `_create_heading_item`: a heading of level L is laid out at depth L - 1. */
  function HeadingLabel(h: Heading): TocItem {
    var indent := (h.level - 1) * IndentStep;
    var fontSize := BaseFontSize - (h.level - 1) * 1;
    TocItem(h.text, indent, Max(fontSize, MinFontSize), ScrollToHeading(h.id))
  }

  /** `refresh_headings`: one label per heading, in order. */
  function RefreshHeadings(headings: seq<Heading>): (items: seq<TocItem>)
    ensures |items| == |headings|
    ensures forall i :: 0 <= i < |headings| ==> items[i] == HeadingLabel(headings[i])
    decreases |headings|
  {
    if headings == [] then [] else [HeadingLabel(headings[0])] + RefreshHeadings(headings[1..])
  }

  /** The label of a row of the pre-order walk. */
  function RowLabel(r: Row): TocItem {
    TocItem(r.title, IndentAt(r.depth), FontSizeAt(r.depth), GoToPage(r.page.GetOr(1)))
  }

  function RowLabels(rows: seq<Row>): (items: seq<TocItem>)
    ensures |items| == |rows|
    ensures forall i :: 0 <= i < |rows| ==> items[i] == RowLabel(rows[i])
    decreases |rows|
  {
    if rows == [] then [] else [RowLabel(rows[0])] + RowLabels(rows[1..])
  }

  lemma RowLabelsAppend(a: seq<Row>, b: seq<Row>)
    ensures RowLabels(a + b) == RowLabels(a) + RowLabels(b)
  {
  }

  /** The recursive widget construction lays out exactly the pre-order walk: one label per
      bookmark, in walk order, each indented and sized for its own depth. */
  lemma {:induction false} BookmarkItemsFollowWalk(f: seq<Bookmark>, depth: nat)
    ensures BookmarkItems(f, depth) == RowLabels(Flatten(f, depth))
    decreases f
  {
    if f != [] {
      BookmarkItemsFollowWalk(f[0].children, depth + 1);
      BookmarkItemsFollowWalk(f[1..], depth);
      var a := Flatten(f[0].children, depth + 1);
      var b := Flatten(f[1..], depth);
      FlattenCons(f, depth);
      RowLabelsAppend(a, b);
      RowLabelsAppend([RowOf(f[0], depth)], a + b);
    }
  }

  /** The sidebar of a built outline: label i shows entry i's title at the depth the builder
      gave it, and clicking it emits entry i's page. */
  lemma OutlineLayout(toc: seq<TocEntry>)
    requires LevelsValid(toc)
    ensures BuildOutline(toc).Success?
    ensures var items := RefreshBookmarks(BuildOutline(toc).value);
      && |items| == |toc|
      && forall i :: 0 <= i < |toc| ==>
        var depth := Annotate(toc)[i].depth;
        items[i] == TocItem(toc[i].title, 12 * depth, Max(13 - depth, 11), GoToPage(toc[i].page))
  {
    BuildOutlineFlattens(toc);
    BookmarkItemsFollowWalk(BuildOutline(toc).value, 0);
    AnnotateShape(0, toc);
  }

  /** A heading of level L is laid out exactly like a bookmark at depth L - 1. */
  lemma HeadingLikeBookmark(h: Heading, b: Bookmark)
    requires h.level >= 1
    ensures HeadingLabel(h).indent == BookmarkLabel(b, h.level - 1).indent
    ensures HeadingLabel(h).fontSize == BookmarkLabel(b, h.level - 1).fontSize
  {
  }

  /** Deeper labels are indented further and are never larger; sizes stay within 11..13. */
  lemma LayoutMonotone(d: nat, e: nat)
    requires d < e
    ensures IndentAt(d) < IndentAt(e)
    ensures FontSizeAt(e) <= FontSizeAt(d)
    ensures MinFontSize <= FontSizeAt(e) <= BaseFontSize
  {
  }
}
