/**
 The outline builder of `extract_pdf_bookmarks` (main.py:2209-2230): it turns
 PyMuPDF's flat table of contents into a bookmark forest.

 Python builds the forest by aliasing: a bookmark is appended to its parent's
 `children` list (or to the roots) as soon as it is created, and kept on
 `bookmark_stack` to receive later children. Here the stack is an explicit
 "open spine" of bookmarks from the current root down to the last bookmark;
 a bookmark is closed into its parent (or into the roots) when it is popped.

 Nesting is decided by the LENGTH of the stack, never by comparing stored
 levels: a level-1 entry starts a new root, and any other entry lands at
 depth `min(level - 1, depth of the previous entry + 1)` (`Placement`).
 A level of 0 or less pops the stack empty and then pops once more, which
 raises in Python (`PopFromEmptyStack`).
 */
module OutlineBuilder {
  import opened Results
  import opened Outline

  /** One entry of PyMuPDF's `get_toc()`: `[level, title, page]`. */
  datatype TocEntry = TocEntry(level: int, title: string, page: int)

  /** The only way the loop can fail: `list.pop()` on an empty stack. */
  datatype BuildError = PopFromEmptyStack

  /** Loop state: the closed roots, and the open spine (`bookmark_stack`), root first. */
  datatype Builder = Builder(roots: seq<Bookmark>, spine: seq<Bookmark>)

  const Start := Builder([], [])

  function Min(a: int, b: int): int {
    if a <= b then a else b
  }

  // ---------------------------------------------------------------------------
  // The reference: where each entry lands

  predicate LevelsValid(toc: seq<TocEntry>) {
    forall i :: 0 <= i < |toc| ==> toc[i].level >= 1
  }

  /** Depth of an entry of level `level` when `open` bookmarks are on the stack. */
  function Placement(open: nat, level: int): nat
    requires level >= 1
  {
    if level == 1 then 0 else Min(open, level - 1)
  }

  /** The rows the forest must flatten to, when `open` bookmarks are open before `toc`. */
  function AnnotateFrom(open: nat, toc: seq<TocEntry>): (rows: seq<Row>)
    requires LevelsValid(toc)
    ensures |rows| == |toc|
    decreases |toc|
  {
    if toc == [] then []
    else
      var d := Placement(open, toc[0].level);
      [EntryRow(toc[0], d)] + AnnotateFrom(d + 1, toc[1..])
  }

  function EntryRow(e: TocEntry, depth: nat): Row {
    Row(depth, e.title, Some(e.page), Some(e.level))
  }

  /** Each entry of `toc`, in order, paired with the depth the builder gives it. */
  function Annotate(toc: seq<TocEntry>): seq<Row>
    requires LevelsValid(toc)
  {
    AnnotateFrom(0, toc)
  }

  // ---------------------------------------------------------------------------
  // The builder

  /** Pre-order rows of the open spine: each open bookmark followed by its closed children. */
  function OpenRows(spine: seq<Bookmark>): seq<Row>
    decreases |spine|
  {
    if spine == [] then []
    else
      var k := |spine| - 1;
      OpenRows(spine[..k]) + [RowOf(spine[k], k)] + Flatten(spine[k].children, k + 1)
  }

  /** Everything the builder has produced so far, closed or still open, in pre-order. */
  function Written(b: Builder): seq<Row> {
    Flatten(b.roots, 0) + OpenRows(b.spine)
  }

  function NewBookmark(e: TocEntry): Bookmark {
    Bookmark(e.title, Some(e.page), Some(e.level), [])
  }

  function AddChild(parent: Bookmark, child: Bookmark): Bookmark {
    parent.(children := parent.children + [child])
  }

  lemma OpenRowsSnoc(spine: seq<Bookmark>, n: Bookmark)
    ensures OpenRows(spine + [n]) == OpenRows(spine) + [RowOf(n, |spine|)] + Flatten(n.children, |spine| + 1)
  {
    assert (spine + [n])[..|spine|] == spine;
  }

  /** Closing the innermost bookmark into its parent keeps the walk of the spine. */
  lemma CloseIntoParent(pre: seq<Bookmark>, parent: Bookmark, top: Bookmark)
    ensures OpenRows(pre + [AddChild(parent, top)]) == OpenRows(pre + [parent, top])
  {
    var k := |pre| + 1;
    var closed := AddChild(parent, top);
    var topRows := [RowOf(top, k)] + Flatten(top.children, k + 1);
    var upToParent := OpenRows(pre) + [RowOf(parent, k - 1)];
    var whole := upToParent + (Flatten(parent.children, k) + topRows);
    assert OpenRows(pre + [closed]) == whole by {
      OpenRowsSnoc(pre, closed);
      FlattenAppend(parent.children, [top], k);
      FlattenSingleton(top, k);
    }
    assert OpenRows(pre + [parent, top]) == whole by {
      var withParent := pre + [parent];
      OpenRowsSnoc(pre, parent);
      OpenRowsSnoc(withParent, top);
      assert pre + [parent, top] == withParent + [top];
      AppendAssoc(OpenRows(withParent), [RowOf(top, k)], Flatten(top.children, k + 1));
      AppendAssoc(upToParent, Flatten(parent.children, k), topRows);
    }
  }

  /** `bookmark_stack.pop()`: the innermost bookmark is closed into its parent, or
      becomes a finished root. Nothing that was written is lost or reordered. */
  function Pop(b: Builder): (r: Builder)
    requires b.spine != []
    ensures |r.spine| == |b.spine| - 1
    ensures Written(r) == Written(b)
  {
    var k := |b.spine| - 1;
    var top := b.spine[k];
    var rest := b.spine[..k];
    if rest == [] then
      FlattenAppend(b.roots, [top], 0);
      FlattenSingleton(top, 0);
      Builder(b.roots + [top], [])
    else
      var parent := rest[k - 1];
      CloseIntoParent(rest[..k - 1], parent, top);
      assert b.spine == rest[..k - 1] + [parent, top];
      Builder(b.roots, rest[..k - 1] + [AddChild(parent, top)])
  }

  /** Closes every open bookmark (the level-1 branch's `bookmark_stack = [...]`, and the end of the loop). */
  function CloseAll(b: Builder): (r: Builder)
    ensures r.spine == []
    ensures Flatten(r.roots, 0) == Written(b)
    decreases |b.spine|
  {
    if b.spine == [] then b else CloseAll(Pop(b))
  }

  /** `while len(bookmark_stack) >= level: bookmark_stack.pop()`. */
  function PopWhile(b: Builder, level: int): (r: Result<Builder, BuildError>)
    ensures r.Success? <==> level >= 1
    ensures r.Success? ==> |r.value.spine| == Min(|b.spine|, level - 1)
    ensures r.Success? ==> Written(r.value) == Written(b)
    decreases |b.spine|
  {
    if |b.spine| >= level then
      if b.spine == [] then Failure(PopFromEmptyStack) else PopWhile(Pop(b), level)
    else
      Success(b)
  }

  /** Opens a new bookmark for `e` as the innermost one: a child of the current
      innermost bookmark, or a new root when nothing is open. */
  function Push(b: Builder, e: TocEntry): (r: Builder)
    ensures |r.spine| == |b.spine| + 1
    ensures Written(r) == Written(b) + [EntryRow(e, |b.spine|)]
  {
    var r := Builder(b.roots, b.spine + [NewBookmark(e)]);
    assert r.spine[..|b.spine|] == b.spine;
    r
  }

  /** One iteration of the loop over the table of contents. */
  function Step(b: Builder, e: TocEntry): (r: Result<Builder, BuildError>)
  {
    if e.level == 1 then
      Success(Push(CloseAll(b), e))
    else
      var popped :- PopWhile(b, e.level);
      // Both arms of `if bookmark_stack:` push the new bookmark as the innermost one.
      Success(Push(popped, e))
  }

  lemma StepPlaces(b: Builder, e: TocEntry)
    ensures Step(b, e).Success? <==> e.level >= 1
    ensures e.level >= 1 ==>
      var d := Placement(|b.spine|, e.level);
      && |Step(b, e).value.spine| == d + 1
      && Written(Step(b, e).value) == Written(b) + [EntryRow(e, d)]
  {
  }

  function BuildFrom(b: Builder, toc: seq<TocEntry>): Result<Builder, BuildError>
    decreases |toc|
  {
    if toc == [] then Success(b)
    else
      var next :- Step(b, toc[0]);
      BuildFrom(next, toc[1..])
  }

  /** The whole loop, then the forest as `bookmarks` holds it at the end. */
  function BuildOutline(toc: seq<TocEntry>): Result<seq<Bookmark>, BuildError> {
    var b :- BuildFrom(Start, toc);
    Success(CloseAll(b).roots)
  }

  // ---------------------------------------------------------------------------
  // Correctness

  lemma LevelsValidTail(toc: seq<TocEntry>)
    requires toc != []
    ensures LevelsValid(toc) <==> toc[0].level >= 1 && LevelsValid(toc[1..])
  {
    assert forall i :: 0 <= i < |toc[1..]| ==> toc[1..][i] == toc[i + 1];
  }

  /** The loop fails exactly when some remaining entry has a level of 0 or less. */
  lemma {:induction false} BuildFromSucceeds(b: Builder, toc: seq<TocEntry>)
    ensures BuildFrom(b, toc).Success? <==> LevelsValid(toc)
    decreases |toc|
  {
    if toc != [] {
      StepPlaces(b, toc[0]);
      LevelsValidTail(toc);
      if toc[0].level >= 1 {
        BuildFromSucceeds(Step(b, toc[0]).value, toc[1..]);
      }
    }
  }

  /** One iteration of the loop, seen from the fold: it writes the entry's row. */
  lemma BuildFromStep(b: Builder, toc: seq<TocEntry>) returns (next: Builder)
    requires toc != [] && toc[0].level >= 1
    ensures BuildFrom(b, toc) == BuildFrom(next, toc[1..])
    ensures |next.spine| == Placement(|b.spine|, toc[0].level) + 1
    ensures Written(next) == Written(b) + [EntryRow(toc[0], Placement(|b.spine|, toc[0].level))]
  {
    StepPlaces(b, toc[0]);
    next := Step(b, toc[0]).value;
  }

  lemma AnnotateFromStep(open: nat, toc: seq<TocEntry>)
    requires toc != [] && LevelsValid(toc)
    ensures LevelsValid(toc[1..])
    ensures AnnotateFrom(open, toc)
      == [EntryRow(toc[0], Placement(open, toc[0].level))] + AnnotateFrom(Placement(open, toc[0].level) + 1, toc[1..])
  {
    LevelsValidTail(toc);
  }

  /** Each remaining entry is written, in order, at its `Placement`. */
  lemma {:induction false} BuildFromWrites(b: Builder, toc: seq<TocEntry>)
    requires LevelsValid(toc)
    ensures BuildFrom(b, toc).Success?
    ensures Written(BuildFrom(b, toc).value) == Written(b) + AnnotateFrom(|b.spine|, toc)
    decreases |toc|
  {
    if toc != [] {
      var e := toc[0];
      var d := Placement(|b.spine|, e.level);
      var next := BuildFromStep(b, toc);
      assert LevelsValid(toc[1..]) by { LevelsValidTail(toc); }
      var rest := AnnotateFrom(d + 1, toc[1..]);
      assert AnnotateFrom(|b.spine|, toc) == [EntryRow(e, d)] + rest by { AnnotateFromStep(|b.spine|, toc); }
      BuildFromWrites(next, toc[1..]);
      AppendAssoc(Written(b), [EntryRow(e, d)], rest);
    }
  }

  /** The builder fails exactly on a level of 0 or less; otherwise the pre-order walk of
      the forest is the table of contents itself, entry for entry, each at its `Placement`. */
  lemma BuildOutlineFlattens(toc: seq<TocEntry>)
    ensures BuildOutline(toc).Success? <==> LevelsValid(toc)
    ensures LevelsValid(toc) ==> Flatten(BuildOutline(toc).value, 0) == Annotate(toc)
  {
    BuildFromSucceeds(Start, toc);
    if LevelsValid(toc) {
      BuildFromWrites(Start, toc);
    }
  }

  /** The forest is the only one whose walk is the annotated table of contents. */
  lemma BuildOutlineUnique(toc: seq<TocEntry>, f: seq<Bookmark>)
    requires LevelsValid(toc)
    ensures BuildOutline(toc) == Success(f) <==> Flatten(f, 0) == Annotate(toc)
  {
    BuildOutlineFlattens(toc);
    if Flatten(f, 0) == Annotate(toc) {
      FlattenInjective(f, BuildOutline(toc).value, 0);
    }
  }

  // ---------------------------------------------------------------------------
  // The shape of the placement

  /** Depths start at 0, grow by at most one from entry to entry, never exceed
      `level - 1`, and are 0 for every level-1 entry. */
  lemma {:induction false} AnnotateShape(open: nat, toc: seq<TocEntry>)
    requires LevelsValid(toc)
    ensures |AnnotateFrom(open, toc)| == |toc|
    ensures toc != [] ==> AnnotateFrom(open, toc)[0].depth <= open
    ensures forall i :: 0 <= i < |toc| ==>
      var r := AnnotateFrom(open, toc)[i];
      && r == EntryRow(toc[i], r.depth)
      && r.depth <= toc[i].level - 1
      && (toc[i].level == 1 ==> r.depth == 0)
    ensures forall i :: 1 <= i < |toc| ==>
      AnnotateFrom(open, toc)[i].depth <= AnnotateFrom(open, toc)[i - 1].depth + 1
    decreases |toc|
  {
    if toc != [] {
      LevelsValidTail(toc);
      var d := Placement(open, toc[0].level);
      AnnotateShape(d + 1, toc[1..]);
      var rows := AnnotateFrom(open, toc);
      assert rows == [EntryRow(toc[0], d)] + AnnotateFrom(d + 1, toc[1..]);
      forall i | 1 <= i < |toc|
        ensures rows[i] == AnnotateFrom(d + 1, toc[1..])[i - 1]
      {
      }
    }
  }

  /** A table of contents that starts at level 1 and never skips a level on the way down. */
  predicate SteppedLevels(toc: seq<TocEntry>) {
    && LevelsValid(toc)
    && (toc != [] ==> toc[0].level == 1)
    && (forall i :: 1 <= i < |toc| ==> toc[i].level <= toc[i - 1].level + 1)
  }

  lemma {:induction false} SteppedLevelsDepth(open: nat, toc: seq<TocEntry>)
    requires LevelsValid(toc)
    requires toc != [] ==> toc[0].level <= open + 1
    requires forall i :: 1 <= i < |toc| ==> toc[i].level <= toc[i - 1].level + 1
    ensures |AnnotateFrom(open, toc)| == |toc|
    ensures forall i :: 0 <= i < |toc| ==> AnnotateFrom(open, toc)[i].depth == toc[i].level - 1
    decreases |toc|
  {
    if toc != [] {
      LevelsValidTail(toc);
      var d := Placement(open, toc[0].level);
      assert d == toc[0].level - 1;
      assert forall i :: 1 <= i < |toc[1..]| ==> toc[1..][i].level <= toc[1..][i - 1].level + 1 by {
        assert forall i :: 0 <= i < |toc[1..]| ==> toc[1..][i] == toc[i + 1];
      }
      SteppedLevelsDepth(d + 1, toc[1..]);
      var rows := AnnotateFrom(open, toc);
      assert rows == [EntryRow(toc[0], d)] + AnnotateFrom(d + 1, toc[1..]);
      forall i | 1 <= i < |toc|
        ensures rows[i].depth == toc[i].level - 1
      {
        assert rows[i] == AnnotateFrom(d + 1, toc[1..])[i - 1];
        assert toc[1..][i - 1] == toc[i];
      }
    }
  }

  /** On such a table of contents the length-based stack agrees with nesting by level:
      every entry sits at depth `level - 1`. */
  lemma SteppedLevelsNestByLevel(toc: seq<TocEntry>)
    requires SteppedLevels(toc)
    ensures forall i :: 0 <= i < |toc| ==> Annotate(toc)[i].depth == toc[i].level - 1
  {
    SteppedLevelsDepth(0, toc);
  }

  // ---------------------------------------------------------------------------
  // Worked tables of contents

  function Leaf(level: int, title: string, page: int): Bookmark {
    Bookmark(title, Some(page), Some(level), [])
  }

  /** Levels [1, 3, 3]: the second level-3 entry nests under the first one, because the
      stack is popped by length and stored levels are never compared. */
  lemma EqualLevelsCanNest()
    ensures BuildOutline([TocEntry(1, "A", 1), TocEntry(3, "B", 2), TocEntry(3, "C", 3)])
      == Success([Leaf(1, "A", 1).(children := [Leaf(3, "B", 2).(children := [Leaf(3, "C", 3)])])])
  {
    var toc := [TocEntry(1, "A", 1), TocEntry(3, "B", 2), TocEntry(3, "C", 3)];
    var c := Leaf(3, "C", 3);
    var b := Leaf(3, "B", 2).(children := [c]);
    var a := Leaf(1, "A", 1).(children := [b]);
    assert Annotate(toc) == [EntryRow(toc[0], 0), EntryRow(toc[1], 1), EntryRow(toc[2], 2)];
    FlattenSingleton(c, 2);
    FlattenSingleton(b, 1);
    FlattenSingleton(a, 0);
    BuildOutlineUnique(toc, [a]);
  }

  /** Levels [2, 2]: a first entry below level 1 becomes a root, and the next level-2 entry
      nests under it rather than becoming its sibling. */
  lemma OrphanCollectsNextEntry()
    ensures BuildOutline([TocEntry(2, "A", 1), TocEntry(2, "B", 2)])
      == Success([Leaf(2, "A", 1).(children := [Leaf(2, "B", 2)])])
  {
    var toc := [TocEntry(2, "A", 1), TocEntry(2, "B", 2)];
    var b := Leaf(2, "B", 2);
    var a := Leaf(2, "A", 1).(children := [b]);
    assert Annotate(toc) == [EntryRow(toc[0], 0), EntryRow(toc[1], 1)];
    FlattenSingleton(b, 1);
    FlattenSingleton(a, 0);
    BuildOutlineUnique(toc, [a]);
  }

  /** A level-0 entry fails the build even after a well-formed prefix. */
  lemma LevelZeroFails()
    ensures BuildOutline([TocEntry(1, "A", 1), TocEntry(0, "B", 2)]) == Failure(PopFromEmptyStack)
  {
  }
}
