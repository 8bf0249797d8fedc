/**
 The bookmark forest shown in the sidebar for a PDF, and its pre-order
 flattening. A forest is determined by its flattening (`FlattenInjective`),
 so statements about the builder are stated on flattened rows.
 */
module Outline {
  import opened Results

  /** One sidebar bookmark: the Python dictionary `{title, page, level, children}`.
      `page` and `level` are optional because the page-count fallback creates
      dictionaries without a `level` key and the renderer reads `page` with a default. */
  datatype Bookmark = Bookmark(title: string, page: Option<int>, level: Option<int>, children: seq<Bookmark>)

  /** A bookmark seen in a pre-order walk, together with its nesting depth. */
  datatype Row = Row(depth: nat, title: string, page: Option<int>, level: Option<int>)

  function RowOf(b: Bookmark, depth: nat): Row {
    Row(depth, b.title, b.page, b.level)
  }

  /** Pre-order walk of a forest whose roots sit at nesting depth `depth`. */
  function Flatten(f: seq<Bookmark>, depth: nat): seq<Row>
    decreases f
  {
    if f == [] then []
    else [RowOf(f[0], depth)] + Flatten(f[0].children, depth + 1) + Flatten(f[1..], depth)
  }

  lemma AppendAssoc(a: seq<Row>, b: seq<Row>, c: seq<Row>)
    ensures (a + b) + c == a + (b + c)
  {
  }

  lemma {:induction false} FlattenAppend(a: seq<Bookmark>, b: seq<Bookmark>, depth: nat)
    ensures Flatten(a + b, depth) == Flatten(a, depth) + Flatten(b, depth)
    decreases a
  {
    if a == [] {
      assert a + b == b;
    } else {
      assert (a + b)[0] == a[0];
      assert (a + b)[1..] == a[1..] + b;
      FlattenAppend(a[1..], b, depth);
    }
  }

  /** Walking a forest with a single tree: the tree's own row, then its subtree. */
  lemma FlattenSingleton(b: Bookmark, depth: nat)
    ensures Flatten([b], depth) == [RowOf(b, depth)] + Flatten(b.children, depth + 1)
  {
    assert [b][1..] == [];
  }

  /** Every row of a forest rooted at `depth` lies at `depth` or deeper. */
  lemma {:induction false} FlattenDepthsAtLeast(f: seq<Bookmark>, depth: nat)
    ensures forall i :: 0 <= i < |Flatten(f, depth)| ==> Flatten(f, depth)[i].depth >= depth
    decreases f
  {
    if f != [] {
      FlattenDepthsAtLeast(f[0].children, depth + 1);
      FlattenDepthsAtLeast(f[1..], depth);
    }
  }

  /** A row sequence split into a deeper block `a` followed by a block `b` that is
      either empty or starts back at `depth` splits in exactly one place. */
  lemma SplitAtDepth(a: seq<Row>, b: seq<Row>, c: seq<Row>, d: seq<Row>, depth: nat)
    requires forall i :: 0 <= i < |a| ==> a[i].depth > depth
    requires forall i :: 0 <= i < |c| ==> c[i].depth > depth
    requires b == [] || b[0].depth == depth
    requires d == [] || d[0].depth == depth
    requires a + b == c + d
    ensures a == c && b == d
  {
    // The first row of `b` (or the end) is the first row back at `depth`; so is `d`'s.
    assert forall i :: 0 <= i < |a| ==> (a + b)[i].depth > depth;
    assert forall i :: 0 <= i < |c| ==> (c + d)[i].depth > depth;
    assert |a| < |a + b| ==> (a + b)[|a|].depth == depth;
    assert |c| < |c + d| ==> (c + d)[|c|].depth == depth;
    assert |a| == |c|;
    assert a == (a + b)[..|a|];
    assert c == (c + d)[..|c|];
    assert b == (a + b)[|a|..];
    assert d == (c + d)[|c|..];
  }

  /** A non-empty forest's walk starts with its first root, at the forest's depth. */
  lemma FlattenHead(f: seq<Bookmark>, depth: nat)
    requires f != []
    ensures Flatten(f, depth) != [] && Flatten(f, depth)[0] == RowOf(f[0], depth)
  {
  }

  lemma FlattenCons(f: seq<Bookmark>, depth: nat)
    requires f != []
    ensures Flatten(f, depth) == [RowOf(f[0], depth)] + (Flatten(f[0].children, depth + 1) + Flatten(f[1..], depth))
  {
  }

  /** The pre-order walk determines the forest: no two forests flatten alike. */
  lemma {:induction false} FlattenInjective(f: seq<Bookmark>, g: seq<Bookmark>, depth: nat)
    requires Flatten(f, depth) == Flatten(g, depth)
    ensures f == g
    decreases f
  {
    if f == [] || g == [] {
      if f != [] { FlattenHead(f, depth); }
      if g != [] { FlattenHead(g, depth); }
    } else {
      var a := Flatten(f[0].children, depth + 1);
      var b := Flatten(f[1..], depth);
      var c := Flatten(g[0].children, depth + 1);
      var d := Flatten(g[1..], depth);
      assert RowOf(f[0], depth) == RowOf(g[0], depth) && a + b == c + d by {
        FlattenCons(f, depth);
        FlattenCons(g, depth);
        assert ([RowOf(f[0], depth)] + (a + b))[1..] == a + b;
        assert ([RowOf(g[0], depth)] + (c + d))[1..] == c + d;
      }
      assert a == c && b == d by {
        FlattenDepthsAtLeast(f[0].children, depth + 1);
        FlattenDepthsAtLeast(g[0].children, depth + 1);
        if f[1..] != [] { FlattenHead(f[1..], depth); }
        if g[1..] != [] { FlattenHead(g[1..], depth); }
        SplitAtDepth(a, b, c, d, depth);
      }
      FlattenInjective(f[0].children, g[0].children, depth + 1);
      FlattenInjective(f[1..], g[1..], depth);
      assert f == [f[0]] + f[1..];
      assert g == [g[0]] + g[1..];
    }
  }
}
