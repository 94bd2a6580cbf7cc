/** The shape walker `process_shapes` (app.py lines 179-189): visits the
    shapes of a slide, descends into groups, and rewrites the paragraphs of
    every text frame and of every table cell. */
module ShapeWalker {
  import opened Rewriter

  /** A table cell is its text frame: its paragraphs. */
  type Cell = seq<array<string>>

  /** The shapes the walker tells apart, in the order it tests them: a group
      (shape type 6) and its member shapes, a shape with a text frame, a
      table as rows of cells, and anything else. */
  datatype Shape =
    | Group(children: seq<Shape>)
    | TextBox(frame: seq<array<string>>)
    | Table(rows: seq<seq<Cell>>)
    | Other

  /** The paragraphs of a sequence of rows of cells, row by row. */
  function RowsParagraphs(rows: seq<seq<Cell>>): seq<array<string>>
    decreases |rows|
  {
    if rows == [] then [] else RowsParagraphs(rows[..|rows| - 1]) + CellsParagraphs(rows[|rows| - 1])
  }

  /** The paragraphs of the cells of one row, cell by cell. */
  function CellsParagraphs(cells: seq<Cell>): seq<array<string>>
    decreases |cells|
  {
    if cells == [] then [] else CellsParagraphs(cells[..|cells| - 1]) + cells[|cells| - 1]
  }

  /** Every paragraph the walker reaches from `shapes`, in visiting order. */
  function Paragraphs(shapes: seq<Shape>): seq<array<string>>
    decreases shapes
  {
    if shapes == [] then []
    else Paragraphs(shapes[..|shapes| - 1]) + ShapeParagraphs(shapes[|shapes| - 1])
  }

  /** The paragraphs the walker reaches from one shape. */
  function ShapeParagraphs(shape: Shape): seq<array<string>>
    decreases shape
  {
    match shape
    case Group(children) => Paragraphs(children)
    case TextBox(frame) => frame
    case Table(rows) => RowsParagraphs(rows)
    case Other => []
  }

  /** `process_shapes(shapes)`: every paragraph reached is rewritten with the
      table, and, by its frame, nothing else changes. The paragraphs must be
      distinct objects, as the paragraphs of a presentation are. */
  method ProcessShapes(shapes: seq<Shape>, reps: Replacements)
    requires Distinct(Paragraphs(shapes))
    modifies set p | p in Paragraphs(shapes)
    ensures forall p :: p in Paragraphs(shapes) ==> p[..] == RewrittenRuns(old(p[..]), reps)
    decreases shapes
  {
    ghost var all := Paragraphs(shapes);
    ghost var before := map p | p in all :: p[..];
    ShapesAllocated(shapes);
    for i := 0 to |shapes|
      invariant forall p :: p in all ==> allocated(p)
      invariant forall p :: p in Paragraphs(shapes[..i]) ==> p in before && p[..] == RewrittenRuns(before[p], reps)
      invariant forall p :: p in all && p !in Paragraphs(shapes[..i]) ==> p[..] == before[p]
    {
      PrefixSplit(shapes, i);
      DistinctParts(Paragraphs(shapes[..i]), ShapeParagraphs(shapes[i]), Paragraphs(shapes[i + 1..]));
      ghost var done := Paragraphs(shapes[..i]);
      assert shapes[i] in shapes;
      ProcessShape(shapes[i], reps);
      assert Paragraphs(shapes[..i + 1]) == done + ShapeParagraphs(shapes[i]);
    }
    assert shapes[..|shapes|] == shapes;
  }

  /** One step of the walker: a group is walked recursively, a text frame
      and the cells of a table are rewritten, anything else is left alone. */
  method ProcessShape(shape: Shape, reps: Replacements)
    requires Distinct(ShapeParagraphs(shape))
    modifies set p | p in ShapeParagraphs(shape)
    ensures forall p :: p in ShapeParagraphs(shape) ==> p[..] == RewrittenRuns(old(p[..]), reps)
    decreases shape
  {
    match shape
    case Group(children) =>
      ProcessShapes(children, reps);
    case TextBox(frame) =>
      RewriteFrame(frame, reps);
    case Table(rows) =>
      ProcessTable(rows, reps);
    case Other =>
  }

  /** The table branch: every cell of every row is rewritten. */
  method ProcessTable(rows: seq<seq<Cell>>, reps: Replacements)
    requires Distinct(RowsParagraphs(rows))
    modifies set p | p in RowsParagraphs(rows)
    ensures forall p :: p in RowsParagraphs(rows) ==> p[..] == RewrittenRuns(old(p[..]), reps)
  {
    ghost var all := RowsParagraphs(rows);
    ghost var before := map p | p in all :: p[..];
    RowsAllocated(rows);
    for r := 0 to |rows|
      invariant forall p :: p in all ==> allocated(p)
      invariant forall p :: p in RowsParagraphs(rows[..r]) ==> p in before && p[..] == RewrittenRuns(before[p], reps)
      invariant forall p :: p in all && p !in RowsParagraphs(rows[..r]) ==> p[..] == before[p]
    {
      RowsPrefixSplit(rows, r);
      DistinctParts(RowsParagraphs(rows[..r]), CellsParagraphs(rows[r]), RowsParagraphs(rows[r + 1..]));
      ghost var done := RowsParagraphs(rows[..r]);
      ProcessRow(rows[r], reps);
      assert RowsParagraphs(rows[..r + 1]) == done + CellsParagraphs(rows[r]);
    }
    assert rows[..|rows|] == rows;
  }

  /** The cells of one row, one after the other. */
  method ProcessRow(cells: seq<Cell>, reps: Replacements)
    requires Distinct(CellsParagraphs(cells))
    modifies set p | p in CellsParagraphs(cells)
    ensures forall p :: p in CellsParagraphs(cells) ==> p[..] == RewrittenRuns(old(p[..]), reps)
  {
    ghost var all := CellsParagraphs(cells);
    ghost var before := map p | p in all :: p[..];
    CellsAllocated(cells);
    for c := 0 to |cells|
      invariant forall p :: p in all ==> allocated(p)
      invariant forall p :: p in CellsParagraphs(cells[..c]) ==> p in before && p[..] == RewrittenRuns(before[p], reps)
      invariant forall p :: p in all && p !in CellsParagraphs(cells[..c]) ==> p[..] == before[p]
    {
      CellsPrefixSplit(cells, c);
      DistinctParts(CellsParagraphs(cells[..c]), cells[c], CellsParagraphs(cells[c + 1..]));
      ghost var done := CellsParagraphs(cells[..c]);
      RewriteFrame(cells[c], reps);
      assert CellsParagraphs(cells[..c + 1]) == done + cells[c];
    }
    assert cells[..|cells|] == cells;
  }

  /** `shape` is one of `shapes`, or is reached from one of them through
      nested groups. */
  predicate Within(shape: Shape, shapes: seq<Shape>)
    decreases shapes
  {
    exists i :: 0 <= i < |shapes| && (shapes[i] == shape || (shapes[i].Group? && Within(shape, shapes[i].children)))
  }

  /** The paragraph is in a text frame, or in a cell of a table. */
  predicate HoldsParagraph(shape: Shape, p: array<string>) {
    (shape.TextBox? && p in shape.frame) ||
    (shape.Table? && exists r, c :: 0 <= r < |shape.rows| && 0 <= c < |shape.rows[r]| && p in shape.rows[r][c])
  }

  /** Every shape reached through nested groups has its paragraphs visited:
      the paragraphs of every text frame and of every cell of every table. */
  lemma {:induction false} ReachedShapesVisited(shape: Shape, shapes: seq<Shape>)
    requires Within(shape, shapes)
    ensures forall p :: HoldsParagraph(shape, p) ==> p in Paragraphs(shapes)
    decreases shapes
  {
    var i :| 0 <= i < |shapes| && (shapes[i] == shape || (shapes[i].Group? && Within(shape, shapes[i].children)));
    PrefixSplit(shapes, i);
    if shapes[i] == shape {
      forall p | HoldsParagraph(shape, p) ensures p in ShapeParagraphs(shape) {
        if shape.Table? {
          var r, c :| 0 <= r < |shape.rows| && 0 <= c < |shape.rows[r]| && p in shape.rows[r][c];
          RowsPrefixSplit(shape.rows, r);
          CellsPrefixSplit(shape.rows[r], c);
        }
      }
    } else {
      assert shapes[i] in shapes;
      ReachedShapesVisited(shape, shapes[i].children);
    }
  }

  /** Conversely, every paragraph visited belongs to a text frame or a table
      cell reached through nested groups: groups own no text of their own
      and other shapes are never visited. */
  lemma {:induction false} VisitedFromReachedShapes(shapes: seq<Shape>, p: array<string>)
    requires p in Paragraphs(shapes)
    ensures exists shape :: Within(shape, shapes) && HoldsParagraph(shape, p)
    decreases shapes
  {
    var n := |shapes| - 1;
    var last := shapes[n];
    assert shapes[..n + 1] == shapes;
    PrefixSplit(shapes, n);
    if p in Paragraphs(shapes[..n]) {
      VisitedFromReachedShapes(shapes[..n], p);
      var shape :| Within(shape, shapes[..n]) && HoldsParagraph(shape, p);
      var i :| 0 <= i < n && (shapes[..n][i] == shape || (shapes[..n][i].Group? && Within(shape, shapes[..n][i].children)));
      assert shapes[i] == shapes[..n][i];
      assert Within(shape, shapes);
    } else {
      assert p in ShapeParagraphs(last);
      if last.Group? {
        assert last in shapes;
        VisitedFromReachedShapes(last.children, p);
        var shape :| Within(shape, last.children) && HoldsParagraph(shape, p);
        assert Within(shape, shapes);
      } else if last.Table? {
        var r, c := RowsSource(last.rows, p);
        assert Within(last, shapes) && HoldsParagraph(last, p);
      } else {
        assert Within(last, shapes) && HoldsParagraph(last, p);
      }
    }
  }

  /** The row and cell a visited table paragraph comes from. */
  lemma {:induction false} RowsSource(rows: seq<seq<Cell>>, p: array<string>) returns (r: nat, c: nat)
    requires p in RowsParagraphs(rows)
    ensures r < |rows| && c < |rows[r]| && p in rows[r][c]
    decreases |rows|
  {
    var n := |rows| - 1;
    if p in RowsParagraphs(rows[..n]) {
      r, c := RowsSource(rows[..n], p);
    } else {
      r := n;
      c := CellsSource(rows[n], p);
    }
  }

  lemma {:induction false} CellsSource(cells: seq<Cell>, p: array<string>) returns (c: nat)
    requires p in CellsParagraphs(cells)
    ensures c < |cells| && p in cells[c]
    decreases |cells|
  {
    var n := |cells| - 1;
    if p in CellsParagraphs(cells[..n]) {
      c := CellsSource(cells[..n], p);
    } else {
      c := n;
    }
  }

  /** Three pieces of a distinct sequence are distinct and pairwise disjoint. */
  lemma DistinctParts(a: seq<array<string>>, b: seq<array<string>>, c: seq<array<string>>)
    requires Distinct(a + b + c)
    ensures Distinct(a) && Distinct(b)
    ensures forall p :: p in b ==> p !in a && p !in c
  {
    var all := a + b + c;
    forall i, j | 0 <= i < j < |a| ensures a[i] != a[j] {
      assert a[i] == all[i] && a[j] == all[j];
    }
    forall i, j | 0 <= i < j < |b| ensures b[i] != b[j] {
      assert b[i] == all[|a| + i] && b[j] == all[|a| + j];
    }
    forall p | p in b ensures p !in a && p !in c {
      var j :| 0 <= j < |b| && b[j] == p;
      assert p == all[|a| + j];
      forall i | 0 <= i < |a| ensures a[i] != p {
        assert a[i] == all[i];
      }
      forall k | 0 <= k < |c| ensures c[k] != p {
        assert c[k] == all[|a| + |b| + k];
      }
    }
  }

  /** The walk over `shapes` is the walk over the first `i` shapes, then the
      `i`-th, then the rest. */
  lemma PrefixSplit(s: seq<Shape>, i: nat)
    requires i < |s|
    ensures Paragraphs(s) == Paragraphs(s[..i]) + ShapeParagraphs(s[i]) + Paragraphs(s[i + 1..])
    ensures Paragraphs(s[..i + 1]) == Paragraphs(s[..i]) + ShapeParagraphs(s[i])
  {
    PrefixStep(s, i);
    PrefixCut(s, i + 1);
  }

  lemma PrefixStep(s: seq<Shape>, i: nat)
    requires i < |s|
    ensures Paragraphs(s[..i + 1]) == Paragraphs(s[..i]) + ShapeParagraphs(s[i])
  {
    assert s[..i + 1][..i] == s[..i];
  }

  lemma PrefixCut(s: seq<Shape>, k: nat)
    requires k <= |s|
    ensures Paragraphs(s) == Paragraphs(s[..k]) + Paragraphs(s[k..])
  {
    assert s == s[..k] + s[k..];
    ParagraphsAppend(s[..k], s[k..]);
  }

  lemma RowsPrefixSplit(s: seq<seq<Cell>>, i: nat)
    requires i < |s|
    ensures RowsParagraphs(s) == RowsParagraphs(s[..i]) + CellsParagraphs(s[i]) + RowsParagraphs(s[i + 1..])
    ensures RowsParagraphs(s[..i + 1]) == RowsParagraphs(s[..i]) + CellsParagraphs(s[i])
  {
    RowsStep(s, i);
    RowsCut(s, i + 1);
  }

  lemma RowsStep(s: seq<seq<Cell>>, i: nat)
    requires i < |s|
    ensures RowsParagraphs(s[..i + 1]) == RowsParagraphs(s[..i]) + CellsParagraphs(s[i])
  {
    assert s[..i + 1][..i] == s[..i];
  }

  lemma RowsCut(s: seq<seq<Cell>>, k: nat)
    requires k <= |s|
    ensures RowsParagraphs(s) == RowsParagraphs(s[..k]) + RowsParagraphs(s[k..])
  {
    assert s == s[..k] + s[k..];
    RowsAppend(s[..k], s[k..]);
  }

  lemma CellsPrefixSplit(s: seq<Cell>, i: nat)
    requires i < |s|
    ensures CellsParagraphs(s) == CellsParagraphs(s[..i]) + s[i] + CellsParagraphs(s[i + 1..])
    ensures CellsParagraphs(s[..i + 1]) == CellsParagraphs(s[..i]) + s[i]
  {
    CellsStep(s, i);
    CellsCut(s, i + 1);
  }

  lemma CellsStep(s: seq<Cell>, i: nat)
    requires i < |s|
    ensures CellsParagraphs(s[..i + 1]) == CellsParagraphs(s[..i]) + s[i]
  {
    assert s[..i + 1][..i] == s[..i];
  }

  lemma CellsCut(s: seq<Cell>, k: nat)
    requires k <= |s|
    ensures CellsParagraphs(s) == CellsParagraphs(s[..k]) + CellsParagraphs(s[k..])
  {
    assert s == s[..k] + s[k..];
    CellsAppend(s[..k], s[k..]);
  }

  /** Walking two shape lists one after the other reaches the paragraphs of
      each, in order. */
  lemma {:induction false} ParagraphsAppend(a: seq<Shape>, b: seq<Shape>)
    ensures Paragraphs(a + b) == Paragraphs(a) + Paragraphs(b)
    decreases |b|
  {
    if b != [] {
      var n := |b| - 1;
      assert (a + b)[..|a + b| - 1] == a + b[..n];
      ParagraphsAppend(a, b[..n]);
    } else {
      assert a + b == a;
    }
  }

  lemma {:induction false} RowsAppend(a: seq<seq<Cell>>, b: seq<seq<Cell>>)
    ensures RowsParagraphs(a + b) == RowsParagraphs(a) + RowsParagraphs(b)
    decreases |b|
  {
    if b != [] {
      var n := |b| - 1;
      assert (a + b)[..|a + b| - 1] == a + b[..n];
      RowsAppend(a, b[..n]);
    } else {
      assert a + b == a;
    }
  }

  lemma {:induction false} CellsAppend(a: seq<Cell>, b: seq<Cell>)
    ensures CellsParagraphs(a + b) == CellsParagraphs(a) + CellsParagraphs(b)
    decreases |b|
  {
    if b != [] {
      var n := |b| - 1;
      assert (a + b)[..|a + b| - 1] == a + b[..n];
      CellsAppend(a, b[..n]);
    } else {
      assert a + b == a;
    }
  }

  /** Every paragraph reached from an allocated shape list is allocated, so
      the frame of each step speaks about it. */
  lemma {:induction false} CellsAllocated(cells: seq<Cell>)
    ensures forall p :: p in CellsParagraphs(cells) ==> allocated(p)
    decreases |cells|
  {
    if cells != [] {
      CellsAllocated(cells[..|cells| - 1]);
    }
  }

  lemma {:induction false} RowsAllocated(rows: seq<seq<Cell>>)
    ensures forall p :: p in RowsParagraphs(rows) ==> allocated(p)
    decreases |rows|
  {
    if rows != [] {
      RowsAllocated(rows[..|rows| - 1]);
      CellsAllocated(rows[|rows| - 1]);
    }
  }

  lemma {:induction false} ShapesAllocated(shapes: seq<Shape>)
    ensures forall p :: p in Paragraphs(shapes) ==> allocated(p)
    decreases shapes
  {
    if shapes != [] {
      var n := |shapes| - 1;
      ShapesAllocated(shapes[..n]);
      assert shapes[n] in shapes;
      match shapes[n]
      case Group(children) =>
        ShapesAllocated(children);
        assert Paragraphs(shapes) == Paragraphs(shapes[..n]) + Paragraphs(children);
      case TextBox(_) =>
      case Table(rows) =>
        RowsAllocated(rows);
      case Other =>
    }
  }
}
