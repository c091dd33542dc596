/**
  Properties of `GridContainerContent` that relate several calls: the grid
  shares storage with the array it was built from, a row replaced after
  construction is cut off from both the source and the change notifications,
  and converting back always yields the original array.
*/
module GridLaws {
  import opened Optional
  import opened GridContent

  /** Slot `i` holds a wrapper around the very array in source row `i`. */
  predicate RowAliasesSource<D>(g: Grid<D>, i: nat)
  {
    && i < |g.slots| && g.slots[i].Some? && g.slots[i].value < |g.wrappers|
    && i < |SourceRows(g.source)|
    && SourceRows(g.source)[i].Some?
    && g.wrappers[g.slots[i].value].wrapped == SourceRows(g.source)[i]
  }

  /** Right after construction every non-null row aliases its source row. */
  lemma ConstructAliasesEveryRow<D>(rows: seq<seq<D>>, wrappers: seq<Wrapper>, source: Option<seq<Option<RowRef>>>, i: nat)
    requires HeapOk(rows, wrappers) && SourceOk(rows, source) && NoneSubscribed(wrappers)
    requires i < |SourceRows(source)| && SourceRows(source)[i].Some?
    ensures RowAliasesSource(Construct(rows, wrappers, source), i)
    ensures Construct(rows, wrappers, source).wrappers[Row(Construct(rows, wrappers, source), i).value].subscribed
  {
    ConstructRows(rows, wrappers, source);
    ConstructSubscriptions(rows, wrappers, source);
  }

  /**
    Right after construction `content[i][j]` and `source[i][j]` are defined
    for the same indices and read the same element.
  */
  lemma ConstructedCellsAreSourceCells<D>(rows: seq<seq<D>>, wrappers: seq<Wrapper>, source: Option<seq<Option<RowRef>>>, i: nat, j: nat)
    requires HeapOk(rows, wrappers) && SourceOk(rows, source) && NoneSubscribed(wrappers)
    ensures var g := Construct(rows, wrappers, source);
      (IsCell(g, i, j) <==> IsSourceCell(g, i, j))
      && (IsCell(g, i, j) ==> Cell(g, i, j) == SourceCell(g, i, j))
  {
    ConstructRows(rows, wrappers, source);
  }

  /**
    A cell write through a row that aliases its source row is visible through
    the source array; every other source cell changes only if it sits in the
    same array object at the same column.
  */
  lemma SetCellVisibleInSource<D>(g: Grid<D>, i: nat, j: nat, v: D)
    requires Valid(g) && RowAliasesSource(g, i) && IsCell(g, i, j)
    ensures IsSourceCell(SetCell(g, i, j, v), i, j) && SourceCell(SetCell(g, i, j, v), i, j) == v
    ensures ToArray(SetCell(g, i, j, v)) == ToArray(g)
    ensures forall k: nat, l: nat :: IsSourceCell(g, k, l) ==>
      var r := SetCell(g, i, j, v);
      IsSourceCell(r, k, l)
      && SourceCell(r, k, l) == (if SourceRows(g.source)[k] == SourceRows(g.source)[i] && l == j then v else SourceCell(g, k, l))
  {
  }

  /**
    Right after construction, `content[i][j] = v` on a non-null row is read
    back through both the grid and the source array, and raises
    `ContentChanged` exactly once.
  */
  lemma ConstructedWriteIsSharedAndRaisesOnce<D>(rows: seq<seq<D>>, wrappers: seq<Wrapper>, source: Option<seq<Option<RowRef>>>, i: nat, j: nat, v: D)
    requires HeapOk(rows, wrappers) && SourceOk(rows, source) && NoneSubscribed(wrappers)
    requires IsSourceCell(Construct(rows, wrappers, source), i, j)
    ensures var g := Construct(rows, wrappers, source);
      IsCell(g, i, j)
      && var r := SetCell(g, i, j, v);
      Cell(r, i, j) == v && SourceCell(r, i, j) == v
      && r.raised == g.raised + 1
      && ToArray(r) == source
  {
    var g := Construct(rows, wrappers, source);
    ConstructAliasesEveryRow(rows, wrappers, source, i);
    ConstructedCellsAreSourceCells(rows, wrappers, source, i, j);
    SetCellVisibleInSource(g, i, j, v);
  }

  /**
    Replacing row `i` by a new wrapper around a new array, then writing into
    it: the row write raises once, the element write raises nothing because
    nobody subscribed the new wrapper, the written value reads back through the
    grid, and the source array is left exactly as it was.
  */
  lemma ReplacedRowIsDetached<D>(g: Grid<D>, i: nat, cells: seq<D>, j: nat, v: D)
    requires Valid(g) && i < RowCount(g) && j < |cells|
    ensures
      var (g1, a) := NewRow(g, cells);
      var (g2, w) := NewWrapper(g1, Some(a));
      var g3 := SetRow(g2, i, Some(w));
      IsCell(g3, i, j)
      && var g4 := SetCell(g3, i, j, v);
      && Cell(g4, i, j) == v
      && g4.raised == g.raised + 1
      && ToArray(g4) == ToArray(g)
      && (forall k: nat, l: nat :: IsSourceCell(g, k, l) ==> IsSourceCell(g4, k, l) && SourceCell(g4, k, l) == SourceCell(g, k, l))
  {
  }

  /**
    Rebinding a constructor-created row wrapper to another array through
    `WrappedArray` raises nothing, yet the wrapper stays subscribed: later
    writes through it raise `ContentChanged` but no longer reach the source.
  */
  lemma RebindKeepsSubscription<D>(g: Grid<D>, i: nat, a: RowRef, j: nat, v: D)
    requires Valid(g) && RowAliasesSource(g, i) && g.wrappers[g.slots[i].value].subscribed
    requires a < |g.rows| && j < |g.rows[a]|
    requires a !in RowsOf(SourceRows(g.source))
    ensures
      var g1 := SetWrappedArray(g, Row(g, i).value, Some(a));
      g1.raised == g.raised
      && IsCell(g1, i, j)
      && var g2 := SetCell(g1, i, j, v);
      && Cell(g2, i, j) == v
      && g2.raised == g.raised + 1
      && (forall k: nat, l: nat :: IsSourceCell(g, k, l) ==> IsSourceCell(g2, k, l) && SourceCell(g2, k, l) == SourceCell(g, k, l))
  {
  }

  /** The row arrays a source row list points at. */
  function RowsOf(src: seq<Option<RowRef>>): set<RowRef>
  {
    set k | 0 <= k < |src| && src[k].Some? :: src[k].value
  }

}
