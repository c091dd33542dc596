/**
  A jagged array of drawables with element change notifications
  (`GridContainerContent` and its nested `ArrayWrapper<T>`).

  The C# object graph is modelled as an explicit heap so that aliasing is
  visible: every `Drawable[]` row array lives in `rows` and every
  `ArrayWrapper<Drawable>` object lives in `wrappers`; a reference is an index
  into one of them, and `None` is `null`. Two wrappers that hold the same
  `RowRef` share storage, exactly as two C# references to one array do.

  The outer `ArrayWrapper<ArrayWrapper<Drawable>>` is part of the grid: its
  fresh array of row wrappers is `slots`, and its `ArrayElementChanged` event is
  always subscribed to the grid's handler. `raised` counts the runs of that
  handler (`onArrayElementChanged`); each run invokes `ContentChanged` only if
  a handler is attached to it, which no caller can have done before the
  constructor returns. "Raises `ContentChanged`" below means one such run.
*/
module GridContent {
  import opened Optional

  /** A reference to a `Drawable[]` row array: an index into `Grid.rows`. */
  type RowRef = nat

  /** A reference to an `ArrayWrapper<Drawable>` object: an index into `Grid.wrappers`. */
  type WrapperRef = nat

  /**
    An `ArrayWrapper<Drawable>` object: the array it wraps (its `WrappedArray`
    property, possibly null) and whether the grid's handler is attached to its
    `ArrayElementChanged` event.
  */
  datatype Wrapper = Wrapper(wrapped: Option<RowRef>, subscribed: bool)

  /**
    A `GridContainerContent` over the heap it reaches.
    - rows: contents of every `Drawable[]` row array
    - wrappers: every `ArrayWrapper<Drawable>` object
    - source: the caller's `Drawable[][]` the grid was built from (row references, or null)
    - slots: the grid's own outer array of row wrappers
    - raised: number of times `onArrayElementChanged` has run
  */
  datatype Grid<D> = Grid(
    rows: seq<seq<D>>,
    wrappers: seq<Wrapper>,
    source: Option<seq<Option<RowRef>>>,
    slots: seq<Option<WrapperRef>>,
    raised: nat)

  predicate RowRefOk<D>(rows: seq<seq<D>>, r: Option<RowRef>)
  {
    r.Some? ==> r.value < |rows|
  }

  predicate WrapperRefOk(wrappers: seq<Wrapper>, w: Option<WrapperRef>)
  {
    w.Some? ==> w.value < |wrappers|
  }

  /** Every wrapper wraps null or an existing row array. */
  predicate HeapOk<D>(rows: seq<seq<D>>, wrappers: seq<Wrapper>)
  {
    forall w :: 0 <= w < |wrappers| ==> RowRefOk(rows, wrappers[w].wrapped)
  }

  /** The rows of a possibly-null `Drawable[][]`; a null array has none. */
  function SourceRows(source: Option<seq<Option<RowRef>>>): seq<Option<RowRef>>
  {
    if source.Some? then source.value else []
  }

  /** Every row of the source array is null or an existing row array. */
  predicate SourceOk<D>(rows: seq<seq<D>>, source: Option<seq<Option<RowRef>>>)
  {
    forall i :: 0 <= i < |SourceRows(source)| ==> RowRefOk(rows, SourceRows(source)[i])
  }

  /**
    No wrapper is subscribed to the grid's handler: the heap as it is before
    the constructor runs, since nothing can listen to a grid that does not
    exist yet.
  */
  predicate NoneSubscribed(wrappers: seq<Wrapper>)
  {
    forall w :: 0 <= w < |wrappers| ==> !wrappers[w].subscribed
  }

  /** Every reference in the grid points at an existing object. */
  predicate Valid<D>(g: Grid<D>)
  {
    && HeapOk(g.rows, g.wrappers)
    && SourceOk(g.rows, g.source)
    && forall i :: 0 <= i < |g.slots| ==> WrapperRefOk(g.wrappers, g.slots[i])
  }

  /** Number of non-null rows in a source row list. */
  function Present(rows: seq<Option<RowRef>>): nat
  {
    if |rows| == 0 then 0 else (if rows[0].Some? then 1 else 0) + Present(rows[1..])
  }

  // ---------------------------------------------------------------------------
  // ArrayWrapper<Drawable>

  /** `new ArrayWrapper<Drawable> { WrappedArray = a }`: a fresh wrapper nobody listens to. */
  function NewWrapper<D>(g: Grid<D>, a: Option<RowRef>): (r: (Grid<D>, WrapperRef))
    ensures r.1 == |g.wrappers| && r.0.wrappers == g.wrappers + [Wrapper(a, false)]
    ensures r.0.rows == g.rows && r.0.source == g.source && r.0.slots == g.slots
    ensures r.0.raised == g.raised
    ensures Valid(g) && RowRefOk(g.rows, a) ==> Valid(r.0)
  {
    (g.(wrappers := g.wrappers + [Wrapper(a, false)]), |g.wrappers|)
  }

  /** `new Drawable[n]` filled with `cells`: a fresh row array shared with nobody. */
  function NewRow<D>(g: Grid<D>, cells: seq<D>): (r: (Grid<D>, RowRef))
    ensures r.1 == |g.rows| && r.0.rows == g.rows + [cells]
    ensures r.0.wrappers == g.wrappers && r.0.source == g.source && r.0.slots == g.slots
    ensures r.0.raised == g.raised
    ensures Valid(g) ==> Valid(r.0)
  {
    (g.(rows := g.rows + [cells]), |g.rows|)
  }

  /** `w.WrappedArray` getter. */
  function WrappedArray<D>(g: Grid<D>, w: WrapperRef): Option<RowRef>
    requires w < |g.wrappers|
  {
    g.wrappers[w].wrapped
  }

  /**
    `w.WrappedArray = a`: a plain auto-property setter. It rebinds only this
    wrapper, raises nothing, and leaves every array's contents alone.
  */
  function SetWrappedArray<D>(g: Grid<D>, w: WrapperRef, a: Option<RowRef>): (r: Grid<D>)
    requires w < |g.wrappers|
    ensures |r.wrappers| == |g.wrappers| && WrappedArray(r, w) == a
    ensures forall x :: 0 <= x < |g.wrappers| && x != w ==> r.wrappers[x] == g.wrappers[x]
    ensures r.wrappers[w].subscribed == g.wrappers[w].subscribed
    ensures r.rows == g.rows && r.source == g.source && r.slots == g.slots
    ensures r.raised == g.raised
    ensures Valid(g) && RowRefOk(g.rows, a) ==> Valid(r)
  {
    g.(wrappers := g.wrappers[w := g.wrappers[w].(wrapped := a)])
  }

  /** `w[j]` can be evaluated: `w` wraps a non-null array and `0 <= j < Length`. */
  predicate IsElement<D>(g: Grid<D>, w: WrapperRef, j: nat)
  {
    && w < |g.wrappers|
    && g.wrappers[w].wrapped.Some?
    && g.wrappers[w].wrapped.value < |g.rows|
    && j < |g.rows[g.wrappers[w].wrapped.value]|
  }

  /** Two wrappers that wrap the same non-null array object. */
  predicate SameArray<D>(g: Grid<D>, w: WrapperRef, x: WrapperRef)
    requires w < |g.wrappers| && x < |g.wrappers|
  {
    g.wrappers[w].wrapped.Some? && g.wrappers[w].wrapped == g.wrappers[x].wrapped
  }

  /** Indexer getter `w[j]`. */
  function Get<D>(g: Grid<D>, w: WrapperRef, j: nat): D
    requires IsElement(g, w, j)
  {
    g.rows[g.wrappers[w].wrapped.value][j]
  }

  /**
    Indexer setter `w[j] = v`: stores into the wrapped array, then raises
    `ArrayElementChanged`, which reaches `ContentChanged` only when the grid's
    handler is attached to `w`. The write is seen through every wrapper that
    shares the array and nowhere else.
  */
  function Set<D>(g: Grid<D>, w: WrapperRef, j: nat, v: D): (r: Grid<D>)
    requires IsElement(g, w, j)
    ensures IsElement(r, w, j) && Get(r, w, j) == v
    ensures forall x, k :: IsElement(g, x, k) ==>
      IsElement(r, x, k) && Get(r, x, k) == (if SameArray(g, w, x) && k == j then v else Get(g, x, k))
    ensures |r.rows| == |g.rows|
    ensures r.rows[g.wrappers[w].wrapped.value] == g.rows[g.wrappers[w].wrapped.value][j := v]
    ensures forall a :: 0 <= a < |g.rows| && a != g.wrappers[w].wrapped.value ==> r.rows[a] == g.rows[a]
    ensures r.wrappers == g.wrappers && r.source == g.source && r.slots == g.slots
    ensures r.raised == g.raised + (if g.wrappers[w].subscribed then 1 else 0)
    ensures Valid(g) ==> Valid(r)
  {
    var a := g.wrappers[w].wrapped.value;
    g.(rows := g.rows[a := g.rows[a][j := v]],
       raised := if g.wrappers[w].subscribed then g.raised + 1 else g.raised)
  }

  /**
    A plain store into a row array, such as `drawables[i][j] = v` on the
    caller's array or `w.WrappedArray[j] = v` through the property getter. It
    bypasses every indexer, so it raises nothing, yet every wrapper around that
    array sees the new value.
  */
  function SetArray<D>(g: Grid<D>, a: RowRef, j: nat, v: D): (r: Grid<D>)
    requires a < |g.rows| && j < |g.rows[a]|
    ensures |r.rows| == |g.rows| && r.rows[a] == g.rows[a][j := v]
    ensures forall b :: 0 <= b < |g.rows| && b != a ==> r.rows[b] == g.rows[b]
    ensures forall x: WrapperRef, k: nat :: IsElement(g, x, k) ==>
      IsElement(r, x, k) && Get(r, x, k) == (if g.wrappers[x].wrapped == Some(a) && k == j then v else Get(g, x, k))
    ensures r.wrappers == g.wrappers && r.source == g.source && r.slots == g.slots
    ensures r.raised == g.raised
    ensures Valid(g) ==> Valid(r)
  {
    g.(rows := g.rows[a := g.rows[a][j := v]])
  }

  /** `w.ArrayElementChanged += onArrayElementChanged`: only the constructor does this. */
  function Subscribe<D>(g: Grid<D>, w: WrapperRef): (r: Grid<D>)
    requires w < |g.wrappers|
    ensures |r.wrappers| == |g.wrappers| && r.wrappers[w] == Wrapper(g.wrappers[w].wrapped, true)
    ensures forall x :: 0 <= x < |g.wrappers| && x != w ==> r.wrappers[x] == g.wrappers[x]
    ensures r.rows == g.rows && r.source == g.source && r.slots == g.slots && r.raised == g.raised
    ensures Valid(g) ==> Valid(r)
  {
    g.(wrappers := g.wrappers[w := g.wrappers[w].(subscribed := true)])
  }

  // ---------------------------------------------------------------------------
  // GridContainerContent

  /** Number of rows: the length of the outer wrapper's array. */
  function RowCount<D>(g: Grid<D>): nat
  {
    |g.slots|
  }

  /** Row indexer getter `content[i]`: the row wrapper in slot `i`, or null. */
  function Row<D>(g: Grid<D>, i: nat): Option<WrapperRef>
    requires i < |g.slots|
  {
    g.slots[i]
  }

  /**
    Row indexer setter `content[i] = w`: a write through the outer wrapper,
    which is always subscribed, so it raises `ContentChanged` once. It writes
    the grid's own outer array, never the source array.
  */
  function SetRow<D>(g: Grid<D>, i: nat, w: Option<WrapperRef>): (r: Grid<D>)
    requires i < |g.slots|
    ensures RowCount(r) == RowCount(g) && Row(r, i) == w
    ensures forall k :: 0 <= k < |g.slots| && k != i ==> Row(r, k) == Row(g, k)
    ensures r.rows == g.rows && r.wrappers == g.wrappers && r.source == g.source
    ensures r.raised == g.raised + 1
    ensures Valid(g) && WrapperRefOk(g.wrappers, w) ==> Valid(r)
  {
    g.(slots := g.slots[i := w], raised := g.raised + 1)
  }

  /**
    `content.WrappedArray.WrappedArray = s`: replaces the outer wrapper's array
    through its plain auto-property, which raises nothing.
  */
  function SetSlots<D>(g: Grid<D>, s: seq<Option<WrapperRef>>): (r: Grid<D>)
    ensures RowCount(r) == |s| && forall k :: 0 <= k < |s| ==> Row(r, k) == s[k]
    ensures r.rows == g.rows && r.wrappers == g.wrappers && r.source == g.source
    ensures r.raised == g.raised
    ensures Valid(g) && (forall k :: 0 <= k < |s| ==> WrapperRefOk(g.wrappers, s[k])) ==> Valid(r)
  {
    g.(slots := s)
  }

  /** `content[i][j]` can be evaluated: slot `i` holds a wrapper and `j` is in its range. */
  predicate IsCell<D>(g: Grid<D>, i: nat, j: nat)
  {
    i < |g.slots| && g.slots[i].Some? && IsElement(g, g.slots[i].value, j)
  }

  /** `content[i][j]`. */
  function Cell<D>(g: Grid<D>, i: nat, j: nat): D
    requires IsCell(g, i, j)
  {
    Get(g, g.slots[i].value, j)
  }

  /** The array object row `i`'s wrapper wraps. */
  function RowArray<D>(g: Grid<D>, i: nat): RowRef
    requires i < |g.slots| && g.slots[i].Some? && g.slots[i].value < |g.wrappers|
    requires g.wrappers[g.slots[i].value].wrapped.Some?
  {
    g.wrappers[g.slots[i].value].wrapped.value
  }

  /** Two slots whose wrappers wrap the same array object. */
  predicate SameRowArray<D>(g: Grid<D>, i: nat, k: nat)
    requires i < |g.slots| && g.slots[i].Some? && g.slots[i].value < |g.wrappers|
    requires k < |g.slots| && g.slots[k].Some? && g.slots[k].value < |g.wrappers|
  {
    SameArray(g, g.slots[i].value, g.slots[k].value)
  }

  /**
    `content[i][j] = v`: the row getter followed by the row wrapper's indexer
    setter. It changes cell `(i, j)` and its aliases only, and raises
    `ContentChanged` exactly when slot `i` holds a subscribed wrapper.
  */
  function SetCell<D>(g: Grid<D>, i: nat, j: nat, v: D): (r: Grid<D>)
    requires IsCell(g, i, j)
    ensures IsCell(r, i, j) && Cell(r, i, j) == v
    ensures forall k, l :: IsCell(g, k, l) ==>
      IsCell(r, k, l) && Cell(r, k, l) == (if SameRowArray(g, i, k) && l == j then v else Cell(g, k, l))
    ensures |r.rows| == |g.rows|
    ensures r.rows[RowArray(g, i)] == g.rows[RowArray(g, i)][j := v]
    ensures forall a :: 0 <= a < |g.rows| && a != RowArray(g, i) ==> r.rows[a] == g.rows[a]
    ensures r.wrappers == g.wrappers && r.source == g.source && r.slots == g.slots
    ensures r.raised == g.raised + (if g.wrappers[g.slots[i].value].subscribed then 1 else 0)
    ensures Valid(g) ==> Valid(r)
  {
    Set(g, Row(g, i).value, j, v)
  }

  // ---------------------------------------------------------------------------
  // The source array, as the caller still sees it

  /** `source[i][j]` can be evaluated on the caller's `Drawable[][]`. */
  predicate IsSourceCell<D>(g: Grid<D>, i: nat, j: nat)
  {
    var src := SourceRows(g.source);
    i < |src| && src[i].Some? && src[i].value < |g.rows| && j < |g.rows[src[i].value]|
  }

  /** `source[i][j]`, read directly from the caller's array. */
  function SourceCell<D>(g: Grid<D>, i: nat, j: nat): D
    requires IsSourceCell(g, i, j)
  {
    g.rows[SourceRows(g.source)[i].value][j]
  }

  /** The implicit conversion to `Drawable[][]`: the source reference itself, not the wrapper. */
  function ToArray<D>(g: Grid<D>): Option<seq<Option<RowRef>>>
  {
    g.source
  }

  /**
    One iteration of the constructor's loop for a non-null source row `i`,
    in closed form: slot `i` gets a brand-new subscribed wrapper around the
    source row's own array, and the handler runs once. `InstallRowIsLoopBody`
    shows that this is what the two statements of the loop body do.
  */
  function InstallRow<D>(g: Grid<D>, i: nat): (r: Grid<D>)
    requires i < |g.slots| && i < |SourceRows(g.source)| && SourceRows(g.source)[i].Some?
    ensures r.rows == g.rows && r.source == g.source
    ensures |r.slots| == |g.slots| && r.slots[i] == Some(|g.wrappers|)
    ensures |r.wrappers| == |g.wrappers| + 1 && r.wrappers[|g.wrappers|].wrapped == SourceRows(g.source)[i]
  {
    g.(wrappers := g.wrappers + [Wrapper(SourceRows(g.source)[i], true)],
       slots := g.slots[i := Some(|g.wrappers|)],
       raised := g.raised + 1)
  }

  /**
    The loop body `this[i] = new ArrayWrapper<Drawable> { WrappedArray =
    drawables[i] }` followed by `this[i].ArrayElementChanged +=
    onArrayElementChanged`, run as those three calls, has exactly the effect
    of `InstallRow`: one new subscribed wrapper around source row `i` in slot
    `i`, every older wrapper and every other slot as they were, the arrays and
    the source untouched, and one run of the handler.
  */
  lemma InstallRowIsLoopBody<D>(g: Grid<D>, i: nat)
    requires i < |g.slots| && i < |SourceRows(g.source)| && SourceRows(g.source)[i].Some?
    ensures var (g1, w) := NewWrapper(g, SourceRows(g.source)[i]);
      var g2 := SetRow(g1, i, Some(w));
      Row(g2, i).Some? && Row(g2, i).value < |g2.wrappers|
      && Subscribe(g2, Row(g2, i).value) == InstallRow(g, i)
    ensures var r := InstallRow(g, i);
      && |r.wrappers| == |g.wrappers| + 1
      && (forall x :: 0 <= x < |g.wrappers| ==> r.wrappers[x] == g.wrappers[x])
      && r.wrappers[|g.wrappers|] == Wrapper(SourceRows(g.source)[i], true)
      && |r.slots| == |g.slots|
      && (forall k :: 0 <= k < |g.slots| && k != i ==> r.slots[k] == g.slots[k])
      && r.raised == g.raised + 1
  {
  }

  /** One iteration of the loop leaves no dangling reference behind. */
  lemma InstallRowValid<D>(g: Grid<D>, i: nat)
    requires Valid(g) && i < |g.slots| && i < |SourceRows(g.source)| && SourceRows(g.source)[i].Some?
    ensures Valid(InstallRow(g, i))
  {
  }

  /**
    The constructor's loop from row `i` on: each non-null source row gets
    a fresh wrapper around that very array, installed through the row setter
    (which raises once, through the already-subscribed outer wrapper) and then
    subscribed. Null rows leave their slot null.
  */
  function InstallRows<D>(g: Grid<D>, i: nat): (r: Grid<D>)
    requires |g.slots| == |SourceRows(g.source)| && i <= |g.slots|
    decreases |g.slots| - i
    ensures r.rows == g.rows && r.source == g.source && |r.slots| == |g.slots|
  {
    var src := SourceRows(g.source);
    if i == |src| then g
    else if src[i].None? then InstallRows(g, i + 1)
    else InstallRows(InstallRow(g, i), i + 1)
  }

  /** The loop from row `i` on leaves no dangling reference behind. */
  lemma {:induction false} InstallRowsValid<D>(g: Grid<D>, i: nat)
    requires Valid(g) && |g.slots| == |SourceRows(g.source)| && i <= |g.slots|
    decreases |g.slots| - i
    ensures Valid(InstallRows(g, i))
  {
    var src := SourceRows(g.source);
    if i < |src| {
      if src[i].None? {
        InstallRowsValid(g, i + 1);
      } else {
        InstallRowValid(g, i);
        InstallRowsValid(InstallRow(g, i), i + 1);
      }
    }
  }

  /** The loop from row `i` on allocates one wrapper and raises once per non-null row. */
  lemma {:induction false} InstallRowsCounts<D>(g: Grid<D>, i: nat)
    requires |g.slots| == |SourceRows(g.source)| && i <= |g.slots|
    requires forall k :: i <= k < |g.slots| ==> g.slots[k].None?
    decreases |g.slots| - i
    ensures var r := InstallRows(g, i);
      && |r.wrappers| == |g.wrappers| + Present(SourceRows(g.source)[i..])
      && (forall x :: 0 <= x < |g.wrappers| ==> r.wrappers[x] == g.wrappers[x])
      && r.raised == g.raised + Present(SourceRows(g.source)[i..])
  {
    var src := SourceRows(g.source);
    if i < |src| {
      assert src[i..] == [src[i]] + src[i + 1..];
      if src[i].None? {
        InstallRowsCounts(g, i + 1);
      } else {
        InstallRowsCounts(InstallRow(g, i), i + 1);
      }
    }
  }

  /**
    The loop from row `i` on keeps the slots before `i` and leaves a slot null
    exactly when its source row is null.
  */
  lemma {:induction false} InstallRowsShape<D>(g: Grid<D>, i: nat)
    requires |g.slots| == |SourceRows(g.source)| && i <= |g.slots|
    requires forall k :: i <= k < |g.slots| ==> g.slots[k].None?
    decreases |g.slots| - i
    ensures var r := InstallRows(g, i);
      && (forall k :: 0 <= k < i ==> r.slots[k] == g.slots[k])
      && (forall k :: i <= k < |r.slots| ==> (r.slots[k].Some? <==> SourceRows(g.source)[k].Some?))
  {
    var src := SourceRows(g.source);
    if i < |src| {
      if src[i].None? {
        InstallRowsShape(g, i + 1);
      } else {
        InstallRowsShape(InstallRow(g, i), i + 1);
      }
    }
  }

  /**
    Every slot the loop from row `i` on fills holds a fresh subscribed wrapper
    around that very source row.
  */
  lemma {:induction false} InstallRowsSlots<D>(g: Grid<D>, i: nat)
    requires |g.slots| == |SourceRows(g.source)| && i <= |g.slots|
    requires forall k :: i <= k < |g.slots| ==> g.slots[k].None?
    decreases |g.slots| - i
    ensures var r := InstallRows(g, i);
      forall k :: i <= k < |r.slots| && r.slots[k].Some? ==>
        |g.wrappers| <= r.slots[k].value < |r.wrappers|
        && r.wrappers[r.slots[k].value] == Wrapper(SourceRows(g.source)[k], true)
  {
    var src := SourceRows(g.source);
    if i < |src| {
      if src[i].None? {
        InstallRowsSlots(g, i + 1);
        InstallRowsShape(g, i + 1);
      } else {
        var g3 := InstallRow(g, i);
        var w := |g.wrappers|;
        InstallRowsSlots(g3, i + 1);
        InstallRowsShape(g3, i + 1);
        InstallRowsCounts(g3, i + 1);
        var r := InstallRows(g3, i + 1);
        forall k | i <= k < |r.slots| && r.slots[k].Some?
          ensures |g.wrappers| <= r.slots[k].value < |r.wrappers|
          ensures r.wrappers[r.slots[k].value] == Wrapper(src[k], true)
        {
          if k == i {
            assert r.slots[i] == Some(w);
            assert r.wrappers[w] == g3.wrappers[w];
          }
        }
      }
    }
  }

  /** The loop from row `i` on never puts one wrapper into two slots. */
  lemma {:induction false} InstallRowsDistinct<D>(g: Grid<D>, i: nat)
    requires |g.slots| == |SourceRows(g.source)| && i <= |g.slots|
    requires forall k :: i <= k < |g.slots| ==> g.slots[k].None?
    decreases |g.slots| - i
    ensures var r := InstallRows(g, i);
      forall k, k' :: i <= k < k' < |r.slots| && r.slots[k].Some? ==> r.slots[k] != r.slots[k']
  {
    var src := SourceRows(g.source);
    if i < |src| {
      if src[i].None? {
        InstallRowsDistinct(g, i + 1);
        InstallRowsSlots(g, i + 1);
        InstallRowsShape(g, i + 1);
      } else {
        var g3 := InstallRow(g, i);
        var w := |g.wrappers|;
        InstallRowsDistinct(g3, i + 1);
        InstallRowsSlots(g3, i + 1);
        InstallRowsShape(g3, i + 1);
        var r := InstallRows(g3, i + 1);
        assert r.slots[i] == Some(w);
        forall k' | i < k' < |r.slots| && r.slots[k'].Some?
          ensures r.slots[k'] != Some(w)
        {
          assert |g3.wrappers| <= r.slots[k'].value;
        }
      }
    }
  }

  /** Every wrapper the loop from row `i` on allocates ends up in one of the slots from `i` on. */
  lemma {:induction false} InstallRowsCovers<D>(g: Grid<D>, i: nat)
    requires |g.slots| == |SourceRows(g.source)| && i <= |g.slots|
    requires forall k :: i <= k < |g.slots| ==> g.slots[k].None?
    decreases |g.slots| - i
    ensures var r := InstallRows(g, i);
      forall w :: |g.wrappers| <= w < |r.wrappers| ==> Some(w) in r.slots[i..]
  {
    var src := SourceRows(g.source);
    if i < |src| {
      var r := InstallRows(g, i);
      assert r.slots[i..] == [r.slots[i]] + r.slots[i + 1..];
      if src[i].None? {
        InstallRowsCovers(g, i + 1);
      } else {
        var g3 := InstallRow(g, i);
        InstallRowsCovers(g3, i + 1);
        InstallRowsShape(g3, i + 1);
        InstallRowsCounts(g3, i + 1);
      }
    }
  }

  /**
    `new GridContainerContent(drawables)`, also the implicit conversion from
    `Drawable[][]`. `rows` and `wrappers` are the heap before the call; no
    wrapper can be listening to a grid that does not exist yet.
  */
  function Construct<D>(rows: seq<seq<D>>, wrappers: seq<Wrapper>, source: Option<seq<Option<RowRef>>>): (g: Grid<D>)
    requires HeapOk(rows, wrappers) && SourceOk(rows, source) && NoneSubscribed(wrappers)
    ensures Valid(g)
    ensures ToArray(g) == source && g.rows == rows
    ensures RowCount(g) == |SourceRows(source)|
    ensures |wrappers| <= |g.wrappers| && g.wrappers[..|wrappers|] == wrappers
    ensures g.raised == Present(SourceRows(source))
  {
    var empty := Grid(rows, wrappers, source, seq(|SourceRows(source)|, _ => None), 0);
    assert SourceRows(source)[0..] == SourceRows(source);
    InstallRowsCounts(empty, 0);
    InstallRowsValid(empty, 0);
    var g := InstallRows(empty, 0);
    assert g.wrappers[..|wrappers|] == wrappers;
    g
  }

  /**
    After construction slot `i` is null exactly when source row `i` is null,
    and otherwise holds a wrapper around that same array object.
  */
  lemma ConstructRows<D>(rows: seq<seq<D>>, wrappers: seq<Wrapper>, source: Option<seq<Option<RowRef>>>)
    requires HeapOk(rows, wrappers) && SourceOk(rows, source) && NoneSubscribed(wrappers)
    ensures var g := Construct(rows, wrappers, source);
      && (forall i :: 0 <= i < RowCount(g) ==> (Row(g, i).Some? <==> SourceRows(source)[i].Some?))
      && (forall i :: 0 <= i < RowCount(g) && Row(g, i).Some? ==>
            Row(g, i).value < |g.wrappers| && WrappedArray(g, Row(g, i).value) == SourceRows(source)[i])
  {
    var empty := Grid(rows, wrappers, source, seq(|SourceRows(source)|, _ => None), 0);
    InstallRowsSlots(empty, 0);
    InstallRowsShape(empty, 0);
  }

  /**
    After construction distinct rows have distinct wrappers, every wrapper the
    constructor created sits in a slot and is subscribed, and the slots hold
    nothing else. Since no older wrapper listened to the grid, the grid listens
    to exactly the wrappers in its slots.
  */
  lemma ConstructSubscriptions<D>(rows: seq<seq<D>>, wrappers: seq<Wrapper>, source: Option<seq<Option<RowRef>>>)
    requires HeapOk(rows, wrappers) && SourceOk(rows, source) && NoneSubscribed(wrappers)
    ensures var g := Construct(rows, wrappers, source);
      && (forall i, k :: 0 <= i < k < RowCount(g) && Row(g, i).Some? ==> Row(g, i) != Row(g, k))
      && (forall i :: 0 <= i < RowCount(g) && Row(g, i).Some? ==> |wrappers| <= Row(g, i).value)
      && (forall w :: |wrappers| <= w < |g.wrappers| ==> g.wrappers[w].subscribed && Some(w) in g.slots)
      && (forall w :: 0 <= w < |g.wrappers| ==> (g.wrappers[w].subscribed <==> Some(w) in g.slots))
  {
    var empty := Grid(rows, wrappers, source, seq(|SourceRows(source)|, _ => None), 0);
    var g := InstallRows(empty, 0);
    InstallRowsCounts(empty, 0);
    InstallRowsSlots(empty, 0);
    InstallRowsShape(empty, 0);
    InstallRowsDistinct(empty, 0);
    InstallRowsCovers(empty, 0);
    forall w | |wrappers| <= w < |g.wrappers|
      ensures g.wrappers[w].subscribed && Some(w) in g.slots
    {
      assert g.slots[0..] == g.slots;
      var k :| 0 <= k < |g.slots| && g.slots[k] == Some(w);
      assert g.wrappers[w] == Wrapper(SourceRows(source)[k], true);
    }
    forall w | 0 <= w < |wrappers|
      ensures !g.wrappers[w].subscribed && Some(w) !in g.slots
    {
    }
  }

}
