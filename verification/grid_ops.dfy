/**
  Arbitrary sequences of calls on a `GridContainerContent` and the heap it
  reaches, and what holds across all of them: the array handed to the
  constructor is what converting back yields, the set of wrappers the grid
  listens to never changes after construction, and every `ContentChanged`
  comes from a write through an indexer.
*/
module GridOps {
  import opened Optional
  import opened GridContent

  /** One public call that can change state; getters are functions and change nothing. */
  datatype Op<D> =
    | WriteRow(i: nat, row: Option<WrapperRef>)        // content[i] = row
    | WriteCell(i: nat, j: nat, v: D)                  // content[i][j] = v
    | WriteElement(target: WrapperRef, j: nat, v: D)   // target[j] = v, on any wrapper
    | WriteArray(array: RowRef, j: nat, v: D)         // drawables[i][j] = v, or target.WrappedArray[j] = v
    | AssignWrapped(target: WrapperRef, a: Option<RowRef>) // target.WrappedArray = a
    | AssignSlots(s: seq<Option<WrapperRef>>)          // content.WrappedArray.WrappedArray = s
    | AllocRow(cells: seq<D>)                          // new Drawable[] { ... }
    | AllocWrapper(a: Option<RowRef>)                  // new ArrayWrapper<Drawable> { WrappedArray = a }

  /** The call neither throws nor introduces a dangling reference. */
  predicate Enabled<D>(g: Grid<D>, op: Op<D>)
  {
    match op
    case WriteRow(i, w) => i < |g.slots| && WrapperRefOk(g.wrappers, w)
    case WriteCell(i, j, _) => IsCell(g, i, j)
    case WriteElement(w, j, _) => IsElement(g, w, j)
    case WriteArray(a, j, _) => a < |g.rows| && j < |g.rows[a]|
    case AssignWrapped(w, a) => w < |g.wrappers| && RowRefOk(g.rows, a)
    case AssignSlots(s) => forall k :: 0 <= k < |s| ==> WrapperRefOk(g.wrappers, s[k])
    case AllocRow(_) => true
    case AllocWrapper(a) => RowRefOk(g.rows, a)
  }

  function Step<D>(g: Grid<D>, op: Op<D>): (r: Grid<D>)
    requires Valid(g) && Enabled(g, op)
    ensures Valid(r)
  {
    match op
    case WriteRow(i, w) => SetRow(g, i, w)
    case WriteCell(i, j, v) => SetCell(g, i, j, v)
    case WriteElement(w, j, v) => Set(g, w, j, v)
    case WriteArray(a, j, v) => SetArray(g, a, j, v)
    case AssignWrapped(w, a) => SetWrappedArray(g, w, a)
    case AssignSlots(s) => SetSlots(g, s)
    case AllocRow(cells) => NewRow(g, cells).0
    case AllocWrapper(a) => NewWrapper(g, a).0
  }

  /** Every call in `ops` is enabled in the state the previous ones leave. */
  predicate Runs<D>(g: Grid<D>, ops: seq<Op<D>>)
    requires Valid(g)
    decreases |ops|
  {
    |ops| == 0 || (Enabled(g, ops[0]) && Runs(Step(g, ops[0]), ops[1..]))
  }

  function Run<D>(g: Grid<D>, ops: seq<Op<D>>): (r: Grid<D>)
    requires Valid(g) && Runs(g, ops)
    decreases |ops|
    ensures Valid(r)
  {
    if |ops| == 0 then g else Run(Step(g, ops[0]), ops[1..])
  }

  /** Calls that go through an indexer setter and so raise `ArrayElementChanged`. */
  predicate IsWrite<D>(op: Op<D>)
  {
    op.WriteRow? || op.WriteCell? || op.WriteElement?
  }

  /** Number of row writes, each of which reaches the grid through the outer wrapper. */
  function RowWrites<D>(ops: seq<Op<D>>): nat
  {
    if |ops| == 0 then 0 else (if ops[0].WriteRow? then 1 else 0) + RowWrites(ops[1..])
  }

  /** Number of indexer writes of any kind. */
  function Writes<D>(ops: seq<Op<D>>): nat
  {
    if |ops| == 0 then 0 else (if IsWrite(ops[0]) then 1 else 0) + Writes(ops[1..])
  }

  /**
    No call changes which existing wrappers the grid listens to, and every
    wrapper allocated along the way is unsubscribed.
  */
  lemma {:induction false} RunKeepsSubscriptions<D>(g: Grid<D>, ops: seq<Op<D>>)
    requires Valid(g) && Runs(g, ops)
    decreases |ops|
    ensures |g.wrappers| <= |Run(g, ops).wrappers|
    ensures forall w :: 0 <= w < |g.wrappers| ==> Run(g, ops).wrappers[w].subscribed == g.wrappers[w].subscribed
    ensures forall w :: |g.wrappers| <= w < |Run(g, ops).wrappers| ==> !Run(g, ops).wrappers[w].subscribed
  {
    if |ops| > 0 {
      RunKeepsSubscriptions(Step(g, ops[0]), ops[1..]);
    }
  }

  /**
    Whatever the calls do, converting back yields the array the grid was
    built from: its outer array is never written.
  */
  lemma {:induction false} RunKeepsSource<D>(g: Grid<D>, ops: seq<Op<D>>)
    requires Valid(g) && Runs(g, ops)
    decreases |ops|
    ensures ToArray(Run(g, ops)) == ToArray(g)
    ensures |g.rows| <= |Run(g, ops).rows|
  {
    if |ops| > 0 {
      RunKeepsSource(Step(g, ops[0]), ops[1..]);
    }
  }

  /**
    Every row write raises `ContentChanged` and nothing but an indexer write
    can: the count grows by at least the number of row writes and by at most
    the number of indexer writes.
  */
  lemma {:induction false} RunRaisesBetween<D>(g: Grid<D>, ops: seq<Op<D>>)
    requires Valid(g) && Runs(g, ops)
    decreases |ops|
    ensures g.raised + RowWrites(ops) <= Run(g, ops).raised <= g.raised + Writes(ops)
  {
    if |ops| > 0 {
      RunRaisesBetween(Step(g, ops[0]), ops[1..]);
    }
  }

  /**
    The call is not an element write through a wrapper the grid listens to:
    an element write `content[i][j] = v` or `w[j] = v` whose wrapper, at the
    moment of the call, is unsubscribed, or any call that is not an element
    write at all.
  */
  predicate Unheard<D>(g: Grid<D>, op: Op<D>)
    requires Valid(g) && Enabled(g, op)
  {
    match op
    case WriteCell(i, _, _) => !g.wrappers[g.slots[i].value].subscribed
    case WriteElement(w, _, _) => !g.wrappers[w].subscribed
    case _ => true
  }

  /** Every call of the run is `Unheard` in the state the previous calls leave. */
  predicate AllUnheard<D>(g: Grid<D>, ops: seq<Op<D>>)
    requires Valid(g) && Runs(g, ops)
    decreases |ops|
  {
    |ops| == 0 || (Unheard(g, ops[0]) && AllUnheard(Step(g, ops[0]), ops[1..]))
  }

  /**
    When no element write goes through a subscribed wrapper, `ContentChanged`
    is raised exactly once per row write and never otherwise.
  */
  lemma {:induction false} QuietRun<D>(g: Grid<D>, ops: seq<Op<D>>)
    requires Valid(g) && Runs(g, ops) && AllUnheard(g, ops)
    decreases |ops|
    ensures Run(g, ops).raised == g.raised + RowWrites(ops)
  {
    if |ops| > 0 {
      QuietRun(Step(g, ops[0]), ops[1..]);
    }
  }

  /**
    Number of element writes in the run whose wrapper, in the state each
    meets, is subscribed: the element writes the grid hears.
  */
  function HeardWrites<D>(g: Grid<D>, ops: seq<Op<D>>): nat
    requires Valid(g) && Runs(g, ops)
    decreases |ops|
  {
    if |ops| == 0 then 0
    else (if Unheard(g, ops[0]) then 0 else 1) + HeardWrites(Step(g, ops[0]), ops[1..])
  }

  /**
    The exact count over any sequence of calls: `ContentChanged` is raised once
    per row write and once per element write through a wrapper subscribed at
    that moment, and never otherwise.
  */
  lemma {:induction false} RunRaisesExactly<D>(g: Grid<D>, ops: seq<Op<D>>)
    requires Valid(g) && Runs(g, ops)
    decreases |ops|
    ensures Run(g, ops).raised == g.raised + RowWrites(ops) + HeardWrites(g, ops)
  {
    if |ops| > 0 {
      RunRaisesExactly(Step(g, ops[0]), ops[1..]);
    }
  }

  /** A run is `AllUnheard` exactly when it hears no element write. */
  lemma {:induction false} AllUnheardIffNoneHeard<D>(g: Grid<D>, ops: seq<Op<D>>)
    requires Valid(g) && Runs(g, ops)
    decreases |ops|
    ensures AllUnheard(g, ops) <==> HeardWrites(g, ops) == 0
  {
    if |ops| > 0 {
      AllUnheardIffNoneHeard(Step(g, ops[0]), ops[1..]);
    }
  }

  /**
    The call is not an element write through a wrapper numbered below `n`:
    `content[i][j] = v` whose slot, at the moment of the call, holds a wrapper
    numbered `n` or later, `w[j] = v` with `w >= n`, or any call that is not an
    element write.
  */
  predicate FreshTarget<D>(n: nat, g: Grid<D>, op: Op<D>)
    requires Valid(g) && Enabled(g, op)
  {
    match op
    case WriteCell(i, _, _) => g.slots[i].value >= n
    case WriteElement(w, _, _) => w >= n
    case _ => true
  }

  /** Every call of the run is a `FreshTarget` in the state the previous calls leave. */
  predicate AllFresh<D>(n: nat, g: Grid<D>, ops: seq<Op<D>>)
    requires Valid(g) && Runs(g, ops)
    decreases |ops|
  {
    |ops| == 0 || (FreshTarget(n, g, ops[0]) && AllFresh(n, Step(g, ops[0]), ops[1..]))
  }

  /**
    If every wrapper numbered `n` or later is unsubscribed, a run whose element
    writes all go through such wrappers is `AllUnheard`: no call can subscribe
    a wrapper, so the ones allocated along the way stay unsubscribed too.
  */
  lemma {:induction false} FreshIsUnheard<D>(n: nat, g: Grid<D>, ops: seq<Op<D>>)
    requires Valid(g) && Runs(g, ops) && AllFresh(n, g, ops)
    requires n <= |g.wrappers|
    requires forall w :: n <= w < |g.wrappers| ==> !g.wrappers[w].subscribed
    decreases |ops|
    ensures AllUnheard(g, ops)
  {
    if |ops| > 0 {
      var g1 := Step(g, ops[0]);
      assert forall w :: n <= w < |g1.wrappers| ==> !g1.wrappers[w].subscribed;
      FreshIsUnheard(n, g1, ops[1..]);
    }
  }

  /**
    Wrappers installed after a given state are never heard: when every element
    write, whether `content[i][j] = v` or `w[j] = v`, goes through a wrapper
    allocated after `g`, `ContentChanged` is raised exactly once per row write
    and never otherwise, even after such a wrapper is installed as a row.
  */
  lemma FreshWrappersAreSilent<D>(g: Grid<D>, ops: seq<Op<D>>)
    requires Valid(g) && Runs(g, ops) && AllFresh(|g.wrappers|, g, ops)
    ensures Run(g, ops).raised == g.raised + RowWrites(ops)
  {
    FreshIsUnheard(|g.wrappers|, g, ops);
    QuietRun(g, ops);
  }

  /** Prepending one enabled call to a run: what the run and its freshness become. */
  lemma RunCons<D>(n: nat, g: Grid<D>, op: Op<D>, ops: seq<Op<D>>)
    requires Valid(g) && Enabled(g, op) && Runs(Step(g, op), ops)
    ensures Runs(g, [op] + ops) && Run(g, [op] + ops) == Run(Step(g, op), ops)
    ensures AllFresh(n, g, [op] + ops) <==> FreshTarget(n, g, op) && AllFresh(n, Step(g, op), ops)
  {
  }

  /**
    Allocate a new array and a wrapper around it, install the wrapper as row
    `i`, and write into it through the grid.
  */
  function InstallAndWrite<D>(g: Grid<D>, i: nat, cells: seq<D>, j: nat, v: D): seq<Op<D>>
  {
    [AllocRow(cells), AllocWrapper(Some(|g.rows|)), WriteRow(i, Some(|g.wrappers|)), WriteCell(i, j, v)]
  }

  /** The last two calls of `InstallAndWrite`, from the state after both allocations. */
  lemma InstallAndWriteTail<D>(n: nat, g2: Grid<D>, i: nat, j: nat, v: D)
    requires Valid(g2) && i < |g2.slots| && n < |g2.wrappers|
    requires g2.wrappers[n].wrapped.Some? && g2.wrappers[n].wrapped.value < |g2.rows|
    requires j < |g2.rows[g2.wrappers[n].wrapped.value]|
    ensures Runs(g2, [WriteRow(i, Some(n)), WriteCell(i, j, v)])
    ensures AllFresh(n, g2, [WriteRow(i, Some(n)), WriteCell(i, j, v)])
  {
  }

  /** The last three calls of `InstallAndWrite`, from the state after the array is allocated. */
  lemma InstallAndWriteFromArray<D>(n: nat, g1: Grid<D>, a: RowRef, i: nat, j: nat, v: D)
    requires Valid(g1) && n == |g1.wrappers| && i < |g1.slots| && a < |g1.rows| && j < |g1.rows[a]|
    ensures Runs(g1, [AllocWrapper(Some(a)), WriteRow(i, Some(n)), WriteCell(i, j, v)])
    ensures AllFresh(n, g1, [AllocWrapper(Some(a)), WriteRow(i, Some(n)), WriteCell(i, j, v)])
  {
    var tail: seq<Op<D>> := [WriteRow(i, Some(n)), WriteCell(i, j, v)];
    InstallAndWriteTail(n, NewWrapper(g1, Some(a)).0, i, j, v);
    RunCons(n, g1, AllocWrapper(Some(a)), tail);
    assert [AllocWrapper(Some(a))] + tail == [AllocWrapper(Some(a)), WriteRow(i, Some(n)), WriteCell(i, j, v)];
  }

  /**
    `InstallAndWrite` can run on any heap with a row `i`, and its element
    write goes through the wrapper it allocated.
  */
  lemma InstallAndWriteRuns<D>(g: Grid<D>, i: nat, cells: seq<D>, j: nat, v: D)
    requires Valid(g) && i < RowCount(g) && j < |cells|
    ensures var ops := InstallAndWrite(g, i, cells, j, v);
      Runs(g, ops) && AllFresh(|g.wrappers|, g, ops)
  {
    var g1 := NewRow(g, cells).0;
    InstallAndWriteFromArray(|g.wrappers|, g1, |g.rows|, i, j, v);
    var ops := InstallAndWrite(g, i, cells, j, v);
    assert ops[1..] == [AllocWrapper(Some(|g.rows|)), WriteRow(i, Some(|g.wrappers|)), WriteCell(i, j, v)];
    assert Step(g, ops[0]) == g1;
  }

  /** `InstallAndWrite` holds exactly one row write. */
  lemma InstallAndWriteRowWrites<D>(g: Grid<D>, i: nat, cells: seq<D>, j: nat, v: D)
    ensures RowWrites(InstallAndWrite(g, i, cells, j, v)) == 1
  {
    var write: seq<Op<D>> := [WriteCell(i, j, v)];
    var install := [WriteRow(i, Some(|g.wrappers|))] + write;
    var allocs := [AllocWrapper(Some(|g.rows|))] + install;
    assert write[1..] == [] && install[1..] == write && allocs[1..] == install;
    assert RowWrites(write) == 0;
    assert RowWrites(install) == 1;
    var ops := InstallAndWrite(g, i, cells, j, v);
    assert ops[1..] == allocs;
  }

  /**
    The run-level form of the quirk: after `InstallAndWrite` only the row
    write has raised `ContentChanged`.
  */
  lemma InstalledRowIsSilent<D>(g: Grid<D>, i: nat, cells: seq<D>, j: nat, v: D)
    requires Valid(g) && i < RowCount(g) && j < |cells|
    ensures var ops := InstallAndWrite(g, i, cells, j, v);
      Runs(g, ops) && AllFresh(|g.wrappers|, g, ops) && Run(g, ops).raised == g.raised + 1
  {
    InstallAndWriteRuns(g, i, cells, j, v);
    InstallAndWriteRowWrites(g, i, cells, j, v);
    FreshWrappersAreSilent(g, InstallAndWrite(g, i, cells, j, v));
  }

  /**
    The conversion round trip: build a grid from a `Drawable[][]`, apply any
    calls, convert back, and the result is the same array.
  */
  lemma ConvertBackAfterAnyCalls<D>(rows: seq<seq<D>>, wrappers: seq<Wrapper>, source: Option<seq<Option<RowRef>>>, ops: seq<Op<D>>)
    requires HeapOk(rows, wrappers) && SourceOk(rows, source) && NoneSubscribed(wrappers)
    requires Runs(Construct(rows, wrappers, source), ops)
    ensures ToArray(Run(Construct(rows, wrappers, source), ops)) == source
  {
    RunKeepsSource(Construct(rows, wrappers, source), ops);
  }

}
