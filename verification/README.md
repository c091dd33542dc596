# GridContainerContent in Dafny

A model of osu-framework's `GridContainerContent`: a jagged `Drawable[][]`
wrapped so that every indexer write raises a `ContentChanged` event. The grid
keeps the caller's array (`source`), builds its own fresh outer array of
`ArrayWrapper<Drawable>` row wrappers, gives every non-null source row a
wrapper around that same inner array, and listens to the outer wrapper and to
the row wrappers it created. Converting the grid back to `Drawable[][]` yields
the caller's array itself.

The C# object graph is an explicit heap held in one immutable value,
`GridContent.Grid<D>`, so that aliasing is data rather than an accident of
references:

- `rows`: the contents of every `Drawable[]` row array; a `RowRef` is an index into it;
- `wrappers`: every `ArrayWrapper<Drawable>` object, as the array it wraps and
  whether the grid's handler is attached to its `ArrayElementChanged` event;
  a `WrapperRef` is an index into it;
- `source`: the caller's `Drawable[][]` (row references, or `None` for null);
- `slots`: the fresh array inside the outer `ArrayWrapper<ArrayWrapper<Drawable>>`;
- `raised`: how many times the grid's handler `onArrayElementChanged` has
  run; each run invokes `ContentChanged` only if a handler is attached to that
  event, and none can be before the constructor returns.
  Below, "raises `ContentChanged` once" means one more run of that handler.

`Drawable` cells are an opaque type parameter `D`. Every operation is a pure
function from one heap to the next; getters return values and leave the heap
as it was, so "reads mutate nothing" holds by construction. A write through two
wrappers that wrap the same `RowRef` is seen by both, exactly as with two C#
references to one array.

The heap is a datatype rather than a set of Dafny classes so that every
property is an equation between two heap values: what a call changes and what
it leaves alone is stated about its result directly, with no `modifies`
frames or `old` expressions, and which objects share an array is a plain
comparison of indices rather than a fact about reference identity.

Modules:

- `Optional` (`optional.dfy`): `Option<T>`, standing for a nullable reference.
- `GridContent` (`grid_content.dfy`): the heap, the `ArrayWrapper<Drawable>`
  operations, the grid's row indexer, cell access, the source view, both
  conversions and the constructor, whose loop is `InstallRows` over the loop
  body `InstallRow` and whose effect is proved by six inductive lemmas.
- `GridLaws` (`grid_laws.dfy`): aliasing between grid and source, the cost in
  notifications of each kind of write, and what happens to a replaced or
  rebound row.
- `GridOps` (`grid_ops.dfy`): arbitrary sequences of mutating calls and the
  invariants they keep: the source conversion, the set of subscribed wrappers,
  and bounds and exact counts of `ContentChanged`.

One behaviour of the constructor is easy to miss: it subscribes the outer
wrapper (line 24) before installing the rows, and installs each row through
the row setter (line 32), so construction itself runs the handler once per
non-null row. No outside handler can be attached to `ContentChanged` before the
constructor returns, so those runs invoke nobody; the model still counts
them (`Construct` ensures `raised` equals the number of non-null rows), and
every statement about later calls is about the difference in `raised`.

## Model

The getters have no row of their own: `Get` (the wrapper indexer, line 70),
`WrappedArray` (line 66), `Row` (the row indexer, line 54), `Cell` and
`SourceCell` are field lookups in the heap value, and what they return is
fixed by the setters' read-back and frame clauses (`Set`, `SetWrappedArray`,
`SetRow`, `SetCell`) and by the constructor's lemmas. `ToArray` (line 48) is
likewise a lookup; its promise, that converting back yields the array the grid
was built from, is stated by `Construct` and `ConvertBackAfterAnyCalls`.
`NewRow` has no row because it models the caller's `new Drawable[]`, which
is not part of the class; it exists so that runs can allocate arrays.

| member | source | states |
|---|---|---|
| GridContent.Construct | osu.Framework/Graphics/Containers/GridContainerContent.cs:15-37 | Starting from a heap in which no wrapper listens to the grid (none can, before it exists): building from a null array gives zero rows, otherwise one row per source row; converting back yields the given array; no existing wrapper or array is changed, so the older wrappers stay unheard; the handler has run once per non-null row |
| GridContent.ConstructRows | osu.Framework/Graphics/Containers/GridContainerContent.cs:26-35 | After construction slot i is null exactly when source row i is null, and otherwise holds a wrapper whose WrappedArray is the very source row array |
| GridContent.ConstructSubscriptions | osu.Framework/Graphics/Containers/GridContainerContent.cs:24-35 | After construction distinct rows have distinct wrappers, every wrapper the constructor created sits in a slot and is subscribed, the slots hold no older wrapper, and the handler is attached to exactly the wrappers in the slots |
| GridContent.InstallRowsCounts | osu.Framework/Graphics/Containers/GridContainerContent.cs:26-36 | The constructor loop from row i allocates one wrapper and runs the handler once per non-null row from i on, leaving earlier wrappers alone |
| GridContent.InstallRows | osu.Framework/Graphics/Containers/GridContainerContent.cs:26-36 | The constructor loop from row i on never touches an array or the source and keeps the number of slots (its other effects are the InstallRows lemmas below) |
| GridContent.InstallRow | osu.Framework/Graphics/Containers/GridContainerContent.cs:32-33 | One iteration of the constructor loop, in closed form: it leaves the arrays and the source alone, keeps the number of slots, adds one wrapper, and puts that new wrapper, which wraps source row i's own array, into slot i |
| GridContent.InstallRowIsLoopBody | osu.Framework/Graphics/Containers/GridContainerContent.cs:32-33 | One iteration of the constructor loop, run as the three calls it makes (allocate a wrapper, the row setter, the subscription), puts a brand-new subscribed wrapper around the source row's own array into slot i, keeps every older wrapper and every other slot, raises once, and changes nothing else |
| GridContent.InstallRowValid | osu.Framework/Graphics/Containers/GridContainerContent.cs:32-33 | One iteration of the constructor loop leaves no dangling reference |
| GridContent.InstallRowsValid | osu.Framework/Graphics/Containers/GridContainerContent.cs:26-36 | The whole constructor loop from row i on leaves no dangling reference |
| GridContent.InstallRowsShape | osu.Framework/Graphics/Containers/GridContainerContent.cs:26-35 | The constructor loop keeps earlier slots and leaves a slot null exactly when its source row is null |
| GridContent.InstallRowsSlots | osu.Framework/Graphics/Containers/GridContainerContent.cs:28-34 | Every slot the constructor loop fills holds a new subscribed wrapper around that very source row |
| GridContent.InstallRowsDistinct | osu.Framework/Graphics/Containers/GridContainerContent.cs:32 | The constructor loop never puts one wrapper into two slots |
| GridContent.InstallRowsCovers | osu.Framework/Graphics/Containers/GridContainerContent.cs:32-33 | Every wrapper the constructor loop allocates ends up in one of the slots it visits |
| GridContent.NewWrapper | osu.Framework/Graphics/Containers/GridContainerContent.cs:62-66 | A new wrapper is a fresh object, wraps the given array, has no listener, and changes nothing else |
| GridContent.SetWrappedArray | osu.Framework/Graphics/Containers/GridContainerContent.cs:66 | Assigning WrappedArray rebinds that wrapper only, keeps its subscription, changes no array contents and raises nothing |
| GridContent.Set | osu.Framework/Graphics/Containers/GridContainerContent.cs:68-75 | An element write reads back; every other element keeps its value unless it is the same column of the same array object; no other array changes; ContentChanged is raised once if the wrapper is subscribed and not at all otherwise |
| GridContent.Subscribe | osu.Framework/Graphics/Containers/GridContainerContent.cs:33 | Attaching the handler marks that one wrapper subscribed, keeps what it wraps, and changes nothing else |
| GridContent.SetRow | osu.Framework/Graphics/Containers/GridContainerContent.cs:52-56 | A row write reads back, leaves the row count and every other row alone, never touches the source or any array, and raises ContentChanged exactly once |
| GridContent.SetSlots | osu.Framework/Graphics/Containers/GridContainerContent.cs:66 | Assigning the outer wrapper's WrappedArray replaces the row list wholesale and raises nothing |
| GridContent.SetArray | osu.Framework/Graphics/Containers/GridContainerContent.cs:66-75 | A plain store into an array (the caller's drawables[i][j] = v, or w.WrappedArray[j] = v) changes that one element of that one array, is seen through every wrapper around that array and no other, and raises nothing, because it bypasses the indexer setter |
| GridContent.SetCell | osu.Framework/Graphics/Containers/GridContainerContent.cs:52-75 | content[i][j] = v reads back; any other cell changes only if its row shares the array object and it is the same column; the array of row i gets exactly that one element replaced and every other array is unchanged, as is the number of arrays; slots, wrappers and the source's row references are unchanged; ContentChanged is raised once exactly when row i's wrapper is subscribed |
| GridLaws.ConstructAliasesEveryRow | osu.Framework/Graphics/Containers/GridContainerContent.cs:30-33 | Right after construction every non-null row wraps its own source row array and is subscribed |
| GridLaws.ConstructedCellsAreSourceCells | osu.Framework/Graphics/Containers/GridContainerContent.cs:26-35 | Right after construction content[i][j] is defined exactly where source[i][j] is, and both read the same element |
| GridLaws.SetCellVisibleInSource | osu.Framework/Graphics/Containers/GridContainerContent.cs:70-74 | A write through a row that aliases its source row is read back through the source; other source cells change only if they sit in the same array at the same column; the conversion back is unchanged |
| GridLaws.ConstructedWriteIsSharedAndRaisesOnce | osu.Framework/Graphics/Containers/GridContainerContent.cs:24-44 | Right after construction, content[i][j] = v is read back through the grid and through the source, raises ContentChanged exactly once, and converting back still yields the source |
| GridLaws.ReplacedRowIsDetached | osu.Framework/Graphics/Containers/GridContainerContent.cs:52-56 | Installing a new wrapper as row i and writing into it raises ContentChanged once in total (for the row write only), reads back through the grid, and leaves every source cell and the conversion back unchanged |
| GridLaws.RebindKeepsSubscription | osu.Framework/Graphics/Containers/GridContainerContent.cs:64-66 | Rebinding a constructor-created row wrapper to another array raises nothing, yet later writes through it still raise ContentChanged once while no longer reaching the source |
| GridOps.RunKeepsSubscriptions | osu.Framework/Graphics/Containers/GridContainerContent.cs:24-33 | No sequence of calls changes which existing wrappers the grid listens to, and every wrapper allocated after construction stays unsubscribed |
| GridOps.RunKeepsSource | osu.Framework/Graphics/Containers/GridContainerContent.cs:39-48 | No sequence of calls changes the array the grid converts back to |
| GridOps.RunRaisesExactly | osu.Framework/Graphics/Containers/GridContainerContent.cs:41-75 | Over any sequence of calls ContentChanged is raised exactly once per row write plus once per element write whose wrapper is subscribed at the moment of that write, and never otherwise |
| GridOps.AllUnheardIffNoneHeard | osu.Framework/Graphics/Containers/GridContainerContent.cs:64-75 | A run's element writes all go through wrappers unsubscribed at that moment exactly when the run hears no element write |
| GridOps.RunRaisesBetween | osu.Framework/Graphics/Containers/GridContainerContent.cs:41-75 | Over any sequence of calls ContentChanged is raised at least once per row write and at most once per indexer write; getters, WrappedArray assignments and allocations raise nothing |
| GridOps.QuietRun | osu.Framework/Graphics/Containers/GridContainerContent.cs:64-75 | Over any sequence of calls in which every element write (content[i][j] = v or w[j] = v) goes through a wrapper that is unsubscribed at the moment of that write, ContentChanged is raised exactly once per row write and never otherwise |
| GridOps.FreshIsUnheard | osu.Framework/Graphics/Containers/GridContainerContent.cs:24-33 | No call subscribes a wrapper, so if the wrappers from some number on are all unsubscribed, every element write that, in the state it meets, goes through such a wrapper (directly or through the row slot it was installed in) is unheard |
| GridOps.FreshWrappersAreSilent | osu.Framework/Graphics/Containers/GridContainerContent.cs:33 | Over any sequence of calls whose element writes, in the state each meets, go through wrappers allocated after the starting state (even ones since installed as rows), ContentChanged is raised exactly once per row write and never otherwise |
| GridOps.InstalledRowIsSilent | osu.Framework/Graphics/Containers/GridContainerContent.cs:32-33 | Allocating a new array and wrapper, installing the wrapper as row i, and writing content[i][j] = v is a run of that kind: it can always run, and it raises ContentChanged exactly once, for the row write |
| GridOps.ConvertBackAfterAnyCalls | osu.Framework/Graphics/Containers/GridContainerContent.cs:48-50 | Converting from Drawable[][], making any calls, and converting back yields the original array |

## Left out

- `ContentChanged` and `ArrayElementChanged` are multicast delegates in C#; the model records only whether the grid's own handler is attached to a wrapper and counts the runs of that handler, each of which invokes `ContentChanged` if anyone listens. Other handlers, their side effects, and re-entrant writes from inside a handler are not modelled; without them the order of the store and the notification inside one setter (store first) is not observable, so each write is one step.
- Out-of-range indices and null rows throw `IndexOutOfRangeException` or `NullReferenceException` in C#; here they are preconditions (`IsElement`, `IsCell`, the bounds on `SetRow`).
- An array's runtime element type is not modelled. C# arrays of references are covariant, so a `Drawable[]` row may really be, say, a `Box[]`. Storing a value the array cannot hold then throws `ArrayTypeMismatchException` at the store, before `ArrayElementChanged` is raised, so nothing changes and nothing is raised. `Set`, `SetCell` and `SetArray` accept every value; expressing the failure would need an element kind per array.
- The outer wrapper's `WrappedArray` can be set to null in C#; `SetSlots` takes a non-null row list, and the array passed in is copied, so later writes by the caller into that array are not seen by the model.
- Writes by the caller directly into the outer source array (`source[i] = row`) after construction are not modelled: nothing in the grid performs them, and `source` is held as its row references at construction time. Writes into the source's inner arrays are modelled (`SetArray`, `WriteArray`), since they are shared with the row wrappers.
- Wrappers shared between two `GridContainerContent` instances are not modelled: the heap holds one grid, so `subscribed` means "subscribed to this grid".
- Both implicit conversion operators are explicit functions: `Construct` builds from `Drawable[][]` and `ToArray` converts back.
- `Drawable` itself (layout, rendering) is opaque; cells are compared only for equality.
- The dropdown widget exercised by `osu.Framework.Tests/Visual/TestCaseDropdownBox.cs` is not part of this model: its `BasicDropdown` and `DropdownMenu` implementations are not among the modelled files, and its behaviour depends on layout-supplied visible items and simulated input.
