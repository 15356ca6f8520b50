# rehexed, modelled in Dafny

`rehexed(indices, len)` turns the triangle list of a subdivided icosahedron
into a hexagonal adjacency list. Every vertex `0 .. len - 1` gets six slots:
its neighbours, and `usize::MAX` in the unused slots (the twelve original
vertices have five neighbours). The doc comment of `RehexState` promises the
neighbours in winding order, starting anywhere. The source keeps that promise
only for some orders of arrival (see Findings). The model keeps it for every
order, because it carries corrected `TwoTwo` and `ThreeTwo` arms.

For every triangle `(a, b, c)` the function makes three calls of its `insert`
closure: `insert(a, b, c)`, `insert(c, a, b)` and `insert(b, c, a)`. Each call
records, for the vertex named first, that the second vertex is followed by the
third around it. Each vertex has a small state machine (`RehexState`) and a
neighbour list of capacity six. The list holds up to three arcs of the
neighbour cycle whose relative order is not known yet. The machine joins arcs
as pairs arrive, until the list closes the cycle (`Complete`).

After all triangles, the function panics if some vertex lists itself. It then
pads every list to six slots.

The project has these modules:

- `ArrayVec` (`arrayvec.dfy`): the inline-vector operations the closure uses (`push`, `insert`, `pop`, `swap_remove`, `extend`). They are functions on `seq<nat>` whose preconditions keep the capacity of six.
- `Accumulator` (`accumulator.dfy`): the per-vertex state machine as a function. `Step` is one call for one vertex. `Run` is all the calls one vertex receives.
- `Rehexed` (`rehexed.dfy`): the function itself, written imperatively.
  - The class `Accumulators` holds the two vectors `state` and `result` as arrays.
  - `Insert` updates them in place with the closure's vector operations. The `Clear`, `TwoTwoTwo` and `Complete` arms are branch for branch as in the source. The `TwoTwo` and `ThreeTwo` arms (`TwoTwoArm`, `ThreeTwoArm`) carry the corrections listed under Findings.
  - `Feed` is the `chunks_exact(3)` loop.
  - `SelfAdjacent` is the self-check loop; `Rows` and `PadRow` do the padding.
  - `Rehexed` runs them in order.
  - Each method is proved against a specification function: `Step`, `Accumulate`, `FirstSelfAdjacent`, `PadAll`, `Rehex`.
- `Cycle` (`cycle.dfy`): cycles of neighbours, the successor relation and rotations.
- `Winding` (`winding.dfy`): the promise the doc comment of `RehexState` makes. Whatever order a vertex's triangles arrive in, the vertex ends `Complete` with a rotation of its neighbour cycle.
- `AsWritten` (`as_written.dfy`): the `TwoTwo` and `ThreeTwo` arms exactly as written. It gives two inputs on which they break that promise, and a third on which they reach the `unreachable!()` of line 123 (see Findings).

The two panics are results, not aborts, in the model:
- `ClearOverflow` is the `unreachable!()` of the `Clear` arm. With the corrected arms, no vertex whose pairs are edges of one cycle of three to six neighbours, each starting at a different neighbour, reaches it (`Winding.RunArranged`). The source's own arms reach it on a closed hexagon fan (`AsWritten.ThreeTwoWrapReachesUnreachable`).
- `ContainsItself(v)` is the "idx contains itself" panic.

Integers are `nat`.

## Model

| member | source | states |
|---|---|---|
| `ArrayVec.Push` | src/lib.rs:108 | `push` appends at the end and keeps the earlier elements; it needs room (length below six) |
| `ArrayVec.InsertAt` | src/lib.rs:114 | `insert(i, x)` puts `x` at `i`, keeps the elements before `i`, shifts the rest one place right; it needs room |
| `ArrayVec.Pop` | src/lib.rs:139-140 | `pop` drops the last element and keeps the rest |
| `ArrayVec.SwapRemove` | src/lib.rs:150-151 | `swap_remove(i)` moves the last element into slot `i` and shortens by one; other slots are unchanged |
| `ArrayVec.Extend` | src/lib.rs:100 | `extend` appends the new elements in order after the old ones; the total stays within six |
| `Accumulator.Step` | src/lib.rs:89-194 | one call of `insert` for one vertex keeps state and list length in step; it fails exactly when a five-long `Clear` arc meets a pair touching neither of its ends (the `unreachable!()` of line 123) |
| `Accumulator.Inv` | src/lib.rs:43-68 | the lengths each state allows: `Empty` 0, `Clear` 2 to 5, `TwoTwo` 4, `ThreeTwo` 5, `TwoTwoTwo` 6, `Complete` 2 to 6; these make every index the closure reads valid |
| `Accumulator.Run` | src/lib.rs:196-202 | the calls one vertex receives, in order; every reachable accumulator keeps state and length in step |
| `Accumulator.CompleteIsFinal` | src/lib.rs:92-94 | a `Complete` vertex ignores every further call |
| `Accumulator.FirstPair` | src/lib.rs:99-102 | the first pair becomes the list and the state becomes `Clear` |
| `Accumulator.ClearTouchingEnd` | src/lib.rs:104-117 | in `Clear`, a pair at an end closes the cycle or grows the arc at that end; the result is `Complete` exactly when the list reaches six |
| `Accumulator.ClearDisjointPair` | src/lib.rs:118-126 | in `Clear`, a pair apart from both ends is appended; the state follows the old length (2 to `TwoTwo`, 3 to `ThreeTwo`, 4 to `Complete`), and length 5 is exactly the failure |
| `Accumulator.NoElementLost` | src/lib.rs:98-193 | no step loses a neighbour: the new list holds the old one plus at most `b` and `c`, and a step that keeps the length only reorders |
| `Accumulator.TwoTwoJoinsTail` | src/lib.rs:136-143 | in `TwoTwo`, a pair from the end of the second arc to the start of the first gives the single arc `[q0, q1, p0, p1]` |
| `Accumulator.ThreeArcsComplete` | src/lib.rs:181-191 | after three arcs the next pair always completes; outside the listed junctions the second and third arcs trade places |
| `Accumulator.CompleteStaysComplete` | src/lib.rs:92-94 | once `Complete`, any later calls leave the vertex unchanged |
| `Accumulator.FailureIsFinal` | src/lib.rs:123 | once a call fails, the vertex's run stays failed |
| `Rehexed.Accumulators.Insert` | src/lib.rs:89-194 | the closure, in place on `state[a]` and `result[a]` with the source's vector operations; it computes `Step` for vertex `a`, changes no other vertex, and on failure changes nothing |
| `Rehexed.Accumulators.constructor` | src/lib.rs:81-86 | `len` vertices, each `Empty` with an empty list |
| `Rehexed.ClearArm` | src/lib.rs:103-126 | the `Clear` arm with `push`, `insert(0, b)` and `extend` computes `Step` on a `Clear` list, and reports the `unreachable!()` exactly when `Step` fails |
| `Rehexed.TwoTwoArm` | src/lib.rs:128-158 | the `TwoTwo` arm with the source's vector operations computes `Step` on a `TwoTwo` list, including the corrected case for a pair starting at the end of the second arc |
| `Rehexed.ThreeTwoArm` | src/lib.rs:160-180 | the `ThreeTwo` arm computes `Step` on a `ThreeTwo` list, with the corrected checks of `c` |
| `Rehexed.TwoTwoTwoArm` | src/lib.rs:181-191 | the `TwoTwoTwo` arm always completes and computes `Step`: the two `swap_remove`s and the `extend` trade the second and third arcs |
| `Rehexed.Accumulators.Record` | src/lib.rs:199-201 | one call of the driver on accumulators holding the calls before it: afterwards they hold the calls up to it, or the whole `Accumulate` fails |
| `Rehexed.Accumulators.Feed` | src/lib.rs:196-202 | the loop over complete triangles makes the three calls per triangle; it succeeds exactly when `Accumulate` does and then leaves its accumulators |
| `Rehexed.Accumulators.SelfAdjacent` | src/lib.rs:206-210 | the self-check finds the first vertex whose list contains itself, or none |
| `Rehexed.Accumulators.Rows` | src/lib.rs:212-219 | every list padded to six slots, one row per vertex |
| `Rehexed.PadRow` | src/lib.rs:214-217 | a row of six `usize::MAX` with the list copied over its front |
| `Rehexed.Pad` | src/lib.rs:214-217 | a padded row has six slots, the list in front and `usize::MAX` after it |
| `Rehexed.Facts` | src/lib.rs:196-202 | `m` complete triangles give `3m` calls |
| `Rehexed.FactsAt` | src/lib.rs:199-201 | triangle `t` gives calls `3t`, `3t + 1` and `3t + 2`: `(a, b, c)`, `(c, a, b)`, `(b, c, a)` |
| `Rehexed.Accumulate` | src/lib.rs:196-202 | the calls in order over all accumulators; each stays in step with its state |
| `Rehexed.AccumulateNext` | src/lib.rs:196-202 | one more call changes only the accumulator of its centre vertex, to that vertex's `Step`, or fails when that `Step` fails |
| `Rehexed.AccumulateFailureIsFinal` | src/lib.rs:123 | once a prefix of the calls fails, all the calls fail |
| `Rehexed.AccumulatePerVertex` | src/lib.rs:89-202 | vertices do not interact: each accumulator ends as its own `Run` over the pairs recorded around it, and the whole fails when one of those runs fails |
| `Rehexed.FirstSelfAdjacent` | src/lib.rs:206-210 | the result is the least vertex (from `from` on) whose list holds itself, and none means no list does |
| `Rehexed.Finalise` | src/lib.rs:206-219 | never the `unreachable!()`; the panic names a vertex whose list holds itself, with no such vertex before it; otherwise one padded row per list, and no list holds its own vertex |
| `Rehexed.Rehexed` | src/lib.rs:80-220 | the method computes `Rehex`: the accumulators, the self-check, the padding |
| `Rehexed.Rehex` | src/lib.rs:80-220 | the whole function as one value (with the corrected arms): on success one row of six slots per vertex, and the self-adjacency panic names a vertex below `len` |
| `Rehexed.RehexAdjacency` | src/lib.rs:80-220 | a result has one six-slot row per vertex; row `v` is `v`'s own run, padded, and does not contain `v` |
| `Rehexed.RehexRowRotates` | src/lib.rs:30-42 | if `v`'s triangles form a closed fan over a cycle of three to six neighbours, row `v` is a rotation of that cycle followed by `usize::MAX` |
| `Rehexed.RehexOverflow` | src/lib.rs:119-124 | the `unreachable!()` is reached exactly when some vertex's own run reaches it (with the corrected arms; the source's arms also reach it on valid fans, see Findings) |
| `Rehexed.RehexContainsItself` | src/lib.rs:206-210 | the self-adjacency panic comes only after every run succeeded, and names the least vertex whose list holds itself |
| `Rehexed.LeftoverIgnored` | src/lib.rs:196 | trailing indices that do not make a whole triangle are ignored |
| `Cycle.RotationDistinct` | src/lib.rs:30-42 | a rotation of a cycle has the same vertices, none repeated |
| `Cycle.RotateRotation` | src/lib.rs:30-42 | rotating a rotation gives a rotation of the original cycle |
| `Cycle.RotationFollows` | src/lib.rs:30-42 | which vertex follows which does not depend on where the cycle is read from |
| `Cycle.RotationMembers` | src/lib.rs:30-42 | a rotation of a cycle of distinct vertices holds exactly its vertices, none twice |
| `Winding.StepArranged` | src/lib.rs:98-191 | (corrected arms) from any arrangement of arcs of the cycle, a pair of the cycle starting at an unseen vertex leads to another such arrangement (or to the whole cycle) |
| `Winding.ClearStep` | src/lib.rs:103-126 | in `Clear`, a pair of the cycle starting at an unseen vertex never fails and keeps the list an arrangement of arcs |
| `Winding.TwoTwoStep` | src/lib.rs:128-158 | (corrected arm) in `TwoTwo`, such a pair joins, extends or adds an arc and keeps the arcs in cycle order |
| `Winding.ThreeTwoStep` | src/lib.rs:160-180 | (corrected arm) in `ThreeTwo`, such a pair joins or extends the arcs and keeps them in cycle order |
| `Winding.TwoTwoTwoStep` | src/lib.rs:181-191 | in `TwoTwoTwo`, such a pair completes a rotation of the cycle |
| `Winding.Unseen` | src/lib.rs:43-68 | until a vertex is `Complete`, some neighbour has not yet started a pair |
| `Winding.RunArranged` | src/lib.rs:196-202 | (corrected arms) every run over distinct pairs of one cycle stays an arrangement of its arcs and never fails |
| `Winding.RunRotates` | src/lib.rs:30-42 | one pair per neighbour of a cycle of three to six, in any order, ends `Complete` with a rotation of the cycle |
| `AsWritten.WrittenStep` | src/lib.rs:128-180 | the `TwoTwo` and `ThreeTwo` arms as written keep state and list length in step |
| `AsWritten.WrittenRun` | src/lib.rs:196-202 | the calls one vertex receives, in order, through the source's own arms; every reachable accumulator keeps state and length in step |
| `AsWritten.WrittenStepAgrees` | src/lib.rs:128-180 | outside the corrected branches (a `TwoTwo` pair starting at `q1` that touches the first arc at neither end; a `ThreeTwo` pair past the first case that starts at `q1` without ending at `p0`, or that ends at `q0`), the source's `insert` is the corrected one |
| `AsWritten.WrittenRunAgrees` | src/lib.rs:196-202 | a run that takes no corrected branch gives the same accumulator through the source's arms as through the corrected ones |
| `AsWritten.WrittenRunRotates` | src/lib.rs:30-42 | the source as written keeps the rotation promise on every closed fan of three to six neighbours whose order of arrival takes no corrected branch |
| `AsWritten.ReverseHexagonRotates` | src/lib.rs:98-117 | as written, the hexagon's triangles in reverse order grow one arc at its start and end `Complete` with `[2, 3, 4, 5, 6, 1]`, a rotation of the hexagon |
| `AsWritten.ThreeArcsReorder` | src/lib.rs:181-191 | as written, three disjoint arcs `(1,2), (5,6), (3,4)` and then `(2,3)` end `Complete` with `[1, 2, 3, 4, 5, 6]`: the `TwoTwoTwo` arm trades the second and third arcs |
| `AsWritten.OpenFanCompletes` | src/lib.rs:104-117 | five of the hexagon's six edges, in order, end `Complete` with `[1, 2, 3, 4, 5, 6]` both as written and corrected, though the fan is open |
| `AsWritten.WrittenNoElementLost` | src/lib.rs:128-180 | the source's own `TwoTwo` and `ThreeTwo` arms lose no neighbour: the new list holds the old one and at most `b` and `c` besides, and a step that keeps the length only rearranges |
| `AsWritten.HexagonPairs` | src/lib.rs:30-42 | six pairs that are edges of the hexagon and start at its six vertices, once each, are valid input for one vertex |
| `AsWritten.CounterexamplesAreHexagons` | src/lib.rs:30-42 | both counterexample inputs are the six pairs of one hexagon, each neighbour starting one pair |
| `AsWritten.TwoTwoMissesSecondArcEnd` | src/lib.rs:128-158 | as written, the first input ends with 5 twice and 3 missing; the corrected `Run` ends with a rotation |
| `AsWritten.ThreeTwoIgnoresSecondArcStart` | src/lib.rs:160-180 | as written, the second input ends with a list that is not a rotation; the corrected `Run` ends with the hexagon itself |
| `AsWritten.ThreeTwoWrapReachesUnreachable` | src/lib.rs:160-180 | as written, the six edges of the hexagon, one per start, reach the `unreachable!()` of line 123, because `(5, 6)` wraps `[1, 2, 3, 4, 5]` into `[4, 5, 1, 2, 3]`; the corrected `Run` ends with the hexagon |

## Left out

- Accumulator.Step, Rehexed.Accumulators.Insert, Rehexed.TwoTwoArm, Rehexed.ThreeTwoArm, Rehexed.Rehex, Rehexed.Rehexed: these carry the corrected `TwoTwo` and `ThreeTwo` arms, not src/lib.rs:128-180 as written. `TwoTwo` has an extra branch for a pair starting at the end of the second arc. `ThreeTwo` checks `c` after its first case: it wraps only when `c` is the start of the first arc, and it inserts `b` before the second arc when `c` starts it. On inputs that take those branches, the results differ from the source; on all other inputs the two agree (`AsWritten.WrittenStepAgrees`, `AsWritten.WrittenRunAgrees`). The source's arms are `AsWritten.WrittenStep`.
- `USIZE_MAX` is `2^64 - 1`: the model assumes a 64-bit `usize`.

- The `u32` to `usize` casts of line 90 are identity on `nat` and are not modelled.
- An index of `len` or more makes `state[a]` panic. `Rehexed.Rehexed` requires every index it reads to be below `len`, rather than modelling that panic.
- The panic message text and the `Debug` format of the list are not modelled; `ContainsItself` carries the vertex only.
- The `ArrayVec` container is modelled by its contents (a `seq<nat>`), not its inline storage. A capacity overflow cannot happen: every call site proves the length stays within six.
- The `unreachable!()` of line 197 (a chunk of `chunks_exact(3)` that is not three long) cannot happen and has no counterpart.
- The `unreachable!()` of line 192 (`Complete` inside the match) cannot happen, because line 92 returns first; `Insert` returns at the same point.
- Nothing checks that a vertex has received all its triangles. A vertex with an open fan may end in any state, `Complete` included: `Complete` can also mean that six neighbours were seen (src/lib.rs:109-110, 115-116, 122, 166, 177, 190), not that the cycle was closed (`AsWritten.OpenFanCompletes`). Its list is still padded and returned, as in the source.
- How hexasphere numbers its points is not part of this model.

## Findings

The doc comment of `RehexState` (src/lib.rs:30-42) says a vertex's list should be some rotation of its neighbours. Two arms of `insert` break this for valid hexagons: they give lists that are not rotations, and one of them reaches the `unreachable!()` of line 123, so the source panics on a closed hexagon fan. The model's `Accumulator.Step`, and the imperative `Insert` that computes it, carry the corrected arms. `Winding.RunRotates` proves the promise for every order of arrival.

| source | as written | input that shows it | evidently intended | confidence | as-written member | corrected member |
|---|---|---|---|---|---|---|
| src/lib.rs:128-158 | `TwoTwo` has no case for a pair that starts at the end of the second arc; it is taken for a third arc | pairs `(1,2), (4,5), (5,6), (2,3), (3,4), (6,1)` around one vertex of hexagon `1..6` end `Complete` with `[1, 2, 5, 6, 4, 5]` | `[p0, p1, q0, q1]` with `b == q1` becomes `ThreeTwo` `[q0, q1, c, p0, p1]` | not executed | `AsWritten.TwoTwoMissesSecondArcEnd` | `Winding.RunRotates` |
| src/lib.rs:160-180 | `ThreeTwo` never checks `c` after its first case: a pair at the end of the second arc always wraps it before the first, and any other pair is put in front | pairs `(1,2), (2,3), (5,6), (4,5), (3,4), (6,1)` end `Complete` with `[4, 1, 2, 3, 5, 6]` | when `b == q1`, wrap only if `c == p0`, else append `c`; when `c == q0`, insert `b` before `q0` | not executed | `AsWritten.ThreeTwoIgnoresSecondArcStart` | `Winding.RunRotates` |
| src/lib.rs:169-174 | in `ThreeTwo`, a pair that starts at the end of the second arc always wraps the second arc before the first, even when it does not end at the start of the first | pairs `(1,2), (2,3), (4,5), (5,6), (6,1), (3,4)` (the six edges of hexagon `1..6`, one per start): `(5,6)` turns `[1, 2, 3, 4, 5]` into `Clear` `[4, 5, 1, 2, 3]`, and `(6,1)` then reaches the `unreachable!()` of line 123; so the triangles `(0,1,2), (0,2,3), (0,4,5), (0,5,6), (0,6,1), (0,3,4)` make the source panic | wrap only when `c == p0`, else append `c` and complete | not executed | `AsWritten.ThreeTwoWrapReachesUnreachable` | `Winding.RunArranged` |
