/** The operations of the fixed-capacity inline vector (`ArrayVec<usize, 6>`)
    that hold a vertex's neighbour list. A list is a `seq<nat>`; each operation
    requires what the container needs in order not to panic (room for a new
    element, an index within bounds), so every call site proves that the
    capacity of six is never exceeded. */
module ArrayVec {

  /** The capacity of a neighbour list: a hexagon has six neighbours. */
  const CAPACITY: nat := 6

  /** `push`: appends `x` at the end. */
  function Push(s: seq<nat>, x: nat): (r: seq<nat>)
    requires |s| < CAPACITY
    ensures |r| == |s| + 1 && r[|s|] == x
    ensures forall j | 0 <= j < |s| :: r[j] == s[j]
  {
    s + [x]
  }

  /** `insert(i, x)`: shifts the elements from `i` on one place to the right
      and puts `x` at `i`. */
  function InsertAt(s: seq<nat>, i: nat, x: nat): (r: seq<nat>)
    requires i <= |s| < CAPACITY
    ensures |r| == |s| + 1 && r[i] == x
    ensures forall j | 0 <= j < i :: r[j] == s[j]
    ensures forall j | i < j < |r| :: r[j] == s[j - 1]
  {
    s[..i] + [x] + s[i..]
  }

  /** `pop`: drops the last element (which the caller reads beforehand). */
  function Pop(s: seq<nat>): (r: seq<nat>)
    requires |s| > 0
    ensures |r| == |s| - 1
    ensures forall j | 0 <= j < |r| :: r[j] == s[j]
  {
    s[..|s| - 1]
  }

  /** `swap_remove(i)`: removes the element at `i` (which the caller reads
      beforehand) and moves the last element into its place. */
  function SwapRemove(s: seq<nat>, i: nat): (r: seq<nat>)
    requires i < |s|
    ensures |r| == |s| - 1
    ensures i < |r| ==> r[i] == s[|s| - 1]
    ensures forall j | 0 <= j < |r| && j != i :: r[j] == s[j]
  {
    s[i := s[|s| - 1]][..|s| - 1]
  }

  /** `extend(xs)`: appends the elements of `xs` in order. */
  function Extend(s: seq<nat>, xs: seq<nat>): (r: seq<nat>)
    requires |s| + |xs| <= CAPACITY
    ensures |r| == |s| + |xs|
    ensures forall j | 0 <= j < |s| :: r[j] == s[j]
    ensures forall j | 0 <= j < |xs| :: r[|s| + j] == xs[j]
  {
    s + xs
  }
}
