/** The function `rehexed` (src/lib.rs:80-220): one accumulator per vertex,
    three insertions per triangle, then the self-adjacency check and the
    padding to six slots. The `TwoTwo` and `ThreeTwo` arms of `insert` are
    the corrected ones of `Accumulator.Step` (module AsWritten keeps the
    source's own arms), so on some fans `Rehex` differs from the source. The accumulators are the two vectors of the source,
    held by the class `Accumulators`; `Rehex` is the whole computation as a
    function, which the method `Rehexed` is proved to compute. */
module Rehexed {
  import opened ArrayVec
  import opened Accumulator
  import opened Cycle
  import opened Winding

  /** `usize::MAX`, the filler of an unused output slot. */
  const USIZE_MAX: nat := 0xFFFF_FFFF_FFFF_FFFF

  /** One call `insert(center, b, c)`: `c` follows `b` around `center`. */
  datatype Fact = Fact(center: nat, b: nat, c: nat)

  /** What `rehexed` returns, or which of its panics it reaches. */
  datatype Outcome =
    | Adjacency(lists: seq<seq<nat>>)
      // the `unreachable!()` of the `Clear` arm (src/lib.rs:123)
    | ClearOverflow
      // the panic "idx {} contains itself" (src/lib.rs:208)
    | ContainsItself(idx: nat)

  // ---------------------------------------------------------------------
  // The accumulators, updated in place

  /** The vectors `state` and `result` of the source: vertex `v` has state
      `state[v]` and neighbour list `result[v]`. */
  class Accumulators {
    const state: array<RehexState>
    const result: array<seq<nat>>

    ghost predicate Valid()
      reads this, state, result
    {
      state.Length == result.Length &&
      forall v | 0 <= v < state.Length :: Inv(Acc(state[v], result[v]))
    }

    /** The accumulator of every vertex. */
    ghost function Accs(): (s: seq<Acc>)
      reads this, state, result
      requires state.Length == result.Length
      ensures |s| == state.Length
      ensures forall v | 0 <= v < |s| :: s[v] == Acc(state[v], result[v])
    {
      seq(state.Length, v requires 0 <= v < state.Length reads state, result =>
        Acc(state[v], result[v]))
    }

    /** Every vertex starts `Empty` with an empty list. */
    constructor (n: nat)
      ensures Valid() && fresh(state) && fresh(result)
      ensures state.Length == n
      ensures Accs() == Starts(n)
    {
      state := new RehexState[n](_ => Empty);
      result := new seq<nat>[n](_ => []);
    }

    /** The `insert` closure, with the corrected `TwoTwo` and `ThreeTwo`
        arms of `Step`: records that `c` follows `b` around `a`, updating
        `state[a]` and `result[a]` in place. It returns false where the
        source reaches `unreachable!()`, and then changes nothing. */
    method Insert(a: nat, b: nat, c: nat) returns (ok: bool)
      requires Valid() && a < state.Length
      modifies state, result
      ensures Valid()
      ensures ok == Step(old(Accs())[a], b, c).Some?
      ensures Accs() == if ok then old(Accs())[a := Step(old(Accs())[a], b, c).value] else old(Accs())
    {
      var st, list := state[a], result[a];
      match st {
      case Complete =>
        assert Accs()[a := Accs()[a]] == Accs();
        return true;
      case Empty =>
        list := Extend(list, [b, c]);
        assert list == [b, c];
        st := Clear;
      case Clear =>
        ok, st, list := ClearArm(list, b, c);
        if !ok {
          return;
        }
      case TwoTwo =>
        st, list := TwoTwoArm(list, b, c);
      case ThreeTwo =>
        st, list := ThreeTwoArm(list, b, c);
      case TwoTwoTwo =>
        list := TwoTwoTwoArm(list, b, c);
        st := Complete;
      }
      ghost var before := Accs();
      state[a], result[a] := st, list;
      assert Accs() == before[a := Acc(st, list)];
      ok := true;
    }

    /** Call `k` of the driver, `insert(a, b, c)`, on accumulators that
        hold the result of the calls before it. */
    method Record(ghost init: seq<Acc>, ghost fs: seq<Fact>, k: nat, a: nat, b: nat, c: nat)
      returns (ok: bool)
      requires Valid() && AllInv(init) && |init| == state.Length && CentersBelow(fs, |init|)
      requires k < |fs| && fs[k] == Fact(a, b, c)
      requires Accumulate(init, fs[..k]) == Some(Accs())
      modifies state, result
      ensures Valid()
      ensures ok ==> Accumulate(init, fs[..k + 1]) == Some(Accs())
      ensures !ok ==> Accumulate(init, fs).None?
    {
      AccumulateNext(init, fs, k);
      ok := Insert(a, b, c);
      if !ok {
        AccumulateFailureIsFinal(init, fs, k + 1);
      }
    }

    /** The `chunks_exact(3)` loop: the three calls of `insert` for every
        complete triangle, in order. It returns false as soon as one of them
        reaches `unreachable!()`. */
    method Feed(indices: seq<nat>) returns (ok: bool)
      requires Valid() && IndicesBelow(indices, state.Length)
      requires CentersBelow(Facts(indices, |indices| / 3), state.Length)
      requires Accs() == Starts(state.Length)
      modifies state, result
      ensures Valid()
      ensures var fs := Facts(indices, |indices| / 3);
        ok == Accumulate(Starts(state.Length), fs).Some? &&
        (ok ==> Accumulate(Starts(state.Length), fs) == Some(Accs()))
    {
      var m := |indices| / 3;
      ghost var fs := Facts(indices, m);
      ghost var init := Starts(state.Length);
      assert fs[..0] == [];
      var i := 0;
      while i < m
        invariant 0 <= i <= m
        invariant Valid()
        invariant Accumulate(init, fs[..3 * i]) == Some(Accs())
      {
        var a, b, c := indices[3 * i], indices[3 * i + 1], indices[3 * i + 2];
        FactsAt(indices, m, i);
        ok := Record(init, fs, 3 * i, a, b, c);
        if !ok {
          return;
        }
        ok := Record(init, fs, 3 * i + 1, c, a, b);
        if !ok {
          return;
        }
        ok := Record(init, fs, 3 * i + 2, b, c, a);
        if !ok {
          return;
        }
        i := i + 1;
      }
      assert fs[..3 * m] == fs;
      ok := true;
    }

    /** The self-adjacency check: the first vertex whose list holds the
        vertex itself, if any. */
    method SelfAdjacent() returns (r: Option<nat>)
      ensures r == FirstSelfAdjacent(result[..], 0)
    {
      ghost var lists := result[..];
      for idx := 0 to result.Length
        invariant forall u | 0 <= u < idx :: u !in lists[u]
      {
        if idx in result[idx] {
          return Some(idx);
        }
      }
      return None;
    }

    /** The final `map`: every list padded to six slots. */
    method Rows() returns (rows: seq<seq<nat>>)
      requires Valid()
      ensures rows == PadAll(result[..])
    {
      rows := [];
      for v := 0 to result.Length
        invariant |rows| == v
        invariant forall u | 0 <= u < v :: rows[u] == Pad(result[u])
      {
        var row := PadRow(result[v]);
        rows := rows + [row];
      }
    }
  }

  /** The `Clear` arm of `insert` on the list `l`. */
  method ClearArm(l: seq<nat>, b: nat, c: nat) returns (ok: bool, st: RehexState, list: seq<nat>)
    requires Inv(Acc(Clear, l))
    ensures ok == Step(Acc(Clear, l), b, c).Some?
    ensures ok ==> Step(Acc(Clear, l), b, c) == Some(Acc(st, list))
  {
    st, list := Clear, l;
    if list[|list| - 1] == b {
      if list[0] == c {
        st := Complete;
      } else {
        list := Push(list, c);
        if |list| == 6 {
          st := Complete;
        }
      }
    } else if list[0] == c {
      list := InsertAt(list, 0, b);
      assert list == [b] + l;
      if |list| == 6 {
        st := Complete;
      }
    } else {
      match |list| {
        case 2 => st := TwoTwo;
        case 3 => st := ThreeTwo;
        case 4 => st := Complete;
        case _ => return false, st, list;
      }
      list := Extend(list, [b, c]);
    }
    ok := true;
  }

  /** The `TwoTwo` arm of `insert` on the list `l`, `[p0, p1, q0, q1]`,
      with one branch the source does not have: a pair starting at `q1`
      (`l[3] == b`) extends the second arc to `[q0, q1, c, p0, p1]`. */
  method TwoTwoArm(l: seq<nat>, b: nat, c: nat) returns (st: RehexState, list: seq<nat>)
    requires Inv(Acc(TwoTwo, l))
    ensures Step(Acc(TwoTwo, l), b, c) == Some(Acc(st, list))
  {
    list := l;
    if list[1] == b {
      if list[2] == c {
        st := Clear;
      } else {
        list := InsertAt(list, 2, c);
        st := ThreeTwo;
      }
    } else if list[0] == c {
      if list[3] == b {
        var temp := list[2];
        list := Pop(list);
        list := Pop(list);
        list := InsertAt(list, 0, temp);
        list := InsertAt(list, 1, b);
        assert list == l[2..] + l[..2];
        st := Clear;
      } else {
        list := InsertAt(list, 0, b);
        assert list == [b] + l;
        st := ThreeTwo;
      }
    } else if list[3] == b {
      var p0, p1 := list[0], list[1];
      list := Extend(list[2..], [c, p0, p1]);
      assert list == l[2..] + [c] + l[..2];
      st := ThreeTwo;
    } else if list[2] == c {
      list := InsertAt(list, 0, b);
      var t2 := list[2];
      list := SwapRemove(list, 2);
      var t1 := list[1];
      list := SwapRemove(list, 1);
      list := Push(list, t1);
      list := Push(list, t2);
      assert list == [b] + l[2..] + l[..2];
      st := ThreeTwo;
    } else {
      list := Extend(list, [b, c]);
      st := TwoTwoTwo;
    }
  }

  /** The `ThreeTwo` arm of `insert` on the list `l`, `[p0, p1, p2, q0, q1]`,
      with two checks of `c` the source does not make: a pair starting at
      `q1` wraps around only when `c == p0` (else `c` is pushed), and a pair
      ending at `q0` is inserted before it rather than put in front. */
  method ThreeTwoArm(l: seq<nat>, b: nat, c: nat) returns (st: RehexState, list: seq<nat>)
    requires Inv(Acc(ThreeTwo, l))
    ensures Step(Acc(ThreeTwo, l), b, c) == Some(Acc(st, list))
  {
    list := l;
    if list[2] == b {
      if list[3] == c {
        st := Clear;
      } else {
        list := InsertAt(list, 3, c);
        st := Complete;
      }
    } else if list[4] == b {
      if list[0] == c {
        list := Pop(list);
        var temp := list[|list| - 1];
        list := Pop(list);
        list := InsertAt(list, 0, b);
        list := InsertAt(list, 0, temp);
        assert list == l[3..] + l[..3];
        st := Clear;
      } else {
        list := Push(list, c);
        st := Complete;
      }
    } else if list[3] == c {
      list := InsertAt(list, 3, b);
      st := Complete;
    } else {
      list := InsertAt(list, 0, b);
      assert list == [b] + l;
      st := Complete;
    }
  }

  /** The `TwoTwoTwo` arm of `insert` on the list `l`: unless the pair is a
      junction of the listed order, the second and third arcs trade places. */
  method TwoTwoTwoArm(l: seq<nat>, b: nat, c: nat) returns (list: seq<nat>)
    requires Inv(Acc(TwoTwoTwo, l))
    ensures Step(Acc(TwoTwoTwo, l), b, c) == Some(Acc(Complete, list))
  {
    list := l;
    if (list[1] != b || list[2] != c)
      && (list[3] != b || list[4] != c)
      && (list[5] != b || list[0] != c)
    {
      var t2 := list[3];
      list := SwapRemove(list, 3);
      var t1 := list[2];
      list := SwapRemove(list, 2);
      list := Extend(list, [t1, t2]);
      assert list == l[..2] + l[4..] + l[2..4];
    }
  }

  /** One output row: an array of six `usize::MAX`, with the list copied
      over its front. */
  method PadRow(x: seq<nat>) returns (row: seq<nat>)
    requires |x| <= CAPACITY
    ensures row == Pad(x)
  {
    var buf := new nat[CAPACITY](_ => USIZE_MAX);
    for i := 0 to |x|
      invariant forall j | 0 <= j < i :: buf[j] == x[j]
      invariant forall j | i <= j < CAPACITY :: buf[j] == USIZE_MAX
    {
      buf[i] := x[i];
    }
    row := buf[..];
  }

  // ---------------------------------------------------------------------
  // The driver, as functions

  /** The three calls the driver makes for triangle `(a, b, c)`. */
  function TriangleFacts(a: nat, b: nat, c: nat): seq<Fact> {
    [Fact(a, b, c), Fact(c, a, b), Fact(b, c, a)]
  }

  /** The calls for the first `m` triangles of `indices`, in order. */
  function Facts(indices: seq<nat>, m: nat): (r: seq<Fact>)
    requires 3 * m <= |indices|
    ensures |r| == 3 * m
  {
    if m == 0 then []
    else
      var t := 3 * (m - 1);
      Facts(indices, m - 1) + TriangleFacts(indices[t], indices[t + 1], indices[t + 2])
  }

  /** Triangle `t` gives calls `3t`, `3t + 1` and `3t + 2`: `insert(a, b, c)`,
      then `insert(c, a, b)`, then `insert(b, c, a)`. */
  lemma {:induction false} FactsAt(indices: seq<nat>, m: nat, t: nat)
    requires 3 * m <= |indices| && t < m
    ensures var (fs, a, b, c) := (Facts(indices, m), indices[3 * t], indices[3 * t + 1], indices[3 * t + 2]);
      fs[3 * t] == Fact(a, b, c) && fs[3 * t + 1] == Fact(c, a, b) && fs[3 * t + 2] == Fact(b, c, a)
  {
    if t < m - 1 {
      FactsAt(indices, m - 1, t);
    }
  }

  /** The calls for the first `m` triangles depend only on their indices. */
  lemma {:induction false} FactsOfPrefix(indices: seq<nat>, other: seq<nat>, m: nat)
    requires 3 * m <= |indices| && 3 * m <= |other| && indices[..3 * m] == other[..3 * m]
    ensures Facts(indices, m) == Facts(other, m)
  {
    if m > 0 {
      assert indices[..3 * (m - 1)] == indices[..3 * m][..3 * (m - 1)];
      assert other[..3 * (m - 1)] == other[..3 * m][..3 * (m - 1)];
      FactsOfPrefix(indices, other, m - 1);
      var t := 3 * (m - 1);
      assert indices[t] == indices[..3 * m][t] && indices[t + 1] == indices[..3 * m][t + 1];
      assert indices[t + 2] == indices[..3 * m][t + 2];
    }
  }

  /** Every call the driver makes names a vertex below `n`. */
  predicate CentersBelow(fs: seq<Fact>, n: nat) {
    forall k | 0 <= k < |fs| :: fs[k].center < n
  }

  /** Every accumulator is in step with its state. */
  predicate AllInv(accs: seq<Acc>) {
    forall v | 0 <= v < |accs| :: Inv(accs[v])
  }

  /** The accumulators after the calls `fs`, applied in order from `init`;
      `None` once a call reaches the `unreachable!()`. */
  function Accumulate(init: seq<Acc>, fs: seq<Fact>): (r: Option<seq<Acc>>)
    requires AllInv(init) && CentersBelow(fs, |init|)
    ensures r.Some? ==> |r.value| == |init| && AllInv(r.value)
    decreases |fs|
  {
    if fs == [] then Some(init)
    else
      match Accumulate(init, fs[..|fs| - 1])
      case None => None
      case Some(accs) =>
        var f := fs[|fs| - 1];
        match Step(accs[f.center], f.b, f.c)
        case None => None
        case Some(acc) => Some(accs[f.center := acc])
  }

  /** One fresh accumulator per vertex. */
  function Starts(n: nat): (accs: seq<Acc>)
    ensures |accs| == n && forall v | 0 <= v < n :: accs[v] == Start
  {
    seq(n, _ => Start)
  }

  /** The pairs that the calls `fs` record around vertex `v`, in order. */
  function FactsFor(v: nat, fs: seq<Fact>): (ps: seq<(nat, nat)>)
    ensures |ps| <= |fs|
  {
    if fs == [] then []
    else
      var f := fs[|fs| - 1];
      FactsFor(v, fs[..|fs| - 1]) + if f.center == v then [(f.b, f.c)] else []
  }

  /** The vertices do not interact: each accumulator ends as its own run over
      the pairs recorded around it, and the whole fails exactly when one of
      those runs fails. */
  lemma {:induction false} AccumulatePerVertex(fs: seq<Fact>, n: nat)
    requires CentersBelow(fs, n)
    ensures var r := Accumulate(Starts(n), fs);
      (r.None? ==> exists v | 0 <= v < n :: Run(FactsFor(v, fs)).None?) &&
      (r.Some? ==> forall v | 0 <= v < n :: Run(FactsFor(v, fs)) == Some(r.value[v]))
    decreases |fs|
  {
    var init := Starts(n);
    if fs == [] {
      forall v | 0 <= v < n ensures Run(FactsFor(v, fs)) == Some(init[v]) {
        assert FactsFor(v, fs) == [];
      }
    } else {
      var front, f := fs[..|fs| - 1], fs[|fs| - 1];
      assert CentersBelow(front, n);
      AccumulatePerVertex(front, n);
      forall v | 0 <= v < n
        ensures FactsFor(v, fs) == FactsFor(v, front) + if f.center == v then [(f.b, f.c)] else []
      {
      }
      match Accumulate(init, front)
      case None =>
        var u :| 0 <= u < n && Run(FactsFor(u, front)).None?;
        FailureIsFinal(FactsFor(u, front), if f.center == u then [(f.b, f.c)] else []);
        assert Run(FactsFor(u, fs)).None?;
        assert Accumulate(init, fs).None?;
      case Some(accs) =>
        var u := f.center;
        assert FactsFor(u, fs) == FactsFor(u, front) + [(f.b, f.c)];
        assert FactsFor(u, fs)[..|FactsFor(u, fs)| - 1] == FactsFor(u, front);
        forall v | 0 <= v < n && v != u ensures FactsFor(v, fs) == FactsFor(v, front) {
          assert FactsFor(v, front) + [] == FactsFor(v, front);
        }
    }
  }

  /** One more call: the accumulator of its vertex takes one step. */
  lemma AccumulateNext(init: seq<Acc>, fs: seq<Fact>, k: nat)
    requires AllInv(init) && CentersBelow(fs, |init|) && k < |fs|
    requires Accumulate(init, fs[..k]).Some?
    ensures var accs := Accumulate(init, fs[..k]).value;
      var f := fs[k];
      f.center < |accs| &&
      Accumulate(init, fs[..k + 1]) ==
        if Step(accs[f.center], f.b, f.c).Some?
        then Some(accs[f.center := Step(accs[f.center], f.b, f.c).value])
        else None
  {
    assert fs[..k + 1][..k] == fs[..k];
  }

  /** A failed prefix of the calls fails the whole. */
  lemma {:induction false} AccumulateFailureIsFinal(init: seq<Acc>, fs: seq<Fact>, k: nat)
    requires AllInv(init) && CentersBelow(fs, |init|) && k <= |fs|
    requires Accumulate(init, fs[..k]).None?
    ensures Accumulate(init, fs).None?
    decreases |fs| - k
  {
    if k < |fs| {
      assert fs[..k + 1][..k] == fs[..k];
      AccumulateFailureIsFinal(init, fs, k + 1);
    } else {
      assert fs[..k] == fs;
    }
  }

  // ---------------------------------------------------------------------
  // The finaliser, as functions

  /** One output row: the list, then `usize::MAX` in every slot past its end. */
  function Pad(l: seq<nat>): (r: seq<nat>)
    requires |l| <= CAPACITY
    ensures |r| == CAPACITY
    ensures forall i | 0 <= i < |l| :: r[i] == l[i]
    ensures forall i | |l| <= i < CAPACITY :: r[i] == USIZE_MAX
  {
    l + seq(CAPACITY - |l|, _ => USIZE_MAX)
  }

  /** The first vertex, from `from` on, whose list contains itself. */
  function FirstSelfAdjacent(lists: seq<seq<nat>>, from: nat): (r: Option<nat>)
    ensures r.Some? ==> from <= r.value < |lists| && r.value in lists[r.value]
    ensures r.Some? ==> forall u | from <= u < r.value :: u !in lists[u]
    ensures r.None? ==> forall u | from <= u < |lists| :: u !in lists[u]
    decreases |lists| - from
  {
    if from >= |lists| then None
    else if from in lists[from] then Some(from)
    else FirstSelfAdjacent(lists, from + 1)
  }

  /** The lists of all accumulators. */
  function Lists(accs: seq<Acc>): (ls: seq<seq<nat>>)
    ensures |ls| == |accs| && forall v | 0 <= v < |accs| :: ls[v] == accs[v].list
  {
    seq(|accs|, v requires 0 <= v < |accs| => accs[v].list)
  }

  /** Every row padded to six slots. */
  function PadAll(lists: seq<seq<nat>>): (rows: seq<seq<nat>>)
    requires forall v | 0 <= v < |lists| :: |lists[v]| <= CAPACITY
    ensures |rows| == |lists| && forall v | 0 <= v < |lists| :: rows[v] == Pad(lists[v])
  {
    seq(|lists|, v requires 0 <= v < |lists| && |lists[v]| <= CAPACITY => Pad(lists[v]))
  }

  /** The finaliser: the self-adjacency check over every list, then the
      padding. */
  function Finalise(lists: seq<seq<nat>>): (r: Outcome)
    requires forall v | 0 <= v < |lists| :: |lists[v]| <= CAPACITY
    ensures !r.ClearOverflow?
    ensures r.ContainsItself? ==>
      (r.idx < |lists| && r.idx in lists[r.idx] && forall u | 0 <= u < r.idx :: u !in lists[u])
    ensures r.Adjacency? ==>
      (|r.lists| == |lists| && forall v | 0 <= v < |lists| :: v !in lists[v] && r.lists[v] == Pad(lists[v]))
  {
    match FirstSelfAdjacent(lists, 0)
    case Some(v) => ContainsItself(v)
    case None => Adjacency(PadAll(lists))
  }

  /** The vertex indices the driver reads are all below `n` (a larger one
      panics on `state[a]`); a trailing incomplete triangle is not read. */
  predicate IndicesBelow(indices: seq<nat>, n: nat) {
    forall k | 0 <= k < |indices| / 3 * 3 :: indices[k] < n
  }

  /** The calls for the first `m` triangles name only vertices below `n`. */
  lemma {:induction false} FactsCentersBelow(indices: seq<nat>, n: nat, m: nat)
    requires IndicesBelow(indices, n) && m <= |indices| / 3
    ensures CentersBelow(Facts(indices, m), n)
  {
    if m > 0 {
      FactsCentersBelow(indices, n, m - 1);
      var t := 3 * (m - 1);
      assert t + 2 < |indices| / 3 * 3;
      assert indices[t] < n && indices[t + 1] < n && indices[t + 2] < n;
    }
  }

  /** What `rehexed(indices, n)` computes with the corrected `TwoTwo` and
      `ThreeTwo` arms of `Step`. */
  function Rehex(indices: seq<nat>, n: nat): (r: Outcome)
    requires IndicesBelow(indices, n)
    ensures r.Adjacency? ==> (|r.lists| == n && forall v | 0 <= v < n :: |r.lists[v]| == CAPACITY)
    ensures r.ContainsItself? ==> r.idx < n
  {
    FactsCentersBelow(indices, n, |indices| / 3);
    var fs := Facts(indices, |indices| / 3);
    match Accumulate(Starts(n), fs)
    case None => ClearOverflow
    case Some(accs) => Finalise(Lists(accs))
  }

  // ---------------------------------------------------------------------
  // The function itself

  /** `rehexed(indices, len)`: builds the accumulators, drives them over
      every complete triangle, checks that no vertex neighbours itself and
      pads every list to six slots. */
  method Rehexed(indices: seq<nat>, n: nat) returns (r: Outcome)
    requires IndicesBelow(indices, n)
    ensures r == Rehex(indices, n)
  {
    var accs := new Accumulators(n);
    FactsCentersBelow(indices, n, |indices| / 3);
    var ok := accs.Feed(indices);
    if !ok {
      return ClearOverflow;
    }
    assert Lists(accs.Accs()) == accs.result[..];
    var found := accs.SelfAdjacent();
    if found.Some? {
      return ContainsItself(found.value);
    }
    var rows := accs.Rows();
    return Adjacency(rows);
  }

  // ---------------------------------------------------------------------
  // Properties of the result

  /** A successful result has one row of six slots per vertex: the pairs
      recorded around the vertex, run through its state machine and padded
      with `usize::MAX`; no row holds its own vertex. */
  lemma {:induction false} RehexAdjacency(indices: seq<nat>, n: nat)
    requires IndicesBelow(indices, n) && n <= USIZE_MAX
    requires Rehex(indices, n).Adjacency?
    ensures var rows := Rehex(indices, n).lists;
      var fs := Facts(indices, |indices| / 3);
      |rows| == n &&
      forall v | 0 <= v < n ::
        Run(FactsFor(v, fs)).Some? &&
        rows[v] == Pad(Run(FactsFor(v, fs)).value.list) &&
        v !in rows[v]
  {
    FactsCentersBelow(indices, n, |indices| / 3);
    var fs := Facts(indices, |indices| / 3);
    AccumulatePerVertex(fs, n);
    var accs := Accumulate(Starts(n), fs).value;
    var rows := Rehex(indices, n).lists;
    forall v | 0 <= v < n ensures v !in rows[v] {
      assert v !in Lists(accs)[v];
      assert v != USIZE_MAX;
    }
  }

  /** The promise of the crate for one vertex: when the triangles around
      `v` form a closed fan over a cycle `C` of three to six neighbours
      (each triangle contributes one pair of consecutive neighbours, and
      every neighbour starts one pair), row `v` of a successful result is a
      rotation of `C` followed by `usize::MAX` fillers. */
  lemma RehexRowRotates(indices: seq<nat>, n: nat, v: nat, C: seq<nat>)
    requires IndicesBelow(indices, n) && n <= USIZE_MAX && v < n
    requires Rehex(indices, n).Adjacency?
    requires 3 <= |C| <= CAPACITY && Distinct(C)
    requires PairsOf(C, FactsFor(v, Facts(indices, |indices| / 3)))
    requires forall x | x in C ::
      exists i | 0 <= i < |FactsFor(v, Facts(indices, |indices| / 3))| ::
        FactsFor(v, Facts(indices, |indices| / 3))[i].0 == x
    ensures var row := Rehex(indices, n).lists[v];
      |row| == CAPACITY && IsRotation(C, row[..|C|]) &&
      forall i | |C| <= i < CAPACITY :: row[i] == USIZE_MAX
  {
    var ps := FactsFor(v, Facts(indices, |indices| / 3));
    RehexAdjacency(indices, n);
    RunRotates(C, ps);
    var l := Run(ps).value.list;
    var row := Rehex(indices, n).lists[v];
    assert row == Pad(l);
    assert row[..|C|] == l;
  }

  /** The `unreachable!()` is reached exactly when some vertex's own run
      reaches it. */
  lemma {:induction false} RehexOverflow(indices: seq<nat>, n: nat)
    requires IndicesBelow(indices, n)
    ensures Rehex(indices, n) == ClearOverflow ==>
      exists v | 0 <= v < n :: Run(FactsFor(v, Facts(indices, |indices| / 3))).None?
    ensures (exists v | 0 <= v < n :: Run(FactsFor(v, Facts(indices, |indices| / 3))).None?) ==>
      Rehex(indices, n) == ClearOverflow
  {
    var fs := Facts(indices, |indices| / 3);
    FactsCentersBelow(indices, n, |indices| / 3);
    assert Rehex(indices, n) == ClearOverflow <==> Accumulate(Starts(n), fs).None?;
    AccumulatePerVertex(fs, n);
  }

  /** The self-adjacency panic names the first vertex whose list holds
      itself, after every vertex's run has succeeded. */
  lemma {:induction false} RehexContainsItself(indices: seq<nat>, n: nat)
    requires IndicesBelow(indices, n)
    requires Rehex(indices, n).ContainsItself?
    ensures var v := Rehex(indices, n).idx;
      var fs := Facts(indices, |indices| / 3);
      v < n &&
      (forall u | 0 <= u < n :: Run(FactsFor(u, fs)).Some?) &&
      v in Run(FactsFor(v, fs)).value.list &&
      forall u | 0 <= u < v :: u !in Run(FactsFor(u, fs)).value.list
  {
    FactsCentersBelow(indices, n, |indices| / 3);
    AccumulatePerVertex(Facts(indices, |indices| / 3), n);
  }

  /** A trailing one or two indices are never read. */
  lemma {:induction false} LeftoverIgnored(indices: seq<nat>, n: nat)
    requires IndicesBelow(indices, n)
    ensures IndicesBelow(indices[..|indices| / 3 * 3], n)
    ensures Rehex(indices, n) == Rehex(indices[..|indices| / 3 * 3], n)
  {
    var whole := indices[..|indices| / 3 * 3];
    var m := |indices| / 3;
    assert |whole| / 3 == m;
    assert whole[..3 * m] == indices[..3 * m];
    FactsOfPrefix(indices, whole, m);
  }
}
