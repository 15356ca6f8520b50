/** What the state machine of module Accumulator promises: whatever order
    the triangles around a vertex arrive in, the vertex ends `Complete` with
    a rotation of its neighbour cycle, so winding is preserved.

    The proof reads the cycle from a reference position (`Layout.rot`, a
    rotation of the cycle) and describes every state by the arcs of that
    rotation it holds, together with the set of vertices already seen as the
    first vertex of a pair. Each step keeps that description, and a state
    other than `Complete` always misses at least one such vertex. */
module Winding {
  import opened ArrayVec
  import opened Accumulator
  import opened Cycle

  /** The reference rotation `rot` of the cycle, and where the state's arcs
      start in it: one arc of `len` from 0 in state `Clear`; arcs at 0 and
      `d` in `TwoTwo` and `ThreeTwo`; arcs at 0, `d` and `e` in
      `TwoTwoTwo`. */
  datatype Layout = Layout(rot: seq<nat>, len: nat, d: nat, e: nat)

  /** The vertices of a list. */
  function Elems(s: seq<nat>): (r: set<nat>)
    ensures forall x :: x in r <==> x in s
  {
    set x | x in s
  }

  /** `acc` holds arcs of the cycle `lay.rot`, and `seen` is the set of
      vertices that have been the first vertex of a pair so far. */
  predicate Arranged(acc: Acc, seen: set<nat>, lay: Layout) {
    var R := lay.rot;
    var n := |R|;
    var l := acc.list;
    Inv(acc) && 3 <= n <= CAPACITY && Distinct(R) &&
    match acc.state
    case Empty => seen == {}
    case Clear =>
      2 <= lay.len <= n && l == R[..lay.len] && seen == Elems(R[..lay.len - 1])
    case TwoTwo =>
      2 <= lay.d <= n - 2 && l == [R[0], R[1], R[lay.d], R[lay.d + 1]] &&
      seen == {R[0], R[lay.d]}
    case ThreeTwo =>
      3 <= lay.d <= n - 2 && l == [R[0], R[1], R[2], R[lay.d], R[lay.d + 1]] &&
      seen == {R[0], R[1], R[lay.d]}
    case TwoTwoTwo =>
      n == 6 && ((lay.d == 2 && lay.e == 4) || (lay.d == 4 && lay.e == 2)) &&
      l == [R[0], R[1], R[lay.d], R[lay.d + 1], R[lay.e], R[lay.e + 1]] &&
      seen == {R[0], R[lay.d], R[lay.e]}
    case Complete => l == R
  }

  // ---------------------------------------------------------------------
  // One step, state by state: the pair is `(R[e], R[Succ(e)])` and `R[e]`
  // has not been seen. The new reference is `Rotate(R, k)`.

  lemma EmptyStep(l: seq<nat>, seen: set<nat>, lay: Layout, e: nat) returns (lay': Layout, k: nat)
    requires Arranged(Acc(Empty, l), seen, lay) && e < |lay.rot|
    ensures var R := lay.rot;
      var r := Step(Acc(Empty, l), R[e], R[Succ(e, |R|)]);
      r.Some? && Arranged(r.value, seen + {R[e]}, lay') && k < |R| && lay'.rot == Rotate(R, k)
  {
    var R := lay.rot;
    k := e;
    var R' := Rotate(R, k);
    RotationDistinct(R, k);
    lay' := Layout(R', 2, 0, 0);
    assert [R[e], R[Succ(e, |R|)]] == R'[..2];
    assert R'[..1] == [R[e]];
  }

  lemma ClearStep(l: seq<nat>, seen: set<nat>, lay: Layout, e: nat) returns (lay': Layout, k: nat)
    requires Arranged(Acc(Clear, l), seen, lay) && e < |lay.rot| && lay.rot[e] !in seen
    ensures var R := lay.rot;
      var r := Step(Acc(Clear, l), R[e], R[Succ(e, |R|)]);
      r.Some? && Arranged(r.value, seen + {R[e]}, lay') && k < |R| && lay'.rot == Rotate(R, k)
  {
    var R := lay.rot;
    var len := lay.len;
    if e == len - 1 {
      lay', k := ClearAtEnd(l, seen, lay, e);
    } else if e == |R| - 1 {
      lay', k := ClearAtStart(l, seen, lay, e);
    } else {
      lay', k := ClearApart(l, seen, lay, e);
    }
  }

  /** The pair starts at the end of the arc. */
  lemma ClearAtEnd(l: seq<nat>, seen: set<nat>, lay: Layout, e: nat) returns (lay': Layout, k: nat)
    requires Arranged(Acc(Clear, l), seen, lay) && e < |lay.rot| && e == lay.len - 1
    ensures var R := lay.rot;
      var r := Step(Acc(Clear, l), R[e], R[Succ(e, |R|)]);
      r.Some? && Arranged(r.value, seen + {R[e]}, lay') && k < |R| && lay'.rot == Rotate(R, k)
  {
    var R := lay.rot;
    var n := |R|;
    var len := lay.len;
    var b, c := R[e], R[Succ(e, n)];
    assert l[|l| - 1] == b;
    k := 0;
    assert Rotate(R, 0) == R;
    if len == n {
      lay' := lay;
      assert l == R;
    } else {
      assert l[0] != c;
      assert R[..len + 1] == l + [c];
      if len + 1 == CAPACITY {
        assert R[..len + 1] == R;
        lay' := lay;
      } else {
        lay' := Layout(R, len + 1, 0, 0);
        assert R[..len] == R[..len - 1] + [b];
        assert Elems(R[..len]) == seen + {b};
      }
    }
  }

  /** The pair ends at the start of the arc. */
  lemma ClearAtStart(l: seq<nat>, seen: set<nat>, lay: Layout, e: nat) returns (lay': Layout, k: nat)
    requires Arranged(Acc(Clear, l), seen, lay) && e == |lay.rot| - 1 && lay.len - 1 < e
    ensures var R := lay.rot;
      var r := Step(Acc(Clear, l), R[e], R[Succ(e, |R|)]);
      r.Some? && Arranged(r.value, seen + {R[e]}, lay') && k < |R| && lay'.rot == Rotate(R, k)
  {
    var R := lay.rot;
    var n := |R|;
    var len := lay.len;
    var b, c := R[e], R[Succ(e, n)];
    assert l[|l| - 1] != b && l[0] == c;
    k := n - 1;
    var R' := Rotate(R, k);
    RotationDistinct(R, k);
    assert R'[..len + 1] == [b] + l;
    if len + 1 == CAPACITY {
      assert R'[..len + 1] == R';
      lay' := Layout(R', 0, 0, 0);
    } else {
      lay' := Layout(R', len + 1, 0, 0);
      assert R'[..len] == [b] + R[..len - 1];
      assert Elems(R'[..len]) == seen + {b};
    }
  }

  /** The pair touches neither end of the arc: a second arc starts. */
  lemma ClearApart(l: seq<nat>, seen: set<nat>, lay: Layout, e: nat) returns (lay': Layout, k: nat)
    requires Arranged(Acc(Clear, l), seen, lay) && lay.len - 1 < e < |lay.rot| - 1
    ensures var R := lay.rot;
      var r := Step(Acc(Clear, l), R[e], R[Succ(e, |R|)]);
      r.Some? && Arranged(r.value, seen + {R[e]}, lay') && k < |R| && lay'.rot == Rotate(R, k)
  {
    var R := lay.rot;
    var n := |R|;
    var len := lay.len;
    var b, c := R[e], R[Succ(e, n)];
    assert c == R[e + 1];
    assert l[|l| - 1] != b && l[0] != c;
    k := 0;
    assert Rotate(R, 0) == R;
    if len == 2 {
      lay' := Layout(R, 0, e, 0);
      assert R[..1] == [R[0]];
    } else if len == 3 {
      lay' := Layout(R, 0, e, 0);
      assert R[..2] == [R[0], R[1]];
    } else {
      assert len == 4 && e == 4 && n == 6;
      assert l + [b, c] == R;
      lay' := Layout(R, 0, 0, 0);
    }
  }

  lemma TwoTwoStep(l: seq<nat>, seen: set<nat>, lay: Layout, e: nat) returns (lay': Layout, k: nat)
    requires Arranged(Acc(TwoTwo, l), seen, lay) && e < |lay.rot| && lay.rot[e] !in seen
    ensures var R := lay.rot;
      var r := Step(Acc(TwoTwo, l), R[e], R[Succ(e, |R|)]);
      r.Some? && Arranged(r.value, seen + {R[e]}, lay') && k < |R| && lay'.rot == Rotate(R, k)
  {
    var n, d := |lay.rot|, lay.d;
    if e == 1 {
      lay', k := TwoTwoAfterFirst(l, seen, lay, e);
    } else if e == n - 1 {
      lay', k := TwoTwoBeforeFirst(l, seen, lay, e);
    } else if e == d + 1 {
      lay', k := TwoTwoAfterSecond(l, seen, lay, e);
    } else if e == d - 1 {
      lay', k := TwoTwoBeforeSecond(l, seen, lay, e);
    } else {
      lay', k := TwoTwoApart(l, seen, lay, e);
    }
  }

  /** The pair starts at the end of the first arc. */
  lemma TwoTwoAfterFirst(l: seq<nat>, seen: set<nat>, lay: Layout, e: nat) returns (lay': Layout, k: nat)
    requires Arranged(Acc(TwoTwo, l), seen, lay) && e == 1
    ensures var R := lay.rot;
      var r := Step(Acc(TwoTwo, l), R[e], R[Succ(e, |R|)]);
      r.Some? && Arranged(r.value, seen + {R[e]}, lay') && k < |R| && lay'.rot == Rotate(R, k)
  {
    var R := lay.rot;
    var d := lay.d;
    assert l[1] == R[e] && R[Succ(e, |R|)] == R[2];
    k := 0;
    assert Rotate(R, 0) == R;
    if d == 2 {
      lay' := Layout(R, 4, 0, 0);
      assert l == R[..4];
      assert R[..3] == [R[0], R[1], R[2]];
    } else {
      lay' := Layout(R, 0, d, 0);
    }
  }

  /** The pair ends at the start of the first arc. */
  lemma TwoTwoBeforeFirst(l: seq<nat>, seen: set<nat>, lay: Layout, e: nat) returns (lay': Layout, k: nat)
    requires Arranged(Acc(TwoTwo, l), seen, lay) && e == |lay.rot| - 1
    ensures var R := lay.rot;
      var r := Step(Acc(TwoTwo, l), R[e], R[Succ(e, |R|)]);
      r.Some? && Arranged(r.value, seen + {R[e]}, lay') && k < |R| && lay'.rot == Rotate(R, k)
  {
    var R := lay.rot;
    var n := |R|;
    var d := lay.d;
    assert l[1] != R[e] && l[0] == R[Succ(e, n)];
    if d == n - 2 {
      k := n - 2;
      var R' := Rotate(R, k);
      RotationDistinct(R, k);
      lay' := Layout(R', 4, 0, 0);
      assert l[2..] + l[..2] == R'[..4];
      assert R'[..3] == [R[n - 2], R[n - 1], R[0]];
    } else {
      k := n - 1;
      var R' := Rotate(R, k);
      RotationDistinct(R, k);
      lay' := Layout(R', 0, d + 1, 0);
      assert [R[e]] + l == [R'[0], R'[1], R'[2], R'[d + 1], R'[d + 2]];
    }
  }

  /** The pair starts at the end of the second arc. */
  lemma TwoTwoAfterSecond(l: seq<nat>, seen: set<nat>, lay: Layout, e: nat) returns (lay': Layout, k: nat)
    requires Arranged(Acc(TwoTwo, l), seen, lay) && e == lay.d + 1 < |lay.rot| - 1
    ensures var R := lay.rot;
      var r := Step(Acc(TwoTwo, l), R[e], R[Succ(e, |R|)]);
      r.Some? && Arranged(r.value, seen + {R[e]}, lay') && k < |R| && lay'.rot == Rotate(R, k)
  {
    var R := lay.rot;
    var n := |R|;
    var d := lay.d;
    var c := R[Succ(e, n)];
    assert c == R[d + 2];
    assert l[1] != R[e] && l[0] != c && l[3] == R[e];
    k := d;
    var R' := Rotate(R, k);
    RotationDistinct(R, k);
    lay' := Layout(R', 0, n - d, 0);
    assert l[2..] + [c] + l[..2] == [R'[0], R'[1], R'[2], R'[n - d], R'[n - d + 1]];
  }

  /** The pair ends at the start of the second arc. */
  lemma TwoTwoBeforeSecond(l: seq<nat>, seen: set<nat>, lay: Layout, e: nat) returns (lay': Layout, k: nat)
    requires Arranged(Acc(TwoTwo, l), seen, lay) && e == lay.d - 1 && e != 1
    ensures var R := lay.rot;
      var r := Step(Acc(TwoTwo, l), R[e], R[Succ(e, |R|)]);
      r.Some? && Arranged(r.value, seen + {R[e]}, lay') && k < |R| && lay'.rot == Rotate(R, k)
  {
    var R := lay.rot;
    var n := |R|;
    var d := lay.d;
    var b, c := R[e], R[Succ(e, n)];
    assert c == R[d];
    assert l[1] != b && l[0] != c && l[3] != b && l[2] == c;
    k := d - 1;
    var R' := Rotate(R, k);
    RotationDistinct(R, k);
    lay' := Layout(R', 0, n - d + 1, 0);
    assert [b] + l[2..] + l[..2] == [R'[0], R'[1], R'[2], R'[n - d + 1], R'[n - d + 2]];
  }

  /** The pair touches neither arc: a third arc starts. */
  lemma TwoTwoApart(l: seq<nat>, seen: set<nat>, lay: Layout, e: nat) returns (lay': Layout, k: nat)
    requires Arranged(Acc(TwoTwo, l), seen, lay) && e < |lay.rot| && lay.rot[e] !in seen
    requires e != 1 && e != |lay.rot| - 1 && e != lay.d + 1 && e != lay.d - 1
    ensures var R := lay.rot;
      var r := Step(Acc(TwoTwo, l), R[e], R[Succ(e, |R|)]);
      r.Some? && Arranged(r.value, seen + {R[e]}, lay') && k < |R| && lay'.rot == Rotate(R, k)
  {
    var R := lay.rot;
    var d := lay.d;
    var b, c := R[e], R[Succ(e, |R|)];
    assert e != 0 && e != d;
    assert c == R[e + 1];
    assert l[1] != b && l[0] != c && l[3] != b && l[2] != c;
    k := 0;
    assert Rotate(R, 0) == R;
    lay' := Layout(R, 0, d, e);
  }

  lemma ThreeTwoStep(l: seq<nat>, seen: set<nat>, lay: Layout, e: nat) returns (lay': Layout, k: nat)
    requires Arranged(Acc(ThreeTwo, l), seen, lay) && e < |lay.rot| && lay.rot[e] !in seen
    ensures var R := lay.rot;
      var r := Step(Acc(ThreeTwo, l), R[e], R[Succ(e, |R|)]);
      r.Some? && Arranged(r.value, seen + {R[e]}, lay') && k < |R| && lay'.rot == Rotate(R, k)
  {
    var R := lay.rot;
    var n := |R|;
    var d := lay.d;
    var b, c := R[e], R[Succ(e, n)];
    if e == 2 {
      k := 0;
      assert Rotate(R, 0) == R;
      if d == 3 {
        lay' := Layout(R, 5, 0, 0);
        assert l == R[..5];
        assert Elems(R[..4]) == {R[0], R[1], R[2], R[3]};
      } else {
        assert l[..3] + [c] + l[3..] == R;
        lay' := Layout(R, 0, 0, 0);
      }
    } else if e == d + 1 && d == n - 2 {
      k := n - 2;
      var R' := Rotate(R, k);
      RotationDistinct(R, k);
      lay' := Layout(R', 5, 0, 0);
      assert l[3..] + l[..3] == R'[..5];
      assert R'[..4] == [R[n - 2], R[n - 1], R[0], R[1]];
    } else if e == d + 1 {
      k := 0;
      assert Rotate(R, 0) == R;
      assert l + [c] == R;
      lay' := Layout(R, 0, 0, 0);
    } else if e == d - 1 {
      k := 0;
      assert Rotate(R, 0) == R;
      assert l[..3] + [b] + l[3..] == R;
      lay' := Layout(R, 0, 0, 0);
    } else {
      assert e == n - 1 && n == 6 && d == 3;
      k := n - 1;
      var R' := Rotate(R, k);
      RotationDistinct(R, k);
      assert [b] + l == R';
      lay' := Layout(R', 0, 0, 0);
    }
  }

  lemma TwoTwoTwoStep(l: seq<nat>, seen: set<nat>, lay: Layout, e: nat) returns (lay': Layout, k: nat)
    requires Arranged(Acc(TwoTwoTwo, l), seen, lay) && e < |lay.rot| && lay.rot[e] !in seen
    ensures var R := lay.rot;
      var r := Step(Acc(TwoTwoTwo, l), R[e], R[Succ(e, |R|)]);
      r.Some? && Arranged(r.value, seen + {R[e]}, lay') && k < |R| && lay'.rot == Rotate(R, k)
  {
    var R := lay.rot;
    k := 0;
    assert Rotate(R, 0) == R;
    lay' := Layout(R, 0, 0, 0);
    if lay.d == 2 {
      assert l == R;
    } else {
      assert l[..2] + l[4..] + l[2..4] == R;
    }
  }

  /** One step keeps the description, for a pair of the cycle whose first
      vertex has not been seen. */
  lemma StepArranged(acc: Acc, seen: set<nat>, lay: Layout, e: nat) returns (lay': Layout, k: nat)
    requires Arranged(acc, seen, lay) && e < |lay.rot| && lay.rot[e] !in seen
    ensures var R := lay.rot;
      var r := Step(acc, R[e], R[Succ(e, |R|)]);
      r.Some? && Arranged(r.value, seen + {R[e]}, lay') && k < |R| && lay'.rot == Rotate(R, k)
  {
    match acc.state
    case Empty => lay', k := EmptyStep(acc.list, seen, lay, e);
    case Clear => lay', k := ClearStep(acc.list, seen, lay, e);
    case TwoTwo => lay', k := TwoTwoStep(acc.list, seen, lay, e);
    case ThreeTwo => lay', k := ThreeTwoStep(acc.list, seen, lay, e);
    case TwoTwoTwo => lay', k := TwoTwoTwoStep(acc.list, seen, lay, e);
    case Complete =>
      lay', k := lay, 0;
      assert Rotate(lay.rot, 0) == lay.rot;
  }

  /** Until a vertex is `Complete`, some vertex of its cycle has not yet
      been the first vertex of a pair. */
  lemma Unseen(acc: Acc, seen: set<nat>, lay: Layout) returns (x: nat)
    requires Arranged(acc, seen, lay) && acc.state != Complete
    ensures x in lay.rot && x !in seen
  {
    var R := lay.rot;
    match acc.state
    case Empty => x := R[0];
    case Clear =>
      x := R[lay.len - 1];
      assert x !in R[..lay.len - 1];
    case TwoTwo => x := R[1];
    case ThreeTwo => x := R[2];
    case TwoTwoTwo => x := R[1];
  }

  // ---------------------------------------------------------------------
  // A whole run

  /** The first vertices of the pairs. */
  function Sources(ps: seq<(nat, nat)>): (r: set<nat>)
    ensures forall i | 0 <= i < |ps| :: ps[i].0 in r
  {
    set i | 0 <= i < |ps| :: ps[i].0
  }

  /** One more pair adds its first vertex. */
  lemma SourcesSnoc(ps: seq<(nat, nat)>)
    requires |ps| > 0
    ensures Sources(ps) == Sources(ps[..|ps| - 1]) + {ps[|ps| - 1].0}
  {
    var front := ps[..|ps| - 1];
    forall x | x in Sources(ps) ensures x in Sources(front) + {ps[|ps| - 1].0} {
      var i :| 0 <= i < |ps| && ps[i].0 == x;
      if i < |front| {
        assert front[i] == ps[i];
      }
    }
    forall x | x in Sources(front) ensures x in Sources(ps) {
      var i :| 0 <= i < |front| && front[i].0 == x;
      assert ps[i] == front[i];
    }
  }

  /** The pairs a vertex receives: each is two consecutive vertices of the
      cycle `C`, and no two start at the same vertex. */
  predicate PairsOf(C: seq<nat>, ps: seq<(nat, nat)>) {
    (forall i | 0 <= i < |ps| :: Follows(C, ps[i].0, ps[i].1)) &&
    (forall i, j | 0 <= i < j < |ps| :: ps[i].0 != ps[j].0)
  }

  lemma {:induction false} RunArranged(C: seq<nat>, ps: seq<(nat, nat)>) returns (lay: Layout)
    requires 3 <= |C| <= CAPACITY && Distinct(C) && PairsOf(C, ps)
    ensures Run(ps).Some? && IsRotation(C, lay.rot) && Arranged(Run(ps).value, Sources(ps), lay)
  {
    if ps == [] {
      lay := Layout(C, 0, 0, 0);
      RotateZero(C);
      assert Sources(ps) == {};
    } else {
      var front := ps[..|ps| - 1];
      var b, c := ps[|ps| - 1].0, ps[|ps| - 1].1;
      assert PairsOf(C, front);
      var lay0 := RunArranged(C, front);
      var R := lay0.rot;
      RotationFollows(C, R, b, c);
      var e :| 0 <= e < |R| && R[e] == b && R[Succ(e, |R|)] == c;
      var k;
      lay, k := StepArranged(Run(front).value, Sources(front), lay0, e);
      RotateRotation(C, R, k);
      SourcesSnoc(ps);
    }
  }

  /** The promise of the state machine: when a vertex receives one pair
      for every vertex of its cycle of three to six neighbours, in any
      order, it ends `Complete` and its list is that cycle, read from some
      vertex on. */
  lemma RunRotates(C: seq<nat>, ps: seq<(nat, nat)>)
    requires 3 <= |C| <= CAPACITY && Distinct(C) && PairsOf(C, ps)
    requires forall x | x in C :: exists i | 0 <= i < |ps| :: ps[i].0 == x
    ensures Run(ps).Some? && Run(ps).value.state == Complete
    ensures IsRotation(C, Run(ps).value.list)
  {
    var lay := RunArranged(C, ps);
    var acc := Run(ps).value;
    if acc.state != Complete {
      var x := Unseen(acc, Sources(ps), lay);
      RotationMembers(C, lay.rot);
    }
  }
}
