/** The `TwoTwo` and `ThreeTwo` arms of `insert` exactly as src/lib.rs
    writes them (lines 128-180), two inputs on which they break the
    promise that a vertex's list is a rotation of its neighbour cycle, and
    a third on which they reach the `unreachable!()` of line 123. The
    rest of the model uses the corrected transition `Accumulator.Step`, for
    which module Winding proves the promise. */
module AsWritten {
  import opened ArrayVec
  import opened Accumulator
  import opened Cycle
  import opened Winding

  /** `Step` with the two arms as written: `TwoTwo` has no case for a pair
      that starts at the end of the second arc, and `ThreeTwo` never looks at
      `c` outside its first case. */
  function WrittenStep(acc: Acc, b: nat, c: nat): (r: Option<Acc>)
    requires Inv(acc)
    ensures r.Some? ==> Inv(r.value)
  {
    var l := acc.list;
    match acc.state
    case TwoTwo =>
      if l[1] == b then
        if l[2] == c then Some(Acc(Clear, l)) else Some(Acc(ThreeTwo, l[..2] + [c] + l[2..]))
      else if l[0] == c then
        if l[3] == b then Some(Acc(Clear, l[2..] + l[..2])) else Some(Acc(ThreeTwo, [b] + l))
      else if l[2] == c then Some(Acc(ThreeTwo, [b] + l[2..] + l[..2]))
      else Some(Acc(TwoTwoTwo, l + [b, c]))
    case ThreeTwo =>
      if l[2] == b then
        if l[3] == c then Some(Acc(Clear, l)) else Some(Acc(Complete, l[..3] + [c] + l[3..]))
      else if l[4] == b then Some(Acc(Clear, l[3..] + l[..3]))
      else Some(Acc(Complete, [b] + l))
    case _ => Step(acc, b, c)
  }

  /** The arms as written lose no neighbour either: the new list holds the
      old one and at most `b` and `c` besides, and a step that keeps the
      length only rearranges. */
  lemma WrittenNoElementLost(acc: Acc, b: nat, c: nat)
    requires Inv(acc) && WrittenStep(acc, b, c).Some?
    ensures var l' := WrittenStep(acc, b, c).value.list;
      multiset(acc.list) <= multiset(l') <= multiset(acc.list) + multiset{b, c} &&
      (|l'| == |acc.list| ==> multiset(l') == multiset(acc.list))
  {
    match acc.state
    case TwoTwo =>
      WrittenTwoTwoNoElementLost(acc.list, b, c);
    case ThreeTwo =>
      WrittenThreeTwoNoElementLost(acc.list, b, c);
    case _ =>
      NoElementLost(acc, b, c);
  }

  lemma WrittenTwoTwoNoElementLost(l: seq<nat>, b: nat, c: nat)
    requires Inv(Acc(TwoTwo, l))
    ensures var l' := WrittenStep(Acc(TwoTwo, l), b, c).value.list;
      multiset(l) <= multiset(l') <= multiset(l) + multiset{b, c} &&
      (|l'| == |l| ==> multiset(l') == multiset(l))
  {
    var l' := WrittenStep(Acc(TwoTwo, l), b, c).value.list;
    assert l == l[..2] + l[2..];
    if l[1] == b {
      if l[2] != c {
        assert multiset(l') == multiset(l) + multiset{c};
      }
    } else if l[0] == c {
      if l[3] == b {
        assert multiset(l') == multiset(l);
      } else {
        assert l' == [b] + l;
      }
    } else if l[2] == c {
      assert multiset(l') == multiset(l) + multiset{b};
    } else {
      assert l' == l + [b, c];
    }
  }

  lemma WrittenThreeTwoNoElementLost(l: seq<nat>, b: nat, c: nat)
    requires Inv(Acc(ThreeTwo, l))
    ensures var l' := WrittenStep(Acc(ThreeTwo, l), b, c).value.list;
      multiset(l) <= multiset(l') <= multiset(l) + multiset{b, c} &&
      (|l'| == |l| ==> multiset(l') == multiset(l))
  {
    var l' := WrittenStep(Acc(ThreeTwo, l), b, c).value.list;
    assert l == l[..3] + l[3..];
    if l[2] == b {
      if l[3] != c {
        assert multiset(l') == multiset(l) + multiset{c};
      }
    } else if l[4] == b {
      assert multiset(l') == multiset(l);
    } else {
      assert l' == [b] + l;
    }
  }

  /** `Run` with `WrittenStep`. */
  function WrittenRun(ps: seq<(nat, nat)>): (r: Option<Acc>)
    ensures r.Some? ==> Inv(r.value)
  {
    if ps == [] then Some(Start)
    else
      match WrittenRun(ps[..|ps| - 1])
      case None => None
      case Some(acc) => WrittenStep(acc, ps[|ps| - 1].0, ps[|ps| - 1].1)
  }

  /** The hexagon of neighbours `1 .. 6`, in winding order. */
  const Hexagon: seq<nat> := [1, 2, 3, 4, 5, 6]

  /** The pairs `(1, 2), (4, 5), (5, 6), (2, 3), (3, 4), (6, 1)`: after the
      first two the vertex is in `TwoTwo` with `[1, 2, 4, 5]`, and `(5, 6)`
      starts where the second arc ends. */
  const SecondArcExtended: seq<(nat, nat)> := [(1, 2), (4, 5), (5, 6), (2, 3), (3, 4), (6, 1)]

  /** The pairs `(1, 2), (2, 3), (5, 6), (4, 5), (3, 4), (6, 1)`: after the
      first three the vertex is in `ThreeTwo` with `[1, 2, 3, 5, 6]`, and
      `(4, 5)` ends where the second arc starts. */
  const SecondArcPrepended: seq<(nat, nat)> := [(1, 2), (2, 3), (5, 6), (4, 5), (3, 4), (6, 1)]

  /** The pairs `(1, 2), (2, 3), (4, 5), (5, 6), (6, 1), (3, 4)`: after the
      first three the vertex is in `ThreeTwo` with `[1, 2, 3, 4, 5]`, and
      `(5, 6)` starts where the second arc ends but does not end where the
      first starts. */
  const SecondArcWrapped: seq<(nat, nat)> := [(1, 2), (2, 3), (4, 5), (5, 6), (6, 1), (3, 4)]

  /** The six edges of the hexagon, in winding order. */
  lemma HexagonEdges()
    ensures Distinct(Hexagon)
    ensures Follows(Hexagon, 1, 2) && Follows(Hexagon, 2, 3) && Follows(Hexagon, 3, 4)
    ensures Follows(Hexagon, 4, 5) && Follows(Hexagon, 5, 6) && Follows(Hexagon, 6, 1)
  {
    var H := Hexagon;
    assert H[0] == 1 && H[Succ(0, 6)] == 2;
    assert H[1] == 2 && H[Succ(1, 6)] == 3;
    assert H[2] == 3 && H[Succ(2, 6)] == 4;
    assert H[3] == 4 && H[Succ(3, 6)] == 5;
    assert H[4] == 5 && H[Succ(4, 6)] == 6;
    assert H[5] == 6 && H[Succ(5, 6)] == 1;
  }

  /** Six pairs, each an edge of the hexagon, whose starts are the six
      vertices of the hexagon in some order. */
  lemma HexagonPairs(ps: seq<(nat, nat)>, starts: seq<nat>)
    requires |ps| == 6 && |starts| == 6 && Distinct(starts)
    requires forall i | 0 <= i < 6 :: ps[i].0 == starts[i] && ps[i].1 == (if starts[i] == 6 then 1 else starts[i] + 1)
    requires forall i | 0 <= i < 6 :: 1 <= starts[i] <= 6
    requires forall x | x in Hexagon :: x in starts
    ensures 3 <= |Hexagon| <= CAPACITY && Distinct(Hexagon) && PairsOf(Hexagon, ps)
    ensures forall x | x in Hexagon :: exists i | 0 <= i < |ps| :: ps[i].0 == x
  {
    HexagonEdges();
    forall i | 0 <= i < 6 ensures Follows(Hexagon, ps[i].0, ps[i].1) {
      var x := starts[i];
      assert x == 1 || x == 2 || x == 3 || x == 4 || x == 5 || x == 6;
    }
    forall x | x in Hexagon ensures exists i | 0 <= i < |ps| :: ps[i].0 == x {
      var i :| 0 <= i < 6 && starts[i] == x;
      assert ps[i].0 == x;
    }
  }

  /** Both inputs are the six pairs of the hexagon, once each. */
  lemma CounterexamplesAreHexagons()
    ensures PairsOf(Hexagon, SecondArcExtended) && PairsOf(Hexagon, SecondArcPrepended)
    ensures forall x | x in Hexagon :: exists i | 0 <= i < 6 :: SecondArcExtended[i].0 == x
    ensures forall x | x in Hexagon :: exists i | 0 <= i < 6 :: SecondArcPrepended[i].0 == x
  {
    HexagonPairs(SecondArcExtended, [1, 4, 5, 2, 3, 6]);
    HexagonPairs(SecondArcPrepended, [1, 2, 5, 4, 3, 6]);
  }

  /** One more pair, as written. */
  lemma WrittenRunNext(ps: seq<(nat, nat)>, b: nat, c: nat)
    ensures WrittenRun(ps + [(b, c)]) ==
      match WrittenRun(ps)
      case None => None
      case Some(acc) => WrittenStep(acc, b, c)
  {
    assert (ps + [(b, c)])[..|ps|] == ps;
  }

  /** One more pair, corrected. */
  lemma RunNext(ps: seq<(nat, nat)>, b: nat, c: nat)
    ensures Run(ps + [(b, c)]) ==
      match Run(ps)
      case None => None
      case Some(acc) => Step(acc, b, c)
  {
    assert (ps + [(b, c)])[..|ps|] == ps;
  }

  /** As written, the first input ends `Complete` with 5 twice and without
      3; the corrected machine ends with a rotation of the hexagon. */
  lemma TwoTwoMissesSecondArcEnd()
    ensures WrittenRun(SecondArcExtended) == Some(Acc(Complete, [1, 2, 5, 6, 4, 5]))
    ensures !IsRotation(Hexagon, [1, 2, 5, 6, 4, 5])
    ensures Run(SecondArcExtended) == Some(Acc(Complete, [4, 5, 6, 1, 2, 3]))
  {
    var s0: seq<(nat, nat)> := [];
    var s1 := s0 + [(1, 2)];
    var s2 := s1 + [(4, 5)];
    var s3 := s2 + [(5, 6)];
    var s4 := s3 + [(2, 3)];
    var s5 := s4 + [(3, 4)];
    var s6 := s5 + [(6, 1)];
    assert s6 == SecondArcExtended;
    WrittenRunNext(s0, 1, 2);
    assert WrittenRun(s1) == Some(Acc(Clear, [1, 2]));
    assert [1, 2] + [4, 5] == [1, 2, 4, 5];
    WrittenRunNext(s1, 4, 5);
    assert WrittenRun(s2) == Some(Acc(TwoTwo, [1, 2, 4, 5]));
    assert [1, 2, 4, 5] + [5, 6] == [1, 2, 4, 5, 5, 6];
    WrittenRunNext(s2, 5, 6);
    assert WrittenRun(s3) == Some(Acc(TwoTwoTwo, [1, 2, 4, 5, 5, 6]));
    ghost var l3 := [1, 2, 4, 5, 5, 6];
    assert l3[..2] + l3[4..] + l3[2..4] == [1, 2, 5, 6, 4, 5];
    WrittenRunNext(s3, 2, 3);
    assert WrittenRun(s4) == Some(Acc(Complete, [1, 2, 5, 6, 4, 5]));
    WrittenRunNext(s4, 3, 4);
    assert WrittenRun(s5) == Some(Acc(Complete, [1, 2, 5, 6, 4, 5]));
    WrittenRunNext(s5, 6, 1);
    assert WrittenRun(s6) == Some(Acc(Complete, [1, 2, 5, 6, 4, 5]));
    RunNext(s0, 1, 2);
    assert Run(s1) == Some(Acc(Clear, [1, 2]));
    RunNext(s1, 4, 5);
    assert Run(s2) == Some(Acc(TwoTwo, [1, 2, 4, 5]));
    ghost var m2 := [1, 2, 4, 5];
    assert m2[2..] + [6] + m2[..2] == [4, 5, 6, 1, 2];
    RunNext(s2, 5, 6);
    assert Run(s3) == Some(Acc(ThreeTwo, [4, 5, 6, 1, 2]));
    assert [4, 5, 6, 1, 2] + [3] == [4, 5, 6, 1, 2, 3];
    RunNext(s3, 2, 3);
    assert Run(s4) == Some(Acc(Complete, [4, 5, 6, 1, 2, 3]));
    RunNext(s4, 3, 4);
    assert Run(s5) == Some(Acc(Complete, [4, 5, 6, 1, 2, 3]));
    RunNext(s5, 6, 1);
    assert Run(s6) == Some(Acc(Complete, [4, 5, 6, 1, 2, 3]));
    assert [1, 2, 5, 6, 4, 5][2] == [1, 2, 5, 6, 4, 5][5];
    RotationDistinctOnly([1, 2, 5, 6, 4, 5]);
  }

  /** As written, the second input ends `Complete` with every neighbour
      but out of winding order; the corrected machine ends with the hexagon
      itself. */
  lemma ThreeTwoIgnoresSecondArcStart()
    ensures WrittenRun(SecondArcPrepended) == Some(Acc(Complete, [4, 1, 2, 3, 5, 6]))
    ensures !IsRotation(Hexagon, [4, 1, 2, 3, 5, 6])
    ensures Run(SecondArcPrepended) == Some(Acc(Complete, [1, 2, 3, 4, 5, 6]))
  {
    var s0: seq<(nat, nat)> := [];
    var s1 := s0 + [(1, 2)];
    var s2 := s1 + [(2, 3)];
    var s3 := s2 + [(5, 6)];
    var s4 := s3 + [(4, 5)];
    var s5 := s4 + [(3, 4)];
    var s6 := s5 + [(6, 1)];
    assert s6 == SecondArcPrepended;
    WrittenRunNext(s0, 1, 2);
    assert WrittenRun(s1) == Some(Acc(Clear, [1, 2]));
    assert [1, 2] + [3] == [1, 2, 3];
    WrittenRunNext(s1, 2, 3);
    assert WrittenRun(s2) == Some(Acc(Clear, [1, 2, 3]));
    assert [1, 2, 3] + [5, 6] == [1, 2, 3, 5, 6];
    WrittenRunNext(s2, 5, 6);
    assert WrittenRun(s3) == Some(Acc(ThreeTwo, [1, 2, 3, 5, 6]));
    assert [4] + [1, 2, 3, 5, 6] == [4, 1, 2, 3, 5, 6];
    WrittenRunNext(s3, 4, 5);
    assert WrittenRun(s4) == Some(Acc(Complete, [4, 1, 2, 3, 5, 6]));
    WrittenRunNext(s4, 3, 4);
    assert WrittenRun(s5) == Some(Acc(Complete, [4, 1, 2, 3, 5, 6]));
    WrittenRunNext(s5, 6, 1);
    assert WrittenRun(s6) == Some(Acc(Complete, [4, 1, 2, 3, 5, 6]));
    RunNext(s0, 1, 2);
    assert Run(s1) == Some(Acc(Clear, [1, 2]));
    RunNext(s1, 2, 3);
    assert Run(s2) == Some(Acc(Clear, [1, 2, 3]));
    RunNext(s2, 5, 6);
    assert Run(s3) == Some(Acc(ThreeTwo, [1, 2, 3, 5, 6]));
    ghost var m3 := [1, 2, 3, 5, 6];
    assert m3[..3] + [4] + m3[3..] == [1, 2, 3, 4, 5, 6];
    RunNext(s3, 4, 5);
    assert Run(s4) == Some(Acc(Complete, [1, 2, 3, 4, 5, 6]));
    RunNext(s4, 3, 4);
    assert Run(s5) == Some(Acc(Complete, [1, 2, 3, 4, 5, 6]));
    RunNext(s5, 6, 1);
    assert Run(s6) == Some(Acc(Complete, [1, 2, 3, 4, 5, 6]));
    forall k | 0 <= k < 6 ensures Rotate(Hexagon, k) != [4, 1, 2, 3, 5, 6] {
      if k == 3 {
        assert Rotate(Hexagon, k)[1] == 5;
      } else {
        assert Rotate(Hexagon, k)[0] != 4;
      }
    }
  }

  /** As written, the third input, the closed hexagon fan in another
      order, reaches the `unreachable!()` of the `Clear` arm: `(5, 6)` wraps
      `[1, 2, 3, 4, 5]` into the single arc `[4, 5, 1, 2, 3]`, which
      `(6, 1)` touches at neither end. The corrected machine completes the
      hexagon. */
  lemma ThreeTwoWrapReachesUnreachable()
    ensures PairsOf(Hexagon, SecondArcWrapped)
    ensures forall x | x in Hexagon :: exists i | 0 <= i < 6 :: SecondArcWrapped[i].0 == x
    ensures WrittenRun(SecondArcWrapped).None?
    ensures Run(SecondArcWrapped) == Some(Acc(Complete, [1, 2, 3, 4, 5, 6]))
  {
    HexagonPairs(SecondArcWrapped, [1, 2, 4, 5, 6, 3]);
    var s0: seq<(nat, nat)> := [];
    var s1 := s0 + [(1, 2)];
    var s2 := s1 + [(2, 3)];
    var s3 := s2 + [(4, 5)];
    var s4 := s3 + [(5, 6)];
    var s5 := s4 + [(6, 1)];
    var s6 := s5 + [(3, 4)];
    assert s6 == SecondArcWrapped;
    WrittenRunNext(s0, 1, 2);
    assert WrittenRun(s1) == Some(Acc(Clear, [1, 2]));
    assert [1, 2] + [3] == [1, 2, 3];
    WrittenRunNext(s1, 2, 3);
    assert WrittenRun(s2) == Some(Acc(Clear, [1, 2, 3]));
    assert [1, 2, 3] + [4, 5] == [1, 2, 3, 4, 5];
    WrittenRunNext(s2, 4, 5);
    assert WrittenRun(s3) == Some(Acc(ThreeTwo, [1, 2, 3, 4, 5]));
    ghost var l3 := [1, 2, 3, 4, 5];
    assert l3[3..] + l3[..3] == [4, 5, 1, 2, 3];
    WrittenRunNext(s3, 5, 6);
    assert WrittenRun(s4) == Some(Acc(Clear, [4, 5, 1, 2, 3]));
    WrittenRunNext(s4, 6, 1);
    WrittenRunNext(s5, 3, 4);
    RunNext(s0, 1, 2);
    assert Run(s1) == Some(Acc(Clear, [1, 2]));
    RunNext(s1, 2, 3);
    assert Run(s2) == Some(Acc(Clear, [1, 2, 3]));
    RunNext(s2, 4, 5);
    assert Run(s3) == Some(Acc(ThreeTwo, [1, 2, 3, 4, 5]));
    assert [1, 2, 3, 4, 5] + [6] == [1, 2, 3, 4, 5, 6];
    RunNext(s3, 5, 6);
    assert Run(s4) == Some(Acc(Complete, [1, 2, 3, 4, 5, 6]));
    RunNext(s4, 6, 1);
    RunNext(s5, 3, 4);
  }

  // ---------------------------------------------------------------------
  // Where the arms as written and the corrected arms agree

  /** The step takes one of the corrected branches: in `TwoTwo`, a pair
      that starts at the end of the second arc and touches the first arc at
      neither end; in `ThreeTwo`, a pair past the first case that starts at
      the end of the second arc without ending at the start of the first, or
      that ends at the start of the second arc. */
  predicate Corrected(acc: Acc, b: nat, c: nat)
    requires Inv(acc)
  {
    var l := acc.list;
    (acc.state == TwoTwo && l[1] != b && l[0] != c && l[3] == b) ||
    (acc.state == ThreeTwo && l[2] != b &&
      ((l[4] == b && l[0] != c) || (l[4] != b && l[3] == c)))
  }

  /** Outside the corrected branches the source's `insert` and the corrected
      one are the same transition. */
  lemma WrittenStepAgrees(acc: Acc, b: nat, c: nat)
    requires Inv(acc) && !Corrected(acc, b, c)
    ensures WrittenStep(acc, b, c) == Step(acc, b, c)
  {
  }

  /** No step of the run takes a corrected branch. */
  predicate SourceArmsSuffice(ps: seq<(nat, nat)>)
    decreases |ps|
  {
    ps == [] ||
    (SourceArmsSuffice(ps[..|ps| - 1]) &&
      match Run(ps[..|ps| - 1])
      case None => true
      case Some(acc) => !Corrected(acc, ps[|ps| - 1].0, ps[|ps| - 1].1))
  }

  /** A run that takes no corrected branch is the source's run. */
  lemma {:induction false} WrittenRunAgrees(ps: seq<(nat, nat)>)
    requires SourceArmsSuffice(ps)
    ensures WrittenRun(ps) == Run(ps)
    decreases |ps|
  {
    if ps != [] {
      var front := ps[..|ps| - 1];
      WrittenRunAgrees(front);
      match Run(front)
      case None =>
      case Some(acc) =>
        WrittenStepAgrees(acc, ps[|ps| - 1].0, ps[|ps| - 1].1);
    }
  }

  /** The rotation promise holds for the source as written on every closed
      fan of three to six neighbours whose order of arrival takes no
      corrected branch. */
  lemma WrittenRunRotates(C: seq<nat>, ps: seq<(nat, nat)>)
    requires 3 <= |C| <= CAPACITY && Distinct(C) && PairsOf(C, ps)
    requires forall x | x in C :: exists i | 0 <= i < |ps| :: ps[i].0 == x
    requires SourceArmsSuffice(ps)
    ensures WrittenRun(ps).Some? && WrittenRun(ps).value.state == Complete
    ensures IsRotation(C, WrittenRun(ps).value.list)
  {
    WrittenRunAgrees(ps);
    RunRotates(C, ps);
  }

  // ---------------------------------------------------------------------
  // Scenarios the source handles

  /** The hexagon's triangles in reverse order: the centre receives
      `(6, 1), (5, 6), (4, 5), (3, 4), (2, 3), (1, 2)`. */
  const ReverseHexagon: seq<(nat, nat)> := [(6, 1), (5, 6), (4, 5), (3, 4), (2, 3), (1, 2)]

  /** As written, the reverse-order hexagon grows one arc at its start and
      ends `Complete` with a rotation of the hexagon. */
  lemma ReverseHexagonRotates()
    ensures WrittenRun(ReverseHexagon) == Some(Acc(Complete, [2, 3, 4, 5, 6, 1]))
    ensures IsRotation(Hexagon, [2, 3, 4, 5, 6, 1])
  {
    var s0: seq<(nat, nat)> := [];
    var s1 := s0 + [(6, 1)];
    var s2 := s1 + [(5, 6)];
    var s3 := s2 + [(4, 5)];
    var s4 := s3 + [(3, 4)];
    var s5 := s4 + [(2, 3)];
    var s6 := s5 + [(1, 2)];
    assert s6 == ReverseHexagon;
    WrittenRunNext(s0, 6, 1);
    assert WrittenRun(s1) == Some(Acc(Clear, [6, 1]));
    assert [5] + [6, 1] == [5, 6, 1];
    WrittenRunNext(s1, 5, 6);
    assert WrittenRun(s2) == Some(Acc(Clear, [5, 6, 1]));
    assert [4] + [5, 6, 1] == [4, 5, 6, 1];
    WrittenRunNext(s2, 4, 5);
    assert WrittenRun(s3) == Some(Acc(Clear, [4, 5, 6, 1]));
    assert [3] + [4, 5, 6, 1] == [3, 4, 5, 6, 1];
    WrittenRunNext(s3, 3, 4);
    assert WrittenRun(s4) == Some(Acc(Clear, [3, 4, 5, 6, 1]));
    assert [2] + [3, 4, 5, 6, 1] == [2, 3, 4, 5, 6, 1];
    WrittenRunNext(s4, 2, 3);
    assert WrittenRun(s5) == Some(Acc(Complete, [2, 3, 4, 5, 6, 1]));
    WrittenRunNext(s5, 1, 2);
    assert Rotate(Hexagon, 1) == [2, 3, 4, 5, 6, 1];
  }

  /** Three disjoint arcs `(1, 2), (5, 6), (3, 4)` followed by `(2, 3)`: the
      `TwoTwoTwo` arm trades the second and third arcs and completes the
      hexagon in order. */
  const ThreeArcs: seq<(nat, nat)> := [(1, 2), (5, 6), (3, 4), (2, 3)]

  /** As written, three disjoint arcs and a pair that joins the first to
      the third end `Complete` with the hexagon itself. */
  lemma ThreeArcsReorder()
    ensures WrittenRun(ThreeArcs) == Some(Acc(Complete, [1, 2, 3, 4, 5, 6]))
  {
    var s0: seq<(nat, nat)> := [];
    var s1 := s0 + [(1, 2)];
    var s2 := s1 + [(5, 6)];
    var s3 := s2 + [(3, 4)];
    var s4 := s3 + [(2, 3)];
    assert s4 == ThreeArcs;
    WrittenRunNext(s0, 1, 2);
    assert WrittenRun(s1) == Some(Acc(Clear, [1, 2]));
    assert [1, 2] + [5, 6] == [1, 2, 5, 6];
    WrittenRunNext(s1, 5, 6);
    assert WrittenRun(s2) == Some(Acc(TwoTwo, [1, 2, 5, 6]));
    assert [1, 2, 5, 6] + [3, 4] == [1, 2, 5, 6, 3, 4];
    WrittenRunNext(s2, 3, 4);
    assert WrittenRun(s3) == Some(Acc(TwoTwoTwo, [1, 2, 5, 6, 3, 4]));
    ghost var l3 := [1, 2, 5, 6, 3, 4];
    assert l3[..2] + l3[4..] + l3[2..4] == [1, 2, 3, 4, 5, 6];
    WrittenRunNext(s3, 2, 3);
  }

  /** Five of the hexagon's six edges, in order: an open fan. */
  const OpenFan: seq<(nat, nat)> := [(1, 2), (2, 3), (3, 4), (4, 5), (5, 6)]

  /** An open fan can end `Complete`: one arc that reaches six neighbours
      is `Complete` although the pair `(6, 1)` that would close it never
      came. This holds as written and corrected alike. */
  lemma OpenFanCompletes()
    ensures WrittenRun(OpenFan) == Some(Acc(Complete, [1, 2, 3, 4, 5, 6]))
    ensures Run(OpenFan) == Some(Acc(Complete, [1, 2, 3, 4, 5, 6]))
  {
    var s0: seq<(nat, nat)> := [];
    var s1 := s0 + [(1, 2)];
    var s2 := s1 + [(2, 3)];
    var s3 := s2 + [(3, 4)];
    var s4 := s3 + [(4, 5)];
    var s5 := s4 + [(5, 6)];
    assert s5 == OpenFan;
    assert [1, 2] + [3] == [1, 2, 3];
    assert [1, 2, 3] + [4] == [1, 2, 3, 4];
    assert [1, 2, 3, 4] + [5] == [1, 2, 3, 4, 5];
    assert [1, 2, 3, 4, 5] + [6] == [1, 2, 3, 4, 5, 6];
    WrittenRunNext(s0, 1, 2);
    WrittenRunNext(s1, 2, 3);
    WrittenRunNext(s2, 3, 4);
    WrittenRunNext(s3, 4, 5);
    WrittenRunNext(s4, 5, 6);
    RunNext(s0, 1, 2);
    RunNext(s1, 2, 3);
    RunNext(s2, 3, 4);
    RunNext(s3, 4, 5);
    RunNext(s4, 5, 6);
  }

  /** A list with a repeated vertex is no rotation of the hexagon. */
  lemma RotationDistinctOnly(l: seq<nat>)
    requires !Distinct(l)
    ensures !IsRotation(Hexagon, l)
  {
    forall k | 0 <= k < |Hexagon| ensures l != Rotate(Hexagon, k) {
      HexagonEdges();
      RotationDistinct(Hexagon, k);
    }
  }
}
