/** The per-vertex neighbour-ordering state machine of `rehexed`, as a
    function on values: `Step` is one call of the `insert` closure for one
    vertex, written in terms of the arcs the list holds, and `Run` is the
    sequence of calls that one vertex receives. The imperative `insert`
    (module Rehexed) is proved to compute `Step`.

    `Step` carries two corrections to the `TwoTwo` and `ThreeTwo` arms of
    the source; module AsWritten keeps those arms as written and shows the
    inputs on which they go wrong. */
module Accumulator {
  import opened ArrayVec

  datatype Option<T> = None | Some(value: T)

  /** How many disjoint arcs of a vertex's neighbour cycle are known. */
  datatype RehexState = Empty | Clear | TwoTwo | ThreeTwo | TwoTwoTwo | Complete

  /** One vertex's accumulator: its state and its arcs, concatenated in one
      list (first arc, then second, then third). */
  datatype Acc = Acc(state: RehexState, list: seq<nat>)

  /** The accumulator every vertex starts with. */
  const Start := Acc(Empty, [])

  /** The state and the length of the list stay in step. */
  predicate Inv(acc: Acc) {
    var n := |acc.list|;
    match acc.state
    case Empty => n == 0
    case Clear => 2 <= n <= 5
    case TwoTwo => n == 4
    case ThreeTwo => n == 5
    case TwoTwoTwo => n == 6
    case Complete => 2 <= n <= CAPACITY
  }

  /** A single arc that has just grown by one element: it closes the cycle
      once it holds six. */
  function Grown(l: seq<nat>): Acc {
    Acc(if |l| == CAPACITY then Complete else Clear, l)
  }

  /** In state `TwoTwoTwo`, whether `c` following `b` is one of the three
      junctions of the arcs in the order they are listed. */
  predicate JoinsInOrder(l: seq<nat>, b: nat, c: nat)
    requires |l| == 6
  {
    (l[1] == b && l[2] == c) || (l[3] == b && l[4] == c) || (l[5] == b && l[0] == c)
  }

  /** Records that `c` follows `b` around the vertex. In state `TwoTwo` a
      pair that starts at the end of the second arc extends it
      (`[p0, p1, q0, q1]` becomes `[q0, q1, c, p0, p1]`); in state `ThreeTwo`
      a pair that starts at the end of the second arc only wraps around
      when it ends at the start of the first, and a pair that ends at the
      start of the second arc is put in front of it. `None` is the
      `unreachable!()` of the `Clear` arm: a five-long arc meets a pair that
      touches neither of its ends. */
  function Step(acc: Acc, b: nat, c: nat): (r: Option<Acc>)
    requires Inv(acc)
    ensures r.Some? ==> Inv(r.value)
    ensures r.None? <==>
      acc.state == Clear && |acc.list| == 5 && acc.list[4] != b && acc.list[0] != c
  {
    var l := acc.list;
    match acc.state
    case Complete => Some(acc)
    case Empty => Some(Acc(Clear, [b, c]))
    case Clear =>
      if l[|l| - 1] == b then
        if l[0] == c then Some(Acc(Complete, l)) else Some(Grown(l + [c]))
      else if l[0] == c then Some(Grown([b] + l))
      else if |l| == 2 then Some(Acc(TwoTwo, l + [b, c]))
      else if |l| == 3 then Some(Acc(ThreeTwo, l + [b, c]))
      else if |l| == 4 then Some(Acc(Complete, l + [b, c]))
      else None
    case TwoTwo =>
      if l[1] == b then
        if l[2] == c then Some(Acc(Clear, l)) else Some(Acc(ThreeTwo, l[..2] + [c] + l[2..]))
      else if l[0] == c then
        if l[3] == b then Some(Acc(Clear, l[2..] + l[..2])) else Some(Acc(ThreeTwo, [b] + l))
      else if l[3] == b then Some(Acc(ThreeTwo, l[2..] + [c] + l[..2]))
      else if l[2] == c then Some(Acc(ThreeTwo, [b] + l[2..] + l[..2]))
      else Some(Acc(TwoTwoTwo, l + [b, c]))
    case ThreeTwo =>
      if l[2] == b then
        if l[3] == c then Some(Acc(Clear, l)) else Some(Acc(Complete, l[..3] + [c] + l[3..]))
      else if l[4] == b then
        if l[0] == c then Some(Acc(Clear, l[3..] + l[..3])) else Some(Acc(Complete, l + [c]))
      else if l[3] == c then Some(Acc(Complete, l[..3] + [b] + l[3..]))
      else Some(Acc(Complete, [b] + l))
    case TwoTwoTwo =>
      if JoinsInOrder(l, b, c) then Some(Acc(Complete, l))
      else Some(Acc(Complete, l[..2] + l[4..] + l[2..4]))
  }

  /** The accumulator of a vertex that has received the pairs `ps`, in order,
      starting from `Start`; `None` once a step has failed. */
  function Run(ps: seq<(nat, nat)>): (r: Option<Acc>)
    ensures r.Some? ==> Inv(r.value)
  {
    if ps == [] then Some(Start)
    else
      match Run(ps[..|ps| - 1])
      case None => None
      case Some(acc) => Step(acc, ps[|ps| - 1].0, ps[|ps| - 1].1)
  }

  // ---------------------------------------------------------------------
  // Properties of one step

  /** A `Complete` vertex ignores every further pair. */
  lemma CompleteIsFinal(acc: Acc, b: nat, c: nat)
    requires Inv(acc) && acc.state == Complete
    ensures Step(acc, b, c) == Some(acc)
  {
  }

  /** The first pair becomes the first arc. */
  lemma FirstPair(l: seq<nat>, b: nat, c: nat)
    requires Inv(Acc(Empty, l))
    ensures Step(Acc(Empty, l), b, c) == Some(Acc(Clear, [b, c]))
  {
  }

  /** In state `Clear` a pair that touches an end of the arc closes it, or
      extends it at that end; the arc is complete once it holds six. */
  lemma ClearTouchingEnd(l: seq<nat>, b: nat, c: nat)
    requires Inv(Acc(Clear, l))
    requires l[|l| - 1] == b || l[0] == c
    ensures var r := Step(Acc(Clear, l), b, c);
      r.Some? &&
      (l[|l| - 1] == b && l[0] == c ==> r.value == Acc(Complete, l)) &&
      (l[|l| - 1] == b && l[0] != c ==> r.value.list == l + [c]) &&
      (l[|l| - 1] != b ==> r.value.list == [b] + l) &&
      (r.value.list != l ==> (r.value.state == Complete <==> |r.value.list| == 6)) &&
      (r.value.list != l ==> (r.value.state == Clear <==> |r.value.list| < 6))
  {
  }

  /** In state `Clear` a pair that touches neither end starts a second arc:
      the new state follows the old length (2, 3, 4), and a five-long arc
      is the `unreachable!()` case. */
  lemma ClearDisjointPair(l: seq<nat>, b: nat, c: nat)
    requires Inv(Acc(Clear, l))
    requires l[|l| - 1] != b && l[0] != c
    ensures var r := Step(Acc(Clear, l), b, c);
      (|l| == 5 <==> r.None?) &&
      (r.Some? ==> r.value.list == l + [b, c]) &&
      (r.Some? ==> r.value.state == [TwoTwo, ThreeTwo, Complete][|l| - 2])
  {
  }

  /** Nothing is ever lost: the new list holds the old one and at most `b`
      and `c` besides, and a step that keeps the length only rearranges. */
  lemma NoElementLost(acc: Acc, b: nat, c: nat)
    requires Inv(acc) && Step(acc, b, c).Some?
    ensures var l' := Step(acc, b, c).value.list;
      multiset(acc.list) <= multiset(l') <= multiset(acc.list) + multiset{b, c} &&
      (|l'| == |acc.list| ==> multiset(l') == multiset(acc.list))
  {
    var l := acc.list;
    var l' := Step(acc, b, c).value.list;
    match acc.state
    case Complete =>
    case Empty =>
    case Clear =>
      if l[|l| - 1] == b && l[0] == c {
      } else if l[|l| - 1] == b {
        assert l' == l + [c];
      } else if l[0] == c {
        assert l' == [b] + l;
      } else {
        assert l' == l + [b, c];
      }
    case TwoTwo =>
      TwoTwoNoElementLost(l, b, c);
    case ThreeTwo =>
      ThreeTwoNoElementLost(l, b, c);
    case TwoTwoTwo =>
      if !JoinsInOrder(l, b, c) {
        assert l == l[..2] + l[2..4] + l[4..];
        assert multiset(l') == multiset(l);
      }
  }

  lemma TwoTwoNoElementLost(l: seq<nat>, b: nat, c: nat)
    requires Inv(Acc(TwoTwo, l))
    ensures var l' := Step(Acc(TwoTwo, l), b, c).value.list;
      multiset(l) <= multiset(l') <= multiset(l) + multiset{b, c} &&
      (|l'| == |l| ==> multiset(l') == multiset(l))
  {
    var l' := Step(Acc(TwoTwo, l), b, c).value.list;
    assert l == l[..2] + l[2..];
    if l[1] == b {
      if l[2] != c {
        assert multiset(l') == multiset(l) + multiset{c};
      }
    } else if l[0] == c {
      if l[3] == b {
        assert multiset(l') == multiset(l);
      } else {
        assert l' == [b] + l;
      }
    } else if l[3] == b {
      assert multiset(l') == multiset(l) + multiset{c};
    } else if l[2] == c {
      assert multiset(l') == multiset(l) + multiset{b};
    } else {
      assert l' == l + [b, c];
    }
  }

  lemma ThreeTwoNoElementLost(l: seq<nat>, b: nat, c: nat)
    requires Inv(Acc(ThreeTwo, l))
    ensures var l' := Step(Acc(ThreeTwo, l), b, c).value.list;
      multiset(l) <= multiset(l') <= multiset(l) + multiset{b, c} &&
      (|l'| == |l| ==> multiset(l') == multiset(l))
  {
    var l' := Step(Acc(ThreeTwo, l), b, c).value.list;
    assert l == l[..3] + l[3..];
    if l[2] == b {
      if l[3] != c {
        assert multiset(l') == multiset(l) + multiset{c};
      }
    } else if l[4] == b {
      if l[0] == c {
        assert multiset(l') == multiset(l);
      } else {
        assert l' == l + [c];
      }
    } else if l[3] == c {
      assert multiset(l') == multiset(l) + multiset{b};
    } else {
      assert l' == [b] + l;
    }
  }

  /** In state `TwoTwo`, a pair that joins the end of the second arc to the
      start of the first swaps the arcs: `[p0, p1, q0, q1]` becomes
      `[q0, q1, p0, p1]`, one arc of four. */
  lemma TwoTwoJoinsTail(l: seq<nat>, b: nat, c: nat)
    requires Inv(Acc(TwoTwo, l))
    requires l[1] != b && l[0] == c && l[3] == b
    ensures Step(Acc(TwoTwo, l), b, c) == Some(Acc(Clear, [l[2], l[3], l[0], l[1]]))
  {
    assert l[2..] + l[..2] == [l[2], l[3], l[0], l[1]];
  }

  /** The pair after three disjoint arcs always completes the cycle; unless
      it is one of the junctions of the listed order, the second and third
      arcs trade places. */
  lemma ThreeArcsComplete(l: seq<nat>, b: nat, c: nat)
    requires Inv(Acc(TwoTwoTwo, l))
    ensures var r := Step(Acc(TwoTwoTwo, l), b, c);
      r.Some? && r.value.state == Complete &&
      (JoinsInOrder(l, b, c) ==> r.value.list == l) &&
      (!JoinsInOrder(l, b, c) ==> r.value.list == [l[0], l[1], l[4], l[5], l[2], l[3]])
  {
    assert l[..2] + l[4..] + l[2..4] == [l[0], l[1], l[4], l[5], l[2], l[3]];
  }

  // ---------------------------------------------------------------------
  // Properties of a run

  /** Once a vertex is `Complete`, later pairs change neither its state nor
      its list. */
  lemma {:induction false} CompleteStaysComplete(ps: seq<(nat, nat)>, qs: seq<(nat, nat)>)
    requires Run(ps).Some? && Run(ps).value.state == Complete
    ensures Run(ps + qs) == Run(ps)
    decreases |qs|
  {
    if qs != [] {
      var front := qs[..|qs| - 1];
      assert (ps + qs)[..|ps + qs| - 1] == ps + front;
      CompleteStaysComplete(ps, front);
      assert (ps + qs)[|ps + qs| - 1] == qs[|qs| - 1];
    } else {
      assert ps + qs == ps;
    }
  }

  /** Once a step has failed, the run stays failed. */
  lemma {:induction false} FailureIsFinal(ps: seq<(nat, nat)>, qs: seq<(nat, nat)>)
    requires Run(ps).None?
    ensures Run(ps + qs).None?
    decreases |qs|
  {
    if qs != [] {
      var front := qs[..|qs| - 1];
      assert (ps + qs)[..|ps + qs| - 1] == ps + front;
      FailureIsFinal(ps, front);
    } else {
      assert ps + qs == ps;
    }
  }
}
