/** The neighbours of a vertex, read around it in winding order, form a
    cycle: a sequence of distinct vertices in which each is followed by the
    next and the last by the first. A neighbour list is correct when it is a
    rotation of that cycle. */
module Cycle {

  /** No vertex appears twice. */
  predicate Distinct(s: seq<nat>) {
    forall i, j | 0 <= i < j < |s| :: s[i] != s[j]
  }

  /** The position after `i` around a cycle of `n`. */
  function Succ(i: nat, n: nat): (r: nat)
    requires i < n
    ensures r < n && (r == 0 <==> i == n - 1)
  {
    if i + 1 == n then 0 else i + 1
  }

  /** `c` comes right after `b` around the cycle `s`: the pair a triangle
      around the centre contributes. */
  predicate Follows(s: seq<nat>, b: nat, c: nat) {
    exists i | 0 <= i < |s| :: s[i] == b && s[Succ(i, |s|)] == c
  }

  /** The cycle read from position `k` on. */
  function Rotate(s: seq<nat>, k: nat): (r: seq<nat>)
    requires k <= |s|
    ensures |r| == |s|
    ensures forall i | 0 <= i < |s| - k :: r[i] == s[k + i]
    ensures forall i | |s| - k <= i < |s| :: r[i] == s[k + i - |s|]
  {
    s[k..] + s[..k]
  }

  /** `l` is `s` read from one of its positions on. */
  predicate IsRotation(s: seq<nat>, l: seq<nat>) {
    exists k | 0 <= k < |s| :: l == Rotate(s, k)
  }

  /** Reading a cycle from its start gives the cycle. */
  lemma RotateZero(s: seq<nat>)
    requires |s| > 0
    ensures IsRotation(s, s)
  {
    assert s == Rotate(s, 0);
  }

  /** A rotation holds the same vertices, none twice. */
  lemma RotationDistinct(s: seq<nat>, k: nat)
    requires Distinct(s) && k <= |s|
    ensures Distinct(Rotate(s, k))
    ensures forall x :: x in Rotate(s, k) <==> x in s
  {
    var r := Rotate(s, k);
    forall x | x in s ensures x in r {
      var i :| 0 <= i < |s| && s[i] == x;
      if i < k {
        assert r[i + |s| - k] == x;
      } else {
        assert r[i - k] == x;
      }
    }
  }

  /** Rotating a rotation gives a rotation of the original. */
  lemma RotateRotation(s: seq<nat>, r: seq<nat>, k: nat)
    requires IsRotation(s, r) && k < |r|
    ensures IsRotation(s, Rotate(r, k))
  {
    var j :| 0 <= j < |s| && r == Rotate(s, j);
    var n := |s|;
    var t := if j + k < n then j + k else j + k - n;
    var x := Rotate(r, k);
    var y := Rotate(s, t);
    forall i | 0 <= i < n ensures x[i] == y[i] {
      var p := if k + i < n then k + i else k + i - n;
      assert x[i] == r[p];
      var q := if j + p < n then j + p else j + p - n;
      assert r[p] == s[q];
      assert y[i] == s[if t + i < n then t + i else t + i - n];
    }
    assert x == y;
  }

  /** Following is a property of the cycle, not of where it is read from. */
  lemma RotationFollows(s: seq<nat>, r: seq<nat>, b: nat, c: nat)
    requires IsRotation(s, r) && Follows(s, b, c)
    ensures Follows(r, b, c)
  {
    var j :| 0 <= j < |s| && r == Rotate(s, j);
    var n := |s|;
    var i :| 0 <= i < n && s[i] == b && s[Succ(i, n)] == c;
    var e := if i >= j then i - j else i + n - j;
    assert r[e] == b;
    assert r[Succ(e, n)] == c;
  }

  /** A rotation holds the vertices of the cycle. */
  lemma RotationMembers(s: seq<nat>, r: seq<nat>)
    requires IsRotation(s, r) && Distinct(s)
    ensures Distinct(r)
    ensures forall x :: x in r <==> x in s
  {
    var j :| 0 <= j < |s| && r == Rotate(s, j);
    RotationDistinct(s, j);
  }
}
