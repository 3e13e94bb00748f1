/**
 * Grid movement of a drone: per axis, one unit toward the target per cycle,
 * both axes at once (a diagonal step is one move). The functions here are the
 * specification of `Drone.MoveToward`; the lemmas say where repeated moves
 * toward a fixed target lead.
 */
module Movement {

  /** Distance between two coordinates on one axis. */
  function Dist(a: int, b: int): nat
  {
    if a < b then b - a else a - b
  }

  function Max(a: nat, b: nat): nat
  {
    if a < b then b else a
  }

  /**
   * One axis of a move from coordinate `c` toward `t`. It moves by at most one
   * unit, stays between `c` and `t` (no overshoot), and, unless already there,
   * brings the coordinate exactly one unit closer.
   */
  function Step(c: int, t: int): (r: int)
    ensures Dist(r, c) <= 1
    ensures c <= r <= t || t <= r <= c
    ensures c == t ==> r == c
    ensures c != t ==> Dist(r, t) == Dist(c, t) - 1
  {
    if c < t then c + 1 else if c > t then c - 1 else c
  }

  /** Chebyshev distance: the larger of the two axis distances. */
  function Chebyshev(p: (int, int), t: (int, int)): nat
  {
    Max(Dist(p.0, t.0), Dist(p.1, t.1))
  }

  /** One move of a drone at `p` toward `t`: both axes step independently. */
  function MoveStep(p: (int, int), t: (int, int)): (q: (int, int))
    ensures Chebyshev(q, p) <= 1
    ensures p == t ==> q == p
    ensures p != t ==> Chebyshev(q, t) == Chebyshev(p, t) - 1
  {
    (Step(p.0, t.0), Step(p.1, t.1))
  }

  /** The position after `n` moves from `p` toward the fixed target `t`. */
  function Moves(p: (int, int), t: (int, int), n: nat): (int, int)
    decreases n
  {
    if n == 0 then p else Moves(MoveStep(p, t), t, n - 1)
  }

  /** After `n` moves toward a fixed target, the remaining distance has dropped by `n`, down to 0. */
  lemma {:induction false} MovesDistance(p: (int, int), t: (int, int), n: nat)
    ensures Chebyshev(Moves(p, t, n), t) == if n < Chebyshev(p, t) then Chebyshev(p, t) - n else 0
    decreases n
  {
    if n > 0 {
      MovesDistance(MoveStep(p, t), t, n - 1);
      if p == t {
        assert MoveStep(p, t) == p;
      }
    }
  }

  /** Once at the target, further moves keep the drone there. */
  lemma MovesStayAtTarget(t: (int, int), n: nat)
    ensures Moves(t, t, n) == t
  {
    MovesDistance(t, t, n);
  }

  /**
   * Moving one area per cycle, a drone reaches a fixed target after exactly
   * Chebyshev(p, t) moves: not earlier, and it is there at that move.
   */
  lemma ReachesAfterChebyshev(p: (int, int), t: (int, int))
    ensures Moves(p, t, Chebyshev(p, t)) == t
    ensures forall n: nat :: n < Chebyshev(p, t) ==> Moves(p, t, n) != t
  {
    MovesDistance(p, t, Chebyshev(p, t));
    var q := Moves(p, t, Chebyshev(p, t));
    assert Dist(q.0, t.0) == 0 && Dist(q.1, t.1) == 0;
    forall n: nat | n < Chebyshev(p, t)
      ensures Moves(p, t, n) != t
    {
      MovesDistance(p, t, n);
    }
  }
}
