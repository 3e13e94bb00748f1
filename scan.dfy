/**
 * The decision rule of a drone, as a specification over its view window.
 *
 * The window is read in the drone's fixed scan order: offset x from -R to R in
 * the outer loop, offset y from -R to R in the inner loop. Entry k of the
 * window (a sequence of Cells entries) is the area at offset (OffsetX(k),
 * OffsetY(k)) from the drone, or None where the grid has no cell.
 *
 * The scan keeps a running maximum that starts at 0 and a counter `tmp` of
 * offsets tied with it, stored from slot 1 of a 26-slot buffer upward; a
 * strictly greater staleness resets the counter and makes that cell the
 * target. Slot 0 is never written, so it always holds offset (0, 0).
 */
module Scan {
  import opened Areas

  /*
   * The sizes below are written out as literals for R = 2 (rather than as
   * products of other constants) so that the index arithmetic stays linear;
   * WindowSizes checks them against R.
   */

  /** Drone.VIEW_RADIUS. */
  const ViewRadius: nat := 2
  /** Width of the square window, 2R + 1. */
  const Side: nat := 5
  /** Number of offsets in the window. */
  const Cells: nat := 25
  /** Rows of the tie buffer `matrice`. */
  const TieSlots: nat := 26

  /** What the decision phase does with the target. */
  datatype Decision = Keep | Goto(ox: int, oy: int)

  predicate InWindow(o: int)
  {
    -(ViewRadius as int) <= o <= ViewRadius
  }

  /** Position of offset (ox, oy) in scan order: (ox + R) * Side + (oy + R). */
  function Index(ox: int, oy: int): int
  {
    (ox + ViewRadius) * 5 + (oy + ViewRadius)
  }

  function OffsetX(k: nat): int
  {
    k / 5 - ViewRadius
  }

  function OffsetY(k: nat): int
  {
    k % 5 - ViewRadius
  }

  /** Scan position of the drone's own cell, offset (0, 0). */
  const Center: nat := 12

  lemma WindowSizes()
    ensures Side == 2 * ViewRadius + 1 && Cells == Side * Side && TieSlots == Cells + 1
    ensures Center == Index(0, 0)
  {
  }

  /** Index and offsets are inverse: scan position k is offset (OffsetX(k), OffsetY(k)). */
  lemma IndexOffset(ox: int, oy: int)
    requires InWindow(ox) && InWindow(oy)
    ensures 0 <= Index(ox, oy) < Cells
    ensures OffsetX(Index(ox, oy)) == ox && OffsetY(Index(ox, oy)) == oy
  {
  }

  lemma OffsetIndex(k: nat)
    requires k < Cells
    ensures InWindow(OffsetX(k)) && InWindow(OffsetY(k))
    ensures Index(OffsetX(k), OffsetY(k)) == k
  {
  }


  /**
   * The final value of the running maximum: the largest staleness of a
   * visible cell, or 0 when no cell is visible or every visible cell has
   * staleness 0 (the scan starts its maximum at 0).
   */
  function MaxStaleness(w: seq<Option<Area>>): nat
  {
    if w == [] then 0
    else
      var m := MaxStaleness(w[..|w| - 1]);
      match w[|w| - 1]
      case Some(a) => if a.staleness > m then a.staleness else m
      case None => m
  }

  /** MaxStaleness bounds every visible cell and, when positive, is the staleness of one of them. */
  lemma {:induction false} MaxStalenessIsMax(w: seq<Option<Area>>)
    ensures forall k :: 0 <= k < |w| && w[k].Some? ==> w[k].value.staleness <= MaxStaleness(w)
    ensures MaxStaleness(w) > 0 ==> exists k :: 0 <= k < |w| && w[k].Some? && w[k].value.staleness == MaxStaleness(w)
  {
    if w != [] {
      var n := |w| - 1;
      var p := w[..n];
      MaxStalenessIsMax(p);
      assert forall k :: 0 <= k < n ==> w[k] == p[k];
      if MaxStaleness(w) > 0 && MaxStaleness(w) == MaxStaleness(p) {
        var k :| 0 <= k < n && p[k].Some? && p[k].value.staleness == MaxStaleness(p);
        assert w[k] == p[k];
      }
    }
  }

  /** The scan positions of the visible cells whose staleness is `m`, in scan order. */
  function Ties(w: seq<Option<Area>>, m: nat): (t: seq<nat>)
    ensures |t| <= |w|
  {
    if w == [] then []
    else
      var last := |w| - 1;
      var t := Ties(w[..last], m);
      if w[last].Some? && w[last].value.staleness == m then t + [last] else t
  }

  /**
   * Ties(w, m) lists exactly the visible cells of staleness `m`, each once,
   * in increasing scan order.
   */
  lemma {:induction false} TiesSpec(w: seq<Option<Area>>, m: nat)
    ensures forall i :: 0 <= i < |Ties(w, m)| ==>
              Ties(w, m)[i] < |w| && w[Ties(w, m)[i]].Some? && w[Ties(w, m)[i]].value.staleness == m
    ensures forall i, j :: 0 <= i < j < |Ties(w, m)| ==> Ties(w, m)[i] < Ties(w, m)[j]
    ensures forall k :: 0 <= k < |w| && w[k].Some? && w[k].value.staleness == m ==> k in Ties(w, m)
  {
    if w != [] {
      var n := |w| - 1;
      var p := w[..n];
      TiesSpec(p, m);
      assert forall k :: 0 <= k < n ==> w[k] == p[k];
    }
  }

  /** Without a visible cell of staleness `m` there are no ties at `m`. */
  lemma {:induction false} NoTies(w: seq<Option<Area>>, m: nat)
    requires forall k :: 0 <= k < |w| && w[k].Some? ==> w[k].value.staleness != m
    ensures Ties(w, m) == []
  {
    if w != [] {
      NoTies(w[..|w| - 1], m);
    }
  }

  /** Cells after position n that are not tied at `m` add nothing to the ties at `m`. */
  lemma {:induction false} TiesBefore(w: seq<Option<Area>>, m: nat, n: nat)
    requires n <= |w|
    requires forall k :: n <= k < |w| && w[k].Some? ==> w[k].value.staleness != m
    ensures Ties(w, m) == Ties(w[..n], m)
    decreases |w|
  {
    if |w| > n {
      TiesBefore(w[..|w| - 1], m, n);
      assert w[..|w| - 1][..n] == w[..n];
    } else {
      assert w[..n] == w;
    }
  }

  /** A strictly positive maximal staleness has at least one tie. */
  lemma {:induction false} MaxIsTied(w: seq<Option<Area>>)
    ensures MaxStaleness(w) > 0 ==> |Ties(w, MaxStaleness(w))| > 0
  {
    var m := MaxStaleness(w);
    if m > 0 {
      MaxStalenessIsMax(w);
      TiesSpec(w, m);
      var k :| 0 <= k < |w| && w[k].Some? && w[k].value.staleness == m;
      assert k in Ties(w, m);
    }
  }

  /**
   * The scan positions the decision scan leaves in slots 1..tmp of its tie
   * buffer, in slot order: the visible cells at the final maximum in scan
   * order, except that with a positive maximum the first of them is not
   * stored (it reset the counter instead). With maximum 0 every visible cell
   * is stored.
   */
  function Slots(w: seq<Option<Area>>): (s: seq<nat>)
    ensures |s| <= |w|
  {
    var m := MaxStaleness(w);
    var t := Ties(w, m);
    if m == 0 then t else MaxIsTied(w); t[1..]
  }

  /** Every filled slot of the tie buffer holds a visible cell at the final maximum. */
  lemma SlotsSpec(w: seq<Option<Area>>)
    ensures forall i :: 0 <= i < |Slots(w)| ==>
              Slots(w)[i] < |w| && w[Slots(w)[i]].Some? && w[Slots(w)[i]].value.staleness == MaxStaleness(w)
  {
    var m := MaxStaleness(w);
    TiesSpec(w, m);
    MaxIsTied(w);
    var t := Ties(w, m);
    if m > 0 {
      assert forall i :: 0 <= i < |t| - 1 ==> Slots(w)[i] == t[i + 1];
    }
  }

  /** The final value of `tmp`: the number of filled slots of the tie buffer, never more than the window size. */
  function TieCount(w: seq<Option<Area>>): (n: nat)
    ensures n <= |w|
  {
    |Slots(w)|
  }

  /** The scan ends with no tie and maximum 0 exactly when no cell of the window is visible. */
  lemma {:induction false} NothingVisible(w: seq<Option<Area>>)
    ensures (TieCount(w) == 0 && MaxStaleness(w) == 0) <==> forall k :: 0 <= k < |w| ==> w[k].None?
  {
    MaxStalenessIsMax(w);
    if forall k :: 0 <= k < |w| ==> w[k].None? {
      NoTies(w, 0);
    } else if MaxStaleness(w) == 0 {
      TiesSpec(w, 0);
      var k :| 0 <= k < |w| && w[k].Some?;
      assert k in Ties(w, 0);
    }
  }

  /** The scan position in slot i (1 <= i <= tmp) of the tie buffer. */
  function Candidate(w: seq<Option<Area>>, i: nat): nat
    requires 1 <= i <= TieCount(w)
  {
    Slots(w)[i - 1]
  }

  /** The first cell of the scan reaching a positive maximum; the scan makes it the target. */
  function Leader(w: seq<Option<Area>>): nat
    requires MaxStaleness(w) > 0
  {
    MaxIsTied(w);
    Ties(w, MaxStaleness(w))[0]
  }

  /** The leader is a visible cell at the maximum, and every visible cell before it is less stale. */
  lemma LeaderSpec(w: seq<Option<Area>>)
    requires MaxStaleness(w) > 0
    ensures Leader(w) < |w| && w[Leader(w)].Some? && w[Leader(w)].value.staleness == MaxStaleness(w)
    ensures forall j :: 0 <= j < Leader(w) && w[j].Some? ==> w[j].value.staleness < MaxStaleness(w)
  {
    var m := MaxStaleness(w);
    MaxIsTied(w);
    MaxStalenessIsMax(w);
    TiesSpec(w, m);
    var t := Ties(w, m);
    // A cell at the maximum before t[0] would be a tie listed ahead of the first one.
    forall j | 0 <= j < t[0] && w[j].Some? && w[j].value.staleness == m
      ensures false
    {
    }
  }

  /**
   * The outcome of the decision phase for window `w` when the random index is
   * `rand` (0 <= rand <= tmp): with ties, the offset in buffer slot `rand`,
   * which for rand == 0 is the drone's own offset (0, 0); without ties, the
   * first maximal cell if the maximum is positive; otherwise the target is
   * kept.
   */
  function Decide(w: seq<Option<Area>>, rand: nat): Decision
    requires |w| == Cells
    requires rand <= TieCount(w)
  {
    if TieCount(w) > 0 then
      if rand == 0 then Goto(0, 0)
      else
        var k := Candidate(w, rand);
        Goto(OffsetX(k), OffsetY(k))
    else if MaxStaleness(w) > 0 then
      var k := Leader(w);
      Goto(OffsetX(k), OffsetY(k))
    else
      Keep
  }

  /*
   * One more cell of the scan, in terms of what the scan keeps: the running
   * maximum, the filled slots of the tie buffer and the first maximal cell.
   */

  /** An absent cell, or one less stale than the running maximum, changes nothing. */
  lemma ScanSkip(w: seq<Option<Area>>, n: nat)
    requires n < |w|
    requires w[n].None? || w[n].value.staleness < MaxStaleness(w[..n])
    ensures MaxStaleness(w[..n + 1]) == MaxStaleness(w[..n])
    ensures Slots(w[..n + 1]) == Slots(w[..n])
    ensures MaxStaleness(w[..n]) > 0 ==> Leader(w[..n + 1]) == Leader(w[..n])
  {
    var p, q := w[..n], w[..n + 1];
    assert q[..n] == p;
    assert Ties(q, MaxStaleness(p)) == Ties(p, MaxStaleness(p));
  }

  /** A cell as stale as the running maximum goes into the next slot of the tie buffer. */
  lemma ScanTie(w: seq<Option<Area>>, n: nat)
    requires n < |w|
    requires w[n].Some? && w[n].value.staleness == MaxStaleness(w[..n])
    ensures MaxStaleness(w[..n + 1]) == MaxStaleness(w[..n])
    ensures Slots(w[..n + 1]) == Slots(w[..n]) + [n]
    ensures MaxStaleness(w[..n]) > 0 ==> Leader(w[..n + 1]) == Leader(w[..n])
  {
    var p, q := w[..n], w[..n + 1];
    assert q[..n] == p;
    var m := MaxStaleness(p);
    assert MaxStaleness(q) == m;
    var t := Ties(p, m);
    assert Ties(q, m) == t + [n];
    if m > 0 {
      MaxIsTied(p);
      DropFirstAppend(t, n);
    }
  }

  lemma DropFirstAppend(t: seq<nat>, x: nat)
    requires |t| > 0
    ensures (t + [x])[1..] == t[1..] + [x]
  {
  }

  /** A cell staler than the running maximum empties the tie buffer and becomes the first maximal cell. */
  lemma ScanLead(w: seq<Option<Area>>, n: nat)
    requires n < |w|
    requires w[n].Some? && w[n].value.staleness > MaxStaleness(w[..n])
    ensures MaxStaleness(w[..n + 1]) == w[n].value.staleness
    ensures Slots(w[..n + 1]) == []
    ensures Leader(w[..n + 1]) == n
  {
    var p, q := w[..n], w[..n + 1];
    assert q[..n] == p;
    var s := w[n].value.staleness;
    MaxStalenessIsMax(p);
    NoTies(p, s);
    assert Ties(q, s) == [n];
  }

  /**
   * What the decision scan carries from one cell to the next: the running
   * maximum, the offsets stored in slots 1..tmp of the tie buffer, and the
   * offset of the cell that last raised the maximum.
   */
  datatype Progress = Progress(highest: nat, ties: seq<(int, int)>, lead: (int, int))

  /**
   * The scan's treatment of cell `cell` at offset `o`: an equally stale cell
   * takes the next slot, a staler one restarts the slots and becomes the
   * lead, anything else changes nothing.
   */
  function Advance(p: Progress, cell: Option<Area>, o: (int, int)): Progress
  {
    match cell
    case None => p
    case Some(a) =>
      if a.staleness == p.highest then p.(ties := p.ties + [o])
      else if a.staleness > p.highest then Progress(a.staleness, [], o)
      else p
  }

  /** The scan's progress after the cells of `w`, starting from maximum 0 and no slots. */
  function Sweep(w: seq<Option<Area>>): Progress
  {
    if w == [] then Progress(0, [], (0, 0))
    else
      var n := |w| - 1;
      Advance(Sweep(w[..n]), w[n], (OffsetX(n), OffsetY(n)))
  }

  /** The offsets of a list of scan positions. */
  function OffsetsOf(s: seq<nat>): (o: seq<(int, int)>)
    ensures |o| == |s|
    ensures forall i :: 0 <= i < |s| ==> o[i] == (OffsetX(s[i]), OffsetY(s[i]))
  {
    if s == [] then [] else OffsetsOf(s[..|s| - 1]) + [(OffsetX(s[|s| - 1]), OffsetY(s[|s| - 1]))]
  }

  /** Visiting offset (ox, oy) of a full window advances the scan by the cell there. */
  lemma SweepNext(w: seq<Option<Area>>, ox: int, oy: int)
    requires |w| == Cells && InWindow(ox) && InWindow(oy)
    ensures 0 <= Index(ox, oy) < Cells
    ensures Sweep(w[..Index(ox, oy) + 1]) == Advance(Sweep(w[..Index(ox, oy)]), w[Index(ox, oy)], (ox, oy))
  {
    IndexOffset(ox, oy);
    var n := Index(ox, oy);
    assert w[..n + 1][..n] == w[..n];
  }

  lemma OffsetsOfAppend(s: seq<nat>, k: nat)
    ensures OffsetsOf(s + [k]) == OffsetsOf(s) + [(OffsetX(k), OffsetY(k))]
  {
    assert (s + [k])[..|s|] == s;
  }

  /** The scan's progress after cell n, in terms of its progress before it. */
  lemma SweepPrefix(w: seq<Option<Area>>, n: nat)
    requires n < |w|
    ensures Sweep(w[..n + 1]) == Advance(Sweep(w[..n]), w[n], (OffsetX(n), OffsetY(n)))
  {
    assert w[..n + 1][..n] == w[..n];
  }

  /** The scan matches the decision rule on the first n cells. */
  predicate SweepMatches(w: seq<Option<Area>>, n: nat)
    requires n <= |w|
  {
    Sweep(w[..n]).highest == MaxStaleness(w[..n]) &&
    Sweep(w[..n]).ties == OffsetsOf(Slots(w[..n])) &&
    (MaxStaleness(w[..n]) > 0 ==> Sweep(w[..n]).lead == (OffsetX(Leader(w[..n])), OffsetY(Leader(w[..n]))))
  }

  lemma SweepSkipStep(w: seq<Option<Area>>, n: nat)
    requires n < |w| && SweepMatches(w, n)
    requires w[n].None? || w[n].value.staleness < MaxStaleness(w[..n])
    ensures SweepMatches(w, n + 1)
  {
    SweepPrefix(w, n);
    ScanSkip(w, n);
  }

  lemma SweepTieStep(w: seq<Option<Area>>, n: nat)
    requires n < |w| && SweepMatches(w, n)
    requires w[n].Some? && w[n].value.staleness == MaxStaleness(w[..n])
    ensures SweepMatches(w, n + 1)
  {
    SweepPrefix(w, n);
    ScanTie(w, n);
    OffsetsOfAppend(Slots(w[..n]), n);
  }

  lemma SweepLeadStep(w: seq<Option<Area>>, n: nat)
    requires n < |w| && SweepMatches(w, n)
    requires w[n].Some? && w[n].value.staleness > MaxStaleness(w[..n])
    ensures SweepMatches(w, n + 1)
  {
    SweepPrefix(w, n);
    ScanLead(w, n);
  }

  /**
   * The scan computes the decision rule: its running maximum is the largest
   * staleness in view, its slots hold the offsets of Slots(w), and once the
   * maximum is positive its lead is the offset of the first maximal cell.
   */
  lemma {:induction false} SweepSpec(w: seq<Option<Area>>)
    ensures Sweep(w).highest == MaxStaleness(w)
    ensures Sweep(w).ties == OffsetsOf(Slots(w))
    ensures MaxStaleness(w) > 0 ==> Sweep(w).lead == (OffsetX(Leader(w)), OffsetY(Leader(w)))
  {
    if w != [] {
      var n := |w| - 1;
      SweepSpec(w[..n]);
      assert w[..n][..n] == w[..n];
      if w[n].None? || w[n].value.staleness < MaxStaleness(w[..n]) {
        SweepSkipStep(w, n);
      } else if w[n].value.staleness == MaxStaleness(w[..n]) {
        SweepTieStep(w, n);
      } else {
        SweepLeadStep(w, n);
      }
      assert w[..n + 1] == w;
    }
  }

  /**
   * The decision a final progress `p` of the scan leads to for random index
   * `rand`: slot `rand` of the tie buffer when there are ties (slot 0 being
   * offset (0, 0)), otherwise the lead when the maximum is positive,
   * otherwise no new target.
   */
  function Outcome(p: Progress, rand: nat): Decision
    requires rand <= |p.ties|
  {
    if |p.ties| > 0 then
      if rand == 0 then Goto(0, 0) else Goto(p.ties[rand - 1].0, p.ties[rand - 1].1)
    else if p.highest > 0 then Goto(p.lead.0, p.lead.1)
    else Keep
  }

  /** The scan's final tie counter is TieCount(w), and its outcome is the decision rule's. */
  lemma SweepDecides(w: seq<Option<Area>>, rand: nat)
    requires |w| == Cells && rand <= |Sweep(w).ties|
    ensures |Sweep(w).ties| == TieCount(w)
    ensures Decide(w, rand) == Outcome(Sweep(w), rand)
  {
    SweepSpec(w);
  }


  /**
   * Most stale wins: unless the random index is 0 while ties exist, the
   * decision goes to a visible cell of the window whose staleness is the
   * maximum over the whole window.
   */
  lemma DecideMaximal(w: seq<Option<Area>>, rand: nat)
    requires |w| == Cells && rand <= TieCount(w)
    requires rand > 0 || (TieCount(w) == 0 && MaxStaleness(w) > 0)
    ensures Decide(w, rand).Goto?
    ensures var d := Decide(w, rand);
      InWindow(d.ox) && InWindow(d.oy) &&
      w[Index(d.ox, d.oy)].Some? && w[Index(d.ox, d.oy)].value.staleness == MaxStaleness(w)
    ensures forall k :: 0 <= k < |w| && w[k].Some? ==> w[k].value.staleness <= MaxStaleness(w)
  {
    MaxStalenessIsMax(w);
    if TieCount(w) > 0 {
      SlotsSpec(w);
      OffsetIndex(Candidate(w, rand));
    } else {
      LeaderSpec(w);
      OffsetIndex(Leader(w));
    }
  }

  /**
   * When the drone's own cell is on the grid, the decision always names a
   * target, and that target is a visible cell of the window.
   */
  lemma DecideTargetVisible(w: seq<Option<Area>>, rand: nat)
    requires |w| == Cells && rand <= TieCount(w)
    requires w[Center].Some?
    ensures Decide(w, rand).Goto?
    ensures var d := Decide(w, rand);
      InWindow(d.ox) && InWindow(d.oy) && w[Index(d.ox, d.oy)].Some?
  {
    NothingVisible(w);
    if TieCount(w) > 0 {
      if rand == 0 {
        IndexOffset(0, 0);
      } else {
        SlotsSpec(w);
        OffsetIndex(Candidate(w, rand));
      }
    } else {
      LeaderSpec(w);
      OffsetIndex(Leader(w));
    }
  }

  /** The target is kept exactly when no cell of the window is on the grid. */
  lemma DecideKeeps(w: seq<Option<Area>>, rand: nat)
    requires |w| == Cells && rand <= TieCount(w)
    ensures Decide(w, rand) == Keep <==> forall k :: 0 <= k < |w| ==> w[k].None?
  {
    NothingVisible(w);
  }

  /**
   * A single strictly positive most stale cell leaves no ties (tmp == 0) and
   * is the decision, whatever the random index.
   */
  lemma UniqueMaximum(w: seq<Option<Area>>, k: nat)
    requires |w| == Cells && k < |w|
    requires w[k].Some? && w[k].value.staleness > 0
    requires forall j :: 0 <= j < |w| && j != k && w[j].Some? ==> w[j].value.staleness < w[k].value.staleness
    ensures TieCount(w) == 0
    ensures Decide(w, 0) == Goto(OffsetX(k), OffsetY(k))
  {
    MaxStalenessIsMax(w);
    var m := MaxStaleness(w);
    assert m == w[k].value.staleness;
    TiesBefore(w, m, k + 1);
    NoTies(w[..k], m);
    assert w[..k + 1][..k] == w[..k];
    assert Ties(w, m) == [k];
  }

  /**
   * Which cells of maximal staleness the random index can reach: each buffer
   * slot 1..tmp holds a different cell, and a maximal cell is in some slot
   * unless it is the first cell that reached a positive maximum, which only
   * the no-tie case selects.
   */
  lemma TieSlotsReach(w: seq<Option<Area>>, k: nat)
    requires k < |w| && w[k].Some? && w[k].value.staleness == MaxStaleness(w)
    ensures forall i, j :: 1 <= i < j <= TieCount(w) ==> Candidate(w, i) != Candidate(w, j)
    ensures (exists i :: 1 <= i <= TieCount(w) && Candidate(w, i) == k) <==>
            (MaxStaleness(w) == 0 || k != Leader(w))
  {
    var m := MaxStaleness(w);
    var t := Ties(w, m);
    TiesSpec(w, m);
    assert k in t;
    var j :| 0 <= j < |t| && t[j] == k;
    if m == 0 {
      assert Candidate(w, j + 1) == k;
    } else {
      MaxIsTied(w);
      if j > 0 {
        assert Candidate(w, j) == k;
      } else {
        assert Leader(w) == k;
        forall i | 1 <= i <= TieCount(w)
          ensures Candidate(w, i) != k
        {
          assert t[0] < t[i];
        }
      }
    }
  }

  /**
   * Slot 0 of the tie buffer is never written, so a random index of 0 with
   * ties present selects the drone's own cell, which need not be among the
   * most stale: here two cells of staleness 1 tie while the drone's own cell
   * has staleness 0.
   */
  lemma RandZeroPicksOwnCell()
    ensures TieCount(TwoStaleCells()) == 1
    ensures Decide(TwoStaleCells(), 0) == Goto(0, 0)
    ensures TwoStaleCells()[Center].value.staleness < MaxStaleness(TwoStaleCells())
  {
    var w := TwoStaleCells();
    TwoStaleMaximum();
    TwoStaleTies();
    assert TieCount(w) == 1;
  }

  /**
   * Why the drone's own cell must be on the grid for the decision to name an
   * area: with ties and a random index of 0 the decision is offset (0, 0)
   * even when that cell is absent. Here the own cell is off the grid, the
   * first two cells in scan order tie at staleness 1 and the rest are 0.
   */
  lemma RandZeroOwnCellOffGrid()
    ensures OwnCellOffGrid()[Center].None?
    ensures TieCount(OwnCellOffGrid()) == 1
    ensures Decide(OwnCellOffGrid(), 0) == Goto(0, 0)
  {
    var w := OwnCellOffGrid();
    MaxStalenessIsMax(w);
    assert w[0].Some? && w[0].value.staleness == 1;
    assert MaxStaleness(w) == 1;
    TiesBefore(w, 1, 2);
    assert w[..2][..1] == w[..1];
    assert w[..1][..0] == [];
    assert Ties(w, 1) == [0, 1];
  }

  /** TwoStaleCells with the drone's own cell removed from the grid. */
  function OwnCellOffGrid(): (w: seq<Option<Area>>)
    ensures |w| == Cells
  {
    seq(Cells, k requires 0 <= k < Cells =>
      if k == Center then None else Some(Area(OffsetX(k), OffsetY(k), if k < 2 then 1 else 0)))
  }

  lemma TwoStaleMaximum()
    ensures MaxStaleness(TwoStaleCells()) == 1
  {
    var w := TwoStaleCells();
    MaxStalenessIsMax(w);
    assert w[0].Some? && w[0].value.staleness == 1;
    assert forall k :: 0 <= k < |w| ==> w[k].Some? && w[k].value.staleness <= 1;
  }

  lemma TwoStaleTies()
    ensures Ties(TwoStaleCells(), 1) == [0, 1]
  {
    var w := TwoStaleCells();
    TiesBefore(w, 1, 2);
    assert w[..2][..1] == w[..1];
    assert w[..1][..0] == [];
  }

  /** A window where every cell is visible and only the first two in scan order have staleness 1. */
  function TwoStaleCells(): (w: seq<Option<Area>>)
    ensures |w| == Cells
    ensures w[Center] == Some(Area(0, 0, 0))
  {
    seq(Cells, k requires 0 <= k < Cells => Some(Area(OffsetX(k), OffsetY(k), if k < 2 then 1 else 0)))
  }
}
