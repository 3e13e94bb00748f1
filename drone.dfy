/**
 * One drone of the fleet and its perceive, decide and act cycle.
 *
 * A drone stands at (dx, dy). Perceiving fills its view window with the areas
 * around it; deciding picks a target area from the view, the most stale one
 * with ties broken by a random index; acting moves it one unit per axis
 * toward the target and marks the area it reaches as seen.
 */
module Drones {
  import opened Areas
  import opened Scan
  import opened Movement

  class Drone {
    /** Current coordinates of the drone. */
    var dx: int
    var dy: int

    /** The areas perceived in the last perception phase: view[y + R, x + R] is offset (x, y). */
    const view: array2<Option<Area>>

    /** The area the drone moves toward in the action phase, if any. */
    var targetArea: Option<Area>

    /** The area at (dx, dy) as of the drone's last move. */
    var currentArea: Option<Area>

    /** The grid the drone patrols, shared with the rest of the fleet. */
    const world: World

    ghost predicate Valid()
    {
      view.Length0 == Side && view.Length1 == Side
    }

    /** A drone created at (startX, startY) with an empty view and no target. */
    constructor (world: World, startX: int, startY: int)
      ensures Valid() && fresh(view)
      ensures this.world == world && dx == startX && dy == startY
      ensures targetArea == None && currentArea == None
      ensures forall i, j :: 0 <= i < Side && 0 <= j < Side ==> view[i, j] == None
    {
      this.world := world;
      dx, dy := startX, startY;
      view := new Option<Area>[Side, Side]((i, j) => None);
      targetArea, currentArea := None, None;
    }

    function GetX(): int
      reads this
    {
      dx
    }

    function GetY(): int
      reads this
    {
      dy
    }

    function GetCurrentArea(): Option<Area>
      reads this
    {
      currentArea
    }

    /** The view in scan order: entry k is the view at offset (OffsetX(k), OffsetY(k)). */
    ghost function Window(): (w: seq<Option<Area>>)
      requires Valid()
      reads view
      ensures |w| == Cells
    {
      seq(Cells, k requires 0 <= k < Cells reads view => view[k % 5, k / 5])
    }

    /** Entry Index(ox, oy) of the window is the view at offset (ox, oy). */
    lemma WindowEntry(ox: int, oy: int)
      requires Valid()
      requires InWindow(ox) && InWindow(oy)
      ensures 0 <= Index(ox, oy) < Cells
      ensures Window()[Index(ox, oy)] == view[oy + ViewRadius, ox + ViewRadius]
    {
      IndexOffset(ox, oy);
    }

    /** The view holds, for every offset, the grid's area at the drone's position plus that offset. */
    ghost predicate Perceived()
      requires Valid()
      reads this, view, world
    {
      forall i, j :: 0 <= i < Side && 0 <= j < Side ==>
        view[i, j] == world.AreaAt(dx + j - ViewRadius, dy + i - ViewRadius)
    }

    /** Once perceived, window entry Index(ox, oy) is the grid's area at (dx + ox, dy + oy). */
    lemma WindowAt(ox: int, oy: int)
      requires Valid() && Perceived()
      requires InWindow(ox) && InWindow(oy)
      ensures 0 <= Index(ox, oy) < Cells
      ensures Window()[Index(ox, oy)] == world.AreaAt(dx + ox, dy + oy)
    {
      WindowEntry(ox, oy);
    }

    /** Initialisation once the drone is placed: its current area is the one at its position. */
    method OnReady()
      modifies this`currentArea
      ensures currentArea == world.AreaAt(dx, dy)
    {
      currentArea := world.AreaAt(dx, dy);
    }

    /**
     * Perception phase: for every offset (x, y) of the window, record the
     * grid's area at (dx + x, dy + y), None where the grid has no cell.
     */
    method OnPerceive()
      requires Valid()
      modifies view
      ensures Perceived()
    {
      for x := -(ViewRadius as int) to ViewRadius + 1
        invariant forall i, j :: 0 <= i < Side && 0 <= j < x + ViewRadius ==>
          view[i, j] == world.AreaAt(dx + j - ViewRadius, dy + i - ViewRadius)
      {
        for y := -(ViewRadius as int) to ViewRadius + 1
          invariant forall i, j :: 0 <= i < Side && 0 <= j < x + ViewRadius ==>
            view[i, j] == world.AreaAt(dx + j - ViewRadius, dy + i - ViewRadius)
          invariant forall i, j :: 0 <= i < y + ViewRadius && j == x + ViewRadius ==>
            view[i, j] == world.AreaAt(dx + j - ViewRadius, dy + i - ViewRadius)
        {
          view[y + ViewRadius, x + ViewRadius] := world.AreaAt(dx + x, dy + y);
        }
      }
    }

    /**
     * One step of the decision scan, at offset (x, y): a visible cell as stale
     * as the running maximum takes the next row of the tie buffer; a staler
     * one resets the tie counter, becomes the target and raises the maximum.
     * The scan's progress advances by the cell seen.
     */
    method ScanCell(x: int, y: int, tmp0: nat, highest0: nat, matrice: array2<int>, ghost p0: Progress)
      returns (tmp: nat, highest: nat, ghost p: Progress)
      requires Valid() && InWindow(x) && InWindow(y)
      requires matrice.Length0 == TieSlots && matrice.Length1 == 2
      requires Sweep(Window()[..Index(x, y)]) == p0
      requires highest0 == p0.highest && tmp0 == |p0.ties| <= Index(x, y)
      requires matrice[0, 0] == 0 && matrice[0, 1] == 0
      requires forall i :: 1 <= i <= tmp0 ==> matrice[i, 0] == p0.ties[i - 1].0 && matrice[i, 1] == p0.ties[i - 1].1
      requires highest0 > 0 ==> targetArea == world.AreaAt(dx + p0.lead.0, dy + p0.lead.1)
      modifies matrice, this`targetArea
      ensures Sweep(Window()[..Index(x, y) + 1]) == p
      ensures highest == p.highest && highest0 <= highest && tmp == |p.ties| <= Index(x, y) + 1
      ensures matrice[0, 0] == 0 && matrice[0, 1] == 0
      ensures forall i :: 1 <= i <= tmp ==> matrice[i, 0] == p.ties[i - 1].0 && matrice[i, 1] == p.ties[i - 1].1
      ensures highest == highest0 ==> targetArea == old(targetArea)
      ensures highest > 0 ==> targetArea == world.AreaAt(dx + p.lead.0, dy + p.lead.1)
    {
      WindowEntry(x, y);
      SweepNext(Window(), x, y);
      var area := view[y + ViewRadius, x + ViewRadius];
      p := Advance(p0, area, (x, y));
      tmp, highest := tmp0, highest0;
      if area.Some? {
        if area.value.staleness == highest {
          tmp := tmp + 1;
          matrice[tmp, 0] := x;
          matrice[tmp, 1] := y;
        }
        if area.value.staleness > highest {
          tmp := 0;
          targetArea := world.AreaAt(dx + x, dy + y);
          highest := area.value.staleness;
        }
      }
    }

    /**
     * The inner loop of the decision scan: offsets (x, -R) to (x, R) in turn.
     * It carries the scan's progress from the first cell of column x to the
     * first cell of the next column.
     */
    method ScanColumn(x: int, tmp0: nat, highest0: nat, matrice: array2<int>, ghost p0: Progress)
      returns (tmp: nat, highest: nat, ghost p: Progress)
      requires Valid() && InWindow(x)
      requires matrice.Length0 == TieSlots && matrice.Length1 == 2
      requires Sweep(Window()[..Index(x, -(ViewRadius as int))]) == p0
      requires highest0 == p0.highest && tmp0 == |p0.ties| <= Index(x, -(ViewRadius as int))
      requires matrice[0, 0] == 0 && matrice[0, 1] == 0
      requires forall i :: 1 <= i <= tmp0 ==> matrice[i, 0] == p0.ties[i - 1].0 && matrice[i, 1] == p0.ties[i - 1].1
      requires highest0 > 0 ==> targetArea == world.AreaAt(dx + p0.lead.0, dy + p0.lead.1)
      modifies matrice, this`targetArea
      ensures Sweep(Window()[..Index(x + 1, -(ViewRadius as int))]) == p
      ensures highest == p.highest && highest0 <= highest && tmp == |p.ties| <= Index(x + 1, -(ViewRadius as int))
      ensures matrice[0, 0] == 0 && matrice[0, 1] == 0
      ensures forall i :: 1 <= i <= tmp ==> matrice[i, 0] == p.ties[i - 1].0 && matrice[i, 1] == p.ties[i - 1].1
      ensures highest == highest0 ==> targetArea == old(targetArea)
      ensures highest > 0 ==> targetArea == world.AreaAt(dx + p.lead.0, dy + p.lead.1)
    {
      tmp, highest, p := tmp0, highest0, p0;
      for y := -(ViewRadius as int) to ViewRadius + 1
        invariant Index(x, y) <= Cells
        invariant Sweep(Window()[..Index(x, y)]) == p && highest == p.highest && highest0 <= highest
        invariant highest == highest0 ==> targetArea == old(targetArea)
        invariant highest > 0 ==> targetArea == world.AreaAt(dx + p.lead.0, dy + p.lead.1)
        invariant tmp == |p.ties| <= Index(x, y) && matrice[0, 0] == 0 && matrice[0, 1] == 0
        invariant forall i :: 1 <= i <= tmp ==> matrice[i, 0] == p.ties[i - 1].0 && matrice[i, 1] == p.ties[i - 1].1
      {
        tmp, highest, p := ScanCell(x, y, tmp, highest, matrice, p);
      }
    }

    /**
     * The scan of the decision phase: visits the window in scan order keeping
     * the running maximum `highest`, the tie counter `tmp` and the tie buffer
     * `matrice` (offsets of tied cells in rows 1..tmp, row 0 left at (0, 0)),
     * and makes each cell that raises the maximum the target. It ends in the
     * scan's progress Sweep(Window()).
     */
    method ScanView() returns (tmp: nat, highest: nat, matrice: array2<int>)
      requires Valid()
      modifies this`targetArea
      ensures fresh(matrice) && matrice.Length0 == TieSlots && matrice.Length1 == 2
      ensures highest == Sweep(Window()).highest
      ensures tmp == |Sweep(Window()).ties| <= Cells && matrice[0, 0] == 0 && matrice[0, 1] == 0
      ensures forall i :: 1 <= i <= tmp ==>
                matrice[i, 0] == Sweep(Window()).ties[i - 1].0 && matrice[i, 1] == Sweep(Window()).ties[i - 1].1
      ensures highest == 0 ==> targetArea == old(targetArea)
      ensures highest > 0 ==> targetArea == world.AreaAt(dx + Sweep(Window()).lead.0, dy + Sweep(Window()).lead.1)
    {
      ghost var p := Progress(0, [], (0, 0));
      highest := 0;
      tmp := 0;
      matrice := new int[TieSlots, 2]((i, j) => 0);
      for x := -(ViewRadius as int) to ViewRadius + 1
        invariant Index(x, -(ViewRadius as int)) <= Cells
        invariant Sweep(Window()[..Index(x, -(ViewRadius as int))]) == p && highest == p.highest
        invariant highest == 0 ==> targetArea == old(targetArea)
        invariant highest > 0 ==> targetArea == world.AreaAt(dx + p.lead.0, dy + p.lead.1)
        invariant tmp == |p.ties| <= Index(x, -(ViewRadius as int)) && matrice[0, 0] == 0 && matrice[0, 1] == 0
        invariant forall i :: 1 <= i <= tmp ==> matrice[i, 0] == p.ties[i - 1].0 && matrice[i, 1] == p.ties[i - 1].1
      {
        tmp, highest, p := ScanColumn(x, tmp, highest, matrice, p);
      }
      assert Window()[..Cells] == Window();
    }

    /**
     * Decision phase: the scan of the view, then the random index `rand` ==
     * pick(tmp) in [0, tmp] selects the target among the ties. Returns the
     * final tie counter `tmp` and `rand`. The new target is the one named by
     * the scan's outcome, which SweepDecides shows is Decide(Window(), rand)
     * with tmp == TieCount(Window()).
     */
    method OnDecide(pick: nat -> nat) returns (tmp: nat, rand: nat)
      requires Valid()
      requires forall n: nat :: pick(n) <= n
      modifies this`targetArea
      ensures tmp == |Sweep(Window()).ties| && rand == pick(tmp)
      ensures targetArea == match Outcome(Sweep(Window()), rand)
                            case Keep => old(targetArea)
                            case Goto(ox, oy) => world.AreaAt(dx + ox, dy + oy)
    {
      var highest, matrice;
      tmp, highest, matrice := ScanView();
      rand := pick(tmp);
      if tmp > 0 {
        targetArea := world.AreaAt(dx + matrice[rand, 0], dy + matrice[rand, 1]);
      }
    }

    /**
     * When the view was perceived from the current position and the drone's
     * own cell is on the grid, the decision names an area of the grid.
     */
    lemma DecideFindsArea(rand: nat)
      requires Valid() && Perceived()
      requires rand <= TieCount(Window())
      requires Window()[Center].Some?
      ensures Decide(Window(), rand).Goto?
      ensures world.AreaAt(dx + Decide(Window(), rand).ox, dy + Decide(Window(), rand).oy).Some?
    {
      var w := Window();
      DecideTargetVisible(w, rand);
      var d := Decide(w, rand);
      WindowAt(d.ox, d.oy);
    }

    /**
     * When the view was perceived from the current position, the decision
     * names a grid area of maximal staleness in the window, unless a random
     * index of 0 met ties.
     */
    lemma DecideFindsMostStale(rand: nat)
      requires Valid() && Perceived()
      requires rand <= TieCount(Window())
      requires rand > 0 || (TieCount(Window()) == 0 && MaxStaleness(Window()) > 0)
      ensures Decide(Window(), rand).Goto?
      ensures var d := Decide(Window(), rand);
        world.AreaAt(dx + d.ox, dy + d.oy).Some? &&
        world.AreaAt(dx + d.ox, dy + d.oy).value.staleness == MaxStaleness(Window())
    {
      var w := Window();
      DecideMaximal(w, rand);
      var d := Decide(w, rand);
      WindowAt(d.ox, d.oy);
    }

    /**
     * Move one unit per axis toward area `a` and mark the area reached as
     * seen. `ok` is false when the grid has no area at the new position (the
     * source then fails with a null dereference, after updating the position
     * and the current area).
     */
    method MoveToward(a: Area) returns (ok: bool)
      modifies this`dx, this`dy, this`currentArea, world
      ensures (dx, dy) == MoveStep(old((dx, dy)), (a.x, a.y))
      ensures ok == ((dx, dy) in old(world.staleness))
      ensures world.staleness == if ok then old(world.staleness)[(dx, dy) := 0] else old(world.staleness)
      ensures currentArea == world.AreaAt(dx, dy)
      ensures ok ==> currentArea == Some(Area(dx, dy, 0))
    {
      if dx < a.x {
        dx := dx + 1;
      } else if dx > a.x {
        dx := dx - 1;
      }
      if dy < a.y {
        dy := dy + 1;
      } else if dy > a.y {
        dy := dy - 1;
      }
      var reached := world.AreaAt(dx, dy);
      ok := reached.Some?;
      if ok {
        world.Seen(dx, dy);
      }
      currentArea := world.AreaAt(dx, dy);
    }

    /** Action phase: move toward the target if there is one; without a target nothing changes. */
    method OnAct() returns (ok: bool)
      modifies this`dx, this`dy, this`currentArea, world
      ensures targetArea.None? ==>
                ok && dx == old(dx) && dy == old(dy) && currentArea == old(currentArea) &&
                world.staleness == old(world.staleness)
      ensures targetArea.Some? ==>
                (dx, dy) == MoveStep(old((dx, dy)), (targetArea.value.x, targetArea.value.y)) &&
                ok == ((dx, dy) in old(world.staleness)) &&
                world.staleness == (if ok then old(world.staleness)[(dx, dy) := 0] else old(world.staleness)) &&
                currentArea == world.AreaAt(dx, dy)
    {
      ok := true;
      if targetArea.Some? {
        ok := MoveToward(targetArea.value);
      }
    }
  }
}
