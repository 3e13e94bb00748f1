/**
 * The grid the drones patrol. An area is one cell of the grid with its
 * staleness (ticks since a drone last saw it). The world owns every area and
 * answers lookups by coordinate; a coordinate outside the grid has no area.
 */
module Areas {

  /** A value that may be absent; stands for a Java reference that may be null. */
  datatype Option<T> = None | Some(value: T)

  /** One grid cell as a drone observes it: its coordinates and its staleness. */
  datatype Area = Area(x: int, y: int, staleness: nat)

  /**
   * The shared grid. `staleness` holds one entry per existing area, keyed by
   * its coordinates; the keys never change, only the staleness values do.
   */
  class World {
    var staleness: map<(int, int), nat>

    constructor (cells: map<(int, int), nat>)
      ensures staleness == cells
    {
      staleness := cells;
    }

    /** The area at (x, y), or None when the grid has no cell there. */
    function AreaAt(x: int, y: int): Option<Area>
      reads this
    {
      if (x, y) in staleness then Some(Area(x, y, staleness[(x, y)])) else None
    }

    /** A drone has just visited the area at (x, y): its staleness drops to 0. */
    method Seen(x: int, y: int)
      requires (x, y) in staleness
      modifies this
      ensures staleness == old(staleness)[(x, y) := 0]
      ensures staleness.Keys == old(staleness).Keys
      ensures AreaAt(x, y) == Some(Area(x, y, 0))
    {
      staleness := staleness[(x, y) := 0];
    }
  }
}
