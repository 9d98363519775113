/**
 * The empty life grid of the home screen: 90 years of 12 months, every
 * cell unset.
 */
module Home {

  /** A grid cell: `None` is JavaScript's `null`, the unset cell. */
  datatype Option<T> = None | Some(value: T)

  const Years := 90
  const MonthsPerYear := 12

  /** The number of cells in a grid of rows. */
  function CellCount<T>(grid: seq<seq<T>>): nat {
    if grid == [] then 0 else |grid[0]| + CellCount(grid[1..])
  }

  /** generateEmptyGrid: one row per year, each a fresh row of twelve unset
      cells. */
  function GenerateEmptyGrid<T>(): (grid: seq<seq<Option<T>>>)
    ensures |grid| == Years
    ensures forall y :: 0 <= y < |grid| ==> |grid[y]| == MonthsPerYear
    ensures forall y, m :: 0 <= y < |grid| && 0 <= m < |grid[y]| ==> grid[y][m].None?
  {
    seq(Years, _ => seq(MonthsPerYear, _ => None))
  }

  /** A grid whose rows all have `width` cells holds rows times width cells. */
  lemma {:induction false} CellCountOfRectangle<T>(grid: seq<seq<T>>, width: nat)
    requires forall y :: 0 <= y < |grid| ==> |grid[y]| == width
    ensures CellCount(grid) == |grid| * width
  {
    if grid != [] {
      CellCountOfRectangle(grid[1..], width);
    }
  }

  /** The empty grid holds 90 * 12 = 1080 months. */
  lemma EmptyGridCellCount<T>()
    ensures CellCount(GenerateEmptyGrid<T>()) == 1080
  {
    CellCountOfRectangle(GenerateEmptyGrid<T>(), MonthsPerYear);
  }
}
