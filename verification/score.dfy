/** The laid-out score as the overlays read it: the MeasureList grid (one row per measure
    index, one entry per staff group) and the systems of the first page. Layout itself is
    computed elsewhere; here its results are plain values. */
module Score {
  import opened Common

  datatype StaffLine = StaffLine(relY: real, staffHeight: real)

  /** A music system: its Id, absolute position, width, stave lines top to bottom, and the
      absolute x of every measure on it, grouped as its GraphicalMeasures are. */
  datatype MusicSystem = MusicSystem(id: int, x: real, y: real, width: real,
                                     staffLines: seq<StaffLine>, measureXs: seq<seq<real>>)

  /** The VexFlow stave of a measure: its x and width in unzoomed pixels. */
  datatype Stave = Stave(x: real, width: real)

  /** A staff entry: its absolute position and the absolute x of each of its voice entries. */
  datatype StaffEntry = StaffEntry(x: real, y: real, voiceXs: seq<real>)

  /** A graphical measure. `parent` is the system it was laid out on. */
  datatype Measure = Measure(number: int, x: real, y: real, stave: Option<Stave>,
                             entries: seq<StaffEntry>, parent: MusicSystem)

  datatype Score = Score(grid: seq<seq<Measure>>, systems: seq<MusicSystem>)

  /** Layout units to pixels: `v * 10.0 * zoom`. */
  function Scale(v: real, zoom: real): real {
    v * 10.0 * zoom
  }

  /** `MeasureList[m][g]`, dereferenced. */
  function MeasureAt(sc: Score, m: int, g: int): (r: Result<Measure>)
    ensures r.Ok? <==> 0 <= m < |sc.grid| && 0 <= g < |sc.grid[m]|
    ensures r.Ok? ==> r.value == sc.grid[m][g]
    ensures r.Err? ==> r.error == TypeError
  {
    var row :- Deref(sc.grid, m);
    Deref(row, g)
  }

  /** `MeasureList[m].last()`, dereferenced: the measure of the last staff group. */
  function LastOfRow(sc: Score, m: int): (r: Result<Measure>)
    ensures r.Ok? <==> 0 <= m < |sc.grid| && |sc.grid[m]| > 0
    ensures r.Ok? ==> r.value == sc.grid[m][|sc.grid[m]| - 1]
    ensures r.Err? ==> r.error == TypeError
  {
    var row :- Deref(sc.grid, m);
    Deref(row, |row| - 1)
  }

  /** `MeasureList[m][g].staffEntries[s]`, dereferenced. */
  function EntryAt(sc: Score, m: int, g: int, s: int): (r: Result<StaffEntry>)
    ensures r.Ok? <==> 0 <= m < |sc.grid| && 0 <= g < |sc.grid[m]| && 0 <= s < |sc.grid[m][g].entries|
    ensures r.Ok? ==> r.value == sc.grid[m][g].entries[s]
  {
    var meas :- MeasureAt(sc, m, g);
    Deref(meas.entries, s)
  }

  /** The rows of the grid laid end to end: the order of `for (row of grid) for (item of row)`. */
  function Flatten(grid: seq<seq<Measure>>): (r: seq<Measure>)
  {
    if grid == [] then [] else grid[0] + Flatten(grid[1..])
  }

  /** A measure is visited by the double loop exactly when it sits somewhere in the grid. */
  lemma {:induction false} FlattenMembers(grid: seq<seq<Measure>>)
    ensures forall x :: x in Flatten(grid) <==>
      exists i, j :: 0 <= i < |grid| && 0 <= j < |grid[i]| && grid[i][j] == x
  {
    if grid != [] {
      FlattenMembers(grid[1..]);
      forall x | x in Flatten(grid)
        ensures exists i, j :: 0 <= i < |grid| && 0 <= j < |grid[i]| && grid[i][j] == x
      {
        if x in grid[0] {
          var j :| 0 <= j < |grid[0]| && grid[0][j] == x;
          assert grid[0][j] == x;
        } else {
          assert Flatten(grid) == grid[0] + Flatten(grid[1..]);
          assert x in Flatten(grid[1..]);
          var i, j :| 0 <= i < |grid[1..]| && 0 <= j < |grid[1..][i]| && grid[1..][i][j] == x;
          assert grid[i + 1][j] == x;
        }
      }
      forall x | exists i, j :: 0 <= i < |grid| && 0 <= j < |grid[i]| && grid[i][j] == x
        ensures x in Flatten(grid)
      {
        var i, j :| 0 <= i < |grid| && 0 <= j < |grid[i]| && grid[i][j] == x;
        if i > 0 {
          assert grid[1..][i - 1][j] == x;
        } else {
          assert grid[0][j] == x;
        }
      }
    }
  }
}
