/** The policy of MyQMindTester.cs: perceive a state from the grid, pick the first
    best action of the table, and move one cell. The grid is a parameter: the world
    queries the tester makes (`NextCell`, `Walkable`, the Manhattan distance) are
    functions of the `World` value. */
module Tester {
  import opened Wrappers
  import opened QTableData
  import opened QTable

  /** `CellInfo` as the tester sees it: integer grid coordinates and walkability. */
  datatype Cell = Cell(x: int, y: int, walkable: bool)

  /** The four `Directions` of the grid. */
  datatype Direction = Up | Right | Down | Left

  /** The world queries: the neighbour of a cell in a direction, and the Manhattan
      distance between two cells. */
  datatype World = World(nextCell: (Cell, Direction) -> Cell, distance: (Cell, Cell) -> real)

  /** `GetIsWalkable`: whether the neighbour in `dir` can be entered. */
  function GetIsWalkable(w: World, cell: Cell, dir: Direction): bool {
    w.nextCell(cell, dir).walkable
  }

  /** `GetOtherIsInDirection`: a strict comparison of one coordinate. Up holds
      when `cell.y < other.y`, Right when `cell.x < other.x`, Down and Left for
      the reverse comparisons. */
  function GetOtherIsInDirection(cell: Cell, other: Cell, dir: Direction): bool {
    match dir
    case Up => cell.y < other.y
    case Right => cell.x < other.x
    case Down => cell.y > other.y
    case Left => cell.x > other.x
  }

  function Opposite(dir: Direction): Direction {
    match dir
    case Up => Down
    case Right => Left
    case Down => Up
    case Left => Right
  }

  /** Seen from the other cell, `cell` lies in the opposite direction. */
  lemma InDirectionSymmetric(cell: Cell, other: Cell, dir: Direction)
    ensures GetOtherIsInDirection(cell, other, dir) == GetOtherIsInDirection(other, cell, Opposite(dir))
  {
  }

  /** Opposite directions exclude each other, and no direction holds exactly when
      the two cells share their coordinates. */
  lemma InDirectionExclusive(cell: Cell, other: Cell)
    ensures !(GetOtherIsInDirection(cell, other, Up) && GetOtherIsInDirection(cell, other, Down))
    ensures !(GetOtherIsInDirection(cell, other, Right) && GetOtherIsInDirection(cell, other, Left))
    ensures (forall d :: !GetOtherIsInDirection(cell, other, d)) <==> cell.x == other.x && cell.y == other.y
  {
    if cell.x != other.x {
      assert GetOtherIsInDirection(cell, other, Right) || GetOtherIsInDirection(cell, other, Left);
    } else if cell.y != other.y {
      assert GetOtherIsInDirection(cell, other, Up) || GetOtherIsInDirection(cell, other, Down);
    }
  }

  /** The thresholds of `GetOtherDistance`: `Far` from 10 on, `Middle` from 5 on,
      `Close` below 5. */
  function DistanceBucket(d: real): (b: Distance)
    ensures b == Far <==> d >= 10.0
    ensures b == Middle <==> 5.0 <= d < 10.0
    ensures b == Close <==> d < 5.0
  {
    if d >= 10.0 then Far else if d >= 5.0 then Middle else Close
  }

  /** A farther distance never gets a closer bucket. */
  lemma DistanceBucketMonotone(d: real, e: real)
    requires d <= e
    ensures DistanceBucket(d) <= DistanceBucket(e)
  {
  }

  /** `GetOtherDistance`: the bucket of the Manhattan distance between the cells. */
  function GetOtherDistance(w: World, cell: Cell, other: Cell): Distance {
    DistanceBucket(w.distance(cell, other))
  }

  /** `GetState`: the four walkable flags, the four direction flags and the distance
      bucket, in the order of the `QTableState` constructor. */
  function GetState(w: World, cell: Cell, other: Cell): (s: State)
    ensures s.northWalkable == w.nextCell(cell, Up).walkable
    ensures s.eastWalkable == w.nextCell(cell, Right).walkable
    ensures s.southWalkable == w.nextCell(cell, Down).walkable
    ensures s.westWalkable == w.nextCell(cell, Left).walkable
    ensures s.enemyNorth <==> cell.y < other.y
    ensures s.enemyEast <==> cell.x < other.x
    ensures s.enemySouth <==> cell.y > other.y
    ensures s.enemyWest <==> cell.x > other.x
    ensures s.distance == DistanceBucket(w.distance(cell, other))
  {
    State(
      GetIsWalkable(w, cell, Up),
      GetIsWalkable(w, cell, Right),
      GetIsWalkable(w, cell, Down),
      GetIsWalkable(w, cell, Left),
      GetOtherIsInDirection(cell, other, Up),
      GetOtherIsInDirection(cell, other, Right),
      GetOtherIsInDirection(cell, other, Down),
      GetOtherIsInDirection(cell, other, Left),
      GetOtherDistance(w, cell, other))
  }

  /** Every state `GetState` builds is consistent: never both north and south or
      both east and west, and a distance that is one of the three named buckets. */
  lemma GetStateConsistent(w: World, cell: Cell, other: Cell)
    ensures var s := GetState(w, cell, other);
            && !(s.enemyNorth && s.enemySouth) && !(s.enemyEast && s.enemyWest)
            && (s.distance == Close || s.distance == Middle || s.distance == Far)
  {
  }

  /** The directions `MoveAgent` indexes by the action ordinal. */
  const MoveDirections: seq<Direction> := [Up, Right, Down, Left]

  /** The direction of an action: north is up, east right, south down, west left. */
  function DirectionOf(a: Action): (d: Direction)
    ensures d == MoveDirections[Ordinal(a)]
  {
    match a
    case GoNorth => Up
    case GoEast => Right
    case GoSouth => Down
    case GoWest => Left
  }

  /** Each action moves in its own direction, and the actions in ordinal order move
      up, right, down and left. */
  lemma DirectionOfBijective()
    ensures forall a, b :: DirectionOf(a) == DirectionOf(b) ==> a == b
    ensures forall i :: 0 <= i < 4 ==> DirectionOf(Actions[i]) == MoveDirections[i]
  {
    ActionsByOrdinal();
  }

  /** `MoveAgent`: the neighbour in the action's direction, or `null` (`None`) when
      that neighbour cannot be entered. */
  function MoveAgent(w: World, cell: Cell, a: Action): (next: Option<Cell>)
    ensures next.Some? <==> GetIsWalkable(w, cell, DirectionOf(a))
    ensures next.Some? ==> next.value == w.nextCell(cell, DirectionOf(a)) && next.value.walkable
  {
    var n := w.nextCell(cell, MoveDirections[Ordinal(a)]);
    if n.walkable then Some(n) else None
  }

  /** `GetNextStep`: perceive the state, ask the table for its first best action
      (which stores a zero row for a state never seen), and move. */
  method GetNextStep(w: World, t: Table, cell: Cell, other: Cell) returns (next: Option<Cell>, t': Table)
    ensures t'.Keys == t.Keys + {GetState(w, cell, other)}
    ensures forall k :: k in t ==> t'[k] == t[k]
    ensures GetState(w, cell, other) in t ==> t' == t
    ensures GetState(w, cell, other) !in t ==> t'[GetState(w, cell, other)] == ZeroRow
    ensures next == MoveAgent(w, cell, BestAction(t'[GetState(w, cell, other)]))
    ensures next.Some? ==> next.value.walkable
    ensures GetState(w, cell, other) !in t ==> next == MoveAgent(w, cell, GoNorth)
  {
    var state := GetState(w, cell, other);
    var action;
    action, t' := GetBestAction(t, state);
    FirstBestUnique(t'[state], action, BestAction(t'[state]));
    next := MoveAgent(w, cell, action);
  }
}
