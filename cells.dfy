/**
 * The contents of one maze tile (struct Wall) and the text symbols that
 * produce it.
 */
module Cells {

  /** WallType; `Empty` is the source's WallType::None. */
  datatype WallType = Empty | Destructible | Solid | Exit

  /** WallAttribute; `Plain` is the source's WallAttribute::None. */
  datatype WallAttribute = Plain | Gold | Heal | Explosive

  /** roundedCorners[0..3]: top-left, top-right, bottom-right, bottom-left. */
  datatype Corners = Corners(topLeft: bool, topRight: bool, bottomRight: bool, bottomLeft: bool)

  const NoCorners: Corners := Corners(false, false, false, false)

  datatype Cell = Cell(kind: WallType, attribute: WallAttribute, health: real, maxHealth: real, corners: Corners)

  /** The tile kinds of a maze as a value, indexed by row and then column. */
  type Tiles = seq<seq<WallType>>

  /** A default-constructed Wall: no wall, no attribute, zero health. */
  const DefaultCell: Cell := Cell(Empty, Plain, 0.0, 0.0, NoCorners)

  /** Full health of every destructible tile when it is loaded. */
  const WallHealth: real := 100.0

  /** Maze::isWall on an in-bounds tile. */
  predicate IsWallKind(k: WallType) {
    k == Solid || k == Destructible
  }

  /** Maze::isWalkable on an in-bounds tile. */
  predicate IsWalkableKind(k: WallType) {
    k == Empty || k == Exit
  }

  /** The tiles whose rounded corners Maze::calculateRoundedCorners sets. */
  predicate HasCornerFlags(k: WallType) {
    k == Solid || k == Destructible || k == Exit
  }

  /** The destructible tile a symbol loads as. */
  function DestructibleOf(a: WallAttribute): Cell {
    DefaultCell.(kind := Destructible, attribute := a, health := WallHealth, maxHealth := WallHealth)
  }

  /** The switch in Maze::loadFromString: a default Wall with the fields that symbol sets. */
  function CellOf(ch: char): Cell {
    match ch
    case '#' => DefaultCell.(kind := Solid)
    case '*' => DestructibleOf(Plain)
    case 'G' => DestructibleOf(Gold)
    case 'H' => DestructibleOf(Heal)
    case 'B' => DestructibleOf(Explosive)
    case 'E' => DefaultCell.(kind := Exit)
    case _ => DefaultCell
  }

  /** The symbol mapping, stated kind by kind. */
  lemma CellOfKinds(ch: char)
    ensures CellOf(ch).kind == Solid <==> ch == '#'
    ensures CellOf(ch).kind == Destructible <==> ch in {'*', 'G', 'H', 'B'}
    ensures CellOf(ch).kind == Exit <==> ch == 'E'
    ensures CellOf(ch).kind == Empty <==> ch !in {'#', '*', 'G', 'H', 'B', 'E'}
    ensures CellOf(ch).kind == Destructible ==>
      CellOf(ch).health == WallHealth && CellOf(ch).maxHealth == WallHealth
    ensures CellOf(ch).attribute ==
      (if ch == 'G' then Gold else if ch == 'H' then Heal else if ch == 'B' then Explosive else Plain)
    ensures CellOf(ch).corners == NoCorners
  {
  }
}
