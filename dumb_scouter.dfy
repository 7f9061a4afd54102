/** The random walker: each turn it proposes a step of at most one square in
    each coordinate and keeps it only when it stays on the board. */
module DumbScouterModel {
  import opened Common
  import opened Shared
  import SimulationBoard

  class DumbScouter {
    const board: SimulationBoard.Board
    var x: int
    var y: int
    const drop: real

    ghost predicate Valid()
      reads this, board
    {
      board.Valid() && board.Inside(x, y)
    }

    /** The drop is the configured "Drop by eat". */
    constructor (board: SimulationBoard.Board, config: Config, x: int, y: int)
      requires board.Valid() && board.Inside(x, y)
      ensures Valid() && this.board == board && this.x == x && this.y == y
      ensures drop == config.dropByEat
    {
      this.board := board;
      this.x := x;
      this.y := y;
      drop := config.dropByEat;
    }

    /** An agent of the older manager, which hands every agent the same
        drop value of its own. */
    constructor WithDrop(board: SimulationBoard.Board, x: int, y: int, drop: real)
      requires board.Valid() && board.Inside(x, y)
      ensures Valid() && this.board == board && this.x == x && this.y == y && this.drop == drop
    {
      this.board := board;
      this.x := x;
      this.y := y;
      this.drop := drop;
    }

    /** One random step: dx and dy are the two draws of randint(-1, 1). */
    method Move(dx: int, dy: int)
      requires Valid() && -1 <= dx <= 1 && -1 <= dy <= 1
      modifies this
      ensures Valid()
      ensures board.Inside(old(x) + dx, old(y) + dy) ==> x == old(x) + dx && y == old(y) + dy
      ensures !board.Inside(old(x) + dx, old(y) + dy) ==> x == old(x) && y == old(y)
      ensures -1 <= x - old(x) <= 1 && -1 <= y - old(y) <= 1
    {
      var nx, ny := x + dx, y + dy;
      if board.Inside(nx, ny) {
        x, y := nx, ny;
      }
    }

    /** Drops the trail on the agent's own square and nowhere else. */
    method Update()
      requires Valid()
      modifies board.blob, board.touched
      ensures Valid()
      ensures board.touched[x, y] && board.blob[x, y] == SimulationBoard.Clamp(old(board.blob[x, y]) + drop)
      ensures forall i, j :: 0 <= i < board.width && 0 <= j < board.height && (i, j) != (x, y) ==>
        board.blob[i, j] == old(board.blob[i, j]) && board.touched[i, j] == old(board.touched[i, j])
      ensures old(board.Bounded()) ==> board.Bounded()
    {
      var _ := board.UpdateBlob(x, y, drop);
    }
  }
}
