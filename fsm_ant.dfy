/** The adapting ant: a two-state machine over the food it carries. While
    it has enough it scouts (as the advanced scouter); once its store runs
    out it starves and gathers (as the gatherer) until it has collected the
    configured minimum again. Each turn it eats in proportion to the trail
    missing under it, drops trail in the same proportion, and harvests the
    food of its square. */
module FSMAntModel {
  import opened Common
  import opened Shared
  import opened Pathing
  import SimulationBoard
  import GathererModel
  import AdvancedScouterModel

  /** What a step costs the ant: Eat * (255 - intensity) / 255. */
  function EatRatio(eat: real, blob: real): real
  {
    eat * (SimulationBoard.MAX_BLOB - blob) / SimulationBoard.MAX_BLOB
  }

  /** On a square of bounded intensity the cost lies in [0, Eat]: all of Eat
      on a square without trail, nothing on a full one. */
  lemma EatRatioRange(eat: real, blob: real)
    requires 0.0 <= eat && SimulationBoard.MIN_BLOB <= blob <= SimulationBoard.MAX_BLOB
    ensures 0.0 <= EatRatio(eat, blob) <= eat
    ensures blob == 0.0 ==> EatRatio(eat, blob) == eat
    ensures blob == SimulationBoard.MAX_BLOB ==> EatRatio(eat, blob) == 0.0
  {
    var f := (SimulationBoard.MAX_BLOB - blob) / SimulationBoard.MAX_BLOB;
    assert EatRatio(eat, blob) == eat * f;
    assert 0.0 <= f <= 1.0;
    assert eat * f <= eat * 1.0 by {
      assert eat * (1.0 - f) >= 0.0 by { NonNeg(eat, 1.0 - f); }
    }
  }

  lemma NonNeg(a: real, b: real)
    requires 0.0 <= a && 0.0 <= b
    ensures 0.0 <= a * b
  {
  }

  /** The store after eating: a starving ant does not eat; otherwise the
      cost is taken off, but the store never goes below 0. */
  function Spent(stored: real, ratio: real, starving: bool): (s: real)
    ensures starving ==> s == stored
    ensures !starving ==> s == MaxR(0.0, stored - ratio)
  {
    if starving then stored else MaxR(0.0, stored - ratio)
  }

  /** What the ant asks of a food square: with a single known food, enough
      to reach Min; otherwise Collect; never more than it can still carry. */
  function Wanted(c: Config, known: int, stored: real): real
  {
    if known == 1 then MinR(c.harvestMin, c.harvestMax - stored)
    else MinR(c.collect, c.harvestMax - stored)
  }

  /** Harvesting never takes the store past Max nor lowers it, and takes at
      most what was wanted. */
  lemma HarvestBounded(c: Config, known: int, stored: real, f: real)
    requires c.HarvestOk() && 0.0 <= stored <= c.harvestMax
    ensures var w := Wanted(c, known, stored);
      var got := SimulationBoard.EatOutcome(f, w).0;
      0.0 <= w && 0.0 <= got <= w && stored + got <= c.harvestMax
  {
    SimulationBoard.EatOutcomeSpec(f, Wanted(c, known, stored));
  }

  /** The state after the store is known: an ant that is not starving
      starts to when its store is exactly 0, and a starving ant stops once
      its store reaches Min. */
  function Starving(starving: bool, stored: real, min: real): (r: bool)
    ensures r && !starving ==> stored == 0.0
    ensures !r && starving ==> stored >= min
    ensures r ==> stored < min
    ensures !r ==> stored >= min || (!starving && stored != 0.0)
  {
    (starving || stored == 0.0) && !(stored >= min)
  }

  class FSMAnt {
    const board: SimulationBoard.Board
    const knowledge: Knowledge
    const config: Config
    const gatherer: GathererModel.Gatherer
    const scouter: AdvancedScouterModel.AdvancedScouter
    var x: int
    var y: int
    var drop: real
    var stored: real
    var starving: bool

    /** Both logics play on the ant's board; the active one stands where
        the ant stands. */
    ghost predicate Valid()
      reads this, board, gatherer, scouter
    {
      board.Valid() && board.Inside(x, y) &&
      gatherer.board == board && scouter.board == board && gatherer.knowledge == knowledge &&
      gatherer.Valid() && scouter.Valid() &&
      (if starving then gatherer.x == x && gatherer.y == y else scouter.x == x && scouter.y == y)
    }

    /** The store lies between 0 and Max, and a starving ant has less than Min. */
    ghost predicate Provisioned()
      reads this
    {
      0.0 <= stored <= config.harvestMax && (starving ==> stored < config.harvestMin)
    }

    /** A new ant carries Min and is not starving; its logics start on its
        square, configured from the Gathering and Scouting entries. */
    constructor (board: SimulationBoard.Board, knowledge: Knowledge, config: Config, x: int, y: int)
      requires board.Valid() && board.Inside(x, y)
      ensures Valid() && (config.HarvestOk() ==> Provisioned())
      ensures this.board == board && this.knowledge == knowledge && this.config == config
      ensures this.x == x && this.y == y && drop == config.dropByEat
      ensures stored == config.harvestMin && !starving
      ensures fresh(gatherer) && fresh(scouter)
      ensures gatherer.x == x && gatherer.y == y && gatherer.goal == None && gatherer.path == []
      ensures gatherer.useDiagonal == config.gatherDiagonal && gatherer.lightCompute == config.gatherLightCompute
      ensures scouter.x == x && scouter.y == y && scouter.goal == None && scouter.path == [] && scouter.state == 0
      ensures scouter.useDiagonal == config.scoutDiagonal && scouter.lightCompute == config.scoutLightCompute
    {
      this.board := board;
      this.knowledge := knowledge;
      this.config := config;
      this.x, this.y := x, y;
      drop := config.dropByEat;
      gatherer := new GathererModel.Gatherer(board, knowledge, config, x, y, config.gatherDiagonal,
                                             config.gatherSightline, config.gatherLightCompute);
      scouter := new AdvancedScouterModel.AdvancedScouter(board, config, x, y, config.scoutDiagonal,
                                                          config.scoutSightline, config.scoutLightCompute);
      stored := config.harvestMin;
      starving := false;
    }

    /** move: only the active logic moves, and the ant takes its position. */
    method Move(draws: seq<nat>, u: real, pick: nat, find: Finder)
      requires Valid() && FinderContract(find)
      requires starving ==> gatherer.Drawable(draws)
      requires !starving ==> scouter.CanAim()
      modifies this, gatherer, scouter
      ensures Valid() && starving == old(starving) && stored == old(stored) && drop == old(drop)
      ensures old(starving) ==>
        unchanged(scouter) && Course((x, y), gatherer.goal, gatherer.path) == old(gatherer.Next(draws, find))
      ensures !old(starving) ==>
        unchanged(gatherer) && Course((x, y), scouter.goal, scouter.path) == old(scouter.Next(pick, find)) &&
        scouter.state == old(scouter.StateAfter(u))
    {
      if starving {
        gatherer.Move(draws, find);
        x, y := gatherer.x, gatherer.y;
      } else {
        scouter.Move(u, pick, find);
        x, y := scouter.x, scouter.y;
      }
    }

    /** init_gathering: the gatherer is reset and put on the ant's square. */
    method InitGathering()
      requires board.Valid() && board.Inside(x, y) && gatherer.Valid() && gatherer.board == board
      modifies gatherer
      ensures gatherer.Valid() && gatherer.goal == None && gatherer.path == []
      ensures gatherer.x == x && gatherer.y == y
    {
      gatherer.Reset();
      gatherer.x, gatherer.y := x, y;
    }

    /** init_scouting: the scouter is reset and put on the ant's square. */
    method InitScouting()
      requires board.Valid() && board.Inside(x, y) && scouter.Valid() && scouter.board == board
      modifies scouter
      ensures scouter.Valid() && scouter.goal == None && scouter.path == []
      ensures scouter.x == x && scouter.y == y && scouter.state == old(scouter.state)
    {
      scouter.Reset();
      scouter.x, scouter.y := x, y;
    }

    /** The store once the ant has eaten this turn. */
    ghost function Fed(): real
      requires Valid()
      reads this, board, board.blob, gatherer, scouter
    {
      Spent(stored, EatRatio(config.eat, board.blob[x, y]), starving)
    }

    /** The harvest of this turn, after eating, empties the ant's food square. */
    ghost predicate Finishes()
      requires Valid()
      reads this, board, board.blob, board.foods, knowledge, gatherer, scouter
    {
      board.HasFood(x, y) &&
      SimulationBoard.EatOutcome(board.foods[x, y], Wanted(config, |knowledge.food|, Fed())).1 <= 0.0
    }

    /** Harvesting with the current store empties the ant's food square. */
    ghost predicate Empties()
      requires Valid()
      reads this, board, board.foods, knowledge, gatherer, scouter
    {
      board.HasFood(x, y) &&
      SimulationBoard.EatOutcome(board.foods[x, y], Wanted(config, |knowledge.food|, stored)).1 <= 0.0
    }

    /** update: eat, harvest, switch state. The source's list.remove fails
        when the emptied square is not listed, so that case is excluded. */
    method Update()
      requires Valid()
      requires Finishes() ==> (x, y) in knowledge.food
      modifies this, board.blob, board.touched, board.foods, knowledge`food, gatherer, scouter
      ensures Valid() && x == old(x) && y == old(y)
      ensures drop == config.dropByEat * EatRatio(config.eat, old(board.blob[x, y]))
      ensures board.touched[x, y] && board.blob[x, y] == SimulationBoard.Clamp(old(board.blob[x, y]) + drop)
      ensures var fed := old(Fed());
        if old(board.HasFood(x, y)) then
          var (got, rest) := SimulationBoard.EatOutcome(old(board.foods[x, y]), Wanted(config, old(|knowledge.food|), fed));
          stored == fed + got && board.foods[x, y] == rest &&
          knowledge.food == (if rest <= 0.0 then RemoveFirst(old(knowledge.food), (x, y)) else old(knowledge.food))
        else
          stored == fed && board.foods[x, y] == old(board.foods[x, y]) && knowledge.food == old(knowledge.food)
      ensures forall i, j :: 0 <= i < board.width && 0 <= j < board.height && (i, j) != (x, y) ==>
        board.blob[i, j] == old(board.blob[i, j]) && board.touched[i, j] == old(board.touched[i, j]) &&
        board.foods[i, j] == old(board.foods[i, j])
      ensures starving == Starving(old(starving), stored, config.harvestMin)
      ensures !old(starving) && stored == 0.0 ==>
        gatherer.x == x && gatherer.y == y && gatherer.goal == None && gatherer.path == []
      ensures (old(starving) || stored == 0.0) && !starving ==>
        scouter.x == x && scouter.y == y && scouter.goal == None && scouter.path == []
      ensures !(!old(starving) && stored == 0.0) ==> unchanged(gatherer)
      ensures !((old(starving) || stored == 0.0) && !starving) ==> unchanged(scouter)
      ensures scouter.state == old(scouter.state)
      ensures config.HarvestOk() && old(board.Bounded()) && old(Provisioned()) ==> Provisioned()
      ensures old(board.Bounded()) ==> board.Bounded()
    {
      Eat();
      Harvest();
      Switch();
    }

    /** Eat and drop trail in proportion to the trail missing under the ant
        (the intensity is read before the drop); a starving ant does not eat. */
    method Eat()
      requires Valid()
      modifies this`drop, this`stored, board.blob, board.touched
      ensures Valid()
      ensures drop == config.dropByEat * EatRatio(config.eat, old(board.blob[x, y]))
      ensures board.touched[x, y] && board.blob[x, y] == SimulationBoard.Clamp(old(board.blob[x, y]) + drop)
      ensures forall i, j :: 0 <= i < board.width && 0 <= j < board.height && (i, j) != (x, y) ==>
        board.blob[i, j] == old(board.blob[i, j]) && board.touched[i, j] == old(board.touched[i, j])
      ensures stored == old(Fed())
      ensures old(board.Bounded()) ==> board.Bounded()
      ensures config.HarvestOk() && old(board.Bounded()) && old(Provisioned()) ==> Provisioned()
    {
      var ratio := EatRatio(config.eat, board.blob[x, y]);
      if config.HarvestOk() && board.Bounded() {
        EatRatioRange(config.eat, board.blob[x, y]);
      }
      DropTrail(ratio);
      Consume(ratio);
    }

    /** The store after eating at the given cost: eating never raises it. */
    method Consume(ratio: real)
      requires Valid()
      modifies this`stored
      ensures stored == Spent(old(stored), ratio, starving)
      ensures 0.0 <= ratio && old(Provisioned()) ==> Provisioned() && stored <= old(stored)
    {
      if !starving {
        stored := MaxR(0.0, stored - ratio);
      }
    }

    /** Drop trail on the ant's square in proportion to the cost. */
    method DropTrail(ratio: real)
      requires Valid()
      modifies this`drop, board.blob, board.touched
      ensures Valid() && drop == config.dropByEat * ratio
      ensures board.touched[x, y] && board.blob[x, y] == SimulationBoard.Clamp(old(board.blob[x, y]) + drop)
      ensures forall i, j :: 0 <= i < board.width && 0 <= j < board.height && (i, j) != (x, y) ==>
        board.blob[i, j] == old(board.blob[i, j]) && board.touched[i, j] == old(board.touched[i, j])
      ensures old(board.Bounded()) ==> board.Bounded()
    {
      drop := config.dropByEat * ratio;
      var _ := board.UpdateBlob(x, y, drop);
    }

    /** Harvest the square's food and forget the square when it is emptied. */
    method Harvest()
      requires Valid()
      requires Empties() ==> (x, y) in knowledge.food
      modifies this, board.foods, knowledge`food
      ensures Valid() && x == old(x) && y == old(y) && starving == old(starving) && drop == old(drop)
      ensures if old(board.HasFood(x, y)) then
          var (got, rest) := SimulationBoard.EatOutcome(old(board.foods[x, y]), Wanted(config, old(|knowledge.food|), old(stored)));
          stored == old(stored) + got && board.foods[x, y] == rest &&
          knowledge.food == (if rest <= 0.0 then RemoveFirst(old(knowledge.food), (x, y)) else old(knowledge.food))
        else
          stored == old(stored) && board.foods[x, y] == old(board.foods[x, y]) && knowledge.food == old(knowledge.food)
      ensures forall i, j :: 0 <= i < board.width && 0 <= j < board.height && (i, j) != (x, y) ==>
        board.foods[i, j] == old(board.foods[i, j])
      ensures config.HarvestOk() && 0.0 <= old(stored) <= config.harvestMax ==> 0.0 <= stored <= config.harvestMax
    {
      if board.HasFood(x, y) {
        var wanted := Wanted(config, |knowledge.food|, stored);
        if config.HarvestOk() && 0.0 <= stored <= config.harvestMax {
          HarvestBounded(config, |knowledge.food|, stored, board.foods[x, y]);
        }
        var received, finished := board.EatFood(x, y, wanted);
        stored := stored + received;
        if finished {
          knowledge.food := RemoveFirst(knowledge.food, (x, y));
        }
      }
    }

    /** Switch state: starve at an empty store (the gatherer restarts on the
        ant's square), stop starving at Min (the scouter restarts there). */
    method Switch()
      requires Valid()
      modifies this, gatherer, scouter
      ensures Valid() && x == old(x) && y == old(y) && stored == old(stored) && drop == old(drop)
      ensures starving == Starving(old(starving), stored, config.harvestMin)
      ensures !old(starving) && stored == 0.0 ==>
        gatherer.x == x && gatherer.y == y && gatherer.goal == None && gatherer.path == []
      ensures (old(starving) || stored == 0.0) && !starving ==>
        scouter.x == x && scouter.y == y && scouter.goal == None && scouter.path == []
      ensures !(!old(starving) && stored == 0.0) ==> unchanged(gatherer)
      ensures !((old(starving) || stored == 0.0) && !starving) ==> unchanged(scouter)
      ensures scouter.state == old(scouter.state)
      ensures 0.0 <= stored <= config.harvestMax ==> Provisioned()
    {
      if stored == 0.0 && !starving {
        starving := true;
        InitGathering();
      }
      if stored >= config.harvestMin && starving {
        starving := false;
        InitScouting();
      }
    }
  }
}
