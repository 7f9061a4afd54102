/** The older colony manager (simulation/logic/main.py, class Blob_Manager):
    a list of agents that walk the simulation board, the known-food list and
    the target population. Discovering food raises the target and adds an
    agent on the spot; agents that fail to move are replaced.

    The source builds its agents with five arguments, which the current
    FSMAnt does not take; the agents are modelled as the random walkers of
    DumbScouterModel carrying the manager's own drop value. */
module LegacyManagerModel {
  import opened Common
  import opened Shared
  import SimulationBoard
  import DumbScouterModel

  type Ant = DumbScouterModel.DumbScouter

  /** Blob_Manager.DROP_VALUE: the trail every agent drops per move. */
  const DROP_VALUE: real := 25.0

  /** The squares the agents stand on, in order. */
  ghost function Places(s: seq<Ant>): (at: seq<Cell>)
    reads set a | a in s
    ensures |at| == |s| && forall j :: 0 <= j < |s| ==> at[j] == (s[j].x, s[j].y)
  {
    if s == [] then [] else [(s[0].x, s[0].y)] + Places(s[1..])
  }

  /** Of distinct agents, Away on their squares keeps exactly those standing
      elsewhere than c. */
  lemma AwayAnts(s: seq<Ant>, c: Cell)
    requires NoDup(s)
    ensures forall a :: a in Away(s, Places(s), c) <==> a in s && (a.x, a.y) != c
  {
    var at := Places(s);
    AwaySpec(s, at, c);
    forall a | a in s ensures a in Away(s, at, c) <==> (a.x, a.y) != c {
      var j :| 0 <= j < |s| && s[j] == a;
    }
  }

  /** The change in (target - agents) made by the replacement loop of move
      after k dead agents, from a start of d: a deficit is kept, a surplus
      shrinks by one per dead agent until it is gone. */
  function Shortfall(d: int, k: nat): (r: int)
    ensures d >= 0 ==> r == d
    ensures d < 0 ==> d <= r <= 0 && (r < 0 ==> r == d + k)
  {
    if d >= 0 then d else Min(0, d + k)
  }

  class BlobManager {
    const board: SimulationBoard.Board
    const knowledge: Knowledge
    var scouters: seq<Ant>

    /** The agents. */
    ghost function Repr(): set<object>
      reads this
    {
      set j | 0 <= j < |scouters| :: scouters[j] as object
    }

    /** An agent of this colony: on this board, inside it, with the drop value. */
    ghost predicate Fits(a: Ant)
      reads a, board
    {
      a.board == board && a.drop == DROP_VALUE && board.Inside(a.x, a.y)
    }

    /** The board is non-empty with bounded intensities. */
    ghost predicate Grid()
      reads board, board.blob
    {
      board.Valid() && board.width > 0 && board.height > 0 && board.Bounded()
    }

    /** The food list names distinct squares of the board. */
    ghost predicate Listed()
      reads board, knowledge`food
    {
      NoDup(knowledge.food) && forall c :: c in knowledge.food ==> board.Inside(c.0, c.1)
    }

    /** The agents are distinct agents of this colony. */
    ghost predicate Colony()
      reads this, board, Repr()
    {
      NoDup(scouters) && forall j :: 0 <= j < |scouters| ==> Fits(scouters[j])
    }

    ghost predicate Valid()
      reads this, board, board.blob, knowledge`food, Repr()
    {
      Grid() && Listed() && Colony()
    }

    /** __init__: an empty food list, the given target, and add_scouter
        called max_scouters times; with no food known, every agent starts
        on (0, 0). */
    constructor (board: SimulationBoard.Board, maxScouters: int)
      requires board.Valid() && board.width > 0 && board.height > 0 && board.Bounded()
      ensures Valid() && this.board == board && fresh(knowledge)
      ensures knowledge.food == [] && knowledge.maxScouters == maxScouters
      ensures |scouters| == Max(0, maxScouters)
      ensures forall j :: 0 <= j < |scouters| ==> scouters[j].x == 0 && scouters[j].y == 0
    {
      this.board := board;
      knowledge := new Knowledge(maxScouters);
      scouters := [];
      new;
      var k := 0;
      while k < maxScouters
        invariant Valid() && knowledge.food == [] && knowledge.maxScouters == maxScouters
        invariant |scouters| == Max(0, k) && k <= Max(0, maxScouters)
        invariant forall j :: 0 <= j < |scouters| ==> scouters[j].x == 0 && scouters[j].y == 0
      {
        AddScouter(0);
        k := k + 1;
      }
    }

    /** Where add_scouter puts a new agent: a known food drawn at random,
        or (0, 0) when no food is known. */
    ghost function Spawn(draw: nat): Cell
      reads knowledge`food
    {
      if |knowledge.food| != 0 then knowledge.food[draw % |knowledge.food|] else (0, 0)
    }

    /** add_scouter: below the target, a new agent on the spawn square;
        otherwise nothing. */
    method AddScouter(draw: nat)
      requires Valid()
      modifies this
      ensures Valid()
      ensures |old(scouters)| < knowledge.maxScouters ==>
        |scouters| == |old(scouters)| + 1 && scouters[..|old(scouters)|] == old(scouters) &&
        fresh(scouters[|old(scouters)|]) &&
        (scouters[|old(scouters)|].x, scouters[|old(scouters)|].y) == Spawn(draw)
      ensures |old(scouters)| >= knowledge.maxScouters ==> scouters == old(scouters)
      ensures forall a :: a in scouters ==> a in old(scouters) || fresh(a)
    {
      if |scouters| < knowledge.maxScouters {
        var x, y;
        if |knowledge.food| != 0 {
          x, y := knowledge.food[draw % |knowledge.food|].0, knowledge.food[draw % |knowledge.food|].1;
        } else {
          x, y := 0, 0;
        }
        var a := new DumbScouterModel.DumbScouter.WithDrop(board, x, y, DROP_VALUE);
        scouters := scouters + [a];
      }
    }

    /** food_discovered: the square joins the food list, the target grows
        by one, and a new agent starts on the square. */
    method FoodDiscovered(x: int, y: int)
      requires Valid() && board.Inside(x, y) && (x, y) !in knowledge.food
      modifies this, knowledge
      ensures Valid()
      ensures knowledge.food == old(knowledge.food) + [(x, y)]
      ensures knowledge.maxScouters == old(knowledge.maxScouters) + 1
      ensures |scouters| == |old(scouters)| + 1 && scouters[..|old(scouters)|] == old(scouters)
      ensures fresh(scouters[|old(scouters)|]) && scouters[|old(scouters)|].x == x && scouters[|old(scouters)|].y == y
    {
      knowledge.food := knowledge.food + [(x, y)];
      knowledge.maxScouters := knowledge.maxScouters + 1;
      var a := new DumbScouterModel.DumbScouter.WithDrop(board, x, y, DROP_VALUE);
      scouters := scouters + [a];
    }

    /** The squares of the board not yet in the food list; each discovery
        takes one away, which bounds the agents a move can add. */
    ghost function Unlisted(): set<Cell>
      reads board, knowledge`food
    {
      set x: int, y: int | 0 <= x < board.width && 0 <= y < board.height && (x, y) !in knowledge.food :: (x, y)
    }

    /** The first half of one agent's turn in move: the agent steps, and
        when it left its square it drops its trail there; an agent that
        stayed (dead) leaves the board as it was. */
    method Step(k: nat, step: (int, int)) returns (dead: bool)
      requires Valid() && k < |scouters| && -1 <= step.0 <= 1 && -1 <= step.1 <= 1
      modifies scouters[k], board.blob, board.touched
      ensures Valid()
      ensures dead <==> (scouters[k].x, scouters[k].y) == old((scouters[k].x, scouters[k].y))
      ensures dead ==> forall i, j :: 0 <= i < board.width && 0 <= j < board.height ==>
        board.blob[i, j] == old(board.blob[i, j]) && board.touched[i, j] == old(board.touched[i, j])
      ensures !dead ==> var (x, y) := (scouters[k].x, scouters[k].y);
        board.touched[x, y] && board.blob[x, y] == SimulationBoard.Clamp(old(board.blob[x, y]) + DROP_VALUE) &&
        forall i, j :: 0 <= i < board.width && 0 <= j < board.height && (i, j) != (x, y) ==>
          board.blob[i, j] == old(board.blob[i, j]) && board.touched[i, j] == old(board.touched[i, j])
    {
      var a := scouters[k];
      var x0, y0 := a.x, a.y;
      a.Move(step.0, step.1);
      dead := a.x == x0 && a.y == y0;
      if !dead {
        a.Update();
      }
      assert Colony() by {
        forall j | 0 <= j < |scouters| ensures Fits(scouters[j]) {
          if j != k {
            assert scouters[j] != a;
          }
        }
      }
    }

    /** The discovery check of move, made for every agent after its step
        whether it moved or not: a square with food that is not listed yet
        is discovered. */
    method Discover(k: nat)
      requires Valid() && k < |scouters|
      modifies this, knowledge
      ensures Valid() && old(scouters) <= scouters
      ensures var c := (scouters[k].x, scouters[k].y);
        if board.HasFood(c.0, c.1) && c !in old(knowledge.food) then
          knowledge.food == old(knowledge.food) + [c] && knowledge.maxScouters == old(knowledge.maxScouters) + 1 &&
          |scouters| == |old(scouters)| + 1 && fresh(scouters[|old(scouters)|]) &&
          Unlisted() < old(Unlisted())
        else
          knowledge.food == old(knowledge.food) && knowledge.maxScouters == old(knowledge.maxScouters) &&
          scouters == old(scouters)
    {
      var a := scouters[k];
      if board.HasFood(a.x, a.y) && (a.x, a.y) !in knowledge.food {
        ghost var u := Unlisted();
        FoodDiscovered(a.x, a.y);
        assert (a.x, a.y) in u && (a.x, a.y) !in Unlisted();
      }
    }

    /** The first loop of move: every agent, including the ones discovered
        food adds during the loop, steps once and is checked for food; the
        agents that did not move are collected as dead, distinct and still
        listed. Discoveries raise the target and the agent count together. */
    method Sweep(steps: nat -> (int, int)) returns (deads: seq<Ant>)
      requires Valid() && forall k: nat :: -1 <= steps(k).0 <= 1 && -1 <= steps(k).1 <= 1
      modifies this, Repr(), board.blob, board.touched, knowledge
      ensures Valid() && old(scouters) <= scouters && old(knowledge.food) <= knowledge.food
      ensures knowledge.maxScouters - |knowledge.food| == old(knowledge.maxScouters - |knowledge.food|)
      ensures knowledge.maxScouters - |scouters| == old(knowledge.maxScouters - |scouters|)
      ensures NoDup(deads) && forall d :: d in deads ==> d in scouters
      ensures forall a :: a in scouters ==> a in old(scouters) || fresh(a)
      ensures forall i :: 0 <= i < |old(scouters)| ==>
        (old(scouters)[i] in deads <==> (old(scouters)[i].x, old(scouters)[i].y) == old(Places(scouters))[i])
    {
      ghost var s0, f0, m0, r0 := scouters, knowledge.food, knowledge.maxScouters, Repr();
      ghost var p0 := Places(s0);
      assert forall a :: a in s0 ==> a in r0;
      deads := [];
      var k := 0;
      while k < |scouters|
        invariant Valid() && k <= |scouters| && s0 <= scouters && f0 <= knowledge.food
        invariant knowledge.maxScouters - |knowledge.food| == m0 - |f0|
        invariant knowledge.maxScouters - |scouters| == m0 - |s0|
        invariant NoDup(deads) && forall d :: d in deads ==> d in scouters[..k]
        invariant forall a :: a in scouters ==> a in s0 || fresh(a)
        invariant Tracked(s0, p0, k, deads)
        decreases Unlisted(), |scouters| - k
      {
        assert scouters[k] in r0 || fresh(scouters[k]);
        deads := TrackedTurn(k, steps(k), deads, s0, p0);
        k := k + 1;
      }
    }

    /** One agent's turn in move: its step, then the discovery check; a dead
        agent joins the dead list. */
    method Turn(k: nat, step: (int, int), deads: seq<Ant>) returns (deads': seq<Ant>)
      requires Valid() && k < |scouters| && -1 <= step.0 <= 1 && -1 <= step.1 <= 1
      requires NoDup(deads) && forall d :: d in deads ==> d in scouters[..k]
      modifies this, scouters[k], board.blob, board.touched, knowledge
      ensures Valid() && old(scouters) <= scouters && old(knowledge.food) <= knowledge.food
      ensures knowledge.maxScouters - |knowledge.food| == old(knowledge.maxScouters - |knowledge.food|)
      ensures knowledge.maxScouters - |scouters| == old(knowledge.maxScouters - |scouters|)
      ensures NoDup(deads') && forall d :: d in deads' ==> d in scouters[..k + 1]
      ensures forall a :: a in scouters ==> a in old(scouters) || fresh(a)
      ensures Unlisted() < old(Unlisted()) || (Unlisted() == old(Unlisted()) && scouters == old(scouters))
      ensures deads' == if (scouters[k].x, scouters[k].y) == old((scouters[k].x, scouters[k].y))
        then deads + [scouters[k]] else deads
    {
      var a := scouters[k];
      ghost var prev := scouters;
      var dead := Step(k, step);
      Discover(k);
      assert scouters[..k + 1] == prev[..k] + [a];
      deads' := deads;
      if dead {
        assert a !in prev[..k] by {
          assert NoDup(prev);
        }
        deads' := deads + [a];
      }
    }

    /** Turn, keeping the sweep's bookkeeping for the agents s0 it started
        from on the squares p0. */
    method TrackedTurn(k: nat, step: (int, int), deads: seq<Ant>, ghost s0: seq<Ant>, ghost p0: seq<Cell>)
      returns (deads': seq<Ant>)
      requires Valid() && k < |scouters| && -1 <= step.0 <= 1 && -1 <= step.1 <= 1
      requires NoDup(deads) && forall d :: d in deads ==> d in scouters[..k]
      requires s0 <= scouters && |p0| == |s0| && Tracked(s0, p0, k, deads)
      modifies this, scouters[k], board.blob, board.touched, knowledge
      ensures Valid() && old(scouters) <= scouters && old(knowledge.food) <= knowledge.food
      ensures knowledge.maxScouters - |knowledge.food| == old(knowledge.maxScouters - |knowledge.food|)
      ensures knowledge.maxScouters - |scouters| == old(knowledge.maxScouters - |scouters|)
      ensures NoDup(deads') && forall d :: d in deads' ==> d in scouters[..k + 1]
      ensures forall a :: a in scouters ==> a in old(scouters) || fresh(a)
      ensures Unlisted() < old(Unlisted()) || (Unlisted() == old(Unlisted()) && scouters == old(scouters))
      ensures Tracked(s0, p0, k + 1, deads')
    {
      ghost var prev, pb := scouters, Places(scouters);
      assert forall i :: 0 <= i < |s0| ==> s0[i] == prev[i];
      deads' := Turn(k, step, deads);
      assert forall i :: 0 <= i < |prev| && i != k ==> prev[i] != prev[k];
      TurnKeepsOthers(s0, p0, prev, pb, k, deads, deads');
    }

    /** The sweep's bookkeeping after its first k turns: each agent of the
        start s0 among them is dead exactly when it ended on its starting
        square in p0, and those still to come are on their starting squares. */
    ghost predicate Tracked(s0: seq<Ant>, p0: seq<Cell>, k: nat, deads: seq<Ant>)
      reads s0
      requires |p0| == |s0|
    {
      (forall i :: 0 <= i < |s0| && i < k ==> (s0[i] in deads <==> (s0[i].x, s0[i].y) == p0[i])) &&
      (forall i :: k <= i < |s0| ==> (s0[i].x, s0[i].y) == p0[i])
    }

    /** After agent k's turn, given the squares pb every agent held before
        it: the agents of the sweep's start other than agent k keep their
        squares, and agent k is dead exactly when it stayed. */
    lemma TurnKeepsOthers(s0: seq<Ant>, p0: seq<Cell>, before: seq<Ant>, pb: seq<Cell>, k: nat,
                          d0: seq<Ant>, d1: seq<Ant>)
      requires |p0| == |s0| && s0 <= before && |pb| == |before| && k < |before| && NoDup(before)
      requires forall i :: 0 <= i < |s0| && i < k ==> (s0[i] in d0 <==> pb[i] == p0[i])
      requires forall i :: k <= i < |s0| ==> pb[i] == p0[i]
      requires forall d :: d in d0 ==> d in before[..k]
      requires forall i :: 0 <= i < |before| && i != k ==> (before[i].x, before[i].y) == pb[i]
      requires d1 == if (before[k].x, before[k].y) == pb[k] then d0 + [before[k]] else d0
      ensures Tracked(s0, p0, k + 1, d1)
    {
      forall i | 0 <= i < |s0| && i < k + 1 ensures s0[i] in d1 <==> (s0[i].x, s0[i].y) == p0[i] {
        assert s0[i] == before[i];
        if i < k {
          assert s0[i] != before[k];
        } else {
          assert s0[i] !in d0 by {
            forall j | 0 <= j < k ensures before[..k][j] != before[k] { }
          }
        }
      }
      forall i | k + 1 <= i < |s0| ensures (s0[i].x, s0[i].y) == p0[i] {
        assert s0[i] == before[i];
      }
    }

    /** list.remove(a) on the agents, for an agent that is listed. */
    method RemoveAnt(a: Ant)
      requires Colony() && a in scouters
      modifies this
      ensures Colony() && scouters == RemoveFirst(old(scouters), a)
      ensures forall b :: b in scouters <==> b in old(scouters) && b != a
    {
      var k := IndexOf(scouters, a);
      assert RemoveFirst(scouters, a) == scouters[..k] + scouters[k + 1..];
      NoDupRemoveAt(scouters, k);
      assert forall j :: 0 <= j < |scouters| - 1 ==> RemoveFirst(scouters, a)[j] == scouters[if j < k then j else j + 1];
      forall b ensures b in RemoveFirst(scouters, a) <==> b in scouters && b != a {
        if b in scouters && b != a {
          var i :| 0 <= i < |scouters| && scouters[i] == b;
          assert RemoveFirst(scouters, a)[if i < k then i else i - 1] == b;
        }
        if b == a {
          assert a !in scouters[..k] + scouters[k + 1..] by {
            forall j | 0 <= j < |scouters| && j != k ensures scouters[j] != a { }
          }
        }
      }
      scouters := RemoveFirst(scouters, a);
    }

    /** One iteration of the last loop of move: the dead agent leaves and
        add_scouter is called. The target minus the agent count is kept
        when it was not negative and grows by one otherwise. */
    method ReplaceOne(d: Ant, draw: nat)
      requires Valid() && d in scouters
      modifies this
      ensures Valid() && d !in scouters
      ensures knowledge.maxScouters - |scouters| ==
        var g := old(knowledge.maxScouters - |scouters|); if g >= 0 then g else g + 1
      ensures forall a :: a in old(scouters) && a != d ==> a in scouters
      ensures forall a :: a in scouters ==> (a in old(scouters) && a != d) || fresh(a)
    {
      RemoveAnt(d);
      AddScouter(draw);
    }

    /** The last loop of move: each dead agent is removed and replaced by
        one add_scouter call (draws respawn(0), respawn(1), ...). */
    method Replace(deads: seq<Ant>, respawn: nat -> nat)
      requires Valid() && NoDup(deads) && forall d :: d in deads ==> d in scouters
      modifies this
      ensures Valid() && forall d :: d in deads ==> d !in scouters
      ensures forall a :: a in old(scouters) && a !in deads ==> a in scouters
      ensures knowledge.maxScouters - |scouters| == Shortfall(old(knowledge.maxScouters - |scouters|), |deads|)
      ensures forall a :: a in scouters ==> a in old(scouters) || fresh(a)
    {
      ghost var g0 := knowledge.maxScouters - |scouters|;
      var k := 0;
      while k < |deads|
        invariant k <= |deads| && Valid()
        invariant forall i :: k <= i < |deads| ==> deads[i] in scouters
        invariant forall i :: 0 <= i < k ==> deads[i] !in scouters
        invariant knowledge.maxScouters - |scouters| == Shortfall(g0, k)
        invariant forall a :: a in scouters ==> a in old(scouters) || fresh(a)
        invariant forall a :: a in old(scouters) && a !in deads[..k] ==> a in scouters
      {
        assert deads[..k + 1] == deads[..k] + [deads[k]];
        ReplaceOne(deads[k], respawn(k));
        forall i | k < i < |deads| ensures deads[i] in scouters {
          assert deads[i] != deads[k];
        }
        k := k + 1;
      }
      forall d | d in deads ensures d !in scouters {
        var i :| 0 <= i < |deads| && deads[i] == d;
      }
      assert deads[..k] == deads;
    }

    /** move: every agent steps (draws steps(0), steps(1), ...), food found
        on the way is listed, and the dead agents are replaced. The food
        list only grows, by exactly as much as the target; the target minus
        the agent count is kept when it was not negative, and a surplus of
        agents only shrinks. */
    method Move(steps: nat -> (int, int), respawn: nat -> nat)
      requires Valid() && forall k: nat :: -1 <= steps(k).0 <= 1 && -1 <= steps(k).1 <= 1
      modifies this, Repr(), board.blob, board.touched, knowledge
      ensures Valid() && old(knowledge.food) <= knowledge.food
      ensures knowledge.maxScouters - |knowledge.food| == old(knowledge.maxScouters - |knowledge.food|)
      ensures old(knowledge.maxScouters - |scouters|) >= 0 ==>
        knowledge.maxScouters - |scouters| == old(knowledge.maxScouters - |scouters|)
      ensures old(knowledge.maxScouters - |scouters|) < 0 ==>
        old(knowledge.maxScouters - |scouters|) <= knowledge.maxScouters - |scouters| <= 0
      ensures forall a :: a in scouters ==> a in old(scouters) || fresh(a)
      ensures forall i :: 0 <= i < |old(scouters)| ==>
        (old(scouters)[i] in scouters <==> (old(scouters)[i].x, old(scouters)[i].y) != old(Places(scouters))[i])
    {
      var deads := Sweep(steps);
      Replace(deads, respawn);
    }

    /** reset(x, y): every agent standing on (x, y) leaves, and every
        listing of (x, y) leaves the food list, each one lowering the target
        by one. */
    method Reset(x: int, y: int)
      requires Valid()
      modifies this, knowledge
      ensures Valid()
      ensures scouters == Away(old(scouters), old(Places(scouters)), (x, y))
      ensures knowledge.food == Without(old(knowledge.food), (x, y))
      ensures knowledge.maxScouters == old(knowledge.maxScouters) - multiset(old(knowledge.food))[(x, y)]
    {
      ClearAnts((x, y), Places(scouters));
      ClearFood((x, y));
    }

    /** The first loop of reset, over a copy of the agents; at holds their
        squares. */
    method ClearAnts(c: Cell, ghost at: seq<Cell>)
      requires Colony() && |at| == |scouters|
      requires forall j :: 0 <= j < |scouters| ==> at[j] == (scouters[j].x, scouters[j].y)
      modifies this
      ensures Colony() && scouters == Away(old(scouters), at, c)
    {
      var ants := scouters;
      var k := 0;
      while k < |ants|
        invariant k <= |ants| && Colony() && NoDup(ants)
        invariant forall j :: 0 <= j < |ants| ==> at[j] == (ants[j].x, ants[j].y)
        invariant scouters == Away(ants[..k], at[..k], c) + ants[k..]
      {
        ClearAnt(ants, at, k, c);
        k := k + 1;
      }
      assert ants[..k] == ants && at[..k] == at;
    }

    /** One iteration of reset's first loop: agent k of the copy leaves if
        it stands on c. */
    method ClearAnt(ants: seq<Ant>, ghost at: seq<Cell>, k: nat, c: Cell)
      requires Colony() && NoDup(ants) && |at| == |ants| && k < |ants| && at[k] == (ants[k].x, ants[k].y)
      requires scouters == Away(ants[..k], at[..k], c) + ants[k..]
      modifies this
      ensures Colony() && scouters == Away(ants[..k + 1], at[..k + 1], c) + ants[k + 1..]
    {
      var a := ants[k];
      if a.x == c.0 && a.y == c.1 {
        AwayDrop(ants, at, k, c);
        RemoveAnt(a);
      } else {
        AwayKeep(ants, at, k, c);
      }
    }

    /** The second loop of reset, over a copy of the food list. */
    method ClearFood(c: Cell)
      requires board.Valid() && Listed()
      modifies knowledge
      ensures Listed() && knowledge.food == Without(old(knowledge.food), c)
      ensures knowledge.maxScouters == old(knowledge.maxScouters) - multiset(old(knowledge.food))[c]
    {
      var fs := knowledge.food;
      var k := 0;
      while k < |fs|
        invariant k <= |fs|
        invariant knowledge.food == Without(fs[..k], c) + fs[k..]
        invariant knowledge.maxScouters == old(knowledge.maxScouters) - multiset(fs[..k])[c]
      {
        ClearListing(fs, k, c);
        k := k + 1;
      }
      assert fs[..k] == fs;
      WithoutNoDup(fs, c);
      WithoutMembers(fs, c);
    }

    /** One iteration of reset's second loop: entry k of the copy leaves
        the list, and the target drops by one, if it is c. */
    method ClearListing(fs: seq<Cell>, k: nat, c: Cell)
      requires k < |fs| && knowledge.food == Without(fs[..k], c) + fs[k..]
      modifies knowledge
      ensures knowledge.food == Without(fs[..k + 1], c) + fs[k + 1..]
      ensures knowledge.maxScouters + multiset(fs[..k + 1])[c] ==
        old(knowledge.maxScouters) + multiset(fs[..k])[c]
    {
      WithoutStep(fs, k, c);
      if fs[k] == c {
        knowledge.food := RemoveFirst(knowledge.food, c);
        knowledge.maxScouters := knowledge.maxScouters - 1;
      }
    }
  }
}
