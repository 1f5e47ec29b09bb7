/**
 * EntitySpawnFactory: hands out entities from a pool and places the
 * default ones in a zig-zag "chess order" along x. The factory's state is
 * the next spawn position and a counter that alternates between 0 and 1.
 * The pool itself is not modelled: an entity is represented by the
 * position it is placed at.
 */
module Spawning {
  import opened Vectors

  /** A DefaultEntity, as far as the factory sees it: where it was placed. */
  datatype DefaultEntity = DefaultEntity(position: Vector3)
  {
    /** Every default entity is 2 by 2. */
    function GetEntitySize(): (size: Vector2)
      ensures size == Vector2(2.0, 2.0)
    {
      Vector2(2.0, 2.0)
    }
  }

  /** The spawn position and the chess-order counter. */
  datatype ChessState = ChessState(position: Vector2, counter: int)

  /**
   * One chess-order step for an entity of the given size: from counter 0
   * move diagonally up by the size and set the counter; otherwise move
   * right and down by the size and decrement the counter.
   */
  function ChessStep(s: ChessState, size: Vector2): ChessState {
    if s.counter == 0 then
      ChessState(Vector2(s.position.x + size.x, s.position.y + size.y), s.counter + 1)
    else
      ChessState(Vector2(s.position.x + size.x, s.position.y - size.y), s.counter - 1)
  }

  /** `n` chess-order steps of a default entity. */
  function ChessSteps(s: ChessState, n: nat): ChessState
    decreases n
  {
    if n == 0 then s else ChessSteps(ChessStep(s, DefaultEntity(Zero).GetEntitySize()), n - 1)
  }

  ghost predicate CounterValid(s: ChessState) {
    s.counter == 0 || s.counter == 1
  }

  /** A step keeps the counter in {0, 1}, flips it, and always advances x by the width. */
  lemma ChessStepFlips(s: ChessState, size: Vector2)
    requires CounterValid(s)
    ensures CounterValid(ChessStep(s, size))
    ensures ChessStep(s, size).counter == 1 - s.counter
    ensures ChessStep(s, size).position.x == s.position.x + size.x
    ensures s.counter == 0 ==> ChessStep(s, size).position.y == s.position.y + size.y
    ensures s.counter == 1 ==> ChessStep(s, size).position.y == s.position.y - size.y
  {
  }

  /**
   * After `n` steps from a valid state, x has advanced by `2n`, the counter
   * is the parity of `start + n`, and y is back where it started after an
   * even number of steps and one size away after an odd number (up from
   * counter 0, down from counter 1).
   */
  lemma {:induction false} ChessStepsClosedForm(s: ChessState, n: nat)
    requires CounterValid(s)
    ensures var t := ChessSteps(s, n);
      && CounterValid(t)
      && t.counter == (s.counter + n) % 2
      && t.position.x == s.position.x + 2.0 * n as real
      && t.position.y == s.position.y + (if n % 2 == 0 then 0.0 else if s.counter == 0 then 2.0 else -2.0)
    decreases n
  {
    if n > 0 {
      var next := ChessStep(s, Vector2(2.0, 2.0));
      ChessStepsClosedForm(next, n - 1);
      assert ChessSteps(s, n) == ChessSteps(next, n - 1);
    }
  }

  /** From the initial counter 0, an even number of steps returns y to its start. */
  lemma EvenStepsReturnY(s: ChessState, n: nat)
    requires s.counter == 0 && n % 2 == 0
    ensures ChessSteps(s, n).position.y == s.position.y
    ensures ChessSteps(s, n).counter == 0
  {
    ChessStepsClosedForm(s, n);
  }

  class EntitySpawnFactory {
    var spawnPosition: Vector2
    var counterForChessOrder: int

    ghost function State(): ChessState
      reads this
    {
      ChessState(spawnPosition, counterForChessOrder)
    }

    /** The counter only ever holds 0 or 1. */
    ghost predicate Valid()
      reads this
    {
      CounterValid(State())
    }

    /** The pool is not modelled; the fields start at their defaults. */
    constructor ()
      ensures Valid() && counterForChessOrder == 0 && spawnPosition == Vector2(0.0, 0.0)
    {
      spawnPosition := Vector2(0.0, 0.0);
      counterForChessOrder := 0;
    }

    method SpawnInChessOrder(defaultEntity: DefaultEntity)
      requires Valid()
      modifies this
      ensures Valid()
      ensures State() == ChessStep(old(State()), defaultEntity.GetEntitySize())
    {
      if counterForChessOrder == 0 {
        counterForChessOrder := counterForChessOrder + 1;
        spawnPosition := Vector2(spawnPosition.x + defaultEntity.GetEntitySize().x,
                                 spawnPosition.y + defaultEntity.GetEntitySize().y);
      } else {
        counterForChessOrder := counterForChessOrder - 1;
        spawnPosition := Vector2(spawnPosition.x + defaultEntity.GetEntitySize().x,
                                 spawnPosition.y - defaultEntity.GetEntitySize().y);
      }
    }

    /** Takes one step and places the entity at the new spawn position. */
    method SpawnDefaultEntity() returns (defaultEntity: DefaultEntity)
      requires Valid()
      modifies this
      ensures Valid()
      ensures State() == ChessSteps(old(State()), 1)
      ensures defaultEntity.position == ToVector3(spawnPosition)
    {
      defaultEntity := DefaultEntity(Zero);
      SpawnInChessOrder(defaultEntity);
      defaultEntity := defaultEntity.(position := ToVector3(spawnPosition));
    }

    /** Places an entity where asked; the chess-order state is not touched. */
    method SpawnDefaultEntityAt(position: Vector3) returns (defaultEntity: DefaultEntity)
      ensures defaultEntity.position == position
    {
      defaultEntity := DefaultEntity(position);
    }

    /** Spawns `entitiesCount` default entities in chess order (none if the count is not positive). */
    method SpawnDefaultEntities(entitiesCount: int)
      requires Valid()
      modifies this
      ensures Valid()
      ensures State() == ChessSteps(old(State()), if entitiesCount < 0 then 0 else entitiesCount)
    {
      var i := 0;
      while i < entitiesCount
        invariant Valid()
        invariant 0 <= i && (entitiesCount >= 0 ==> i <= entitiesCount) && (entitiesCount < 0 ==> i == 0)
        invariant State() == ChessSteps(old(State()), i)
      {
        var _ := SpawnDefaultEntity();
        ChessStepsAppend(old(State()), i);
        i := i + 1;
      }
    }
  }

  /** Taking `n + 1` steps is taking `n` steps and then one more. */
  lemma {:induction false} ChessStepsAppend(s: ChessState, n: nat)
    ensures ChessSteps(s, n + 1) == ChessSteps(ChessSteps(s, n), 1)
    decreases n
  {
    if n > 0 {
      ChessStepsAppend(ChessStep(s, Vector2(2.0, 2.0)), n - 1);
    }
  }
}
