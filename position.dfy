/** Position.cs: a non-negative ordinal, compared by value. */
module Positions {
  import opened Common

  /** A Position; its `value` is a natural number, so no Position is ever negative. */
  datatype Position = Position(value: nat)

  /** `Position.Create`: rejects a negative value, otherwise wraps it unchanged. */
  function Create(value: int): (r: Result<Position>)
    ensures r.Success? <==> value >= 0
    ensures r.Success? ==> r.value.value == value
    ensures r.Failure? ==> r.error == PositionNegative
  {
    if value < 0 then Failure(PositionNegative) else Success(Position(value))
  }

  /** Value equality: two Positions are equal exactly when their values are. */
  lemma EqualityByValue(p: Position, q: Position)
    ensures p == q <==> p.value == q.value
  {
  }

  /** Two successful creations give equal Positions exactly when the inputs are equal. */
  lemma CreateInjective(a: int, b: int)
    requires a >= 0 && b >= 0
    ensures Create(a) == Create(b) <==> a == b
  {
  }
}
