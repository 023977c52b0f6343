/**
 * A move: the sub-board (subX, subY) played in and the square (x, y) inside
 * it (src/game/action.rs). Rust's derived equality, hashing and cloning are
 * those of a Dafny datatype value.
 */
module Actions {

  datatype Action = Action(subX: nat, subY: nat, x: nat, y: nat)

  /** Builds a move from its four coordinates, with no range check. */
  function NewAction(subX: nat, subY: nat, x: nat, y: nat): (a: Action)
    ensures a.subX == subX && a.subY == subY && a.x == x && a.y == y
  {
    Action(subX, subY, x, y)
  }

  /** Two moves are equal exactly when all four coordinates agree. */
  lemma ActionEquality(a: Action, b: Action)
    ensures a == b <==> (a.subX == b.subX && a.subY == b.subY && a.x == b.x && a.y == b.y)
  {
  }

  /** Distinct coordinates give distinct moves. */
  lemma NewActionIsInjective(a: nat, b: nat, c: nat, d: nat, a': nat, b': nat, c': nat, d': nat)
    ensures NewAction(a, b, c, d) == NewAction(a', b', c', d') <==> a == a' && b == b' && c == c' && d == d'
  {
  }
}
