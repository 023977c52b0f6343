/**
 * The two players and the three possible game outcomes, with the reward
 * table the search uses (src/game/player.rs; src/game/game_result.rs holds
 * an identical copy of GameResult, modelled here once).
 */
module Players {

  datatype Player = Player1 | Player2 {

    /** The opponent: the player who moves after this one. */
    function Next(): (q: Player)
      ensures q != this
    {
      if this == Player1 then Player2 else Player1
    }

    /** The player's number as shown to humans. */
    function Num(): (n: nat)
      ensures 1 <= n <= 2
      ensures n == 1 <==> this == Player1
    {
      if this == Player1 then 1 else 2
    }

    /** The outcome in which this player has won. */
    function Wins(): (r: GameResult)
      ensures r != Draw
      ensures r.Score(this) == 1.0
    {
      if this == Player1 then Player1Wins else Player2Wins
    }
  }

  datatype GameResult = Player1Wins | Player2Wins | Draw {

    /** The message announcing this outcome, naming the winner by number. */
    function ToString(): (s: string)
      ensures this == Draw ==> s == "Draw!"
      ensures forall p: Player :: this == p.Wins() ==>
        s == "Player " + [('0' as int + p.Num()) as char] + " wins!"
    {
      match this
      case Player1Wins => "Player 1 wins!"
      case Player2Wins => "Player 2 wins!"
      case Draw => "Draw!"
    }

    /**
     * Reward of this outcome from `player`'s point of view: 1 for a win,
     * 0 for a loss and one half for a draw (an f32 in the source, exact here).
     */
    function Score(player: Player): (s: real)
      ensures s == 0.0 || s == 0.5 || s == 1.0
      ensures this == Draw <==> s == 0.5
    {
      match (this, player)
      case (Player1Wins, Player1) => 1.0
      case (Player1Wins, Player2) => 0.0
      case (Player2Wins, Player1) => 0.0
      case (Player2Wins, Player2) => 1.0
      case (Draw, _) => 0.5
    }
  }

  /** `Next` swaps the two players back and forth. */
  lemma NextIsInvolution(p: Player)
    ensures p.Next().Next() == p
    ensures p.Next() != p
  {
  }

  /** Different players win different outcomes. */
  lemma WinsIsInjective(p: Player, q: Player)
    ensures p.Wins() == q.Wins() <==> p == q
  {
  }

  /** The winner scores 1, the loser 0, and a draw is worth one half to both. */
  lemma ScoreOfOutcome(p: Player)
    ensures p.Wins().Score(p) == 1.0
    ensures p.Wins().Score(p.Next()) == 0.0
    ensures Draw.Score(p) == 0.5 && Draw.Score(p.Next()) == 0.5
  {
  }

  /** The game is zero-sum: the two rewards of one outcome add up to 1. */
  lemma ScoreIsZeroSum(r: GameResult, p: Player)
    ensures r.Score(p) + r.Score(p.Next()) == 1.0
    ensures 0.0 <= r.Score(p) <= 1.0
  {
  }

  /** Each outcome has its own message. */
  lemma ToStringIsInjective(r: GameResult, t: GameResult)
    ensures r.ToString() == t.ToString() <==> r == t
  {
    if r != t {
      var sr, st := r.ToString(), t.ToString();
      if |sr| == |st| {
        assert sr[7] != st[7];
      }
    }
  }
}
