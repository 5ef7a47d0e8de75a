/** The Player's collaborators whose code is not part of this model: the
    game manager holding the session state (`GameManager.instance`), and the
    enemy the Player attacks. Only what the Player reads and writes is kept:
    the two session cells, and a record of each call into code we cannot see. */
module Collaborators {
  import opened Ints

  /** The session object: whose turn it is, the health carried between
      levels, and how many times the game was reported over. */
  class GameManager {
    var playersTurn: bool
    var playerHealthPoints: Int32
    ghost var gameOverCalls: nat

    constructor (playersTurn: bool, playerHealthPoints: Int32)
      ensures this.playersTurn == playersTurn
      ensures this.playerHealthPoints == playerHealthPoints
      ensures gameOverCalls == 0
    {
      this.playersTurn := playersTurn;
      this.playerHealthPoints := playerHealthPoints;
      gameOverCalls := 0;
    }

    /** What GameOver does is not modelled; only that it was called. */
    method GameOver()
      modifies this`gameOverCalls
      ensures gameOverCalls == old(gameOverCalls) + 1
    {
      gameOverCalls := gameOverCalls + 1;
    }
  }

  /** An enemy; DamageEnemy is recorded with its argument and nothing else. */
  class Enemy {
    ghost var damageCalls: seq<Int32>

    constructor ()
      ensures damageCalls == []
    {
      damageCalls := [];
    }

    method DamageEnemy(loss: Int32)
      modifies this`damageCalls
      ensures damageCalls == old(damageCalls) + [loss]
    {
      damageCalls := damageCalls + [loss];
    }
  }

  /** The component a blocked move runs into: a wall or an enemy. */
  datatype Component = WallComponent | EnemyComponent(enemy: Enemy)
}
