/** The Player of Player.cs as a class whose methods update its fields and
    the session cells in place. `State()` reads everything the methods touch
    as a PlayerRules.Snapshot, and every method is proved to move it exactly
    as the matching PlayerRules function does; the properties proved there
    therefore hold of any sequence of calls on this class. */
module PlayerBehaviour {
  import opened Ints
  import opened PlayerRules
  import opened Collaborators

  class Player {
    var enemyDamage: Int32    // damage dealt to an enemy the Player attacks
    var hp: Int32             // health during the current level (a C# int)
    var skipHealth: bool      // regenerate only on every other action
    const session: GameManager

    /** Every direction handed to the movement code this Player inherits
        (MovingObject.AttemptMove and Move), in call order. That code is not
        part of this model: it may or may not relocate the Player. */
    ghost var moveRequests: seq<Direction>

    ghost function State(): Snapshot
      reads this, session
    {
      Snapshot(hp, skipHealth, session.playersTurn, session.playerHealthPoints, session.gameOverCalls)
    }

    /** A freshly created Player component, with the field defaults. */
    constructor (session: GameManager)
      ensures this.session == session
      ensures hp == 0 && !skipHealth && enemyDamage == 1
      ensures moveRequests == []
    {
      this.session := session;
      enemyDamage := 1;
      hp := 0;
      skipHealth := false;
      moveRequests := [];
    }

    /** Loads the health carried between levels. */
    method Start()
      modifies this`hp
      ensures hp == session.playerHealthPoints
      ensures State() == PlayerRules.Start(old(State()))
    {
      hp := session.playerHealthPoints;
    }

    /** Writes the health back so that the next level starts from it. */
    method OnDisable()
      modifies session`playerHealthPoints
      ensures session.playerHealthPoints == hp
      ensures State() == PlayerRules.OnDisable(old(State()))
    {
      session.playerHealthPoints := hp;
    }

    /** One frame with the given axis input. Off turn, or with no input,
        nothing changes; otherwise the direction is reduced to one axis
        (horizontal first) and the Player acts in it. */
    method Update(h: int, v: int)
      modifies this`hp, this`skipHealth, this`moveRequests, session`playersTurn, session`gameOverCalls
      ensures State() == PlayerRules.Update(old(State()), h, v)
      ensures !old(session.playersTurn) ==> State() == old(State()) && moveRequests == old(moveRequests)
      ensures old(session.playersTurn) && (h != 0 || v != 0) ==> !session.playersTurn
      ensures h == 0 && v == 0 ==> session.playersTurn == old(session.playersTurn)
      ensures moveRequests ==
        if Acts(old(State()), h, v)
        then old(moveRequests) + [Resolve(h, v), Resolve(h, v)]
        else old(moveRequests)
    {
      if !session.playersTurn {
        return;
      }
      var horizontal := h;
      var vertical := v;
      if horizontal != 0 {
        vertical := 0;
      }
      if horizontal != 0 || vertical != 0 {
        AttemptMove(horizontal, vertical);
      }
    }

    /** Regenerates on every other action, asks the movement code to move
        (twice: once through the base AttemptMove, once through Move), checks
        for game over and hands the turn over, whether or not it moved.
        `hp++` wraps around at 32 bits. */
    method AttemptMove(xDir: int, yDir: int)
      modifies this`hp, this`skipHealth, this`moveRequests, session`playersTurn, session`gameOverCalls
      ensures hp == Wrap(old(hp) + (if old(skipHealth) then 0 else 1))
      ensures skipHealth == !old(skipHealth)
      ensures !session.playersTurn
      ensures session.gameOverCalls == old(session.gameOverCalls) + (if hp <= 0 then 1 else 0)
      ensures State() == Act(old(State()))
      ensures moveRequests == old(moveRequests) + [Direction(xDir, yDir), Direction(xDir, yDir)]
    {
      if !skipHealth {
        hp := Wrap(hp + 1);
        skipHealth := true;
      } else {
        skipHealth := false;
      }
      BaseAttemptMove(xDir, yDir);
      var moved := Move(xDir, yDir);
      CheckIfGameOver();
      session.playersTurn := false;
    }

    /** The inherited MovingObject.AttemptMove: its collision handling is not
        part of this model; only the request is recorded. */
    method BaseAttemptMove(xDir: int, yDir: int)
      modifies this`moveRequests
      ensures moveRequests == old(moveRequests) + [Direction(xDir, yDir)]
    {
      moveRequests := moveRequests + [Direction(xDir, yDir)];
    }

    /** The inherited MovingObject.Move: whether the cell was free is not
        known to this model, so the answer is arbitrary. */
    method Move(xDir: int, yDir: int) returns (moved: bool)
      modifies this`moveRequests
      ensures moveRequests == old(moveRequests) + [Direction(xDir, yDir)]
    {
      moveRequests := moveRequests + [Direction(xDir, yDir)];
      moved :| true;
    }

    /** Attacks the enemy the Player bumped into. The component is cast to
        an enemy without a check, so it must be one. */
    method OnCantMove(component: Component)
      requires component.EnemyComponent?
      modifies component.enemy`damageCalls
      ensures component.enemy.damageCalls == old(component.enemy.damageCalls) + [enemyDamage]
    {
      var hitEnemy := component.enemy;
      hitEnemy.DamageEnemy(enemyDamage);
    }

    /** Called by an enemy's attack: health drops by `loss` with no lower
        bound (wrapping around at 32 bits), then the game-over check runs. */
    method LoseHealth(loss: Int32)
      modifies this`hp, session`gameOverCalls
      ensures hp == Wrap(old(hp) - loss)
      ensures session.gameOverCalls == old(session.gameOverCalls) + (if hp <= 0 then 1 else 0)
      ensures State() == PlayerRules.LoseHealth(old(State()), loss)
    {
      hp := Wrap(hp - loss);
      CheckIfGameOver();
    }

    /** Reports game over to the session exactly when health is not positive. */
    method CheckIfGameOver()
      modifies session`gameOverCalls
      ensures session.gameOverCalls == old(session.gameOverCalls) + (if hp <= 0 then 1 else 0)
      ensures State() == CheckGameOver(old(State()))
    {
      if hp <= 0 {
        session.GameOver();
      }
    }
  }

  /** A Player loaded with 3 health and the parity flag clear takes four
      turns (the session hands the turn back before each one) and ends
      with 5 health: regeneration fires on the first and third actions. */
  method FourActionsScenario() returns (hp: int)
    ensures hp == 5
  {
    var session := new GameManager(true, 3);
    var player := new Player(session);
    player.Start();
    player.Update(1, 0);
    session.playersTurn := true;
    player.Update(0, -1);
    session.playersTurn := true;
    player.Update(-1, 1);
    session.playersTurn := true;
    player.Update(0, 1);
    hp := player.hp;
  }

  /** A Player at 1 health who loses 1 is at 0 and has reported game over once. */
  method LastHitScenario() returns (hp: int, ghost reports: nat)
    ensures hp == 0 && reports == 1
  {
    var session := new GameManager(false, 1);
    var player := new Player(session);
    player.Start();
    player.LoseHealth(1);
    hp := player.hp;
    reports := session.gameOverCalls;
  }

  /** Loading and immediately writing back leaves the stored health as it was. */
  method StartThenDisableScenario(stored: Int32) returns (after: Int32)
    ensures after == stored
  {
    var session := new GameManager(true, stored);
    var player := new Player(session);
    player.Start();
    player.OnDisable();
    after := session.playerHealthPoints;
  }
}
