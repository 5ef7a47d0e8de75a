/** Value-level rules of the turn-gated Player (Player.cs).
    A Snapshot is everything the Player's methods read or write: the Player's own
    `hp` and `skipHealth`, the two session cells `playersTurn` and
    `playerHealthPoints` held by the game manager, and the number of
    game-over reports made so far. Health is a C# `int`, so its arithmetic
    wraps around at 32 bits (Ints.Wrap). Each operation of the Player is a function
    from the old snapshot to the new one; the class in PlayerBehaviour is
    proved to follow these functions, and the lemmas below state what they
    promise over single steps and over whole traces of events. */
module PlayerRules {
  import opened Ints

  datatype Snapshot = Snapshot(
    hp: Int32,            // the Player's health during the level
    skipHealth: bool,     // true when the previous action regenerated
    playersTurn: bool,    // session flag: may the Player act now?
    store: Int32,         // session cell carrying health between levels
    gameOvers: nat        // how many times the session was told the game is over
  )

  /** A move direction on the grid. */
  datatype Direction = Direction(x: int, y: int) {
    predicate IsZero() { x == 0 && y == 0 }
  }

  /** Direction reduction of Update: horizontal input wins over vertical. */
  function Resolve(horizontal: int, vertical: int): (d: Direction)
    ensures d.x == horizontal
    ensures d.x == 0 || d.y == 0
    ensures horizontal == 0 ==> d.y == vertical
    ensures d.IsZero() <==> horizontal == 0 && vertical == 0
  {
    if horizontal != 0 then Direction(horizontal, 0) else Direction(0, vertical)
  }

  /** Every-other-action regeneration at the head of AttemptMove. */
  function Regenerate(s: Snapshot): Snapshot {
    if !s.skipHealth then s.(hp := Wrap(s.hp + 1), skipHealth := true)
    else s.(skipHealth := false)
  }

  /** CheckIfGameOver: report to the session when health is not positive. */
  function CheckGameOver(s: Snapshot): Snapshot {
    if s.hp <= 0 then s.(gameOvers := s.gameOvers + 1) else s
  }

  /** AttemptMove: regenerate, move (opaque, changes nothing tracked here),
      check for game over, then hand the turn over. */
  function Act(s: Snapshot): Snapshot {
    CheckGameOver(Regenerate(s)).(playersTurn := false)
  }

  /** Does an Update with this raw input perform an action? */
  predicate Acts(s: Snapshot, horizontal: int, vertical: int) {
    s.playersTurn && !Resolve(horizontal, vertical).IsZero()
  }

  /** One Update frame with the given axis input. */
  function Update(s: Snapshot, horizontal: int, vertical: int): Snapshot {
    if Acts(s, horizontal, vertical) then Act(s) else s
  }

  /** LoseHealth: subtract without any lower bound (wrapping at 32 bits),
      then check for game over. */
  function LoseHealth(s: Snapshot, loss: Int32): Snapshot {
    CheckGameOver(s.(hp := Wrap(s.hp - loss)))
  }

  /** Start loads the health carried in the session. */
  function Start(s: Snapshot): Snapshot {
    s.(hp := s.store)
  }

  /** OnDisable writes the health back to the session. */
  function OnDisable(s: Snapshot): Snapshot {
    s.(store := s.hp)
  }

  // ---------------------------------------------------------------------
  // Single-step properties

  lemma UpdateOffTurnChangesNothing(s: Snapshot, horizontal: int, vertical: int)
    requires !s.playersTurn
    ensures Update(s, horizontal, vertical) == s
  {
  }

  lemma ZeroInputKeepsTurn(s: Snapshot)
    ensures Update(s, 0, 0) == s
  {
  }

  lemma ActRegeneratesOnParity(s: Snapshot)
    ensures !s.skipHealth && s.hp < MaxInt32 ==> Act(s).hp == s.hp + 1
    ensures Act(s).hp == s.hp <==> s.skipHealth
    ensures Act(s).skipHealth == !s.skipHealth
    ensures !Act(s).playersTurn
    ensures Act(s).store == s.store
  {
  }

  lemma TwoActionsGainOne(s: Snapshot)
    ensures Act(Act(s)).hp == Wrap(s.hp + 1)
    ensures s.hp < MaxInt32 ==> Act(Act(s)).hp == s.hp + 1
    ensures Act(Act(s)).skipHealth == s.skipHealth
  {
    WrapAdd(s.hp, 1);
  }

  /** `hp++` at the largest 32-bit value wraps to the smallest, and the
      check that follows reports game over. */
  lemma RegenWrapsAtMax(s: Snapshot)
    requires s.hp == MaxInt32 && !s.skipHealth
    ensures Act(s).hp == MinInt32
    ensures Act(s).gameOvers == s.gameOvers + 1
  {
    WrapIncAtMax();
  }

  lemma LoseHealthNoClamp(s: Snapshot, loss: Int32)
    ensures MinInt32 <= s.hp - loss <= MaxInt32 ==> LoseHealth(s, loss).hp == s.hp - loss
    ensures LoseHealth(s, loss).hp == Wrap(s.hp - loss)
    ensures LoseHealth(s, loss).skipHealth == s.skipHealth
    ensures LoseHealth(s, loss).playersTurn == s.playersTurn
    ensures LoseHealth(s, loss).store == s.store
  {
  }

  /** `hp -= loss` below the smallest 32-bit value wraps to a large positive
      health, and the check that follows makes no report. */
  lemma LoseHealthWrapsAtMin(s: Snapshot)
    requires s.hp == MinInt32
    ensures LoseHealth(s, 1).hp == MaxInt32
    ensures LoseHealth(s, 1).gameOvers == s.gameOvers
  {
    WrapDecAtMin();
  }

  lemma GameOverExactlyWhenDead(s: Snapshot, loss: Int32)
    ensures LoseHealth(s, loss).gameOvers == s.gameOvers + 1 <==> LoseHealth(s, loss).hp <= 0
    ensures LoseHealth(s, loss).gameOvers == s.gameOvers <==> LoseHealth(s, loss).hp > 0
    ensures Act(s).gameOvers == s.gameOvers + 1 <==> Act(s).hp <= 0
    ensures Act(s).gameOvers == s.gameOvers <==> Act(s).hp > 0
  {
  }

  lemma LastHitReportsOnce(s: Snapshot)
    requires s.hp == 1
    ensures LoseHealth(s, 1).hp == 0
    ensures LoseHealth(s, 1).gameOvers == s.gameOvers + 1
  {
  }

  lemma StartThenDisableKeepsStore(s: Snapshot)
    ensures OnDisable(Start(s)).store == s.store
    ensures OnDisable(Start(s)) == s.(hp := s.store)
  {
  }

  // ---------------------------------------------------------------------
  // Traces

  /** What can happen to the Player between two observations: an Update frame
      with some axis input, an enemy's attack, or the session handing the
      turn back once the enemies have moved. */
  datatype Event =
    | Frame(horizontal: int, vertical: int)
    | Hurt(loss: Int32)
    | TurnReturned

  function Step(s: Snapshot, e: Event): Snapshot {
    match e
    case Frame(h, v) => Update(s, h, v)
    case Hurt(loss) => LoseHealth(s, loss)
    case TurnReturned => s.(playersTurn := true)
  }

  function Run(s: Snapshot, events: seq<Event>): Snapshot
    decreases |events|
  {
    if events == [] then s else Run(Step(s, events[0]), events[1..])
  }

  /** For each action actually taken along the trace, whether it regenerated. */
  function Regens(s: Snapshot, events: seq<Event>): seq<bool>
    decreases |events|
  {
    if events == [] then []
    else
      var e := events[0];
      var here := if e.Frame? && Acts(s, e.horizontal, e.vertical) then [!s.skipHealth] else [];
      here + Regens(Step(s, e), events[1..])
  }

  /** The health values CheckIfGameOver looks at along the trace. */
  function Checks(s: Snapshot, events: seq<Event>): seq<int>
    decreases |events|
  {
    if events == [] then []
    else
      var e := events[0];
      var here :=
        if e.Hurt? then [Wrap(s.hp - e.loss)]
        else if e.Frame? && Acts(s, e.horizontal, e.vertical) then [Regenerate(s).hp]
        else [];
      here + Checks(Step(s, e), events[1..])
  }

  function CountTrue(bs: seq<bool>): nat {
    if bs == [] then 0 else (if bs[0] then 1 else 0) + CountTrue(bs[1..])
  }

  function CountNonPositive(xs: seq<int>): nat {
    if xs == [] then 0 else (if xs[0] <= 0 then 1 else 0) + CountNonPositive(xs[1..])
  }

  function Losses(events: seq<Event>): int {
    if events == [] then 0
    else (if events[0].Hurt? then events[0].loss else 0) + Losses(events[1..])
  }

  /** The parity flag flips exactly on the events that perform an action. */
  lemma StepParity(s: Snapshot, e: Event)
    ensures Step(s, e).skipHealth ==
      if e.Frame? && Acts(s, e.horizontal, e.vertical) then !s.skipHealth else s.skipHealth
  {
  }

  /** No two neighbouring entries agree. */
  predicate Alternating(r: seq<bool>) {
    forall i :: 0 <= i < |r| - 1 ==> r[i] != r[i + 1]
  }

  lemma AlternatingCons(b: bool, rest: seq<bool>)
    requires Alternating(rest)
    requires |rest| > 0 ==> rest[0] == !b
    ensures Alternating([b] + rest)
  {
    var r := [b] + rest;
    forall i | 0 <= i < |r| - 1 ensures r[i] != r[i + 1] {
      if i > 0 {
        assert r[i] == rest[i - 1] && r[i + 1] == rest[i];
      }
    }
  }

  /** Regeneration alternates: the first action regenerates exactly when the
      parity flag was clear, and no two consecutive actions agree — so health
      never regenerates on two actions in a row, and never skips two in a row.
      The flag at the end records whether the last action regenerated. */
  lemma {:induction false} RegensAlternate(s: Snapshot, events: seq<Event>)
    ensures |Regens(s, events)| > 0 ==> Regens(s, events)[0] == !s.skipHealth
    ensures Alternating(Regens(s, events))
    ensures Run(s, events).skipHealth ==
      if |Regens(s, events)| == 0 then s.skipHealth else Regens(s, events)[|Regens(s, events)| - 1]
    decreases |events|
  {
    if events != [] {
      var e := events[0];
      var t := Step(s, e);
      RegensAlternate(t, events[1..]);
      StepParity(s, e);
      var rest := Regens(t, events[1..]);
      assert Run(s, events) == Run(t, events[1..]);
      if e.Frame? && Acts(s, e.horizontal, e.vertical) {
        assert Regens(s, events) == [!s.skipHealth] + rest;
        AlternatingCons(!s.skipHealth, rest);
      } else {
        assert Regens(s, events) == rest;
      }
    }
  }

  /** Health bookkeeping over any trace: the final health is the initial one,
      plus one per regenerating action, minus every loss, brought back into
      the 32-bit range modulo 2^32. */
  lemma {:induction false} HealthAccount(s: Snapshot, events: seq<Event>)
    ensures Run(s, events).hp == Wrap(s.hp + CountTrue(Regens(s, events)) - Losses(events))
    decreases |events|
  {
    if events != [] {
      var e := events[0];
      var t := Step(s, e);
      HealthAccount(t, events[1..]);
      var rest := Regens(t, events[1..]);
      var tail := CountTrue(rest) - Losses(events[1..]);
      assert Run(s, events) == Run(t, events[1..]);
      if e.Frame? && Acts(s, e.horizontal, e.vertical) {
        assert Regens(s, events) == [!s.skipHealth] + rest;
        assert ([!s.skipHealth] + rest)[1..] == rest;
        if s.skipHealth {
          WrapAdd(s.hp, tail);
        } else {
          WrapAdd(s.hp + 1, tail);
        }
      } else if e.Hurt? {
        assert Regens(s, events) == rest;
        WrapAdd(s.hp - e.loss, tail);
      } else {
        assert Regens(s, events) == rest;
        WrapAdd(s.hp, tail);
      }
    }
  }

  /** Game over is reported once per check that sees a non-positive health,
      and at no other time. */
  lemma {:induction false} GameOverAccount(s: Snapshot, events: seq<Event>)
    ensures Run(s, events).gameOvers == s.gameOvers + CountNonPositive(Checks(s, events))
    decreases |events|
  {
    if events != [] {
      var e := events[0];
      var t := Step(s, e);
      GameOverAccount(t, events[1..]);
      var rest := Checks(t, events[1..]);
      if e.Hurt? {
        assert Checks(s, events) == [Wrap(s.hp - e.loss)] + rest;
        assert ([Wrap(s.hp - e.loss)] + rest)[1..] == rest;
      } else if e.Frame? && Acts(s, e.horizontal, e.vertical) {
        assert Checks(s, events) == [Regenerate(s).hp] + rest;
        assert ([Regenerate(s).hp] + rest)[1..] == rest;
      } else {
        assert Checks(s, events) == rest;
      }
    }
  }

  lemma {:induction false} CountNonPositiveZero(xs: seq<int>)
    ensures CountNonPositive(xs) == 0 <==> forall i :: 0 <= i < |xs| ==> xs[i] > 0
  {
    if xs != [] {
      CountNonPositiveZero(xs[1..]);
      assert forall i :: 1 <= i < |xs| ==> xs[i] == xs[1..][i - 1];
    }
  }

  /** Game over is reported along a trace if and only if some check saw a
      non-positive health. */
  lemma GameOverIffSomeCheckDead(s: Snapshot, events: seq<Event>)
    ensures var c := Checks(s, events);
      Run(s, events).gameOvers > s.gameOvers <==> exists i :: 0 <= i < |c| && c[i] <= 0
  {
    GameOverAccount(s, events);
    CountNonPositiveZero(Checks(s, events));
  }

  /** n turns: the session hands the turn back, then the Player moves right. */
  function Turns(n: nat): seq<Event> {
    if n == 0 then [] else [TurnReturned, Frame(1, 0)] + Turns(n - 1)
  }

  /** n undamaged actions regenerate on every other one, starting with the
      first when the parity flag is clear. */
  lemma {:induction false} TurnsRegen(s: Snapshot, n: nat)
    ensures Run(s, Turns(n)).hp == Wrap(s.hp + (n + (if s.skipHealth then 0 else 1)) / 2)
    ensures Run(s, Turns(n)).skipHealth == (s.skipHealth != (n % 2 == 1))
    decreases n
  {
    if n > 0 {
      var evs := Turns(n);
      var s1 := Step(s, TurnReturned);
      var s2 := Step(s1, Frame(1, 0));
      assert evs[0] == TurnReturned && evs[1..][0] == Frame(1, 0);
      assert evs[1..][1..] == Turns(n - 1);
      assert Run(s, evs) == Run(s2, Turns(n - 1));
      TurnsRegen(s2, n - 1);
      var b2 := if s2.skipHealth then 0 else 1;
      WrapAdd(if s.skipHealth then s.hp else s.hp + 1, (n - 1 + b2) / 2);
    }
  }

  /** From hp = 3 with the parity flag clear, four actions end at hp = 5. */
  lemma FourActionsFromThree(s: Snapshot)
    requires s.hp == 3 && !s.skipHealth
    ensures Run(s, Turns(4)).hp == 5
  {
    TurnsRegen(s, 4);
  }

  /** The code reports game over on every check that sees hp <= 0, not only
      the first: a killing hit and one more hit make two reports. */
  lemma GameOverRepeatsWhileDead(s: Snapshot)
    requires s.hp == 1
    ensures Run(s, [Hurt(1), Hurt(0)]).gameOvers == s.gameOvers + 2
  {
    GameOverAccount(s, [Hurt(1), Hurt(0)]);
    assert Checks(s, [Hurt(1), Hurt(0)]) == [0, 0];
  }
}
