# Turn-gated Player of Hackathon15

This project models the Player of a small turn-based grid game (the Unity
script `Player.cs`). The Player only acts on its own turn. An action starts
with every-other-turn health regeneration. The Player then asks the movement
code to move one cell, checks whether the game is over, and hands the turn to
the enemies. Enemies hurt the Player through `LoseHealth`, which has no lower
bound and also runs the game-over check. Health is carried between levels in
a session object: `Start` loads it and `OnDisable` writes it back.

Files:

- `Ints.dfy` — module `Ints`. It holds the C# `int` range and `Wrap`, the
  32-bit wrap-around of unchecked C# arithmetic. `hp` and the stored health
  are C# `int`s, so `hp++` and `hp -= loss` wrap around.
- `PlayerRules.dfy` — module `PlayerRules`. It holds the value-level rules.
  A `Snapshot` holds `hp`, `skipHealth`, the session's `playersTurn` and
  `playerHealthPoints`, and a count of game-over reports. There is one
  function per operation, an event trace semantics (`Run`), and the lemmas.
- `Collaborators.dfy` — module `Collaborators`. It holds the session object
  (`GameManager`), the `Enemy`, and the `Component` a blocked move runs
  into. The code of `GameOver` and `DamageEnemy` is not part of this model.
  Each call to them is recorded in a ghost log, with its argument.
- `PlayerBehaviour.dfy` — module `PlayerBehaviour`. It holds the `Player`
  class, whose methods update `hp`, `skipHealth` and the session cells in
  place. Each method is proved to change `State()` exactly as its
  `PlayerRules` function does. Three scenario methods drive a fresh Player
  through the concrete cases.

The inherited movement code (`MovingObject.AttemptMove` and `Move`) is not
part of this model. Both calls are kept, in the order the source makes them,
and each one only appends its direction to a ghost log (`moveRequests`). The
answer of `Move` is arbitrary. The model makes no claim about where the
Player ends up, or how many times it moves.

Input sampling is a parameter. `Update(h, v)` takes the two axis values
directly. The source truncates its axis values to {-1, 0, 1}. The model
accepts any integers, because every rule holds for all of them.

The session handing the turn back after the enemies move happens outside
`Player.cs`. In traces it is the event `TurnReturned`, and in the scenario
methods it is an assignment to `playersTurn`.

Two consequences of the code as written:

- The code reports game over on every check that sees `hp <= 0`, not only
  the first. Each further check that still sees `hp <= 0` reports again, for
  example a hit of 0 (`PlayerRules.GameOverRepeatsWhileDead`).
- `LoseHealth` accepts any 32-bit integer loss, including a negative one.
  It subtracts the loss with wrap-around. So health at the smallest `int`
  that loses 1 becomes the largest `int`, and no game over is reported
  (`PlayerRules.LoseHealthWrapsAtMin`). Health at the largest `int` that
  regenerates becomes the smallest, and game over is reported
  (`PlayerRules.RegenWrapsAtMax`).

## Model

| member | source | states |
|---|---|---|
| `Ints.Wrap` | Hackathon/Assets/Scripts/Player.cs:14 | The result is a 32-bit `int` congruent to the input modulo 2^32, and equals the input when the input is already in range. |
| `Ints.WrapAdd` | Hackathon/Assets/Scripts/Player.cs:76 | Wrapping an intermediate sum and then adding gives the same 32-bit value as wrapping the whole sum once. |
| `PlayerRules.Resolve` | Hackathon/Assets/Scripts/Player.cs:55-62 | A non-zero horizontal input is kept and forces vertical to 0. At most one component of the resolved direction is non-zero. The resolved direction is zero exactly when both inputs are zero. |
| `PlayerRules.Regenerate` | Hackathon/Assets/Scripts/Player.cs:75-82 | The definition `Player.AttemptMove`'s regeneration is proved to follow. It has no contract of its own; its properties are the lemmas below. |
| `PlayerRules.CheckGameOver` | Hackathon/Assets/Scripts/Player.cs:179-188 | The definition `Player.CheckIfGameOver` is proved to follow. It has no contract of its own. |
| `PlayerRules.Act` | Hackathon/Assets/Scripts/Player.cs:72-101 | The definition `Player.AttemptMove` is proved to follow. It has no contract of its own. |
| `PlayerRules.Update` | Hackathon/Assets/Scripts/Player.cs:40-68 | The definition `Player.Update` is proved to follow. It has no contract of its own. |
| `PlayerRules.LoseHealth` | Hackathon/Assets/Scripts/Player.cs:165-175 | The definition `Player.LoseHealth` is proved to follow. It has no contract of its own. |
| `PlayerRules.Start` | Hackathon/Assets/Scripts/Player.cs:25 | The definition `Player.Start` is proved to follow. It has no contract of its own. |
| `PlayerRules.OnDisable` | Hackathon/Assets/Scripts/Player.cs:36 | The definition `Player.OnDisable` is proved to follow. It has no contract of its own. |
| `PlayerRules.Step` | Hackathon/Assets/Scripts/Player.cs:40-175 | One event of a trace: an Update frame, a LoseHealth call, or the session handing the turn back. It has no contract of its own; the trace lemmas are stated against it. |
| `PlayerRules.Run` | Hackathon/Assets/Scripts/Player.cs:40-175 | A whole trace of events, applied in order. It has no contract of its own; the trace lemmas are stated against it. |
| `PlayerRules.UpdateOffTurnChangesNothing` | Hackathon/Assets/Scripts/Player.cs:43 | When it is not the Player's turn, an Update frame leaves the whole snapshot unchanged: health, parity, turn flag, store and game-over count. |
| `PlayerRules.ZeroInputKeepsTurn` | Hackathon/Assets/Scripts/Player.cs:62-67 | With zero input no action is taken, so the state is unchanged and the turn flag keeps its value. |
| `PlayerRules.ActRegeneratesOnParity` | Hackathon/Assets/Scripts/Player.cs:75-100 | An action leaves health unchanged exactly when the parity flag was set. When it was clear, it adds 1, provided health was below the largest `int`. It always negates the flag, always ends the Player's turn, and never touches the store. |
| `PlayerRules.TwoActionsGainOne` | Hackathon/Assets/Scripts/Player.cs:75-82 | Two consecutive actions with no damage raise health by exactly 1 (with 32-bit wrap-around) and restore the parity flag. |
| `PlayerRules.RegenWrapsAtMax` | Hackathon/Assets/Scripts/Player.cs:75-97 | At the largest `int` with the flag clear, an action wraps health to the smallest `int`, and the check then reports game over. |
| `PlayerRules.LoseHealthNoClamp` | Hackathon/Assets/Scripts/Player.cs:165-175 | LoseHealth sets health to the old health minus the loss, wrapped to 32 bits, with no clamping. When the difference fits in an `int`, that is the difference itself. It changes neither the parity flag, nor the turn flag, nor the store. |
| `PlayerRules.LoseHealthWrapsAtMin` | Hackathon/Assets/Scripts/Player.cs:171-182 | At the smallest `int`, losing 1 wraps health to the largest `int`, and the check then makes no report. |
| `PlayerRules.GameOverExactlyWhenDead` | Hackathon/Assets/Scripts/Player.cs:179-188 | After LoseHealth, and after an action, one game-over report is made if and only if the new health is not positive. No report is made if and only if it is positive. |
| `PlayerRules.LastHitReportsOnce` | Hackathon/Assets/Scripts/Player.cs:165-186 | A Player at 1 health who loses 1 ends at 0 health and makes exactly one game-over report. |
| `PlayerRules.StartThenDisableKeepsStore` | Hackathon/Assets/Scripts/Player.cs:19-37 | Loading health and writing it straight back leaves the stored health unchanged. The only change is that health now equals the store. |
| `PlayerRules.StepParity` | Hackathon/Assets/Scripts/Player.cs:75-82 | For every kind of event, the parity flag flips exactly on the events that perform an action. |
| `PlayerRules.RegensAlternate` | Hackathon/Assets/Scripts/Player.cs:75-82 | Over any trace of frames, hits and returned turns, the actions taken alternate between regenerating and not. The first action regenerates exactly when the flag was clear. The final flag says whether the last action regenerated. |
| `PlayerRules.HealthAccount` | Hackathon/Assets/Scripts/Player.cs:72-175 | Over any trace, the final health is the initial health, plus one per regenerating action, minus the sum of all losses, wrapped to 32 bits. |
| `PlayerRules.GameOverAccount` | Hackathon/Assets/Scripts/Player.cs:96-188 | Over any trace, the number of game-over reports equals the number of checks that saw a non-positive health. |
| `PlayerRules.GameOverIffSomeCheckDead` | Hackathon/Assets/Scripts/Player.cs:179-188 | Along a trace, game over is reported if and only if some check saw a non-positive health. |
| `PlayerRules.TurnsRegen` | Hackathon/Assets/Scripts/Player.cs:75-82 | After n undamaged turns, health has risen by (n + 1) / 2 from a clear parity flag, or by n / 2 from a set flag, wrapped to 32 bits. The flag has flipped n times. |
| `PlayerRules.FourActionsFromThree` | Hackathon/Assets/Scripts/Player.cs:75-82 | From health 3 with the parity flag clear, four undamaged turns end at health 5. |
| `PlayerRules.GameOverRepeatsWhileDead` | Hackathon/Assets/Scripts/Player.cs:179-188 | From health 1, a hit of 1 and then a hit of 0 make two game-over reports, not one. |
| `PlayerBehaviour.Player.constructor` | Hackathon/Assets/Scripts/Player.cs:10-15 | A new Player has health 0, a clear parity flag and an enemy damage of 1, and is bound to the given session. |
| `PlayerBehaviour.Player.Start` | Hackathon/Assets/Scripts/Player.cs:19-29 | Health becomes the session's stored health. Nothing else changes. |
| `PlayerBehaviour.Player.OnDisable` | Hackathon/Assets/Scripts/Player.cs:33-37 | The session's stored health becomes the Player's health. Nothing else changes. |
| `PlayerBehaviour.Player.Update` | Hackathon/Assets/Scripts/Player.cs:40-68 | The new state is `PlayerRules.Update` of the old one. Off turn, nothing changes and nothing is asked of the movement code. Zero input keeps the turn flag. Otherwise the turn ends and the resolved direction goes twice to the movement code. |
| `PlayerBehaviour.Player.AttemptMove` | Hackathon/Assets/Scripts/Player.cs:72-101 | Health rises by 1 (wrapping at 32 bits) exactly when the flag was clear, and the flag is negated. Game over is reported exactly when the new health is not positive. The turn is handed over whatever the movement code answered. The direction goes to the movement code twice. |
| `PlayerBehaviour.Player.BaseAttemptMove` | Hackathon/Assets/Scripts/Player.cs:85 | The inherited move request is recorded with its direction. Nothing the model tracks changes. |
| `PlayerBehaviour.Player.Move` | Hackathon/Assets/Scripts/Player.cs:91 | The second move request is recorded with its direction. Its answer is arbitrary. Nothing else changes. |
| `PlayerBehaviour.Player.OnCantMove` | Hackathon/Assets/Scripts/Player.cs:106-116 | The component must be an enemy. That enemy receives exactly one DamageEnemy call, with the Player's enemy damage. |
| `PlayerBehaviour.Player.LoseHealth` | Hackathon/Assets/Scripts/Player.cs:165-175 | Health drops by the loss with no lower bound, wrapping at 32 bits. Game over is reported exactly when the new health is not positive. Parity, turn and store do not change. |
| `PlayerBehaviour.Player.CheckIfGameOver` | Hackathon/Assets/Scripts/Player.cs:179-188 | One game-over report is made exactly when health is not positive. Nothing else changes. |
| `PlayerBehaviour.FourActionsScenario` | Hackathon/Assets/Scripts/Player.cs:40-101 | A Player loaded with 3 health takes four turns and ends with 5 health. |
| `PlayerBehaviour.LastHitScenario` | Hackathon/Assets/Scripts/Player.cs:165-188 | A Player loaded with 1 health who loses 1 ends at 0 and has reported game over exactly once. |
| `PlayerBehaviour.StartThenDisableScenario` | Hackathon/Assets/Scripts/Player.cs:19-37 | Loading health and writing it back returns the stored value unchanged. |
| `Collaborators.GameManager.GameOver` | Hackathon/Assets/Scripts/Player.cs:186 | Each call is counted. What the session does on game over is not modelled. |
| `Collaborators.Enemy.DamageEnemy` | Hackathon/Assets/Scripts/Player.cs:112 | Each call is recorded with its damage argument. The enemy's own health is not modelled. |

## Left out

- Input sampling with `Input.GetAxisRaw` and its float-to-int truncation (Player.cs:50, 53). `Update` takes the two integers as parameters.
- The bodies of `MovingObject.AttemptMove` and `Move`, with their raycast and linecast collision and `RaycastHit2D`. That code is not part of this model. Both calls are kept as opaque requests that change nothing tracked here. So the model says nothing about position, about blocking, or about `MovingObject.AttemptMove` dispatching to `OnCantMove`.
- `PlayerBehaviour.Player.Move`: its boolean answer is arbitrary, because the collision code that decides it is not part of this model. The source does not use the answer: the block it guards holds only a comment.
- `PlayerBehaviour.Player.OnCantMove`: the component must be an enemy, so the path where it is not is not modelled. `Update` asks the movement code to look for a `Wall` (Player.cs:66). If a wall blocks the move and the inherited code passes it to `OnCantMove`, the cast at Player.cs:109 gives null and the call at Player.cs:112 throws. That exception leaves `AttemptMove` inside the inherited call at Player.cs:85. Regeneration has already run, but the game-over check and the turn hand-over do not run, so the turn stays with the Player. The contracts of `PlayerBehaviour.Player.AttemptMove`, `PlayerBehaviour.Player.Update` and `PlayerRules.ActRegeneratesOnParity` ("the turn ends") assume the inherited call returns normally.
- `MovingObject.Start` (`base.Start`, Player.cs:28). It is not part of this model and changes nothing the Player tracks.
- The Animator, sound, and the commented-out animation triggers (Player.cs:13, 22, 93, 115, 168). These are presentation only.
- `OnTriggerEnter2D` (Player.cs:120-152). Its body is entirely commented out.
- `Restart` (Player.cs:156-160). It reloads the scene, which is scene I/O.
- The unused fields `restartLevelDelay`, `pointsPerFood` and `pointsPerSoda` (Player.cs:7-9).
- The internals of `GameManager.GameOver` and `Enemy.DamageEnemy`. Only each call is recorded, with its argument. The enemy's health after an attack is not modelled.
- The driver that hands the turn back to the Player after the enemies act. It lives in code outside `Player.cs` and appears only as the trace event `TurnReturned`.
- Unity's single global `GameManager.instance`. It is a `session` reference fixed when the Player is created.
