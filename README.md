# Snake game: the tick engine and its inputs

This project models the game logic of a browser Snake component
(`snake_game/Snake.jsx`): a snake moving on a 20×20 grid, regular food worth
10 × the difficulty multiplier, a timed special item (a bonus worth 50 × the
multiplier, or a slow-down that lengthens the tick interval by 20 ms), levels
gained every time regular food brings the score to a multiple of 100, a
best-score record, and the keyboard and button handlers that start, pause,
steer and restart the game.

It has three modules:

- `SnakeRules` (`snake_rules.dfy`) holds the constants and the difficulty table.
  It defines the session state `Game` and one tick as a pure transition `Step`.
  `Step` is built from three phases:
  - `Counted`: the move counter and the special item change;
  - `Crash`: the game ends on a collision;
  - `Feed`, made of `FoodPhase` and `SpecialPhase`: the snake moves and eats.

  The module also holds the input handlers (`OnKey`, `OnDirectionButton`,
  `OnDifficulty`, `ResetGame`), the start-up state `Initial` and the
  invariant `Inv`.
- `SnakeSession` (`snake_session.dfy`) is the component as an object.
  - The fields of `Session` are the component's state hooks.
  - `Tick` copies the snake, puts the new head in front and drops the last
    segment, as the component does with its array.
  - The `.some` scan over the snake is the loop `Occupies`.
  - The two food-placement `do … while` retry loops are the loop `FirstFreeDraw`.
  - `Tick` and the input handlers are each proved to equal the matching
    rule of `SnakeRules` and to keep `Inv`.
  - The tick's helper methods (`CountMove`, `GenerateSpecialFood`,
    `MoveAndFeed`, `EatFood`) are each proved to equal one phase of `Step`.
- `SnakeProperties` (`snake_properties.dfy`) holds the lemmas about one tick,
  the direction latch, start, pause and restart. It also defines
  `Run`, which applies a sequence of inputs, and proves that the invariant
  holds in every reachable state and that the score never goes down between
  restarts.

Randomness is an input. `Draws` supplies:
- the successive cells the two retry loops would draw;
- the kinds drawn with the special cells;
- the outcome of the one-in-ten spawn roll.

A tick requires (`Supplies`) that every cell drawn is on the board. It also
requires that each loop the tick actually runs finds a free cell among the
draws. The component's loops are unbounded, and this is the condition under
which they end.

For food placement this condition can always be met: the cell the head
has just entered is free (`FreeCellWhenEating`). For the special-item spawn
it can fail in a reachable state:
- New food may take the last cell outside the snake (`EatingCanCoverBoard`).
- After that, the snake and the food cover the whole board.
- A later spawn attempt with a successful roll then finds no free cell.
  The component's loop never ends, and no tick of the model is defined
  (`SpawnDrawsExistIff`).

In these details the model follows the code rather than the obvious rule:
- A colliding tick still counts the move and still runs the special-item
  spawn attempt and countdown. Only the snake move and the feeding are skipped.
- The spawn test reads the move counter from before the tick.
- The special item disappears on the tick that finds its timer already at 0,
  not on the tick that brings it to 0. An item eaten on that tick still has
  its effect.
- The slow-down kind is called `'speed'` in the code. It adds 20 ms to the
  interval, with no upper bound.
- Only the on-screen direction buttons start a game that is not running.
  Direction keys are ignored until the game is started, by Space or a button.
- New food is checked only against the snake as it was before the move. It
  may therefore appear under the new head (`FoodMayLandOnNewHead`). It may
  also appear on the special item.

## Model

| member | source | states |
|---|---|---|
| SnakeRules.FoodPoints | snake_game/Snake.jsx:7-12 | regular food is worth exactly 10 × the difficulty multiplier (1, 1.5, 2, 3), always positive |
| SnakeRules.BonusPoints | snake_game/Snake.jsx:160-164 | the bonus item is worth exactly 50 × the difficulty multiplier, always positive |
| SnakeRules.FirstFree | snake_game/Snake.jsx:48-57 | the retry loop settles on the first draw that is not a blocked cell: every earlier draw is blocked, and the chosen one is not |
| SnakeRules.Collides | snake_game/Snake.jsx:125-127 | the candidate head collides exactly when x or y is outside [0, 20) or it equals some segment of the snake |
| SnakeRules.LevelsUp | snake_game/Snake.jsx:148 | a new score gains a level exactly when it is positive and a whole multiple of 100, so at least 100 |
| SnakeRules.TimedSpecial | snake_game/Snake.jsx:105-116 | an existing item survives exactly while its timer is positive and loses 1; with no item, one appears exactly when the counter before the tick is a multiple of 100 and the roll succeeds, on the board, off the snake and the food, with timer 100 |
| SnakeRules.Counted | snake_game/Snake.jsx:103-116 | every active tick adds 1 to the move counter and changes nothing but the counter and the special item, keeping the invariant |
| SnakeRules.Crash | snake_game/Snake.jsx:125-137 | a crash sets game over, stops play and makes the record the larger of score and record; nothing else changes |
| SnakeRules.FoodPhase | snake_game/Snake.jsx:144-158 | off the food nothing changes; on it the score grows by the food's points, the food moves to a board cell outside the snake before the move, the level rises by 1 exactly when the new score levels up, a "+points" popup is shown, and only score, food, level and interval change |
| SnakeRules.SpecialPhase | snake_game/Snake.jsx:160-172 | one popup is added exactly when the head is on the item the tick started with; the item is then removed; score and interval never go down, and nothing else changes |
| SnakeRules.Feed | snake_game/Snake.jsx:118-178 | the new snake starts with the new head followed by a prefix of the old snake, and is one longer exactly when the tick showed a popup (something was eaten); the score never goes down |
| SnakeRules.Step | snake_game/Snake.jsx:100-180 | an inactive tick changes nothing; an active one adds 1 to the counter; the game is over afterwards exactly when it was before or the active tick collides; direction and difficulty never change |
| SnakeRules.Initial | snake_game/Snake.jsx:15-31 | the mounted state satisfies the invariant, has a one-cell snake, score 0, level 1, the stored record, no special item, and is neither playing, paused nor over |
| SnakeRules.ResetGame | snake_game/Snake.jsx:77-90 | a restart is the mounted state with the record and the difficulty kept and the interval of that difficulty, and satisfies the invariant |
| SnakeRules.KeyOf | snake_game/Snake.jsx:188-229 | a key is ignored exactly when it is not one of the 16 names the handler tests |
| SnakeRules.SteerByKey | snake_game/Snake.jsx:208-229 | an arrow either keeps the direction or takes its own; from a unit direction the result is a unit direction and never the reverse |
| SnakeRules.HandleKey | snake_game/Snake.jsx:188-229 | a key changes nothing but the direction, playing and paused, and keeps the invariant |
| SnakeRules.OnKey | snake_game/Snake.jsx:188-229 | unknown keys and Escape change no game state; every key keeps the invariant |
| SnakeRules.OnDirectionButton | snake_game/Snake.jsx:236-249 | a button changes only playing and the direction, and only to the button's direction; shown by the view, it keeps the invariant |
| SnakeRules.OnDifficulty | snake_game/Snake.jsx:269-274 | the difficulty becomes the choice, the interval becomes its preset when not playing, nothing else changes, and the invariant is kept |
| SnakeSession.Occupies | snake_game/Snake.jsx:125-127 | the scan over the segments reports a hit exactly when the cell is one of them |
| SnakeSession.FirstFreeDraw | snake_game/Snake.jsx:48-57 | the draw-until-free loop returns the index `FirstFree` describes |
| SnakeRules.FirstFreeIsFirst | snake_game/Snake.jsx:50-55 | any index whose earlier draws are all blocked and whose own draw is free is the loop's answer |
| SnakeProperties.IdleTickChangesNothing | snake_game/Snake.jsx:101 | a tick while the game is over, not started or paused changes nothing and shows no popup |
| SnakeProperties.CollisionIff | snake_game/Snake.jsx:118-127 | an active tick ends the game exactly when head + direction has x or y outside [0, 20) or equals any current segment, the tail included |
| SnakeProperties.CollisionOutcome | snake_game/Snake.jsx:125-137 | a colliding tick sets game over, stops play, returns the snake unchanged, keeps score, food, level and interval, and sets the record to the score only if the score beats it |
| SnakeProperties.MoveAdvancesHead | snake_game/Snake.jsx:118-178 | without collision the new head is old head + direction, followed by the old snake; the last segment is dropped exactly when nothing was eaten, so the length grows by 1 exactly when food or the special item was eaten |
| SnakeProperties.TickKeepsSnakeWellFormed | snake_game/Snake.jsx:118-178 | a snake that is on the board with no repeated cell stays so after any tick |
| SnakeProperties.TickKeepsInv | snake_game/Snake.jsx:100-180 | a tick keeps the session invariant: snake well formed, unit direction, food and special item on the board, timer in [0, 100], score ≥ 0, level ≥ 1, interval ≥ 30 ms, paused only while playing, and game over only when not playing and with the record at least the score |
| SnakeProperties.TickMonotone | snake_game/Snake.jsx:100-180 | a tick never lowers score, record or level, changes the length by 0 or 1, and never changes the direction or the difficulty |
| SnakeProperties.RegularFoodRule | snake_game/Snake.jsx:144-158 | the score grows by the food's points when the new head is on the food, plus the bonus points when it is also on a bonus item; eaten food moves to the first drawn board cell outside the snake as it was before the move, with a "+points" popup; uneaten food stays |
| SnakeProperties.LevelUpRule | snake_game/Snake.jsx:144-168 | the level rises by 1, and the interval becomes max(30, interval − 10), exactly when regular food brings the score to a positive multiple of 100; the bonus never levels up; the slow-down item adds 20 ms on top |
| SnakeProperties.SpecialEatenRule | snake_game/Snake.jsx:160-172 | an eaten special item is removed; a bonus adds 50 × multiplier with a "BONUS!" popup, a slow-down leaves the score alone with a "SLOW!" popup |
| SnakeProperties.SpecialCountdown | snake_game/Snake.jsx:109-116 | an uneaten special item counts its timer down by 1 while it is positive and is removed on the tick that finds it at 0 |
| SnakeProperties.SpecialSpawnRule | snake_game/Snake.jsx:59-75 | with no special item, one appears exactly when the move counter before the tick is a multiple of 100 and the one-in-ten roll succeeds; it is on the board, off the snake, off the food, with timer 100 |
| SnakeProperties.FreeCellWhenEating | snake_game/Snake.jsx:48-57 | whenever regular food is eaten a free board cell exists (the new head), so the placement loop can succeed |
| SnakeProperties.SpawnDrawsExistIff | snake_game/Snake.jsx:59-72 | when a spawn is attempted, draws that let a successful roll finish exist exactly when some board cell is free of both the snake and the food |
| SnakeProperties.EatingCanCoverBoard | snake_game/Snake.jsx:139-158 | when one board cell is left outside the snake and the food, eating may put the new food there, after which the snake and the food cover the board and play goes on |
| SnakeProperties.FoodMayLandOnNewHead | snake_game/Snake.jsx:155 | the new food can be placed on the cell the head has just entered, because only the old snake is checked |
| SnakeProperties.KeyLatchRule | snake_game/Snake.jsx:206-229 | a key press changes the direction only while playing and not paused, only by an arrow/WASD key, only to that key's direction and only orthogonally to the current one; the result is never the reverse |
| SnakeProperties.KeyTurnAccepted | snake_game/Snake.jsx:206-229 | while steering is allowed an arrow key is taken exactly when its direction is orthogonal to the current one (vertical keys need direction.y = 0, horizontal keys direction.x = 0) |
| SnakeProperties.ArrowTurnAccepted | snake_game/Snake.jsx:206-229 | while playing and not paused, an arrow (of any of its key names) is taken exactly when its direction is orthogonal to the current one |
| SnakeProperties.SteerIsOrthogonalTurn | snake_game/Snake.jsx:208-229 | from a unit direction, the per-arrow tests (direction.y = 0 for vertical arrows, direction.x = 0 for horizontal ones) take the arrow exactly when it is orthogonal |
| SnakeProperties.KeyFlagsRule | snake_game/Snake.jsx:194-204 | Space starts play exactly when neither playing nor over; P flips pause exactly while playing; no key changes anything besides direction, playing and paused |
| SnakeProperties.KeyNames | snake_game/Snake.jsx:188-229 | ArrowUp/w/W, ArrowDown/s/S, ArrowLeft/a/A, ArrowRight/d/D, p/P, Space and Escape are the keys the handler tells apart |
| SnakeProperties.ButtonTestIsOrthogonality | snake_game/Snake.jsx:244-248 | for unit directions the button's two tests hold exactly when the new direction is orthogonal to the current one, which is never its reverse |
| SnakeProperties.ButtonLatchRule | snake_game/Snake.jsx:236-249 | a direction button starts a game that is not running without turning; it does nothing while paused; otherwise it turns exactly to an orthogonal direction and never reverses |
| SnakeProperties.TwoTurnsReverseMotion | snake_game/Snake.jsx:206-234 | two accepted key presses between ticks (up, then left while moving right) latch the reverse of the direction the snake last moved in, and the next tick runs the head into the segment behind it |
| SnakeProperties.ResetRule | snake_game/Snake.jsx:77-90 | restart gives snake [(10,10)], food (15,15), no special item, direction (1,0), score 0, level 1, counter 0, every flag false, the interval of the current difficulty, and keeps the record and the difficulty; the result satisfies the invariant |
| SnakeProperties.ApplyKeepsInv | snake_game/Snake.jsx:77-249 | every input the view can deliver keeps the session invariant |
| SnakeProperties.RunKeepsInv | snake_game/Snake.jsx:77-249 | the invariant holds after any admissible sequence of ticks and inputs |
| SnakeProperties.ReachableStatesAreValid | snake_game/Snake.jsx:15-31 | from start-up, every reachable state has a snake on the board with no repeated cell, and the rest of the invariant |
| SnakeProperties.RunScoreMonotone | snake_game/Snake.jsx:144-172 | without a restart, the score and the level never go down over any sequence of inputs |
| SnakeProperties.RunHighScoreMonotone | snake_game/Snake.jsx:132-135 | the record never goes down, restarts included |
| SnakeProperties.EatScenario | snake_game/Snake.jsx:139-158 | snake [(10,10)] moving right onto food at (11,10) becomes [(11,10),(10,10)], scores 10 × multiplier, moves the food, and keeps level and interval |
| SnakeProperties.WallScenario | snake_game/Snake.jsx:125-137 | a head moving to x = 20 ends the game, stops play, keeps the snake and records the higher score |
| SnakeSession.Session.constructor | snake_game/Snake.jsx:15-31 | the component starts in the state of its state hooks, with the stored record |
| SnakeSession.Session.Tick | snake_game/Snake.jsx:100-180 | one tick on the fields equals `Step` on the state before it, and keeps the invariant |
| SnakeSession.Session.CountMove | snake_game/Snake.jsx:103-116 | the counter goes up, a spawn is attempted on the counter from before the tick, and an existing item counts down |
| SnakeSession.Session.GenerateSpecialFood | snake_game/Snake.jsx:59-75 | with no item and a successful roll, the first draw free of the snake and the food becomes an item with timer 100; otherwise nothing changes |
| SnakeSession.Session.MoveAndFeed | snake_game/Snake.jsx:118-178 | the rest of a collision-free tick equals `Feed` |
| SnakeSession.Session.EatFood | snake_game/Snake.jsx:144-158 | the regular-food branch equals `FoodPhase` and reports whether food was eaten |
| SnakeSession.Session.KeyPress | snake_game/Snake.jsx:188-230 | the keydown handler equals `OnKey` and keeps the invariant |
| SnakeSession.Session.DirectionButton | snake_game/Snake.jsx:236-249 | the button handler equals `OnDirectionButton` and keeps the invariant |
| SnakeSession.Session.StartButton | snake_game/Snake.jsx:381-385 | the start button sets playing and nothing else |
| SnakeSession.Session.PauseButton | snake_game/Snake.jsx:387-391 | the pause button flips paused and nothing else |
| SnakeSession.Session.Reset | snake_game/Snake.jsx:77-90 | restart equals `ResetGame` and, from any state, leaves one that satisfies the invariant |
| SnakeSession.Session.SelectDifficulty | snake_game/Snake.jsx:267-276 | choosing a difficulty while not playing sets it and the interval of its preset |

## Left out

- Rendering, the markup and the style objects are not modelled. They hold no game logic.
- Sound playback is not modelled. The sound toggle and the Escape-toggled settings panel are not modelled either. They do not touch game state; the Escape key is modelled as changing nothing.
- Browser storage of the record is not modelled. The record read at start-up is a constructor parameter. A stored value that parses to NaN is not modelled: the record is an integer.
- The interval timer that calls the tick, and the keydown listener registration, are not modelled. Ticks and inputs are method calls.
- Popup animations with time-stamped ids and one-second removal are not modelled. A tick returns the popups it would show, with their cell and points.
- `Math.random` is not modelled. Its values come from `Draws`. The retry loops are unbounded in the component; in the model they are bounded by the supplied draws. `Supplies` requires that the draws contain a free cell whenever a loop runs.
- The special-item spawn loop at `snake_game/Snake.jsx:62-72` never ends once the snake and the food cover the board. That state is reachable (`EatingCanCoverBoard`). The model has no tick for a successful roll in it: `Supplies` cannot hold there (`SpawnDrawsExistIff`). The page hang itself is not modelled.
- Floating-point multipliers are not modelled. The points come from an integer table (10/15/20/30 and 50/75/100/150), and `DoubledMultiplier` records the multiplier × 2.
- The framework's deferred state updates are not modelled. A tick is one atomic transition that reads the state from before the tick, and its branches act in source order. The framework runs updater functions later. This can differ only when regular food and a special item are eaten on the same tick:
  - the regular-food updater could read the bonus value of the shared `points` variable;
  - the level-up interval change could run after the slow-down change.
- SnakeSession.Session.DirectionButton, SnakeSession.Session.StartButton, SnakeSession.Session.PauseButton and SnakeSession.Session.SelectDifficulty require what the view guarantees when it shows or enables these controls. The handlers themselves do not check these conditions.
