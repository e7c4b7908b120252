/** What the rules of SnakeRules guarantee: the effect of one tick, the
    direction latch, the start, pause and restart actions, and the invariant
    and monotonicity facts that hold along any sequence of inputs. */
module SnakeProperties {
  import opened SnakeRules

  // ---------------------------------------------------------------------
  // One tick

  /** Nothing happens on a tick while the game is over, not started or paused. */
  lemma IdleTickChangesNothing(g: Game, d: Draws)
    requires |g.snake| > 0 && Supplies(g, d)
    requires g.gameOver || !g.playing || g.paused
    ensures Step(g, d) == Outcome(g, [])
  {
  }

  /** An active tick ends the game exactly when the candidate head leaves the
      20x20 board or lands on any segment of the snake, its tail included. */
  lemma CollisionIff(g: Game, d: Draws)
    requires |g.snake| > 0 && Supplies(g, d) && Active(g)
    ensures var h := Point(g.snake[0].x + g.dir.x, g.snake[0].y + g.dir.y);
            Step(g, d).game.gameOver <==>
              (h.x < 0 || h.x >= 20 || h.y < 0 || h.y >= 20
               || exists i :: 0 <= i < |g.snake| && g.snake[i] == h)
  {
    var h := NextHead(g);
    if exists i :: 0 <= i < |g.snake| && g.snake[i] == h {
      assert h in g.snake;
    }
  }

  /** A colliding tick stops play, keeps the snake, the score, the food, the
      level and the speed, and raises the record only when it is beaten. */
  lemma CollisionOutcome(g: Game, d: Draws)
    requires |g.snake| > 0 && Supplies(g, d) && Active(g)
    requires Collides(g.snake, NextHead(g))
    ensures var r := Step(g, d);
      && r.game.gameOver && !r.game.playing
      && r.game.snake == g.snake
      && r.game.score == g.score && r.game.food == g.food
      && r.game.level == g.level && r.game.speed == g.speed
      && (g.score > g.highScore ==> r.game.highScore == g.score)
      && (g.score <= g.highScore ==> r.game.highScore == g.highScore)
      && r.game.moveCount == g.moveCount + 1
      && r.popups == []
  {
  }

  /** A tick without collision prepends the old head moved by the direction,
      and keeps the old tail unless something was eaten, in which case the
      snake is one segment longer. */
  lemma MoveAdvancesHead(g: Game, d: Draws)
    requires |g.snake| > 0 && Supplies(g, d) && Active(g)
    requires !Collides(g.snake, NextHead(g))
    ensures var s := Step(g, d).game.snake;
            var ate := NextHead(g) == g.food || (g.special.Some? && NextHead(g) == g.special.value.pos);
      && |s| > 0
      && s[0] == Point(g.snake[0].x + g.dir.x, g.snake[0].y + g.dir.y)
      && s[1..] == (if ate then g.snake else g.snake[..|g.snake| - 1])
      && (|s| == |g.snake| + 1 <==> ate)
      && (|s| == |g.snake| <==> !ate)
  {
  }

  /** Distinct cells stay distinct with a new cell in front. */
  lemma PrependKeepsDistinct(h: Point, s: seq<Point>)
    requires Distinct(s) && h !in s
    ensures Distinct([h] + s)
  {
    forall i, j | 0 <= i < j < |[h] + s|
      ensures ([h] + s)[i] != ([h] + s)[j]
    {
      if i == 0 {
        assert ([h] + s)[j] == s[j - 1];
      } else {
        assert ([h] + s)[i] == s[i - 1] && ([h] + s)[j] == s[j - 1];
      }
    }
  }

  /** A snake that is on the board with no repeated cell stays so after a
      tick: the new head is a free board cell, and dropping the tail or
      keeping it adds no repetition. */
  lemma TickKeepsSnakeWellFormed(g: Game, d: Draws)
    requires WellFormed(g.snake) && Supplies(g, d)
    ensures WellFormed(Step(g, d).game.snake)
  {
    if Active(g) && !Collides(g.snake, NextHead(g)) {
      var h := NextHead(g);
      PrependKeepsDistinct(h, g.snake);
      var s := Step(g, d).game.snake;
      assert s == [h] + g.snake || s == ([h] + g.snake)[..|g.snake|];
      forall i | 0 <= i < |s| ensures InGrid(s[i]) {
        if i > 0 {
          assert s[i] == g.snake[i - 1];
        }
      }
    }
  }

  /** A tick keeps every part of the session invariant. */
  lemma TickKeepsInv(g: Game, d: Draws)
    requires Inv(g) && Supplies(g, d)
    ensures Inv(Step(g, d).game)
  {
    TickKeepsSnakeWellFormed(g, d);
    if Active(g) {
      if g.special.None? && g.moveCount % SpawnPeriod == 0 && d.spawnRoll {
        var k := FirstFree(g.snake + [g.food], d.specialCells);
        assert InGrid(d.specialCells[k]);
      }
      if !Collides(g.snake, NextHead(g)) && NextHead(g) == g.food {
        var k := FirstFree(g.snake, d.foodCells);
        assert InGrid(d.foodCells[k]);
      }
    }
  }

  /** Score, record and level never go down on a tick; the length changes by
      at most one; the direction and the difficulty are untouched. */
  lemma TickMonotone(g: Game, d: Draws)
    requires |g.snake| > 0 && Supplies(g, d)
    ensures var r := Step(g, d).game;
      && r.score >= g.score && r.highScore >= g.highScore && r.level >= g.level
      && (|r.snake| == |g.snake| || |r.snake| == |g.snake| + 1)
      && r.dir == g.dir && r.difficulty == g.difficulty
  {
  }

  /** Regular food: eaten exactly when the new head is on it; it is worth
      10 times the multiplier; it is moved to the first drawn cell that the
      snake occupied before the move does not cover. */
  lemma RegularFoodRule(g: Game, d: Draws)
    requires |g.snake| > 0 && Supplies(g, d) && Active(g)
    requires !Collides(g.snake, NextHead(g))
    ensures var r := Step(g, d);
            var ate := NextHead(g) == g.food;
            var bonus := g.special.Some? && NextHead(g) == g.special.value.pos && g.special.value.kind == Bonus;
      && r.game.score == g.score + (if ate then FoodPoints(g.difficulty) else 0)
                                 + (if bonus then BonusPoints(g.difficulty) else 0)
      && (ate ==> r.game.food == d.foodCells[FirstFree(g.snake, d.foodCells)]
                  && InGrid(r.game.food) && r.game.food !in g.snake
                  && FoodPopup(NextHead(g), FoodPoints(g.difficulty)) in r.popups)
      && (!ate ==> r.game.food == g.food)
  {
    if NextHead(g) == g.food {
      var k := FirstFree(g.snake, d.foodCells);
      assert InGrid(d.foodCells[k]);
    }
  }

  /** A level is gained, and the interval shortened by 10 ms down to 30 ms,
      exactly when regular food brings the score to a positive multiple of
      100; the bonus item never levels up. The slow-down item adds 20 ms. */
  lemma LevelUpRule(g: Game, d: Draws)
    requires |g.snake| > 0 && Supplies(g, d) && Active(g)
    requires !Collides(g.snake, NextHead(g))
    ensures var r := Step(g, d).game;
            var ate := NextHead(g) == g.food;
            var fed := g.score + FoodPoints(g.difficulty);
            var up := ate && fed > 0 && fed % 100 == 0;
            var slow := g.special.Some? && NextHead(g) == g.special.value.pos && g.special.value.kind == SlowDown;
      && (r.level == g.level + 1 <==> up)
      && (r.level == g.level <==> !up)
      && r.speed == (if up then Max(30, g.speed - 10) else g.speed) + (if slow then 20 else 0)
  {
  }

  /** An eaten special item disappears; the bonus kind adds 50 times the
      multiplier and the slow-down kind adds 20 ms to the interval instead. */
  lemma SpecialEatenRule(g: Game, d: Draws)
    requires |g.snake| > 0 && Supplies(g, d) && Active(g)
    requires !Collides(g.snake, NextHead(g))
    requires g.special.Some? && NextHead(g) == g.special.value.pos
    ensures var r := Step(g, d);
            var fed := if NextHead(g) == g.food then FoodPoints(g.difficulty) else 0;
      && r.game.special.None?
      && (g.special.value.kind == Bonus ==>
            r.game.score == g.score + fed + BonusPoints(g.difficulty)
            && BonusPopup(NextHead(g), BonusPoints(g.difficulty)) in r.popups)
      && (g.special.value.kind == SlowDown ==>
            r.game.score == g.score + fed && SlowPopup(NextHead(g)) in r.popups)
  {
  }

  /** An existing special item that is not eaten counts down while its timer
      is positive and is gone on the tick that finds the timer at zero. */
  lemma SpecialCountdown(g: Game, d: Draws)
    requires |g.snake| > 0 && Supplies(g, d) && Active(g) && g.special.Some?
    requires Collides(g.snake, NextHead(g)) || NextHead(g) != g.special.value.pos
    ensures var s := g.special.value;
            Step(g, d).game.special ==
              if s.timer > 0 then Some(Special(s.pos, s.kind, s.timer - 1)) else None
  {
  }

  /** Without a special item, one appears exactly when the move counter before
      the tick is a multiple of 100 and the one-in-ten roll succeeds; it sits
      on a board cell free of the snake and of the food, with timer 100. */
  lemma SpecialSpawnRule(g: Game, d: Draws)
    requires |g.snake| > 0 && Supplies(g, d) && Active(g) && g.special.None?
    ensures var r := Step(g, d).game.special;
      && (r.Some? <==> g.moveCount % 100 == 0 && d.spawnRoll)
      && (r.Some? ==>
            InGrid(r.value.pos) && r.value.pos !in g.snake && r.value.pos != g.food
            && r.value.timer == 100 && r.value.pos in d.specialCells)
  {
    if g.moveCount % 100 == 0 && d.spawnRoll {
      var k := FirstFree(g.snake + [g.food], d.specialCells);
      assert InGrid(d.specialCells[k]);
      assert d.specialCells[k] !in g.snake + [g.food];
    }
  }

  /** Whenever the tick eats regular food a free cell exists, the new head
      itself, so the retry loop of food placement can succeed. */
  lemma FreeCellWhenEating(g: Game)
    requires |g.snake| > 0 && EatsFood(g)
    ensures exists c :: InGrid(c) && c !in g.snake
  {
    assert InGrid(NextHead(g)) && NextHead(g) !in g.snake;
  }

  /** The spawn's retry loop can end exactly when some board cell is free of
      both the snake and the food. When they cover the whole board, no
      supply of draws lets a successful roll finish: the component's loop
      never ends there. */
  lemma SpawnDrawsExistIff(g: Game)
    requires |g.snake| > 0 && AttemptsSpawn(g)
    ensures (exists d :: Supplies(g, d) && d.spawnRoll)
            <==> (exists c :: InGrid(c) && c !in g.snake + [g.food])
  {
    if exists d :: Supplies(g, d) && d.spawnRoll {
      var d :| Supplies(g, d) && d.spawnRoll;
      var k := FirstFree(g.snake + [g.food], d.specialCells);
      assert InGrid(d.specialCells[k]);
    }
    if exists c :: InGrid(c) && c !in g.snake + [g.food] {
      var c :| InGrid(c) && c !in g.snake + [g.food];
      var h := NextHead(g);
      var d := Draws(if EatsFood(g) then [h] else [], true, [c], [Bonus]);
      assert FirstFree(g.snake + [g.food], [c]) == 0;
      if EatsFood(g) {
        assert FirstFree(g.snake, [h]) == 0;
      }
      assert Supplies(g, d) && d.spawnRoll;
    }
  }

  /** Food eaten when only one board cell is left outside the snake and the
      food may be moved onto that cell, so that the snake and the food then
      cover the whole board and the game goes on. */
  lemma EatingCanCoverBoard(g: Game, c: Point)
    requires Inv(g) && EatsFood(g)
    requires InGrid(c) && c !in g.snake && c != g.food
    requires forall p :: InGrid(p) && p != c ==> p in g.snake || p == g.food
    ensures var d := Draws([c], false, [], []);
      && Supplies(g, d)
      && var r := Step(g, d).game;
         && r.playing && !r.gameOver
         && forall p :: InGrid(p) ==> p in r.snake + [r.food]
  {
    var d := Draws([c], false, [], []);
    assert FirstFree(g.snake, [c]) == 0;
    assert Supplies(g, d);
    var r := Step(g, d).game;
    assert r.snake == [g.food] + g.snake && r.food == c;
    forall p | InGrid(p) ensures p in r.snake + [r.food] {
      if p != c && p in g.snake {
        assert p in r.snake;
      }
    }
  }

  /** The new food is checked against the snake before the move only, so it
      may be put on the cell the head has just entered. */
  lemma FoodMayLandOnNewHead()
    ensures var g := Initial(0).(playing := true, food := Point(11, 10));
            var r := Step(g, Draws([Point(11, 10)], false, [], []));
            r.game.food == r.game.snake[0] == Point(11, 10)
  {
  }

  // ---------------------------------------------------------------------
  // Direction latch, start, pause and restart

  function Dot(a: Point, b: Point): int {
    a.x * b.x + a.y * b.y
  }

  /** A key press changes the direction only while playing and not paused,
      only by an arrow key, and only to a direction orthogonal to the current
      one: never its reverse. */
  lemma KeyLatchRule(g: Game, key: string)
    requires IsDirection(g.dir)
    ensures var n := OnKey(g, key).dir;
      && IsDirection(n)
      && n != Opposite(g.dir)
      && (n != g.dir ==>
            g.playing && !g.paused && KeyOf(key).ArrowKey?
            && n == ArrowDirection(KeyOf(key).arrow) && Dot(n, g.dir) == 0)
  {
    var k := KeyOf(key);
    assert OnKey(g, key) == HandleKey(g, k);
    if k.ArrowKey? && g.playing && !g.paused {
      assert HandleKey(g, k).dir == SteerByKey(g.dir, k.arrow);
      SteerIsOrthogonalTurn(g.dir, k.arrow);
    }
  }

  /** While steering is allowed an arrow key is taken exactly when it is
      orthogonal to the current direction. */
  lemma KeyTurnAccepted(g: Game, key: string)
    requires IsDirection(g.dir) && g.playing && !g.paused && KeyOf(key).ArrowKey?
    ensures var t := ArrowDirection(KeyOf(key).arrow);
            OnKey(g, key).dir == if Dot(t, g.dir) == 0 then t else g.dir
  {
    var k := KeyOf(key);
    assert OnKey(g, key) == HandleKey(g, k);
    ArrowTurnAccepted(g, k.arrow);
  }

  /** The same rule, stated for the arrow the key stands for. */
  lemma ArrowTurnAccepted(g: Game, a: Arrow)
    requires IsDirection(g.dir) && g.playing && !g.paused
    ensures var t := ArrowDirection(a);
            HandleKey(g, ArrowKey(a)).dir == if Dot(t, g.dir) == 0 then t else g.dir
  {
    assert HandleKey(g, ArrowKey(a)).dir == SteerByKey(g.dir, a);
    SteerIsOrthogonalTurn(g.dir, a);
  }

  /** From a unit direction, an arrow is taken exactly when it is orthogonal. */
  lemma SteerIsOrthogonalTurn(dir: Point, a: Arrow)
    requires IsDirection(dir)
    ensures var t := ArrowDirection(a);
            SteerByKey(dir, a) == if Dot(t, dir) == 0 then t else dir
  {
  }

  /** Space starts a game that is neither running nor over; P flips the pause
      flag only while playing; no key touches anything but the direction and
      the two flags. */
  lemma KeyFlagsRule(g: Game, key: string)
    ensures var r := OnKey(g, key);
      && r.(dir := g.dir, playing := g.playing, paused := g.paused) == g
      && (r.playing != g.playing <==> KeyOf(key) == SpaceKey && !g.playing && !g.gameOver)
      && (r.playing != g.playing ==> r.playing)
      && (r.paused != g.paused <==> KeyOf(key) == PauseKey && g.playing)
  {
  }

  /** For unit directions, the button's test "turns from a vertical to a
      horizontal direction or the other way round" is orthogonality. */
  lemma ButtonTestIsOrthogonality(cur: Point, nd: Point)
    requires IsDirection(cur) && IsDirection(nd)
    ensures ((nd.x != 0 && cur.x == 0) || (nd.y != 0 && cur.y == 0)) <==> Dot(nd, cur) == 0
    ensures Dot(nd, cur) == 0 ==> nd != Opposite(cur)
  {
    if cur == Up || cur == Down {
      assert nd == Up || nd == Down || nd == Left || nd == Right;
    } else {
      assert cur == Left || cur == Right;
    }
  }

  /** A direction button starts a game that is not running, without turning;
      while playing and not paused it turns exactly to an orthogonal
      direction; it never reverses the snake. */
  lemma ButtonLatchRule(g: Game, nd: Point)
    requires IsDirection(g.dir) && IsDirection(nd)
    ensures var r := OnDirectionButton(g, nd);
      && (!g.playing ==> r == g.(playing := true))
      && (g.playing && g.paused ==> r == g)
      && (g.playing && !g.paused ==> r == g.(dir := if Dot(nd, g.dir) == 0 then nd else g.dir))
      && r.dir != Opposite(g.dir)
  {
    ButtonTestIsOrthogonality(g.dir, nd);
  }

  /** The key names the handler recognises. */
  lemma KeyNames()
    ensures KeyOf("ArrowUp") == KeyOf("w") == KeyOf("W") == ArrowKey(UpArrow)
    ensures KeyOf("ArrowDown") == KeyOf("s") == KeyOf("S") == ArrowKey(DownArrow)
    ensures KeyOf("ArrowLeft") == KeyOf("a") == KeyOf("A") == ArrowKey(LeftArrow)
    ensures KeyOf("ArrowRight") == KeyOf("d") == KeyOf("D") == ArrowKey(RightArrow)
    ensures KeyOf("p") == KeyOf("P") == PauseKey
    ensures KeyOf(" ") == SpaceKey && KeyOf("Escape") == EscapeKey
  {
  }

  /** Two accepted turns between ticks, each orthogonal to the latched
      direction, reverse the direction the snake last moved in, so that the
      next tick runs the head into the segment behind it. */
  lemma TwoTurnsReverseMotion(g: Game, d: Draws)
    requires Active(g) && g.dir == Right
    requires |g.snake| >= 2 && g.snake[1] == Translate(g.snake[0], Left)
    ensures var turned := HandleKey(HandleKey(g, ArrowKey(UpArrow)), ArrowKey(LeftArrow));
      && turned.dir == Opposite(g.dir)
      && turned.snake == g.snake
      && (Supplies(turned, d) ==> Step(turned, d).game.gameOver)
  {
    var turned := HandleKey(HandleKey(g, ArrowKey(UpArrow)), ArrowKey(LeftArrow));
    assert turned == g.(dir := Left);
    if Supplies(turned, d) {
      assert NextHead(turned) == turned.snake[1];
    }
  }

  /** A restart is the start-up state with the record and the difficulty kept
      and the interval of that difficulty; restarting a fresh session changes
      nothing. */
  lemma ResetRule(g: Game, stored: int)
    ensures ResetGame(g) == Initial(g.highScore).(speed := BaseSpeed(g.difficulty), difficulty := g.difficulty)
    ensures ResetGame(g).highScore == g.highScore && ResetGame(g).difficulty == g.difficulty
    ensures Inv(ResetGame(g)) && Inv(Initial(stored))
    ensures ResetGame(Initial(stored)) == Initial(stored)
  {
  }

  // ---------------------------------------------------------------------
  // Sequences of inputs

  /** The events the component reacts to. */
  datatype Input =
    | TickInput(draws: Draws)
    | KeyInput(key: string)
    | DirectionInput(toward: Point)
    | StartInput
    | PauseInput
    | ResetInput
    | DifficultyInput(choice: Difficulty)

  /** Whether the input can arrive in state `g`: buttons exist only while the
      view shows them, and ticks need draws that let their retry loops end. */
  predicate Enabled(g: Game, i: Input) {
    match i
    case TickInput(d) => |g.snake| > 0 && Supplies(g, d)
    case KeyInput(_) => true
    case DirectionInput(t) => IsDirection(t) && (g.playing || !g.gameOver)
    case StartInput => !g.playing && !g.gameOver
    case PauseInput => g.playing
    case ResetInput => true
    case DifficultyInput(_) => !g.playing
  }

  function Apply(g: Game, i: Input): Game
    requires Enabled(g, i)
  {
    match i
    case TickInput(d) => Step(g, d).game
    case KeyInput(k) => OnKey(g, k)
    case DirectionInput(t) => OnDirectionButton(g, t)
    case StartInput => g.(playing := true)
    case PauseInput => g.(paused := !g.paused)
    case ResetInput => ResetGame(g)
    case DifficultyInput(c) => OnDifficulty(g, c)
  }

  predicate Admissible(g: Game, ins: seq<Input>)
    decreases |ins|
  {
    |ins| == 0 || (Enabled(g, ins[0]) && Admissible(Apply(g, ins[0]), ins[1..]))
  }

  function Run(g: Game, ins: seq<Input>): Game
    requires Admissible(g, ins)
    decreases |ins|
  {
    if |ins| == 0 then g else Run(Apply(g, ins[0]), ins[1..])
  }

  /** Every input keeps the session invariant. */
  lemma ApplyKeepsInv(g: Game, i: Input)
    requires Inv(g) && Enabled(g, i)
    ensures Inv(Apply(g, i))
  {
    match i
    case TickInput(d) => TickKeepsInv(g, d);
    case KeyInput(k) => KeyLatchRule(g, k); KeyFlagsRule(g, k);
    case DirectionInput(t) => ButtonLatchRule(g, t);
    case StartInput =>
    case PauseInput =>
    case ResetInput => ResetRule(g, 0);
    case DifficultyInput(c) =>
  }


  /** The invariant holds after any admissible sequence of inputs. */
  lemma {:induction false} RunKeepsInv(g: Game, ins: seq<Input>)
    requires Inv(g) && Admissible(g, ins)
    ensures Inv(Run(g, ins))
    decreases |ins|
  {
    if |ins| > 0 {
      ApplyKeepsInv(g, ins[0]);
      RunKeepsInv(Apply(g, ins[0]), ins[1..]);
    }
  }

  /** In every state reachable from start-up the snake is on the board with
      no repeated cell, the direction is a unit step, and so on. */
  lemma ReachableStatesAreValid(stored: int, ins: seq<Input>)
    requires Admissible(Initial(stored), ins)
    ensures Inv(Run(Initial(stored), ins))
    ensures WellFormed(Run(Initial(stored), ins).snake)
  {
    RunKeepsInv(Initial(stored), ins);
  }

  /** Until the next restart the score and the level never go down. */
  lemma {:induction false} RunScoreMonotone(g: Game, ins: seq<Input>)
    requires Admissible(g, ins)
    requires forall k :: 0 <= k < |ins| ==> !ins[k].ResetInput?
    ensures Run(g, ins).score >= g.score && Run(g, ins).level >= g.level
    decreases |ins|
  {
    if |ins| > 0 {
      if ins[0].TickInput? {
        TickMonotone(g, ins[0].draws);
      }
      RunScoreMonotone(Apply(g, ins[0]), ins[1..]);
    }
  }

  /** The record never goes down, restarts included. */
  lemma {:induction false} RunHighScoreMonotone(g: Game, ins: seq<Input>)
    requires Admissible(g, ins)
    ensures Run(g, ins).highScore >= g.highScore
    decreases |ins|
  {
    if |ins| > 0 {
      if ins[0].TickInput? {
        TickMonotone(g, ins[0].draws);
      }
      RunHighScoreMonotone(Apply(g, ins[0]), ins[1..]);
    }
  }

  // ---------------------------------------------------------------------
  // Worked examples

  /** A one-segment snake moving right onto the food grows to two segments
      and scores; the level and the interval stay as they were. */
  lemma EatScenario(diff: Difficulty)
    ensures var g := Initial(0).(playing := true, food := Point(11, 10), difficulty := diff);
            var r := Step(g, Draws([Point(3, 4)], false, [], [])).game;
      && r.snake == [Point(11, 10), Point(10, 10)]
      && r.score == FoodPoints(diff) && r.food == Point(3, 4)
      && r.level == 1 && r.speed == InitialSpeed
  {
  }

  /** Running into the right wall ends the game and sets a new record. */
  lemma WallScenario()
    ensures var g := Initial(5).(playing := true, snake := [Point(19, 5)], score := 40);
            var r := Step(g, Draws([], false, [], [])).game;
      && r.gameOver && !r.playing && r.snake == [Point(19, 5)] && r.highScore == 40
  {
  }
}
