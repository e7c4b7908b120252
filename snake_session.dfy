/** The game component as an object whose fields are its state hooks, with
    the tick and the input handlers as methods that update them in place.
    The tick and the handlers are proved to perform the corresponding rule of
    SnakeRules and to keep its invariant; the tick's helpers each perform one
    phase of that rule. */
module SnakeSession {
  import opened SnakeRules
  import SnakeProperties

  /** The scan that asks whether some segment of `snake` is the cell `p`. */
  method Occupies(snake: seq<Point>, p: Point) returns (found: bool)
    ensures found <==> p in snake
  {
    for i := 0 to |snake|
      invariant forall j :: 0 <= j < i ==> snake[j] != p
    {
      if snake[i] == p {
        return true;
      }
    }
    return false;
  }

  /** The retry loop of food placement: it takes draw after draw until one
      is not a blocked cell, and answers the index of that draw (|cells| when
      the supplied draws run out first). */
  method FirstFreeDraw(blocked: seq<Point>, cells: seq<Point>) returns (k: nat)
    ensures k == FirstFree(blocked, cells)
  {
    k := 0;
    while k < |cells|
      invariant k <= |cells|
      invariant forall j :: 0 <= j < k ==> cells[j] in blocked
    {
      var taken := Occupies(blocked, cells[k]);
      if !taken {
        FirstFreeIsFirst(blocked, cells, k);
        return;
      }
      k := k + 1;
    }
    FirstFreeIsFirst(blocked, cells, k);
  }

  class Session {
    var snake: seq<Point>
    var food: Point
    var special: Option<Special>
    var dir: Point
    var gameOver: bool
    var score: int
    var highScore: int
    var playing: bool
    var paused: bool
    var speed: int
    var difficulty: Difficulty
    var moveCount: int
    var level: int

    /** The session state held by the fields. */
    function State(): Game
      reads this
    {
      Game(snake, food, special, dir, gameOver, score, highScore, playing, paused,
           speed, difficulty, moveCount, level)
    }

    ghost predicate Valid()
      reads this
    {
      Inv(State())
    }

    /** The component as first mounted, with the record read at start-up. */
    constructor (storedHighScore: int)
      ensures State() == Initial(storedHighScore) && Valid()
    {
      snake := [Point(10, 10)];
      food := Point(15, 15);
      special := None;
      dir := Right;
      gameOver := false;
      score := 0;
      highScore := storedHighScore;
      playing := false;
      paused := false;
      speed := InitialSpeed;
      difficulty := Medium;
      moveCount := 0;
      level := 1;
    }

    /** One timer tick. Every test reads the state as it was before the tick. */
    method Tick(d: Draws) returns (popups: seq<Popup>)
      requires Valid() && Supplies(State(), d)
      modifies this
      ensures Valid()
      ensures Outcome(State(), popups) == Step(old(State()), d)
    {
      popups := [];
      if gameOver || !playing || paused {
        return;
      }
      ghost var before := State();
      var item, body := special, snake;
      CountMove(d);

      var head := Translate(body[0], dir);
      var crash := !InGrid(head);
      if !crash {
        crash := Occupies(body, head);
      }
      if crash {
        gameOver := true;
        playing := false;
        if score > highScore {
          highScore := score;
        }
        assert State() == Crash(before, Counted(before, d));
      } else {
        popups := MoveAndFeed(before, d, item, body, head);
      }
      SnakeProperties.TickKeepsInv(before, d);
    }

    /** The first part of every active tick: the move counter goes up, a
        special item may be spawned, and an existing one counts down. */
    method CountMove(d: Draws)
      requires |snake| > 0 && Active(State()) && Supplies(State(), d)
      modifies this
      ensures State() == Counted(old(State()), d)
    {
      var counter, item := moveCount, special;
      moveCount := moveCount + 1;
      if counter % SpawnPeriod == 0 {
        GenerateSpecialFood(d);
      }
      if item.Some? {
        special := if special.Some? && special.value.timer > 0
                   then Some(special.value.(timer := special.value.timer - 1))
                   else None;
      }
    }

    /** The spawn attempt: with no special item and a successful roll, the
        first draw free of the snake and of the food becomes one, with a
        full timer. */
    method GenerateSpecialFood(d: Draws)
      requires |d.specialKinds| == |d.specialCells|
      requires special.None? && d.spawnRoll ==> FirstFree(snake + [food], d.specialCells) < |d.specialCells|
      modifies this`special
      ensures special == (if old(special).None? && d.spawnRoll
                          then var k := FirstFree(snake + [food], d.specialCells);
                               Some(Special(d.specialCells[k], d.specialKinds[k], SpecialLifetime))
                          else old(special))
    {
      if d.spawnRoll && special.None? {
        var k := FirstFreeDraw(snake + [food], d.specialCells);
        special := Some(Special(d.specialCells[k], d.specialKinds[k], SpecialLifetime));
      }
    }

    /** The rest of a tick without collision, on the state left by CountMove:
        the head is put in front of a copy of the snake, the foods on it are
        eaten, and the last segment is dropped unless something was eaten. */
    method MoveAndFeed(ghost before: Game, d: Draws, item: Option<Special>, body: seq<Point>, head: Point)
        returns (popups: seq<Popup>)
      requires |before.snake| > 0 && Supplies(before, d) && Active(before)
      requires !Collides(before.snake, NextHead(before))
      requires State() == Counted(before, d)
      requires item == before.special && body == before.snake && head == NextHead(before)
      modifies this
      ensures Outcome(State(), popups) == Feed(before, Counted(before, d), d)
    {
      var newSnake := [head] + body;
      var ateFood := EatFood(before, d, head, body);
      popups := if ateFood then [FoodPopup(head, FoodPoints(difficulty))] else [];
      assert Outcome(State(), popups) == FoodPhase(before, Counted(before, d), d);
      var ateSpecial := item.Some? && head == item.value.pos;
      if ateSpecial {
        if item.value.kind == Bonus {
          var points := BonusPoints(difficulty);
          score := score + points;
          popups := popups + [BonusPopup(head, points)];
        } else {
          speed := speed + SlowDownStep;
          popups := popups + [SlowPopup(head)];
        }
        special := None;
      }
      if !(ateFood || ateSpecial) {
        newSnake := newSnake[..|newSnake| - 1];
      }
      snake := newSnake;
    }

    /** The regular-food branch: on the food, the score and maybe the level
        and the interval change, and the food moves to the first draw that
        the snake before the move does not cover. */
    method EatFood(ghost before: Game, d: Draws, head: Point, body: seq<Point>) returns (ate: bool)
      requires |before.snake| > 0 && Supplies(before, d) && Active(before)
      requires !Collides(before.snake, NextHead(before))
      requires head == NextHead(before) && body == before.snake && food == before.food
      requires difficulty == before.difficulty
      modifies this`score, this`level, this`speed, this`food
      ensures ate == (head == old(food))
      ensures State() == FoodPhase(before, old(State()), d).game
    {
      ate := head == food;
      if ate {
        var points := FoodPoints(difficulty);
        score := score + points;
        if LevelsUp(score) {
          level := level + 1;
          speed := Max(MinSpeed, speed - LevelSpeedStep);
        }
        var k := FirstFreeDraw(body, d.foodCells);
        food := d.foodCells[k];
      }
    }

    /** The keydown handler. */
    method KeyPress(key: string)
      requires Valid()
      modifies this
      ensures Valid()
      ensures State() == OnKey(old(State()), key)
    {
      var k := KeyOf(key);
      if k == EscapeKey {
        return;
      }
      if k == PauseKey {
        if playing {
          paused := !paused;
        }
        return;
      }
      if !playing && !gameOver && k == SpaceKey {
        playing := true;
        return;
      }
      if !playing || paused {
        return;
      }
      match k
      case ArrowKey(UpArrow) =>
        if dir.y == 0 { dir := Up; }
      case ArrowKey(DownArrow) =>
        if dir.y == 0 { dir := Down; }
      case ArrowKey(LeftArrow) =>
        if dir.x == 0 { dir := Left; }
      case ArrowKey(RightArrow) =>
        if dir.x == 0 { dir := Right; }
      case _ =>
    }

    /** An on-screen direction button; they are shown only while playing or
        before the game has ended. */
    method DirectionButton(nd: Point)
      requires Valid() && IsDirection(nd) && (playing || !gameOver)
      modifies this
      ensures Valid()
      ensures State() == OnDirectionButton(old(State()), nd)
    {
      if !playing {
        playing := true;
        return;
      }
      if paused {
        return;
      }
      if nd.x != 0 && dir.x == 0 {
        dir := nd;
      } else if nd.y != 0 && dir.y == 0 {
        dir := nd;
      }
    }

    /** The start button, shown only before the game has started. */
    method StartButton()
      requires Valid() && !playing && !gameOver
      modifies this
      ensures Valid()
      ensures State() == old(State()).(playing := true)
    {
      playing := true;
    }

    /** The pause button, shown only while playing: it flips the pause flag. */
    method PauseButton()
      requires Valid() && playing
      modifies this
      ensures Valid()
      ensures State() == old(State()).(paused := !old(paused))
    {
      paused := !paused;
    }

    /** The restart action. */
    method Reset()
      modifies this
      ensures Valid()
      ensures State() == ResetGame(old(State()))
    {
      ghost var target := ResetGame(State());
      snake, food, special, dir := [Point(10, 10)], Point(15, 15), None, Right;
      gameOver, score, playing, paused := false, 0, false, false;
      speed, moveCount, level := BaseSpeed(difficulty), 0, 1;
      assert State() == target;
    }

    /** The difficulty selector, which is disabled while playing. */
    method SelectDifficulty(choice: Difficulty)
      requires Valid() && !playing
      modifies this
      ensures Valid()
      ensures State() == OnDifficulty(old(State()), choice)
    {
      difficulty := choice;
      if !playing {
        speed := BaseSpeed(choice);
      }
    }
  }
}
