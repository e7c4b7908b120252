/** The rules of the snake game component: the board, the difficulty table,
    the session state, one game tick and the input handlers, all as pure
    functions from the state before to the state after. */
module SnakeRules {

  /** Side of the square board, in cells. */
  const GridSize: int := 20
  /** Tick interval (ms) of a session that has never been reset. */
  const InitialSpeed: int := 150
  /** Fastest tick interval that levelling up can reach (ms). */
  const MinSpeed: int := 30
  /** Interval taken off at each level-up (ms). */
  const LevelSpeedStep: int := 10
  /** Interval added by the slow-down item (ms). */
  const SlowDownStep: int := 20
  /** A level is gained when regular food brings the score to a multiple of this. */
  const LevelScoreStep: int := 100
  /** A special item may appear when the move counter is a multiple of this. */
  const SpawnPeriod: int := 100
  /** Timer a fresh special item starts with. */
  const SpecialLifetime: int := 100

  /** A board cell, or a direction vector. */
  datatype Point = Point(x: int, y: int)

  datatype Difficulty = Easy | Medium | Hard | Extreme

  /** Tick interval of each difficulty preset (ms). */
  function BaseSpeed(d: Difficulty): int {
    match d
    case Easy => 200
    case Medium => 150
    case Hard => 100
    case Extreme => 50
  }

  /** Twice the score multiplier of each preset (1, 1.5, 2, 3), so that it is an integer. */
  function DoubledMultiplier(d: Difficulty): int {
    match d
    case Easy => 2
    case Medium => 3
    case Hard => 4
    case Extreme => 6
  }

  /** Points for regular food: 10 times the multiplier. */
  function FoodPoints(d: Difficulty): (r: int)
    ensures 2 * r == 10 * DoubledMultiplier(d) && r > 0
  {
    match d
    case Easy => 10
    case Medium => 15
    case Hard => 20
    case Extreme => 30
  }

  /** Points for the bonus item: 50 times the multiplier. */
  function BonusPoints(d: Difficulty): (r: int)
    ensures 2 * r == 50 * DoubledMultiplier(d) && r > 0
  {
    match d
    case Easy => 50
    case Medium => 75
    case Hard => 100
    case Extreme => 150
  }

  /** The two kinds of special item; `SlowDown` is called 'speed' by the component. */
  datatype SpecialKind = Bonus | SlowDown

  datatype Special = Special(pos: Point, kind: SpecialKind, timer: int)

  datatype Option<T> = None | Some(value: T)

  /** The session state of the component (its state hooks that carry game logic). */
  datatype Game = Game(
    snake: seq<Point>,       // head first
    food: Point,
    special: Option<Special>,
    dir: Point,
    gameOver: bool,
    score: int,
    highScore: int,
    playing: bool,
    paused: bool,
    speed: int,              // tick interval in ms
    difficulty: Difficulty,
    moveCount: int,
    level: int)

  /** Score popups the tick asks the view to show: "+n", "+n BONUS!", "SLOW!". */
  datatype Popup = FoodPopup(at: Point, points: int) | BonusPopup(at: Point, points: int) | SlowPopup(at: Point)

  datatype Outcome = Outcome(game: Game, popups: seq<Popup>)

  /** The random values one tick may consume. `foodCells` and `specialCells`
      are the successive draws of the two retry loops, `specialKinds[i]` is the
      kind drawn together with `specialCells[i]`, and `spawnRoll` is the outcome
      of the one-in-ten chance that a special item appears. */
  datatype Draws = Draws(foodCells: seq<Point>, spawnRoll: bool,
                         specialCells: seq<Point>, specialKinds: seq<SpecialKind>)

  predicate InGrid(p: Point) {
    0 <= p.x < GridSize && 0 <= p.y < GridSize
  }

  predicate Distinct(s: seq<Point>) {
    forall i, j :: 0 <= i < j < |s| ==> s[i] != s[j]
  }

  /** A snake that is alive on the board: non-empty, on the grid, no cell twice. */
  predicate WellFormed(s: seq<Point>) {
    |s| > 0 && (forall i :: 0 <= i < |s| ==> InGrid(s[i])) && Distinct(s)
  }

  const Up: Point := Point(0, -1)
  const Down: Point := Point(0, 1)
  const Left: Point := Point(-1, 0)
  const Right: Point := Point(1, 0)

  predicate IsDirection(d: Point) {
    d == Up || d == Down || d == Left || d == Right
  }

  function Opposite(d: Point): Point {
    Point(-d.x, -d.y)
  }

  function Translate(p: Point, d: Point): Point {
    Point(p.x + d.x, p.y + d.y)
  }

  /** The candidate head hits a wall or any segment of the snake before the move, tail included. */
  predicate Collides(snake: seq<Point>, head: Point): (r: bool)
    ensures r <==> (head.x < 0 || head.x >= 20 || head.y < 0 || head.y >= 20
                    || exists i :: 0 <= i < |snake| && snake[i] == head)
  {
    !InGrid(head) || head in snake
  }

  /** Regular food that brings the score to `newScore` also gains a level. */
  predicate LevelsUp(newScore: int): (r: bool)
    ensures r ==> newScore >= 100
    ensures r <==> newScore > 0 && (newScore / 100) * 100 == newScore
  {
    newScore > 0 && newScore % LevelScoreStep == 0
  }

  function Max(a: int, b: int): int {
    if a < b then b else a
  }

  /** Index of the first draw that is not a blocked cell, or |cells| when all
      draws are blocked: what the component's retry loop settles on. */
  function FirstFree(blocked: seq<Point>, cells: seq<Point>): (k: nat)
    ensures k <= |cells|
    ensures forall j :: 0 <= j < k ==> cells[j] in blocked
    ensures k < |cells| ==> cells[k] !in blocked
    decreases |cells|
  {
    if |cells| == 0 || cells[0] !in blocked then 0
    else 1 + FirstFree(blocked, cells[1..])
  }

  /** The retry loop's answer is the first draw that is not blocked. */
  lemma FirstFreeIsFirst(blocked: seq<Point>, cells: seq<Point>, k: nat)
    requires k <= |cells|
    requires forall j :: 0 <= j < k ==> cells[j] in blocked
    requires k < |cells| ==> cells[k] !in blocked
    ensures FirstFree(blocked, cells) == k
  {
  }

  /** Ticks only act while playing, not paused and not over. */
  predicate Active(g: Game) {
    !g.gameOver && g.playing && !g.paused
  }

  function NextHead(g: Game): Point
    requires |g.snake| > 0
  {
    Translate(g.snake[0], g.dir)
  }

  /** The tick moves the head onto the regular food. */
  predicate EatsFood(g: Game)
    requires |g.snake| > 0
  {
    Active(g) && !Collides(g.snake, NextHead(g)) && NextHead(g) == g.food
  }

  /** The tick tosses the coin for a new special item. */
  predicate AttemptsSpawn(g: Game) {
    Active(g) && g.moveCount % SpawnPeriod == 0 && g.special.None?
  }

  /** The draws are cells of the board, and each retry loop the tick runs
      finds a free cell among them. */
  predicate Supplies(g: Game, d: Draws)
    requires |g.snake| > 0
  {
    && (forall i :: 0 <= i < |d.foodCells| ==> InGrid(d.foodCells[i]))
    && (forall i :: 0 <= i < |d.specialCells| ==> InGrid(d.specialCells[i]))
    && |d.specialKinds| == |d.specialCells|
    && (EatsFood(g) ==> FirstFree(g.snake, d.foodCells) < |d.foodCells|)
    && (AttemptsSpawn(g) && d.spawnRoll ==>
          FirstFree(g.snake + [g.food], d.specialCells) < |d.specialCells|)
  }

  /** The special item after the spawn attempt and the countdown, both of
      which read the state before the tick. */
  function TimedSpecial(g: Game, d: Draws): (r: Option<Special>)
    requires |g.snake| > 0 && Active(g) && Supplies(g, d)
    ensures g.special.Some? ==> (r.Some? <==> g.special.value.timer > 0)
    ensures g.special.Some? && r.Some? ==>
              r.value == g.special.value.(timer := g.special.value.timer - 1)
    ensures g.special.None? ==> (r.Some? <==> g.moveCount % 100 == 0 && d.spawnRoll)
    ensures g.special.None? && r.Some? ==>
              InGrid(r.value.pos) && r.value.pos !in g.snake && r.value.pos != g.food
              && r.value.timer == 100
  {
    match g.special
    case Some(s) =>
      if s.timer > 0 then Some(s.(timer := s.timer - 1)) else None
    case None =>
      if g.moveCount % SpawnPeriod == 0 && d.spawnRoll then
        var k := FirstFree(g.snake + [g.food], d.specialCells);
        assert InGrid(d.specialCells[k]) && d.specialCells[k] !in g.snake + [g.food];
        Some(Special(d.specialCells[k], d.specialKinds[k], SpecialLifetime))
      else None
  }

  /** The state after the move counter and the special item have been
      updated, which happens on every active tick, colliding or not. */
  function Counted(g: Game, d: Draws): (r: Game)
    requires |g.snake| > 0 && Active(g) && Supplies(g, d)
    ensures r.moveCount == g.moveCount + 1
    ensures r.(moveCount := g.moveCount, special := g.special) == g
    ensures Inv(g) ==> Inv(r)
  {
    g.(moveCount := g.moveCount + 1, special := TimedSpecial(g, d))
  }

  /** The end of a colliding tick: play stops and the record is updated. */
  function Crash(g: Game, counted: Game): (r: Game)
    ensures r.gameOver && !r.playing
    ensures r.highScore >= g.score && r.highScore >= g.highScore
    ensures r.highScore == g.score || r.highScore == g.highScore
    ensures r.(gameOver := counted.gameOver, playing := counted.playing,
               highScore := counted.highScore) == counted
  {
    counted.(gameOver := true, playing := false,
             highScore := if g.score > g.highScore then g.score else g.highScore)
  }

  /** The regular-food branch of a tick, applied to the state `s` it finds:
      the score grows by the food's points, a level is gained when that
      brings the score to a positive multiple of 100, and the food is moved
      to the first draw that the snake before the move does not cover. */
  function FoodPhase(g: Game, s: Game, d: Draws): (o: Outcome)
    requires |g.snake| > 0 && Supplies(g, d) && Active(g) && !Collides(g.snake, NextHead(g))
    ensures NextHead(g) != g.food ==> o == Outcome(s, [])
    ensures NextHead(g) == g.food ==>
              && o.game.score == s.score + FoodPoints(g.difficulty)
              && InGrid(o.game.food) && o.game.food !in g.snake
              && (o.game.level == s.level + 1 <==> LevelsUp(o.game.score))
              && (o.game.level == s.level <==> !LevelsUp(o.game.score))
              && o.popups == [FoodPopup(NextHead(g), FoodPoints(g.difficulty))]
              && o.game.(score := s.score, food := s.food, level := s.level, speed := s.speed) == s
  {
    if NextHead(g) != g.food then Outcome(s, [])
    else
      var points := FoodPoints(g.difficulty);
      var fed := s.score + points;
      var k := FirstFree(g.snake, d.foodCells);
      assert InGrid(d.foodCells[k]) && d.foodCells[k] !in g.snake;
      var eaten := s.(score := fed, food := d.foodCells[k]);
      Outcome(if LevelsUp(fed) then eaten.(level := s.level + 1, speed := Max(MinSpeed, s.speed - LevelSpeedStep))
              else eaten,
              [FoodPopup(NextHead(g), points)])
  }

  /** The special-item branch of a tick: the item the tick started with is
      eaten when the new head is on it; it is removed, and a bonus item adds
      its points while a slow-down item lengthens the interval. */
  function SpecialPhase(g: Game, o: Outcome): (r: Outcome)
    requires |g.snake| > 0
    ensures (g.special.Some? && NextHead(g) == g.special.value.pos) <==> |r.popups| == |o.popups| + 1
    ensures |r.popups| == |o.popups| + 1 || r == o
    ensures r.popups[..|o.popups|] == o.popups
    ensures |r.popups| == |o.popups| + 1 ==> r.game.special.None?
    ensures r.game.score >= o.game.score && r.game.speed >= o.game.speed
    ensures r.game.(score := o.game.score, speed := o.game.speed, special := o.game.special) == o.game
  {
    var head := NextHead(g);
    if g.special.None? || head != g.special.value.pos then o
    else if g.special.value.kind == Bonus then
      var points := BonusPoints(g.difficulty);
      Outcome(o.game.(score := o.game.score + points, special := None),
              o.popups + [BonusPopup(head, points)])
    else
      Outcome(o.game.(speed := o.game.speed + SlowDownStep, special := None),
              o.popups + [SlowPopup(head)])
  }

  /** The end of a tick without collision: the head moves, the foods on the
      new head are eaten, and the tail is dropped unless something was eaten. */
  function Feed(g: Game, counted: Game, d: Draws): (r: Outcome)
    requires |g.snake| > 0 && Supplies(g, d) && Active(g) && !Collides(g.snake, NextHead(g))
    ensures |r.game.snake| > 0 && r.game.snake[0] == NextHead(g)
    ensures r.game.snake[1..] <= g.snake
    ensures |r.game.snake| == |g.snake| + 1 <==> |r.popups| > 0
    ensures |r.game.snake| == |g.snake| <==> |r.popups| == 0
    ensures r.game.score >= counted.score
  {
    var head := NextHead(g);
    var ate := head == g.food || (g.special.Some? && head == g.special.value.pos);
    var o := SpecialPhase(g, FoodPhase(g, counted, d));
    Outcome(o.game.(snake := if ate then [head] + g.snake else [head] + g.snake[..|g.snake| - 1]),
            o.popups)
  }

  /** One tick of the game, as one atomic transition from the state before it. */
  function Step(g: Game, d: Draws): (r: Outcome)
    requires |g.snake| > 0 && Supplies(g, d)
    ensures !Active(g) ==> r == Outcome(g, [])
    ensures Active(g) ==> r.game.moveCount == g.moveCount + 1
    ensures r.game.gameOver <==> g.gameOver || (Active(g) && Collides(g.snake, NextHead(g)))
    ensures r.game.dir == g.dir && r.game.difficulty == g.difficulty
  {
    if !Active(g) then Outcome(g, [])
    else if Collides(g.snake, NextHead(g)) then Outcome(Crash(g, Counted(g, d)), [])
    else Feed(g, Counted(g, d), d)
  }

  /** The state a fresh component starts in; `storedHighScore` is the record read at start-up. */
  function Initial(storedHighScore: int): (g: Game)
    ensures Inv(g) && |g.snake| == 1
    ensures g.highScore == storedHighScore && g.score == 0 && g.level == 1
    ensures !g.playing && !g.paused && !g.gameOver && g.special.None?
  {
    Game([Point(10, 10)], Point(15, 15), None, Right, false, 0, storedHighScore,
         false, false, InitialSpeed, Medium, 0, 1)
  }

  /** The restart action: a new session that keeps the record and the difficulty. */
  function ResetGame(g: Game): (r: Game)
    ensures r == Initial(g.highScore).(speed := BaseSpeed(g.difficulty), difficulty := g.difficulty)
    ensures Inv(r)
  {
    Game([Point(10, 10)], Point(15, 15), None, Right, false, 0, g.highScore,
         false, false, BaseSpeed(g.difficulty), g.difficulty, 0, 1)
  }

  datatype Arrow = UpArrow | DownArrow | LeftArrow | RightArrow

  /** What the keyboard handler makes of a key name. */
  datatype Key = EscapeKey | PauseKey | SpaceKey | ArrowKey(arrow: Arrow) | OtherKey

  /** Every key name the keyboard handler reacts to. */
  const KnownKeys: set<string> :=
    {"Escape", "p", "P", " ", "ArrowUp", "w", "W", "ArrowDown", "s", "S",
     "ArrowLeft", "a", "A", "ArrowRight", "d", "D"}

  function KeyOf(key: string): (k: Key)
    ensures k == OtherKey <==> key !in KnownKeys
  {
    if key == "Escape" then EscapeKey
    else if key == "p" || key == "P" then PauseKey
    else if key == " " then SpaceKey
    else if key == "ArrowUp" || key == "w" || key == "W" then ArrowKey(UpArrow)
    else if key == "ArrowDown" || key == "s" || key == "S" then ArrowKey(DownArrow)
    else if key == "ArrowLeft" || key == "a" || key == "A" then ArrowKey(LeftArrow)
    else if key == "ArrowRight" || key == "d" || key == "D" then ArrowKey(RightArrow)
    else OtherKey
  }

  function ArrowDirection(a: Arrow): Point {
    match a
    case UpArrow => Up
    case DownArrow => Down
    case LeftArrow => Left
    case RightArrow => Right
  }

  /** The direction after an arrow key while steering is allowed: a vertical
      arrow is taken only when moving horizontally, and the other way round. */
  function SteerByKey(dir: Point, a: Arrow): (r: Point)
    ensures r == dir || r == ArrowDirection(a)
    ensures IsDirection(dir) ==> IsDirection(r) && r != Opposite(dir)
  {
    match a
    case UpArrow => if dir.y == 0 then Up else dir
    case DownArrow => if dir.y == 0 then Down else dir
    case LeftArrow => if dir.x == 0 then Left else dir
    case RightArrow => if dir.x == 0 then Right else dir
  }

  /** The keydown handler (the settings panel toggled by Escape is not game state). */
  function OnKey(g: Game, key: string): (r: Game)
    ensures key !in KnownKeys || key == "Escape" ==> r == g
    ensures Inv(g) ==> Inv(r)
  {
    HandleKey(g, KeyOf(key))
  }

  function HandleKey(g: Game, k: Key): (r: Game)
    ensures r.(dir := g.dir, playing := g.playing, paused := g.paused) == g
    ensures Inv(g) ==> Inv(r)
  {
    match k
    case EscapeKey => g
    case PauseKey => if g.playing then g.(paused := !g.paused) else g
    case SpaceKey => if !g.playing && !g.gameOver then g.(playing := true) else g
    case ArrowKey(a) => if !g.playing || g.paused then g else g.(dir := SteerByKey(g.dir, a))
    case OtherKey => g
  }

  /** The on-screen direction buttons: the first press only starts the game. */
  function OnDirectionButton(g: Game, nd: Point): (r: Game)
    ensures r.(dir := g.dir, playing := g.playing) == g
    ensures r.dir == g.dir || r.dir == nd
    ensures Inv(g) && IsDirection(nd) && (g.playing || !g.gameOver) ==> Inv(r)
  {
    if !g.playing then g.(playing := true)
    else if g.paused then g
    else if nd.x != 0 && g.dir.x == 0 then g.(dir := nd)
    else if nd.y != 0 && g.dir.y == 0 then g.(dir := nd)
    else g
  }

  /** The difficulty selector: the interval follows the preset while not playing. */
  function OnDifficulty(g: Game, d: Difficulty): (r: Game)
    ensures r.difficulty == d && r.(difficulty := g.difficulty, speed := g.speed) == g
    ensures !g.playing ==> r.speed == BaseSpeed(d)
    ensures Inv(g) ==> Inv(r)
  {
    g.(difficulty := d, speed := if !g.playing then BaseSpeed(d) else g.speed)
  }

  /** What every reachable session state satisfies. */
  predicate Inv(g: Game) {
    && WellFormed(g.snake)
    && IsDirection(g.dir)
    && InGrid(g.food)
    && (g.special.Some? ==>
          InGrid(g.special.value.pos) && 0 <= g.special.value.timer <= SpecialLifetime)
    && g.score >= 0
    && g.level >= 1
    && g.speed >= MinSpeed
    && g.moveCount >= 0
    && (g.paused ==> g.playing)
    && (g.gameOver ==> !g.playing)
    && (g.gameOver ==> g.highScore >= g.score)
  }
}
