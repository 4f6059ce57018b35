/** The tick engine: next-position arithmetic, the self-collision walk,
    food placement and the one-tick state transition `Update`. */
module Game {
  import opened Wrappers
  import opened Seqs
  import opened Common

  /** The direction that undoes `d`. */
  function Opposite(d: Input): Input {
    match d
    case Left => Right
    case Right => Left
    case Up => Down
    case Down => Up
    case NoInput => NoInput
  }

  /** The cell one step from `pos` on a row-major board of the given width:
      an explicit input decides the step, `NoInput` falls back on `dir`. */
  function NextPosition(input: Input, pos: int, width: nat, dir: Input): (r: int)
    requires input != NoInput || dir != NoInput
    ensures var d := if input == NoInput then dir else input;
      && (d == Left ==> r == pos - 1)
      && (d == Right ==> r == pos + 1)
      && (d == Up ==> r == pos - width)
      && (d == Down ==> r == pos + width)
  {
    match input
    case Left => pos - 1
    case Right => pos + 1
    case Up => pos - width
    case Down => pos + width
    case NoInput =>
      match dir
      case Left => pos - 1
      case Right => pos + 1
      case Up => pos - width
      case Down => pos + width
  }

  /** Without input the snake keeps going the way it is stored to go. */
  lemma NoInputFollowsDirection(pos: int, width: nat, dir: Input)
    requires dir != NoInput
    ensures NextPosition(NoInput, pos, width, dir) == NextPosition(dir, pos, width, NoInput)
  {
  }

  /** An explicit input decides the step whatever the stored direction is. */
  lemma ExplicitInputIgnoresDirection(input: Input, pos: int, width: nat, d1: Input, d2: Input)
    requires input != NoInput
    ensures NextPosition(input, pos, width, d1) == NextPosition(input, pos, width, d2)
  {
  }

  /** Stepping one way and then the opposite way returns to the start cell,
      which is why a reversal aims at the segment right behind the head. */
  lemma OppositeStepReturns(d: Input, pos: int, width: nat)
    requires d != NoInput
    ensures NextPosition(Opposite(d), NextPosition(d, pos, width, NoInput), width, NoInput) == pos
  {
  }

  /** All four neighbours of `pos` lie on a board of `size` cells. The source
      assumes a wall border instead of checking bounds. */
  predicate NeighboursOnBoard(pos: int, width: nat, size: int) {
    width >= 1 && 0 <= pos - width && pos + width < size
  }

  /** What a tick assumes of the state it is given. While the game runs, the
      stored direction is never `NoInput` (it starts as Right and only explicit
      inputs are stored), every body index lies on the board, and the head is
      not on the board's edge. */
  predicate Playable(g: State) {
    && |g.cells| == g.width * g.height
    && |g.body| >= 1
    && (!g.gameOver ==>
          && g.dir != NoInput
          && (forall i :: 0 <= i < |g.body| ==> 0 <= g.body[i] < |g.cells|)
          && NeighboursOnBoard(g.body[0], g.width, |g.cells|))
  }

  /** The cell the head aims at before the self-collision walk. */
  function Aim(g: State, input: Input): (r: int)
    requires Playable(g) && !g.gameOver
    ensures 0 <= r < |g.cells| && r != g.body[0]
  {
    NextPosition(input, g.body[0], g.width, g.dir)
  }

  /** The walk's test at depth `j`: the pair (body[j], body[j+1]) holds `next`. */
  predicate Touches(body: seq<int>, next: int, j: nat)
    requires j + 1 < |body|
  {
    body[j] == next || body[j + 1] == next
  }

  /** The self-collision walk, from depth `count` on: the depth of the first
      touching pair, or None when no pair touches `next`. */
  function Walk(body: seq<int>, next: int, count: nat): (r: Option<nat>)
    requires count < |body|
    ensures r.Some? ==> count <= r.value && r.value + 1 < |body| && Touches(body, next, r.value)
    ensures r.Some? ==> forall j :: count <= j < r.value ==> !Touches(body, next, j)
    ensures r.None? ==> forall j :: count <= j && j + 1 < |body| ==> !Touches(body, next, j)
    decreases |body| - count
  {
    if count + 1 == |body| then None
    else if body[count] == next || body[count + 1] == next then Some(count)
    else Walk(body, next, count + 1)
  }

  /** The walk's depth is fixed by where `next` first occurs in the body:
      one less than that position (or 0), and None when it does not occur. */
  lemma {:induction false} WalkFindsFirstOccurrence(body: seq<int>, next: int)
    requires |body| >= 2
    ensures next !in body ==> Walk(body, next, 0) == None
    ensures next in body ==>
      Walk(body, next, 0) == Some(if IndexOf(body, next) == 0 then 0 else IndexOf(body, next) - 1)
  {
    if next in body {
      var f := IndexOf(body, next);
      assert Touches(body, next, if f == 0 then 0 else f - 1);
    }
  }

  /** Food placement. `draws` are the successive values of the C library's
      rand(); each attempt looks at cell `draw % size`. The first attempt that
      lands on a plain cell turns it into food; earlier attempts are retried.
      None when the draws run out before a plain cell is hit (the source would
      keep trying). */
  function PlaceFood(cells: seq<Cell>, draws: seq<nat>): (r: Option<seq<Cell>>)
    requires |cells| > 0
    ensures r.Some? <==> exists k :: 0 <= k < |draws| && cells[draws[k] % |cells|] == Plain
    ensures r.Some? ==> exists k :: FirstPlainDraw(cells, draws, k) && FoodPlaced(cells, r.value, draws[k] % |cells|)
    decreases |draws|
  {
    if |draws| == 0 then None
    else if cells[draws[0] % |cells|] == Plain then Some(cells[draws[0] % |cells| := Food])
    else
      var r := PlaceFood(cells, draws[1..]);
      assert forall k :: 1 <= k < |draws| ==> draws[k] == draws[1..][k - 1];
      r
  }

  /** Draw number `k` is the first that lands on a plain cell. */
  predicate FirstPlainDraw(cells: seq<Cell>, draws: seq<nat>, k: int)
    requires |cells| > 0
  {
    && 0 <= k < |draws|
    && cells[draws[k] % |cells|] == Plain
    && forall j :: 0 <= j < k ==> cells[draws[j] % |cells|] != Plain
  }

  /** `after` is `before` with the plain cell `i`, and only it, turned into food. */
  predicate FoodPlaced(before: seq<Cell>, after: seq<Cell>, i: int) {
    && |after| == |before|
    && 0 <= i < |before|
    && before[i] == Plain
    && after[i] == Food
    && forall j :: 0 <= j < |before| && j != i ==> after[j] == before[j]
  }

  /** The target of a tick whose aimed cell is neither wall nor food, after
      the self-collision walk: None for a fatal self-collision. A touch at
      depth 2 or more is fatal unless `next` is the tail; a touch nearer the
      head is a reversal, answered by a step in the stored direction. */
  function Resolve(g: State, input: Input, next: int): (r: Option<int>)
    requires Playable(g) && !g.gameOver && next == Aim(g, input)
    ensures |g.body| == 1 ==> r == Some(next)
    ensures r.Some? ==> 0 <= r.value < |g.cells|
    ensures r.Some? ==> r.value == next || r.value == NextPosition(g.dir, g.body[0], g.width, NoInput)
  {
    if |g.body| <= 1 then Some(next)
    else
      match Walk(g.body, next, 0)
      case None => Some(next)
      case Some(count) =>
        if count >= 2 && next != Last(g.body) then None
        else if next == Last(g.body) && count >= 2 then Some(NextPosition(input, g.body[0], g.width, g.dir))
        else Some(NextPosition(g.dir, g.body[0], g.width, g.dir))
  }

  /** The writes of a non-fatal plain move, in the source's order: the target
      becomes SNAKE, then the removed tail becomes PLAIN, then the target is
      prepended to the body. Because the tail is written last, a head that
      moves onto the old tail leaves that cell PLAIN. */
  function Advance(g: State, target: int): (r: State)
    requires 0 <= target < |g.cells| && |g.body| >= 1 && 0 <= Last(g.body) < |g.cells|
    ensures |r.body| == |g.body| && r.body[0] == target
    ensures forall k :: 1 <= k < |r.body| ==> r.body[k] == g.body[k - 1]
    ensures |r.cells| == |g.cells| && r.cells[Last(g.body)] == Plain
    ensures target != Last(g.body) ==> r.cells[target] == Snake
    ensures forall i :: 0 <= i < |g.cells| && i != target && i != Last(g.body) ==> r.cells[i] == g.cells[i]
    ensures r.width == g.width && r.height == g.height && r.dir == g.dir
    ensures r.gameOver == g.gameOver && r.score == g.score
  {
    g.(cells := g.cells[target := Snake][Last(g.body) := Plain],
       body := [target] + g.body[..|g.body| - 1])
  }

  /** One tick. `growing` says whether eating food lengthens the snake; `draws`
      feed the food placement after a meal. None only when food was eaten and
      the draws ran out before a plain cell was found. */
  function Update(g: State, input: Input, growing: bool, draws: seq<nat>): (r: Option<State>)
    requires Playable(g)
    ensures r.Some? ==> r.value.width == g.width && r.value.height == g.height && |r.value.cells| == |g.cells|
    ensures r.Some? ==> r.value.dir == (if input == NoInput then g.dir else input)
    ensures r.Some? ==> |r.value.body| >= 1
    ensures r.Some? ==> r.value.score == g.score || r.value.score == g.score + 1
    ensures r.Some? && g.gameOver ==> r.value.gameOver
    ensures r.Some? && !g.gameOver ==> r.value.dir != NoInput
    ensures r.Some? && !g.gameOver ==> forall i :: 0 <= i < |r.value.body| ==> 0 <= r.value.body[i] < |r.value.cells|
    ensures r.None? ==> !g.gameOver && g.cells[Aim(g, input)] == Food
  {
    var dir := if input != NoInput then input else g.dir;
    if g.gameOver then Some(g.(dir := dir))
    else
      var head := g.body[0];
      var next := NextPosition(input, head, g.width, g.dir);
      if g.cells[next] == Wall then Some(g.(dir := dir, gameOver := true))
      else if g.cells[next] == Food then
        var cells := AfterMeal(g, next, growing);
        var body := if growing then [next] + g.body else [next] + g.body[1..];
        match PlaceFood(cells, draws)
        case None => None
        case Some(fed) => Some(g.(cells := fed, body := body, dir := dir, score := g.score + 1))
      else
        match Resolve(g, input, next)
        case None => Some(g.(dir := dir, gameOver := true))
        case Some(target) => Some(Advance(g, target).(dir := dir))
  }

  /** `r` is `g` after the head moved into `target` by a plain move: the
      target was written SNAKE and then the old tail PLAIN (so when the
      target is the old tail, that cell ends up PLAIN), the body gained the
      target at the front and lost its tail, and nothing else changed. */
  predicate MovedTo(g: State, r: State, target: int)
    requires |g.body| >= 1
  {
    var tail := Last(g.body);
    && r.body == [target] + g.body[..|g.body| - 1]
    && |r.cells| == |g.cells|
    && 0 <= tail < |g.cells|
    && r.cells[tail] == Plain
    && (target != tail ==> 0 <= target < |g.cells| && r.cells[target] == Snake)
    && (forall i :: 0 <= i < |g.cells| && i != target && i != tail ==> r.cells[i] == g.cells[i])
    && r.score == g.score
    && !r.gameOver
  }

  /** Once the game is over a tick changes nothing but the stored direction. */
  lemma UpdateAfterGameOver(g: State, input: Input, growing: bool, draws: seq<nat>)
    requires Playable(g) && g.gameOver
    ensures var r := Update(g, input, growing, draws);
      && r.Some?
      && r.value.cells == g.cells && r.value.body == g.body
      && r.value.score == g.score && r.value.gameOver
  {
  }

  /** Aiming at a wall ends the game and leaves board, body and score alone. */
  lemma UpdateIntoWall(g: State, input: Input, growing: bool, draws: seq<nat>)
    requires Playable(g) && !g.gameOver && g.cells[Aim(g, input)] == Wall
    ensures var r := Update(g, input, growing, draws);
      && r.Some?
      && r.value.gameOver
      && r.value.cells == g.cells && r.value.body == g.body && r.value.score == g.score
  {
  }

  /** Aiming at food completes the tick exactly when some draw lands on a
      cell that is plain once the meal is eaten. */
  lemma UpdateOntoFoodCompletes(g: State, input: Input, growing: bool, draws: seq<nat>)
    requires Playable(g) && !g.gameOver && g.cells[Aim(g, input)] == Food
    ensures Update(g, input, growing, draws).Some? <==>
      exists k :: 0 <= k < |draws| && PlainAfterMeal(g, Aim(g, input), growing, draws[k] % |g.cells|)
  {
    var meal := AfterMeal(g, Aim(g, input), growing);
    assert forall i :: 0 <= i < |g.cells| ==> (meal[i] == Plain <==> PlainAfterMeal(g, Aim(g, input), growing, i));
  }

  /** Aiming at food: the score rises by one, the food cell becomes SNAKE and
      heads the body; a growing snake keeps its whole old body, otherwise the
      old head cell is vacated and the rest of the body stays. Exactly one
      cell that is plain after the meal becomes the new food. */
  lemma UpdateOntoFood(g: State, input: Input, growing: bool, draws: seq<nat>)
    requires Playable(g) && !g.gameOver && g.cells[Aim(g, input)] == Food
    requires Update(g, input, growing, draws).Some?
    ensures var r := Update(g, input, growing, draws).value;
      var next := Aim(g, input);
      && r.score == g.score + 1
      && !r.gameOver
      && r.body == (if growing then [next] + g.body else [next] + g.body[1..])
      && r.cells[next] == Snake
      && (exists f :: && 0 <= f < |g.cells| && PlainAfterMeal(g, next, growing, f) && r.cells[f] == Food
                      && forall i :: 0 <= i < |g.cells| && i != f && i != next ==>
                           r.cells[i] == (if i == g.body[0] && !growing then Plain else g.cells[i]))
  {
    var next := Aim(g, input);
    var meal := AfterMeal(g, next, growing);
    var r := Update(g, input, growing, draws).value;
    assert PlaceFood(meal, draws) == Some(r.cells);
    var k :| FirstPlainDraw(meal, draws, k) && FoodPlaced(meal, r.cells, draws[k] % |meal|);
    var f := draws[k] % |meal|;
    assert PlainAfterMeal(g, next, growing, f);
  }

  /** The board right after the snake eats the food at `next`, before the new
      food is placed. */
  function AfterMeal(g: State, next: int, growing: bool): (r: seq<Cell>)
    requires |g.body| >= 1 && 0 <= next < |g.cells| && 0 <= g.body[0] < |g.cells| && next != g.body[0]
    ensures |r| == |g.cells| && r[next] == Snake
    ensures forall i :: 0 <= i < |g.cells| && i != next ==>
      r[i] == (if i == g.body[0] && !growing then Plain else g.cells[i])
  {
    var eaten := g.cells[next := Snake];
    if growing then eaten else eaten[g.body[0] := Plain]
  }

  /** Cell `i` is plain once the snake has eaten the food at `next`. */
  predicate PlainAfterMeal(g: State, next: int, growing: bool, i: int)
    requires |g.body| >= 1
  {
    i != next && ((!growing && i == g.body[0]) || (0 <= i < |g.cells| && g.cells[i] == Plain))
  }

  /** A one-segment snake never enters the self-collision walk: it always
      moves into the aimed cell when that is neither wall nor food. */
  lemma SingleSegmentNeverCollides(g: State, input: Input, growing: bool, draws: seq<nat>)
    requires Playable(g) && !g.gameOver && |g.body| == 1
    requires g.cells[Aim(g, input)] != Wall && g.cells[Aim(g, input)] != Food
    ensures var r := Update(g, input, growing, draws);
      r.Some? && MovedTo(g, r.value, Aim(g, input)) && r.value.body == [Aim(g, input)]
  {
  }

  /** Aiming at a cell outside the body moves the snake there. */
  lemma UpdateFreeMove(g: State, input: Input, growing: bool, draws: seq<nat>)
    requires Playable(g) && !g.gameOver
    requires g.cells[Aim(g, input)] != Wall && g.cells[Aim(g, input)] != Food
    requires Aim(g, input) !in g.body
    ensures var r := Update(g, input, growing, draws);
      r.Some? && MovedTo(g, r.value, Aim(g, input))
  {
    if |g.body| >= 2 {
      WalkFindsFirstOccurrence(g.body, Aim(g, input));
    }
  }

  /** Aiming at a body segment at position 3 or later that is not the tail is
      a genuine self-collision: the game ends and board, body and score stay. */
  lemma UpdateSelfCollision(g: State, input: Input, growing: bool, draws: seq<nat>)
    requires Playable(g) && !g.gameOver
    requires g.cells[Aim(g, input)] != Wall && g.cells[Aim(g, input)] != Food
    requires Aim(g, input) in g.body && IndexOf(g.body, Aim(g, input)) >= 3
    requires Aim(g, input) != Last(g.body)
    ensures var r := Update(g, input, growing, draws);
      && r.Some? && r.value.gameOver
      && r.value.cells == g.cells && r.value.body == g.body && r.value.score == g.score
  {
    WalkFindsFirstOccurrence(g.body, Aim(g, input));
  }

  /** Aiming at the tail, found at position 3 or later, is legal: the snake
      follows itself into the cell its tail vacates. Because the tail is
      written PLAIN after the target is written SNAKE, the new head's cell
      ends up PLAIN. */
  lemma UpdateFollowsTail(g: State, input: Input, growing: bool, draws: seq<nat>)
    requires Playable(g) && !g.gameOver
    requires g.cells[Aim(g, input)] != Wall && g.cells[Aim(g, input)] != Food
    requires Aim(g, input) in g.body && IndexOf(g.body, Aim(g, input)) >= 3
    requires Aim(g, input) == Last(g.body)
    ensures var r := Update(g, input, growing, draws);
      && r.Some? && MovedTo(g, r.value, Aim(g, input))
      && r.value.cells[Aim(g, input)] == Plain
  {
    WalkFindsFirstOccurrence(g.body, Aim(g, input));
  }

  /** Aiming at one of the two segments right behind the head (a reversal)
      does not end the game: the snake steps in its stored, pre-input
      direction instead, and that cell's flag is not inspected. */
  lemma UpdateReversal(g: State, input: Input, growing: bool, draws: seq<nat>)
    requires Playable(g) && !g.gameOver && |g.body| >= 2
    requires g.cells[Aim(g, input)] != Wall && g.cells[Aim(g, input)] != Food
    requires Aim(g, input) in g.body && IndexOf(g.body, Aim(g, input)) <= 2
    ensures var r := Update(g, input, growing, draws);
      && r.Some?
      && MovedTo(g, r.value, NextPosition(g.dir, g.body[0], g.width, NoInput))
  {
    WalkFindsFirstOccurrence(g.body, Aim(g, input));
  }
}
