/**
 * The game: one snake, one apple and the per-frame update that moves the
 * snake, ends the game on a collision and makes the snake grow when it
 * eats the apple.
 */
module SnakeGame {
  import opened Grid
  import opened Snake
  import opened Steering
  import opened Apple

  /** The game's state as a value: the fields of `Game`. */
  datatype State = State(body: seq<Cell>, dx: int, dy: int, apple: Cell, running: bool)

  /** Snake of one segment at (6, 9), at rest; apple at (12, 18). */
  const START: State := State([Cell(6, 9)], 0, 0, Cell(12, 18), true)

  /** What holds of every reachable state. */
  ghost predicate Inv(s: State)
  {
    && |s.body| >= 1
    && ValidDir(s.dx, s.dy)
    && Chained(s.body)
    && InGrid(s.apple)
    && s.apple !in s.body
    && (s.running ==> AllInGrid(s.body))
    && (s.running ==> Distinct(s.body[..|s.body| - 1]))
  }

  lemma StartInv()
    ensures Inv(START)
  {
  }

  /** The move does not end the game and puts the head on the apple. */
  predicate Eats(body: seq<Cell>, dx: int, dy: int, apple: Cell)
    requires |body| >= 1
  {
    var m := Moved(body, dx, dy);
    !Collides(m) && m[0] == apple
  }

  /** The random draws suffice for the apple placement this update may need. */
  predicate Fed(s: State, draws: seq<Draw>)
  {
    && |s.body| >= 1
    && (s.running && Eats(s.body, s.dx, s.dy, s.apple) ==> Feeds(Grown(Moved(s.body, s.dx, s.dy)), draws))
  }

  /**
   * One update of a frame: move; on a collision stop; otherwise, if the
   * head is on the apple, grow and relocate the apple. A stopped game
   * does not change.
   */
  function Step(s: State, draws: seq<Draw>): (t: State)
    requires Fed(s, draws)
    ensures t.running <==> s.running && !Collides(Moved(s.body, s.dx, s.dy))
    ensures t.dx == s.dx && t.dy == s.dy
    ensures |s.body| <= |t.body| <= |s.body| + 1
    ensures t.apple != s.apple ==> s.running && Eats(s.body, s.dx, s.dy, s.apple)
  {
    if !s.running then s
    else
      var m := Moved(s.body, s.dx, s.dy);
      if Collides(m) then s.(body := m, running := false)
      else if m[0] == s.apple then
        var g := Grown(m);
        s.(body := g, apple := Candidate(draws[FirstFree(g, draws)]))
      else s.(body := m)
  }

  /** How many placement attempts one update consumes. */
  function DrawsUsed(s: State, draws: seq<Draw>): (n: nat)
    requires Fed(s, draws)
    ensures n <= |draws|
    ensures n > 0 <==> s.running && Eats(s.body, s.dx, s.dy, s.apple)
  {
    if s.running && Eats(s.body, s.dx, s.dy, s.apple)
    then FirstFree(Grown(Moved(s.body, s.dx, s.dy)), draws) + 1
    else 0
  }

  /** The state once a frame's key presses are handled. */
  function Steered(s: State, keys: seq<Key>): (t: State)
    ensures t.body == s.body && t.apple == s.apple && t.running == s.running
    ensures ValidDir(s.dx, s.dy) ==> ValidDir(t.dx, t.dy)
  {
    SteerAllValid(s.dx, s.dy, keys);
    var (dx, dy) := SteerAll(s.dx, s.dy, keys);
    s.(dx := dx, dy := dy)
  }

  /** One frame of the game loop: handle keys, then update; nothing happens once the game is over. */
  function FrameStep(s: State, keys: seq<Key>, draws: seq<Draw>): (t: State)
    requires !s.running || Fed(Steered(s, keys), draws)
    ensures !s.running ==> t == s
    ensures |s.body| <= |t.body| <= |s.body| + 1
  {
    if !s.running then s else Step(Steered(s, keys), draws)
  }

  lemma ValidDirShort(dx: int, dy: int)
    requires ValidDir(dx, dy)
    ensures Short(dx, dy)
  {
  }

  /** Every update keeps the invariant. */
  lemma StepKeepsInv(s: State, draws: seq<Draw>)
    requires Inv(s) && Fed(s, draws)
    ensures Inv(Step(s, draws))
  {
    if s.running {
      var m := Moved(s.body, s.dx, s.dy);
      ValidDirShort(s.dx, s.dy);
      MovedKeepsChained(s.body, s.dx, s.dy);
      MovedAvoids(s.body, s.dx, s.dy, s.apple);
      if !Collides(m) {
        MovedStaysInGrid(s.body, s.dx, s.dy);
        MovedDistinct(s.body, s.dx, s.dy);
        if m[0] == s.apple {
          GrownKeepsChained(m);
          GrownStaysInGrid(m);
          GrownDistinctPrefix(m);
        } else {
          DistinctPrefix(m);
        }
      }
    }
  }

  /** Every frame keeps the invariant. */
  lemma FrameKeepsInv(s: State, keys: seq<Key>, draws: seq<Draw>)
    requires Inv(s) && (!s.running || Fed(Steered(s, keys), draws))
    ensures Inv(FrameStep(s, keys, draws))
  {
    if s.running {
      SteerAllValid(s.dx, s.dy, keys);
      StepKeepsInv(Steered(s, keys), draws);
    }
  }

  /**
   * The score grows by exactly one on an update where the moved head
   * lands on the apple without a collision, and otherwise stays the same.
   */
  lemma StepLength(s: State, draws: seq<Draw>)
    requires Fed(s, draws)
    ensures |Step(s, draws).body| == |s.body| + (if s.running && Eats(s.body, s.dx, s.dy, s.apple) then 1 else 0)
    ensures |s.body| <= |Step(s, draws).body| <= |s.body| + 1
  {
  }

  /** An update that collides ends the game with no growth and the apple where it was. */
  lemma CollisionStops(s: State, draws: seq<Draw>)
    requires Fed(s, draws) && s.running && Collides(Moved(s.body, s.dx, s.dy))
    ensures var t := Step(s, draws);
      !t.running && t.body == Moved(s.body, s.dx, s.dy) && t.apple == s.apple && DrawsUsed(s, draws) == 0
  {
  }

  /** An update that eats puts the apple on the grid, off the grown body. */
  lemma EatingRelocatesApple(s: State, draws: seq<Draw>)
    requires Fed(s, draws) && s.running && Eats(s.body, s.dx, s.dy, s.apple)
    ensures var t := Step(s, draws);
      t.running && t.body == Grown(Moved(s.body, s.dx, s.dy)) && InGrid(t.apple) && t.apple !in t.body
  {
  }

  /** An update that neither collides nor eats only moves the snake: the apple stays and no draws are used. */
  lemma PlainMove(s: State, draws: seq<Draw>)
    requires Fed(s, draws) && s.running
    requires !Collides(Moved(s.body, s.dx, s.dy)) && Moved(s.body, s.dx, s.dy)[0] != s.apple
    ensures Step(s, draws) == s.(body := Moved(s.body, s.dx, s.dy))
    ensures DrawsUsed(s, draws) == 0
  {
  }

  /** After the game is over, no frame changes anything. */
  lemma OverIsFinal(s: State, keys: seq<Key>, draws: seq<Draw>)
    requires !s.running
    ensures FrameStep(s, keys, draws) == s
  {
  }

  /**
   * From the start, with the apple moved to (7, 9): pressing Right and
   * updating eats it, and the new segment copies the head's new cell.
   */
  lemma FirstMealExample()
    ensures Fed(Steered(START.(apple := Cell(7, 9)), [Right]), [(0, 0)])
    ensures FrameStep(START.(apple := Cell(7, 9)), [Right], [(0, 0)]).body == [Cell(7, 9), Cell(7, 9)]
  {
    var s := Steered(START.(apple := Cell(7, 9)), [Right]);
    assert s.dx == 1 && s.dy == 0;
    assert Moved(s.body, 1, 0) == [Cell(7, 9)];
    var g := Grown(Moved(s.body, 1, 0));
    assert g == [Cell(7, 9), Cell(7, 9)];
    assert Candidate([(0, 0)][0]) == Cell(0, 0) && Cell(0, 0) !in g;
  }

  /** Moving right, a Left press is ignored and the head keeps moving right. */
  lemma ReversalIgnoredExample(body: seq<Cell>, apple: Cell, draws: seq<Draw>)
    requires |body| >= 1
    requires Fed(State(body, 1, 0, apple, true), draws)
    ensures var t := FrameStep(State(body, 1, 0, apple, true), [Left], draws);
      t.dx == 1 && t.dy == 0 && t.body[0] == Cell(body[0].x + 1, body[0].y)
  {
    var s := State(body, 1, 0, apple, true);
    assert Steered(s, [Left]) == s;
  }

  /**
   * The reversal guard compares each key with the direction the previous
   * key left, so two arrow keys in one frame can reverse the snake. Moving
   * right with the second segment right behind the head, Up then Left turns
   * the head onto that segment, and a snake of three or more segments dies.
   */
  lemma TwoKeysReverseExample(body: seq<Cell>, apple: Cell, draws: seq<Draw>)
    requires |body| >= 3 && body[1] == Cell(body[0].x - 1, body[0].y)
    ensures Steered(State(body, 1, 0, apple, true), [Up, Left]).dx == -1
    ensures Fed(Steered(State(body, 1, 0, apple, true), [Up, Left]), draws)
    ensures !FrameStep(State(body, 1, 0, apple, true), [Up, Left], draws).running
  {
    var t := Steered(State(body, 1, 0, apple, true), [Up, Left]);
    assert SteerAll(1, 0, [Up, Left]) == SteerAll(0, -1, [Left]) == (-1, 0);
    var m := Moved(body, -1, 0);
    assert m[2] == body[1] == m[0];
  }

  /**
   * The game state, updated in place by the game loop. The snake's body is
   * a sequence of cells, head first; (dx, dy) is the head's direction.
   */
  class Game {
    var body: seq<Cell>
    var dx: int
    var dy: int
    var apple: Cell
    var running: bool

    function Abstract(): State
      reads this
    {
      State(body, dx, dy, apple, running)
    }

    ghost predicate Valid()
      reads this
    {
      Inv(Abstract())
    }

    constructor ()
      ensures Valid() && Abstract() == START
    {
      body := [Cell(6, 9)];
      dx, dy := 0, 0;
      apple := Cell(12, 18);
      running := true;
    }

    /** The number of segments, which is the score. */
    function Score(): (n: nat)
      reads this
      requires Valid()
      ensures n >= 1 && n == |Abstract().body|
    {
      |body|
    }

    /** Move the head by (dx, dy); every other segment takes the cell its predecessor held. */
    method Move()
      requires |body| >= 1
      modifies this`body
      ensures body == Moved(old(body), dx, dy)
      ensures dx == old(dx) && dy == old(dy) && apple == old(apple) && running == old(running)
    {
      var prevX := body[0].x;
      var prevY := body[0].y;
      body := body[0 := Cell(prevX + dx, prevY + dy)];
      var i := 1;
      while i < |body|
        invariant 1 <= i <= |body| == |old(body)|
        invariant body[0] == Cell(old(body)[0].x + dx, old(body)[0].y + dy)
        invariant forall j :: 1 <= j < i ==> body[j] == old(body)[j - 1]
        invariant forall j :: i <= j < |body| ==> body[j] == old(body)[j]
        invariant Cell(prevX, prevY) == old(body)[i - 1]
      {
        var tempX := body[i].x;
        var tempY := body[i].y;
        body := body[i := Cell(prevX, prevY)];
        prevX, prevY := tempX, tempY;
        i := i + 1;
      }
    }

    /** Append a segment on the tail's current cell. */
    method Grow()
      requires |body| >= 1
      modifies this`body
      ensures body == Grown(old(body))
      ensures dx == old(dx) && dy == old(dy) && apple == old(apple) && running == old(running)
    {
      var tail := body[|body| - 1];
      body := body + [Cell(tail.x, tail.y)];
    }

    /** Whether the head is off the grid or on another segment. */
    method CheckCollision() returns (hit: bool)
      requires |body| >= 1
      ensures hit == Collides(body)
    {
      var head := body[0];
      if head.x < 0 || head.x >= COLUMNS || head.y < 0 || head.y >= ROWS {
        return true;
      }
      var i := 1;
      while i < |body|
        invariant 1 <= i <= |body|
        invariant forall j :: 1 <= j < i ==> body[j] != head
      {
        if head.x == body[i].x && head.y == body[i].y {
          return true;
        }
        i := i + 1;
      }
      return false;
    }

    /** Apply one key press to the direction, ignoring a reversal. */
    method HandleKey(key: Key)
      modifies this`dx, this`dy
      ensures (dx, dy) == Steer(old(dx), old(dy), key)
      ensures body == old(body) && apple == old(apple) && running == old(running)
    {
      var tempDX, tempDY := dx, dy;
      match key {
        case Right => tempDX, tempDY := 1, 0;
        case Left => tempDX, tempDY := -1, 0;
        case Down => tempDX, tempDY := 0, 1;
        case Up => tempDX, tempDY := 0, -1;
        case Other =>
      }
      if !(tempDX == -dx && tempDY == -dy) {
        dx, dy := tempDX, tempDY;
      }
    }

    /** Place the apple on the first drawn cell off the body; returns the number of attempts used. */
    method ResetApple(draws: seq<Draw>) returns (used: nat)
      requires Feeds(body, draws)
      modifies this`apple
      ensures body == old(body) && dx == old(dx) && dy == old(dy) && running == old(running)
      ensures used == FirstFree(body, draws) + 1 && apple == Candidate(draws[used - 1])
      ensures InGrid(apple) && apple !in body
    {
      apple, used := PlaceApple(body, draws);
    }

    /**
     * The update part of one frame: move, stop on a collision, and on
     * reaching the apple grow and relocate it. `alive` is false when the
     * game is over; `used` counts the placement attempts consumed.
     */
    method Tick(draws: seq<Draw>) returns (alive: bool, used: nat)
      requires Valid() && Fed(Abstract(), draws)
      modifies this
      ensures Valid()
      ensures Abstract() == Step(old(Abstract()), draws)
      ensures used == DrawsUsed(old(Abstract()), draws)
      ensures alive == running
    {
      ghost var s := Abstract();
      StepKeepsInv(s, draws);
      used := 0;
      if !running {
        return false, 0;
      }
      Move();
      var hit := CheckCollision();
      if hit {
        running := false;
        return false, 0;
      }
      if body[0].x == apple.x && body[0].y == apple.y {
        Grow();
        used := ResetApple(draws);
      }
      alive := true;
    }

    /** One pass of the game loop: handle the frame's key presses in order, then update. */
    method Frame(keys: seq<Key>, draws: seq<Draw>) returns (alive: bool, used: nat)
      requires Valid() && (!running || Fed(Steered(Abstract(), keys), draws))
      modifies this
      ensures Valid()
      ensures Abstract() == FrameStep(old(Abstract()), keys, draws)
      ensures used == (if old(running) then DrawsUsed(Steered(old(Abstract()), keys), draws) else 0)
      ensures alive == running
    {
      if !running {
        return false, 0;
      }
      ghost var s := Abstract();
      var i := 0;
      while i < |keys|
        invariant 0 <= i <= |keys|
        invariant Abstract() == Steered(s, keys[..i])
        invariant ValidDir(dx, dy)
      {
        SteerAllSnoc(s.dx, s.dy, keys[..i], keys[i]);
        assert keys[..i + 1] == keys[..i] + [keys[i]];
        HandleKey(keys[i]);
        i := i + 1;
      }
      assert keys[..i] == keys;
      alive, used := Tick(draws);
    }
  }
}
