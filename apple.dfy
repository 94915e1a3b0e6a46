/**
 * Placing the apple by rejection sampling: draw a random cell until one is
 * found that no segment of the snake occupies.
 */
module Apple {
  import opened Grid

  /**
   * The two values the C library's `rand()` returns for one placement
   * attempt: the first picks the column, the second the row.
   */
  type Draw = (nat, nat)

  /** The cell one attempt proposes. */
  function Candidate(d: Draw): (c: Cell)
    ensures InGrid(c)
  {
    Cell(RandomNumber(0, COLUMNS - 1, d.0), RandomNumber(0, ROWS - 1, d.1))
  }

  /** Every grid cell can be proposed. */
  lemma CandidateReaches(c: Cell)
    requires InGrid(c)
    ensures Candidate((c.x, c.y)) == c
  {
    RandomNumberReaches(0, COLUMNS - 1, c.x);
    RandomNumberReaches(0, ROWS - 1, c.y);
  }

  /** Some attempt in `draws` proposes a cell off the body, so sampling stops. */
  predicate Feeds(body: seq<Cell>, draws: seq<Draw>)
  {
    exists k :: 0 <= k < |draws| && Candidate(draws[k]) !in body
  }

  /**
   * When the body covers every grid cell, no draws can stop the sampling:
   * the placement loop would never end.
   */
  lemma FullGridStarves(body: seq<Cell>, draws: seq<Draw>)
    requires forall c :: InGrid(c) ==> c in body
    ensures !Feeds(body, draws)
  {
    forall k | 0 <= k < |draws|
      ensures Candidate(draws[k]) in body
    {
      assert InGrid(Candidate(draws[k]));
    }
  }

  /** The index of the attempt at which sampling stops: the first one off the body. */
  function FirstFree(body: seq<Cell>, draws: seq<Draw>): (k: nat)
    requires Feeds(body, draws)
    ensures k < |draws| && Candidate(draws[k]) !in body
    ensures forall j :: 0 <= j < k ==> Candidate(draws[j]) in body
    decreases |draws|
  {
    if Candidate(draws[0]) !in body then 0
    else
      var k :| 0 <= k < |draws| && Candidate(draws[k]) !in body;
      assert Candidate(draws[1..][k - 1]) !in body;
      1 + FirstFree(body, draws[1..])
  }

  /** Whether some segment of `body` occupies `c` (the inner scan of the placement loop). */
  method OnBody(body: seq<Cell>, c: Cell) returns (collision: bool)
    ensures collision <==> c in body
  {
    collision := false;
    var i := 0;
    while i < |body|
      invariant 0 <= i <= |body|
      invariant c !in body[..i]
    {
      if body[i].x == c.x && body[i].y == c.y {
        collision := true;
        break;
      }
      i := i + 1;
    }
    assert i == |body| ==> body[..i] == body;
  }

  /**
   * Rejection sampling: try the attempts of `draws` in order until one
   * proposes a cell off the body. Returns that cell and how many attempts
   * were used.
   */
  method PlaceApple(body: seq<Cell>, draws: seq<Draw>) returns (apple: Cell, used: nat)
    requires Feeds(body, draws)
    ensures InGrid(apple) && apple !in body
    ensures 1 <= used <= |draws| && apple == Candidate(draws[used - 1])
    ensures forall j :: 0 <= j < used - 1 ==> Candidate(draws[j]) in body
    ensures used == FirstFree(body, draws) + 1
  {
    used := 0;
    while true
      invariant used <= FirstFree(body, draws)
      decreases FirstFree(body, draws) - used
    {
      var posX := RandomNumber(0, COLUMNS - 1, draws[used].0);
      var posY := RandomNumber(0, ROWS - 1, draws[used].1);
      apple := Cell(posX, posY);
      var collision := OnBody(body, apple);
      used := used + 1;
      if !collision {
        break;
      }
    }
  }
}
