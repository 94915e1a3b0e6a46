/**
 * The snake's body as a value: the cells of its segments, head first.
 * These functions specify what the game's in-place operations do to it.
 */
module Snake {
  import opened Grid

  /** The body after one step: the head moves by (dx, dy), every other segment takes its predecessor's old cell. */
  function Moved(body: seq<Cell>, dx: int, dy: int): (r: seq<Cell>)
    requires |body| >= 1
    ensures |r| == |body|
    ensures r[0] == Cell(body[0].x + dx, body[0].y + dy)
    ensures forall i :: 1 <= i < |r| ==> r[i] == body[i - 1]
  {
    [Cell(body[0].x + dx, body[0].y + dy)] + body[..|body| - 1]
  }

  /** The body after growth: a copy of the tail's current cell is appended. */
  function Grown(body: seq<Cell>): (r: seq<Cell>)
    requires |body| >= 1
    ensures |r| == |body| + 1
    ensures r[..|body|] == body
    ensures r[|body|] == body[|body| - 1]
  {
    body + [body[|body| - 1]]
  }

  /** Some segment other than the head occupies the head's cell. */
  predicate HeadOnBody(body: seq<Cell>)
    requires |body| >= 1
  {
    exists i :: 1 <= i < |body| && body[i] == body[0]
  }

  /** Game over: the head has left the grid or runs into another segment. */
  predicate Collides(body: seq<Cell>)
    requires |body| >= 1
  {
    !InGrid(body[0]) || HeadOnBody(body)
  }

  /** Two cells are equal or share an edge. */
  predicate Touching(a: Cell, b: Cell)
  {
    var ddx := if a.x <= b.x then b.x - a.x else a.x - b.x;
    var ddy := if a.y <= b.y then b.y - a.y else a.y - b.y;
    ddx + ddy <= 1
  }

  /** Every segment touches the one before it: the body is an unbroken chain. */
  predicate Chained(body: seq<Cell>)
  {
    forall i :: 0 <= i < |body| - 1 ==> Touching(body[i], body[i + 1])
  }

  /** No two segments share a cell. */
  predicate Distinct(body: seq<Cell>)
  {
    forall i, j :: 0 <= i < j < |body| ==> body[i] != body[j]
  }

  predicate AllInGrid(body: seq<Cell>)
  {
    forall i :: 0 <= i < |body| ==> InGrid(body[i])
  }

  /** A step vector of length at most one. */
  predicate Short(dx: int, dy: int)
  {
    Touching(Cell(0, 0), Cell(dx, dy))
  }

  /** A move by a step of length at most one keeps the body chained. */
  lemma MovedKeepsChained(body: seq<Cell>, dx: int, dy: int)
    requires |body| >= 1 && Chained(body) && Short(dx, dy)
    ensures Chained(Moved(body, dx, dy))
  {
    var r := Moved(body, dx, dy);
    forall i | 0 <= i < |r| - 1
      ensures Touching(r[i], r[i + 1])
    {
      if i > 0 {
        assert r[i] == body[i - 1] && r[i + 1] == body[i];
      }
    }
  }

  /** Growth keeps the body chained: the new tail sits on the old tail. */
  lemma GrownKeepsChained(body: seq<Cell>)
    requires |body| >= 1 && Chained(body)
    ensures Chained(Grown(body))
  {
    var r := Grown(body);
    forall i | 0 <= i < |r| - 1
      ensures Touching(r[i], r[i + 1])
    {
      if i + 1 < |body| {
        assert r[i] == body[i] && r[i + 1] == body[i + 1];
      }
    }
  }

  /** A move that does not end the game leaves every segment on the grid. */
  lemma MovedStaysInGrid(body: seq<Cell>, dx: int, dy: int)
    requires |body| >= 1 && AllInGrid(body)
    requires !Collides(Moved(body, dx, dy))
    ensures AllInGrid(Moved(body, dx, dy))
  {
    var r := Moved(body, dx, dy);
    forall i | 0 <= i < |r|
      ensures InGrid(r[i])
    {
      if i > 0 {
        assert r[i] == body[i - 1];
      }
    }
  }

  lemma GrownStaysInGrid(body: seq<Cell>)
    requires |body| >= 1 && AllInGrid(body)
    ensures AllInGrid(Grown(body))
  {
    var r := Grown(body);
    forall i | 0 <= i < |r|
      ensures InGrid(r[i])
    {
      if i < |body| {
        assert r[i] == r[..|body|][i];
      }
    }
  }

  /**
   * A grid cell that the body does not cover is not covered after a move
   * unless the new head lands on it; in particular, a move that hits the
   * wall or the body never lands on it.
   */
  lemma MovedAvoids(body: seq<Cell>, dx: int, dy: int, c: Cell)
    requires |body| >= 1 && c !in body && InGrid(c)
    ensures c in Moved(body, dx, dy) <==> Moved(body, dx, dy)[0] == c
    ensures Collides(Moved(body, dx, dy)) ==> c !in Moved(body, dx, dy)
  {
    var r := Moved(body, dx, dy);
    forall i | 1 <= i < |r|
      ensures r[i] != c
    {
      assert r[i] == body[i - 1];
    }
    if Collides(r) && InGrid(r[0]) {
      var i :| 1 <= i < |r| && r[i] == r[0];
      assert r[i] != c;
    }
  }

  /**
   * A move that passes the self test leaves no two segments on one cell,
   * provided no two segments but the tail shared a cell before: the old
   * tail is dropped and the new head is on no other segment.
   */
  lemma {:induction false} MovedDistinct(body: seq<Cell>, dx: int, dy: int)
    requires |body| >= 1 && Distinct(body[..|body| - 1])
    requires !HeadOnBody(Moved(body, dx, dy))
    ensures Distinct(Moved(body, dx, dy))
  {
    var r := Moved(body, dx, dy);
    var p := body[..|body| - 1];
    forall i, j | 0 <= i < j < |r|
      ensures r[i] != r[j]
    {
      if i == 0 {
        assert r[j] != r[0];
      } else {
        assert r[i] == p[i - 1] && r[j] == p[j - 1];
      }
    }
  }

  /** Growth puts its one duplicate at the tail: all segments but the last stay distinct. */
  lemma {:induction false} GrownDistinctPrefix(body: seq<Cell>)
    requires |body| >= 1 && Distinct(body)
    ensures Distinct(Grown(body)[..|Grown(body)| - 1])
  {
    assert Grown(body)[..|Grown(body)| - 1] == body;
  }

  /** Dropping the tail keeps the segments distinct. */
  lemma {:induction false} DistinctPrefix(body: seq<Cell>)
    requires |body| >= 1 && Distinct(body)
    ensures Distinct(body[..|body| - 1])
  {
    var p := body[..|body| - 1];
    forall i, j | 0 <= i < j < |p|
      ensures p[i] != p[j]
    {
      assert p[i] == body[i] && p[j] == body[j];
    }
  }

  /** A one-segment snake that grows right after moving holds two copies of its new head cell. */
  lemma GrowAfterMoveDuplicatesHead(c: Cell, dx: int, dy: int)
    ensures Grown(Moved([c], dx, dy)) == [Cell(c.x + dx, c.y + dy), Cell(c.x + dx, c.y + dy)]
  {
  }

  /** A head on the last column moving right hits the wall. */
  lemma RightWallHit(body: seq<Cell>)
    requires |body| >= 1 && body[0].x == COLUMNS - 1
    ensures Collides(Moved(body, 1, 0))
  {
  }

  /** Five segments bent into a hook: moving right runs the head into the fourth segment's old cell. */
  lemma SelfHitExample()
    ensures Collides(Moved([Cell(5, 5), Cell(5, 6), Cell(6, 6), Cell(6, 5), Cell(7, 5)], 1, 0))
  {
    var r := Moved([Cell(5, 5), Cell(5, 6), Cell(6, 6), Cell(6, 5), Cell(7, 5)], 1, 0);
    assert r[4] == r[0];
  }
}
