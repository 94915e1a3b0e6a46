/**
 * Steering the snake from the keyboard: arrow keys choose a cardinal
 * direction, and a request to reverse onto the body is ignored.
 */
module Steering {

  /** The key of a key-down event; `Other` is any key that is not an arrow. */
  datatype Key = Right | Left | Down | Up | Other

  /** The movement vector (dx, dy) is at rest or one of the four unit steps. */
  predicate ValidDir(dx: int, dy: int)
  {
    (dx, dy) in {(0, 0), (1, 0), (-1, 0), (0, 1), (0, -1)}
  }

  /** The unit vector an arrow key asks for. */
  function Arrow(key: Key): (v: (int, int))
    requires key != Other
    ensures ValidDir(v.0, v.1) && v != (0, 0)
  {
    match key
    case Right => (1, 0)
    case Left => (-1, 0)
    case Down => (0, 1)
    case Up => (0, -1)
  }

  /**
   * The direction after a key press, given the current direction (dx, dy):
   * the key's vector replaces the current one unless it is its exact negation.
   */
  function Steer(dx: int, dy: int, key: Key): (r: (int, int))
    ensures key == Other ==> r == (dx, dy)
    ensures key != Other ==> r == (if Arrow(key) == (-dx, -dy) then (dx, dy) else Arrow(key))
    ensures (dx, dy) != (0, 0) ==> r != (-dx, -dy)
    ensures ValidDir(dx, dy) ==> ValidDir(r.0, r.1)
  {
    var (tx, ty) := if key == Other then (dx, dy) else Arrow(key);
    if !(tx == -dx && ty == -dy) then (tx, ty) else (dx, dy)
  }

  /** Pressing the same key twice has the effect of pressing it once. */
  lemma SteerIdempotent(dx: int, dy: int, key: Key)
    requires ValidDir(dx, dy)
    ensures var (ex, ey) := Steer(dx, dy, key); Steer(ex, ey, key) == (ex, ey)
  {
  }

  /**
   * The direction after a frame's key presses, handled in the order they
   * arrived. Once the snake moves it never comes to rest again.
   */
  function SteerAll(dx: int, dy: int, keys: seq<Key>): (r: (int, int))
    ensures ValidDir(dx, dy) && (dx, dy) != (0, 0) ==> r != (0, 0)
    decreases |keys|
  {
    if keys == [] then (dx, dy)
    else
      var (ex, ey) := Steer(dx, dy, keys[0]);
      SteerAll(ex, ey, keys[1..])
  }

  /** Whatever keys arrive, the direction stays at rest or a unit step. */
  lemma {:induction false} SteerAllValid(dx: int, dy: int, keys: seq<Key>)
    ensures ValidDir(dx, dy) ==> ValidDir(SteerAll(dx, dy, keys).0, SteerAll(dx, dy, keys).1)
    decreases |keys|
  {
    if keys != [] {
      var (ex, ey) := Steer(dx, dy, keys[0]);
      SteerAllValid(ex, ey, keys[1..]);
    }
  }

  /** Handling one more key extends the frame's steering by one step. */
  lemma {:induction false} SteerAllSnoc(dx: int, dy: int, keys: seq<Key>, key: Key)
    ensures var (ex, ey) := SteerAll(dx, dy, keys); SteerAll(dx, dy, keys + [key]) == Steer(ex, ey, key)
    decreases |keys|
  {
    if keys == [] {
      assert keys + [key] == [key];
    } else {
      var (ex, ey) := Steer(dx, dy, keys[0]);
      assert (keys + [key])[1..] == keys[1..] + [key];
      SteerAllSnoc(ex, ey, keys[1..], key);
    }
  }

  /** Non-arrow keys never change the direction. */
  lemma {:induction false} OtherKeysIgnored(dx: int, dy: int, keys: seq<Key>)
    requires forall i :: 0 <= i < |keys| ==> keys[i] == Other
    ensures SteerAll(dx, dy, keys) == (dx, dy)
    decreases |keys|
  {
    if keys != [] {
      OtherKeysIgnored(dx, dy, keys[1..]);
    }
  }
}
