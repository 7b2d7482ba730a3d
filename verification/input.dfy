/**
  Keyboard input of the snake game: the direction handler (script.js:46-61) and the set of keys
  that drive acceleration (script.js:72-86). Keys arrive already lower-cased, so the model has one
  constructor per recognised key name and one for every other key.
 */
module Input {

  /** The key names the handlers compare against: letter keys, arrow keys, and anything else. */
  datatype Key = KeyW | KeyA | KeyS | KeyD | ArrowUp | ArrowLeft | ArrowDown | ArrowRight | Other

  /** The velocity (dx, dy) in tiles per move. */
  type Heading = (int, int)

  /** One of the four unit steps. */
  predicate IsUnit(h: Heading) {
    || (h.0 == 0 && (h.1 == 1 || h.1 == -1))
    || (h.1 == 0 && (h.0 == 1 || h.0 == -1))
  }

  /** The headings the game can be in: at rest before the first start, or a unit step. */
  predicate ValidHeading(h: Heading) {
    h == (0, 0) || IsUnit(h)
  }

  function Negate(h: Heading): Heading {
    (-h.0, -h.1)
  }

  predicate IsHorizontalKey(k: Key) {
    k == KeyA || k == ArrowLeft || k == KeyD || k == ArrowRight
  }

  predicate IsVerticalKey(k: Key) {
    k == KeyW || k == ArrowUp || k == KeyS || k == ArrowDown
  }

  /** The step a movement key asks for, in screen coordinates (up is negative y). */
  function KeyStep(k: Key): (h: Heading)
    requires IsHorizontalKey(k) || IsVerticalKey(k)
    ensures IsUnit(h)
    ensures IsHorizontalKey(k) <==> h.1 == 0
  {
    match k
    case KeyA | ArrowLeft => (-1, 0)
    case KeyD | ArrowRight => (1, 0)
    case KeyW | ArrowUp => (0, -1)
    case KeyS | ArrowDown => (0, 1)
  }

  /** Only the letter keys w, a, s, d start and stop acceleration; the arrow keys do not. */
  predicate IsAccelerationKey(k: Key) {
    k == KeyW || k == KeyA || k == KeyS || k == KeyD
  }

  /**
    changeDirection: a horizontal key is taken only while dx is 0 and a vertical key only while
    dy is 0; every other key press leaves the heading as it was.
   */
  function ChangeDirection(k: Key, h: Heading): (r: Heading)
    ensures IsHorizontalKey(k) ==> r == (if h.0 == 0 then KeyStep(k) else h)
    ensures IsVerticalKey(k) ==> r == (if h.1 == 0 then KeyStep(k) else h)
    ensures k == Other ==> r == h
    ensures r != h ==> IsUnit(r)
    ensures h != (0, 0) ==> r != Negate(h)
  {
    if (k == KeyA || k == ArrowLeft) && h.0 == 0 then (-1, 0)
    else if (k == KeyD || k == ArrowRight) && h.0 == 0 then (1, 0)
    else if (k == KeyW || k == ArrowUp) && h.1 == 0 then (0, -1)
    else if (k == KeyS || k == ArrowDown) && h.1 == 0 then (0, 1)
    else h
  }

  /** A key press is accepted exactly when its axis is at rest, and an accepted press turns a unit heading by 90 degrees. */
  lemma ChangeDirectionAccepts(k: Key, h: Heading)
    requires IsHorizontalKey(k) || IsVerticalKey(k)
    ensures ChangeDirection(k, h) == KeyStep(k) <==> (if IsHorizontalKey(k) then h.0 == 0 || h == KeyStep(k) else h.1 == 0 || h == KeyStep(k))
    ensures IsUnit(h) && ChangeDirection(k, h) != h ==> h.0 * ChangeDirection(k, h).0 + h.1 * ChangeDirection(k, h).1 == 0
  {
  }

  /** The heading stays at rest or a unit step whatever key is pressed. */
  lemma ChangeDirectionKeepsValidHeading(k: Key, h: Heading)
    requires ValidHeading(h)
    ensures ValidHeading(ChangeDirection(k, h))
  {
  }

  /**
    Two presses between moves can reverse a moving snake: from heading right, w then a yields
    heading left, the exact reverse, although each single press is perpendicular.
   */
  lemma TwoPressesCanReverse()
    ensures ChangeDirection(KeyA, ChangeDirection(KeyW, (1, 0))) == Negate((1, 0))
  {
  }
}
