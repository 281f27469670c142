/**
 Key handling of the snake game: the key codes the game reads from the
 terminal, the mapping of the WASD letters onto the arrow keys, the table of
 opposite directions and the rule that turns the key pressed during a tick
 into the key that steers the snake.

 Keys are plain integers, as the terminal reports them. The current steering
 key is an integer too: the game stores whatever key was accepted last, even
 one that is not an arrow key.
 */
module Keys {

  datatype Option<T> = None | Some(value: T)

  /** The four directions the snake can move in. */
  datatype Direction = Up | Down | Left | Right

  /** The value the terminal reports when no key was pressed during the tick. */
  const NoKey: int := -1

  /** Codes of the terminal's arrow keys. */
  const KeyDown: int := 258
  const KeyUp: int := 259
  const KeyLeft: int := 260
  const KeyRight: int := 261

  /** The arrow key that stands for a direction. */
  function Code(d: Direction): int
  {
    match d
    case Up => KeyUp
    case Down => KeyDown
    case Left => KeyLeft
    case Right => KeyRight
  }

  /** The direction an arrow key stands for; None for every other key. */
  function DirectionOf(k: int): (r: Option<Direction>)
    ensures r.Some? ==> Code(r.value) == k
    ensures r.None? <==> forall d :: Code(d) != k
  {
    if k == KeyUp then Some(Up)
    else if k == KeyDown then Some(Down)
    else if k == KeyLeft then Some(Left)
    else if k == KeyRight then Some(Right)
    else
      assert Code(Up) != k && Code(Down) != k && Code(Left) != k && Code(Right) != k;
      None
  }

  predicate IsDirection(k: int)
  {
    DirectionOf(k).Some?
  }

  /** The direction pointing the other way. */
  function Reverse(d: Direction): Direction
  {
    match d
    case Up => Down
    case Down => Up
    case Left => Right
    case Right => Left
  }

  /** The keys that end the game: neither "no key", an arrow key nor a WASD letter. */
  predicate IsQuit(k: int)
    ensures IsQuit(k) ==> k != NoKey && !IsDirection(k) && LetterDirection(k).None?
  {
    k == 'q' as int || k == 'Q' as int
  }

  /** The direction a WASD letter of either case stands for; None for every other key. */
  function LetterDirection(k: int): Option<Direction>
  {
    if k == 'w' as int || k == 'W' as int then Some(Up)
    else if k == 'a' as int || k == 'A' as int then Some(Left)
    else if k == 's' as int || k == 'S' as int then Some(Down)
    else if k == 'd' as int || k == 'D' as int then Some(Right)
    else None
  }

  /**
   Replaces a WASD letter, upper or lower case, by the arrow key for the same
   direction; every other key is returned as it is.
   */
  function MapKey(k: int): (r: int)
    ensures LetterDirection(k).Some? ==> r == Code(LetterDirection(k).value)
    ensures LetterDirection(k).None? ==> r == k
    ensures IsDirection(r) <==> IsDirection(k) || LetterDirection(k).Some?
  {
    if k == 'w' as int || k == 'W' as int then KeyUp
    else if k == 'a' as int || k == 'A' as int then KeyLeft
    else if k == 's' as int || k == 'S' as int then KeyDown
    else if k == 'd' as int || k == 'D' as int then KeyRight
    else k
  }

  /**
   Mapping twice changes nothing more: an arrow key is never a letter, so the
   arrow key a letter stands for is not remapped.
   */
  lemma MapKeyIdempotent(k: int)
    ensures MapKey(MapKey(k)) == MapKey(k)
  {
  }

  /**
   The table of reversals the game refuses: the pressed key is the arrow key
   exactly opposite the current one.
   */
  predicate Opposite(current: int, next: int)
    ensures Opposite(current, next) ==> IsDirection(current) && IsDirection(next) && current != next
  {
    (current == KeyDown && next == KeyUp) ||
    (current == KeyUp && next == KeyDown) ||
    (current == KeyLeft && next == KeyRight) ||
    (current == KeyRight && next == KeyLeft)
  }

  /** The table of opposite keys is exactly the reversal of directions. */
  lemma {:induction false} OppositeIsReverse(current: int, next: int)
    ensures Opposite(current, next) <==>
              exists d :: current == Code(d) && next == Code(Reverse(d))
  {
    if Opposite(current, next) {
      var d := DirectionOf(current).value;
      assert current == Code(d) && next == Code(Reverse(d));
    }
  }

  /**
   No key is opposite itself, so pressing the current key again never trips
   the reversal test and simply keeps the direction; and the relation is
   symmetric, so the test refuses left-after-right exactly as it refuses
   right-after-left.
   */
  lemma OppositeIrreflexiveSymmetric(a: int, b: int)
    ensures !Opposite(a, a)
    ensures Opposite(a, b) <==> Opposite(b, a)
  {
  }

  /**
   The steering key after a tick's key press (quit keys are handled before
   this step). No key keeps the current key; otherwise the pressed key is
   mapped from WASD to the arrows, and it replaces the current key unless it is
   the exact opposite of it. Keys that are not directions are accepted too.
   */
  function Resolve(current: int, pressed: int): (r: int)
    ensures pressed == NoKey ==> r == current
    ensures pressed != NoKey && Opposite(current, MapKey(pressed)) ==> r == current
    ensures pressed != NoKey && !Opposite(current, MapKey(pressed)) ==> r == MapKey(pressed)
    ensures !Opposite(current, r)
  {
    if pressed == NoKey then current
    else
      var next := MapKey(pressed);
      if Opposite(current, next) then current else next
  }

  /**
   Steering never turns the snake straight back: from a direction the
   resolved key is never the reverse direction, whatever key is pressed.
   */
  lemma {:induction false} ResolveNeverReverses(d: Direction, pressed: int)
    ensures Resolve(Code(d), pressed) != Code(Reverse(d))
  {
    OppositeIsReverse(Code(d), Code(Reverse(d)));
  }
}
