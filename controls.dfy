/** The key handling of the game: each arrow key press proposes a pending
    direction, which is refused when it would turn the snake straight back. */
module Controls {
  import opened Wrappers
  import opened Grid
  import opened SnakeObject

  /** A key-down event: the four arrow keys, and any other key. */
  datatype Key = ArrowUp | ArrowDown | ArrowLeft | ArrowRight | OtherKey

  /** The direction an arrow key asks for. */
  function Arrow(k: Key): Option<Direction> {
    match k
    case ArrowUp => Some(Up)
    case ArrowDown => Some(Down)
    case ArrowLeft => Some(Left)
    case ArrowRight => Some(Right)
    case OtherKey => None
  }

  /** The key asks for a direction that is not the reverse of `direction`. */
  predicate Accepted(direction: Direction, k: Key) {
    Arrow(k).Some? && Arrow(k).value != Reverse(direction)
  }

  /** The guard for one key press, with the comparisons against the opposite
      constant as the game writes them: an accepted key overwrites the pending
      slot, any other key leaves it as it was. */
  function Steer(direction: Direction, pending: Option<Direction>, k: Key): (r: Option<Direction>)
    ensures Accepted(direction, k) ==> r == Arrow(k)
    ensures !Accepted(direction, k) ==> r == pending
  {
    if k == ArrowUp && direction != Down then Some(Up)
    else if k == ArrowDown && direction != Up then Some(Down)
    else if k == ArrowLeft && direction != Right then Some(Left)
    else if k == ArrowRight && direction != Left then Some(Right)
    else pending
  }

  /** The pending slot after the key presses of one tick, taken in order; the
      current direction does not change while they are read. The slot ends up
      as it was, or holding the direction of one of the accepted keys. */
  function PendingAfter(direction: Direction, pending: Option<Direction>, keys: seq<Key>): (r: Option<Direction>)
    ensures r == pending || exists i :: 0 <= i < |keys| && Accepted(direction, keys[i]) && r == Arrow(keys[i])
    decreases |keys|
  {
    if keys == [] then pending
    else Steer(direction, PendingAfter(direction, pending, keys[..|keys| - 1]), keys[|keys| - 1])
  }

  /** When no key is accepted the pending slot keeps its value. */
  lemma {:induction false} NoAcceptedKeyKeepsPending(direction: Direction, pending: Option<Direction>, keys: seq<Key>)
    requires forall i :: 0 <= i < |keys| ==> !Accepted(direction, keys[i])
    ensures PendingAfter(direction, pending, keys) == pending
    decreases |keys|
  {
    if keys != [] {
      var prefix := keys[..|keys| - 1];
      assert forall i :: 0 <= i < |prefix| ==> prefix[i] == keys[i];
      NoAcceptedKeyKeepsPending(direction, pending, prefix);
    }
  }

  /** The last accepted key wins: earlier presses in the same tick are
      overwritten, not queued. */
  lemma {:induction false} LastAcceptedKeyWins(direction: Direction, pending: Option<Direction>, keys: seq<Key>, i: int)
    requires 0 <= i < |keys| && Accepted(direction, keys[i])
    requires forall j :: i < j < |keys| ==> !Accepted(direction, keys[j])
    ensures PendingAfter(direction, pending, keys) == Arrow(keys[i])
    decreases |keys|
  {
    if i < |keys| - 1 {
      var prefix := keys[..|keys| - 1];
      assert forall j :: 0 <= j < |prefix| ==> prefix[j] == keys[j];
      LastAcceptedKeyWins(direction, pending, prefix, i);
    }
  }

  /** The guard never stores the reverse of the current direction, unless it
      was already pending before the keys were read. */
  lemma {:induction false} PendingNeverReverse(direction: Direction, pending: Option<Direction>, keys: seq<Key>)
    requires pending == None || pending.value != Reverse(direction)
    ensures PendingAfter(direction, pending, keys) == None
         || PendingAfter(direction, pending, keys).value != Reverse(direction)
    decreases |keys|
  {
    if keys != [] {
      PendingNeverReverse(direction, pending, keys[..|keys| - 1]);
    }
  }

  /** handle_keys without the event polling: the key-down events of one tick,
      in order, go through the guard into the snake's pending slot. */
  method HandleKeys(snake: Snake, keys: seq<Key>)
    modifies snake`nextDirection
    ensures snake.nextDirection == PendingAfter(snake.direction, old(snake.nextDirection), keys)
  {
    for i := 0 to |keys|
      invariant snake.nextDirection == PendingAfter(snake.direction, old(snake.nextDirection), keys[..i])
    {
      assert keys[..i + 1][..i] == keys[..i];
      snake.nextDirection := Steer(snake.direction, snake.nextDirection, keys[i]);
    }
    assert keys[..|keys|] == keys;
  }
}
