/** The key-down branch of the input handler: arrow keys set the snake's
    pending direction unless they would reverse its current direction. */
module Input {
  import opened Wrappers
  import opened Grid

  /** The key of a key-down event; `OtherKey` is any key that is not an arrow. */
  datatype Key = ArrowUp | ArrowDown | ArrowLeft | ArrowRight | OtherKey

  /** The direction an arrow key asks for. */
  function KeyDirection(k: Key): Option<Direction> {
    match k
    case ArrowUp => Some(Up)
    case ArrowDown => Some(Down)
    case ArrowLeft => Some(Left)
    case ArrowRight => Some(Right)
    case OtherKey => None
  }

  /** A key is taken when it is an arrow that does not point back along `current`. */
  predicate Accepts(current: Direction, k: Key) {
    KeyDirection(k).Some? && KeyDirection(k).value != current.Opposite()
  }

  /** A pending direction that does not reverse the current one. */
  predicate NotReverse(current: Direction, pending: Option<Direction>) {
    pending.None? || pending.value != current.Opposite()
  }

  /** One key-down event: the four guarded branches, tested in order. */
  function ApplyKey(current: Direction, pending: Option<Direction>, k: Key): (r: Option<Direction>)
    ensures Accepts(current, k) ==> r == KeyDirection(k)
    ensures !Accepts(current, k) ==> r == pending
  {
    if k == ArrowUp && current != Down then Some(Up)
    else if k == ArrowDown && current != Up then Some(Down)
    else if k == ArrowLeft && current != Right then Some(Left)
    else if k == ArrowRight && current != Left then Some(Right)
    else pending
  }

  /** A batch of key-down events, handled in arrival order against the same
      current direction. */
  function HandleKeys(current: Direction, pending: Option<Direction>, keys: seq<Key>): (r: Option<Direction>)
    ensures NotReverse(current, pending) ==> NotReverse(current, r)
    ensures r == pending || exists i :: 0 <= i < |keys| && Accepts(current, keys[i]) && r == KeyDirection(keys[i])
    decreases |keys|
  {
    if |keys| == 0 then pending
    else
      var r := HandleKeys(current, ApplyKey(current, pending, keys[0]), keys[1..]);
      assert r == ApplyKey(current, pending, keys[0]) || exists i :: 1 <= i < |keys| && Accepts(current, keys[i]) && r == KeyDirection(keys[i]) by {
        if r != ApplyKey(current, pending, keys[0]) {
          var j :| 0 <= j < |keys[1..]| && Accepts(current, keys[1..][j]) && r == KeyDirection(keys[1..][j]);
          assert keys[1..][j] == keys[j + 1];
        }
      }
      r
  }

  /** The direction of the last accepted key of the batch, searched from the end. */
  function LastAccepted(current: Direction, keys: seq<Key>): Option<Direction>
    decreases |keys|
  {
    if |keys| == 0 then None
    else if Accepts(current, keys[|keys| - 1]) then KeyDirection(keys[|keys| - 1])
    else LastAccepted(current, keys[..|keys| - 1])
  }

  /** Searching from the end agrees with peeling off the first key. */
  lemma {:induction false} LastAcceptedFront(current: Direction, keys: seq<Key>)
    requires |keys| > 0
    ensures LastAccepted(current, keys) ==
      if LastAccepted(current, keys[1..]).Some? then LastAccepted(current, keys[1..])
      else if Accepts(current, keys[0]) then KeyDirection(keys[0])
      else None
    decreases |keys|
  {
    if |keys| > 1 {
      var init := keys[..|keys| - 1];
      assert init[1..] == keys[1..][..|keys[1..]| - 1];
      assert keys[1..][|keys[1..]| - 1] == keys[|keys| - 1];
      LastAcceptedFront(current, init);
    }
  }

  /** Within one batch the last accepted key wins; a batch with no accepted
      key leaves the pending direction as it was. */
  lemma {:induction false} HandleKeysLastWins(current: Direction, pending: Option<Direction>, keys: seq<Key>)
    ensures HandleKeys(current, pending, keys) ==
      if LastAccepted(current, keys).Some? then LastAccepted(current, keys) else pending
    decreases |keys|
  {
    if |keys| > 0 {
      HandleKeysLastWins(current, ApplyKey(current, pending, keys[0]), keys[1..]);
      LastAcceptedFront(current, keys);
    }
  }

  /** The last accepted key names an accepted direction, so never the reverse. */
  lemma {:induction false} LastAcceptedNotReverse(current: Direction, keys: seq<Key>)
    ensures NotReverse(current, LastAccepted(current, keys))
    ensures LastAccepted(current, keys).None? <==> forall i :: 0 <= i < |keys| ==> !Accepts(current, keys[i])
    decreases |keys|
  {
    if |keys| > 0 {
      var init := keys[..|keys| - 1];
      LastAcceptedNotReverse(current, init);
      assert forall i :: 0 <= i < |init| ==> init[i] == keys[i];
    }
  }
}
