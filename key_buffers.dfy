/**
 * The key buffers both user_input.rs files keep (`pressed_keys`, `held_keys`, `released_keys`,
 * each an `ArrayVec` of capacity 10) and the effect of one `record_input` call on them; the two
 * files carry identical copies of that function.
 */
module KeyBuffers {
  import opened Sequences

  /** winit's `ElementState`. */
  datatype ElementState = Pressed | Released

  /** winit's `VirtualKeyCode`: the keys the game reacts to by name, every other key by its ordinal. */
  datatype VirtualKeyCode = Return | Space | F1 | F2 | F3 | F10 | Other(ordinal: nat)

  /** The capacity of every `ArrayVec` key buffer; a push onto a full one panics. */
  const Capacity: nat := 10

  datatype Keys = Keys(pressed: seq<VirtualKeyCode>, held: seq<VirtualKeyCode>, released: seq<VirtualKeyCode>)

  /** `iter().position(..)`: the first index holding `k`. */
  function IndexOf<T(==)>(s: seq<T>, k: T): (i: nat)
    requires k in s
    ensures i < |s| && s[i] == k && k !in s[..i]
  {
    if s[0] == k then 0 else 1 + IndexOf(s[1..], k)
  }

  /** `Vec::remove(i)`: the sequence without its i-th element, the rest kept in order. */
  function RemoveAt<T>(s: seq<T>, i: nat): (r: seq<T>)
    requires i < |s|
    ensures |r| == |s| - 1
    ensures forall a :: 0 <= a < i ==> r[a] == s[a]
    ensures forall a :: i <= a < |r| ==> r[a] == s[a + 1]
  {
    s[..i] + s[i + 1..]
  }

  /** Whether the pushes `record_input` would make fit in the buffers. */
  predicate CanRecord(keys: Keys, state: ElementState, code: VirtualKeyCode, lastFramePressed: seq<VirtualKeyCode>) {
    match state
    case Pressed =>
      code !in lastFramePressed && code !in keys.held ==>
        |keys.pressed| < Capacity && |keys.held| < Capacity
    case Released =>
      code in keys.held ==> |keys.released| < Capacity
  }

  /**
   * `record_input`: a press of a key not pressed last frame and not already held is appended to
   * both `pressed` and `held`; a release of a held key moves it from `held` to the end of
   * `released`; anything else leaves the buffers as they were.
   */
  function Recorded(keys: Keys, state: ElementState, code: VirtualKeyCode, lastFramePressed: seq<VirtualKeyCode>): (r: Keys)
    ensures state == Pressed && (code in lastFramePressed || code in keys.held) ==> r == keys
    ensures state == Pressed && code !in lastFramePressed && code !in keys.held ==>
      r == Keys(keys.pressed + [code], keys.held + [code], keys.released)
    ensures state == Released && code !in keys.held ==> r == keys
    ensures state == Released && code in keys.held ==>
      r.pressed == keys.pressed && r.released == keys.released + [code] &&
      multiset(r.held) == multiset(keys.held) - multiset{code} &&
      exists i :: 0 <= i < |keys.held| && keys.held[i] == code && code !in keys.held[..i] &&
        r.held == keys.held[..i] + keys.held[i + 1..]
  {
    match state
    case Pressed =>
      if code !in lastFramePressed && code !in keys.held then
        keys.(pressed := keys.pressed + [code], held := keys.held + [code])
      else
        keys
    case Released =>
      if code in keys.held then
        var i := IndexOf(keys.held, code);
        assert keys.held == keys.held[..i] + [code] + keys.held[i + 1..];
        keys.(held := RemoveAt(keys.held, i), released := keys.released + [code])
      else
        keys
  }

  /** `record_input` never puts a second copy of a key into `held`. */
  lemma RecordKeepsHeldUnique(keys: Keys, state: ElementState, code: VirtualKeyCode, lastFramePressed: seq<VirtualKeyCode>)
    requires NoDuplicates(keys.held)
    ensures NoDuplicates(Recorded(keys, state, code, lastFramePressed).held)
  {
    var r := Recorded(keys, state, code, lastFramePressed);
    if state == Released && code in keys.held {
      var i := IndexOf(keys.held, code);
      assert r.held == RemoveAt(keys.held, i);
    }
  }

  /** With no duplicates in `held`, a released key is no longer held afterwards. */
  lemma ReleaseEndsHold(keys: Keys, code: VirtualKeyCode, lastFramePressed: seq<VirtualKeyCode>)
    requires NoDuplicates(keys.held)
    ensures code !in Recorded(keys, Released, code, lastFramePressed).held
  {
    if code in keys.held {
      var i := IndexOf(keys.held, code);
      var r := RemoveAt(keys.held, i);
      assert Recorded(keys, Released, code, lastFramePressed).held == r;
      forall a | 0 <= a < |r| ensures r[a] != code {
        if a < i {
          assert r[a] == keys.held[a];
        } else {
          assert r[a] == keys.held[a + 1];
        }
      }
    }
  }

  /** After any press the key is held, whether it was recorded now or before. */
  lemma PressLeavesHeldOrRepeat(keys: Keys, code: VirtualKeyCode, lastFramePressed: seq<VirtualKeyCode>)
    ensures var r := Recorded(keys, Pressed, code, lastFramePressed);
      code in r.held || code in lastFramePressed
  {
  }
}
