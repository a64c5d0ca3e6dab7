/**
 * src/components/user_input.rs: the per-frame input state the game reads. Mouse buttons are
 * tracked in three five-slot arrays (pressed this frame, held, released this frame); keys in
 * the `KeyBuffers` queues. The winit event loop is not modelled; its handler bodies for a
 * button press, a button release, a typed character and a key event are the methods below.
 */
module ComponentsUserInput {
  import opened Wrappers
  import opened Entities
  import opened Sequences
  import opened KeyBuffers

  /** The number of slots in each mouse-button array. */
  const MouseButtonCount: nat := 5

  datatype MouseButton = Left | Right | Middle | Generic(index: nat)

  /** `From<MouseButton> for usize`: the array slot of a button. */
  function ButtonIndex(b: MouseButton): (i: nat)
    ensures b == Left ==> i == 0
    ensures b == Right ==> i == 1
    ensures b == Middle ==> i == 2
    ensures b.Generic? ==> i == b.index
  {
    match b
    case Left => 0
    case Right => 1
    case Middle => 2
    case Generic(index) => index
  }

  /** The three named buttons occupy three different slots, all within the arrays. */
  lemma NamedButtonsAreDistinct()
    ensures ButtonIndex(Left) != ButtonIndex(Right) && ButtonIndex(Right) != ButtonIndex(Middle)
    ensures ButtonIndex(Left) != ButtonIndex(Middle)
    ensures forall b: MouseButton :: !b.Generic? ==> ButtonIndex(b) < MouseButtonCount
  {
  }

  class MouseInput {
    var mousePositionLastFrame: Vec2
    var mousePosition: Vec2
    var mouseVerticalScrollDelta: real
    const mousePressed: array<bool>
    const mouseHeld: array<bool>
    const mouseReleased: array<bool>
    var mouseInputTaken: bool

    ghost predicate Valid()
      reads this
    {
      mousePressed.Length == MouseButtonCount && mouseHeld.Length == MouseButtonCount &&
      mouseReleased.Length == MouseButtonCount &&
      mousePressed != mouseHeld && mousePressed != mouseReleased && mouseHeld != mouseReleased
    }

    /** `MouseInput::default()`: nothing pressed, held or released. */
    constructor ()
      ensures Valid() && fresh(mousePressed) && fresh(mouseHeld) && fresh(mouseReleased)
      ensures forall i :: 0 <= i < MouseButtonCount ==> !mousePressed[i] && !mouseHeld[i] && !mouseReleased[i]
      ensures !mouseInputTaken && mouseVerticalScrollDelta == 0.0
      ensures mousePosition == mousePositionLastFrame == Vec2(0.0, 0.0)
    {
      mousePositionLastFrame := Vec2(0.0, 0.0);
      mousePosition := Vec2(0.0, 0.0);
      mouseVerticalScrollDelta := 0.0;
      mousePressed := new bool[MouseButtonCount](_ => false);
      mouseHeld := new bool[MouseButtonCount](_ => false);
      mouseReleased := new bool[MouseButtonCount](_ => false);
      mouseInputTaken := false;
    }

    /** `mouse_delta_position`: how far the cursor moved since the last frame. */
    function MouseDeltaPosition(): (d: Vec2)
      reads this
      ensures d.x + mousePositionLastFrame.x == mousePosition.x
      ensures d.y + mousePositionLastFrame.y == mousePosition.y
    {
      Vec2(mousePosition.x - mousePositionLastFrame.x, mousePosition.y - mousePositionLastFrame.y)
    }

    /**
     * `MouseInput::clear`, at the start of a frame: the per-frame pressed and released slots are
     * reset, held buttons stay held, the cursor movement and scroll restart from zero.
     */
    method Clear()
      requires Valid()
      modifies this, mousePressed, mouseReleased
      ensures Valid()
      ensures forall i :: 0 <= i < MouseButtonCount ==> !mousePressed[i] && !mouseReleased[i]
      ensures mouseHeld[..] == old(mouseHeld[..])
      ensures mousePosition == old(mousePosition) && MouseDeltaPosition() == Vec2(0.0, 0.0)
      ensures mouseVerticalScrollDelta == 0.0 && !mouseInputTaken
    {
      for i := 0 to mousePressed.Length
        modifies mousePressed
        invariant forall k :: 0 <= k < i ==> !mousePressed[k]
      {
        mousePressed[i] := false;
      }
      for i := 0 to mouseReleased.Length
        modifies mouseReleased
        invariant forall k :: 0 <= k < i ==> !mouseReleased[k]
        invariant forall k :: 0 <= k < mousePressed.Length ==> !mousePressed[k]
      {
        mouseReleased[i] := false;
      }
      mousePositionLastFrame := mousePosition;
      mouseVerticalScrollDelta := 0.0;
      mouseInputTaken := false;
    }

    /** `is_pressed`: pressed this frame, unless another consumer took the mouse input. */
    function IsPressed(b: MouseButton): (pressed: bool)
      requires Valid() && ButtonIndex(b) < MouseButtonCount
      reads this, mousePressed
      ensures mouseInputTaken ==> !pressed
      ensures !mouseInputTaken ==> (pressed <==> mousePressed[ButtonIndex(b)])
    {
      mousePressed[ButtonIndex(b)] && !mouseInputTaken
    }

    /** `is_held`: held down, unless another consumer took the mouse input. */
    function IsHeld(b: MouseButton): (held: bool)
      requires Valid() && ButtonIndex(b) < MouseButtonCount
      reads this, mouseHeld
      ensures mouseInputTaken ==> !held
      ensures !mouseInputTaken ==> (held <==> mouseHeld[ButtonIndex(b)])
    {
      mouseHeld[ButtonIndex(b)] && !mouseInputTaken
    }

    /** `is_released`: taken input reads as released. */
    function IsReleased(b: MouseButton): (released: bool)
      requires Valid() && ButtonIndex(b) < MouseButtonCount
      reads this, mouseReleased
      ensures mouseInputTaken ==> released
      ensures !mouseInputTaken ==> (released <==> mouseReleased[ButtonIndex(b)])
    {
      mouseReleased[ButtonIndex(b)] || mouseInputTaken
    }

    /**
     * The body of the button-press event handler: the press counts, and starts a hold, only if
     * the button was not already down in the previous frame.
     */
    method PressButton(button: MouseButton, clickedLastFrame: seq<bool>)
      requires Valid() && ButtonIndex(button) < MouseButtonCount && |clickedLastFrame| == MouseButtonCount
      modifies mousePressed, mouseHeld
      ensures var i := ButtonIndex(button);
        if clickedLastFrame[i] then
          mousePressed[..] == old(mousePressed[..]) && mouseHeld[..] == old(mouseHeld[..])
        else
          mousePressed[..] == old(mousePressed[..])[i := true] && mouseHeld[..] == old(mouseHeld[..])[i := true]
    {
      var thisButton := ButtonIndex(button);
      if clickedLastFrame[thisButton] == false {
        mousePressed[thisButton] := true;
        mouseHeld[thisButton] := true;
      }
    }

    /**
     * The body of the button-release event handler: a button that was pressed or held is
     * released; releasing a button that was neither changes nothing.
     */
    method ReleaseButton(button: MouseButton)
      requires Valid() && ButtonIndex(button) < MouseButtonCount
      modifies mousePressed, mouseHeld, mouseReleased
      ensures var i := ButtonIndex(button);
        if old(mousePressed[i] || mouseHeld[i]) then
          mousePressed[..] == old(mousePressed[..])[i := false] && mouseHeld[..] == old(mouseHeld[..])[i := false] &&
          mouseReleased[..] == old(mouseReleased[..])[i := true]
        else
          mousePressed[..] == old(mousePressed[..]) && mouseHeld[..] == old(mouseHeld[..]) &&
          mouseReleased[..] == old(mouseReleased[..])
    {
      var thisButton := ButtonIndex(button);
      if mousePressed[thisButton] || mouseHeld[thisButton] {
        mousePressed[thisButton] := false;
        mouseHeld[thisButton] := false;
        mouseReleased[thisButton] := true;
      }
    }
  }

  /** While the mouse input is taken every button reads as not pressed, not held and released. */
  lemma TakenInputReadsReleased(m: MouseInput, b: MouseButton)
    requires m.Valid() && ButtonIndex(b) < MouseButtonCount && m.mouseInputTaken
    ensures !m.IsPressed(b) && !m.IsHeld(b) && m.IsReleased(b)
  {
  }

  /** After a release the button reads as released and no longer pressed or held. */
  lemma ReleasedButtonReads(m: MouseInput, b: MouseButton)
    requires m.Valid() && ButtonIndex(b) < MouseButtonCount && !m.mouseInputTaken
    requires m.mouseReleased[ButtonIndex(b)] && !m.mousePressed[ButtonIndex(b)] && !m.mouseHeld[ButtonIndex(b)]
    ensures m.IsReleased(b) && !m.IsPressed(b) && !m.IsHeld(b)
  {
  }

  /** The backspace and delete characters are never queued as typed text. */
  predicate IsTypedChar(c: char) {
    c != '\U{7f}' && c != '\U{8}'
  }

  class KeyboardInput {
    var pressedKeys: seq<VirtualKeyCode>
    var heldKeys: seq<VirtualKeyCode>
    var releasedKeys: seq<VirtualKeyCode>
    var receivedChar: seq<char>

    /** The `ArrayVec` capacity bounds, and no key held twice. */
    ghost predicate Valid()
      reads this
    {
      |pressedKeys| <= Capacity && |heldKeys| <= Capacity && |releasedKeys| <= Capacity &&
      |receivedChar| <= Capacity && NoDuplicates(heldKeys)
    }

    function Buffers(): Keys
      reads this
    {
      KeyBuffers.Keys(pressedKeys, heldKeys, releasedKeys)
    }

    /** `KeyboardInput::default()`. */
    constructor ()
      ensures Valid() && pressedKeys == [] && heldKeys == [] && releasedKeys == [] && receivedChar == []
    {
      pressedKeys := [];
      heldKeys := [];
      releasedKeys := [];
      receivedChar := [];
    }

    /** `KeyboardInput::clear`: the per-frame queues empty, held keys stay held. */
    method Clear()
      requires Valid()
      modifies this
      ensures Valid()
      ensures pressedKeys == [] && releasedKeys == [] && receivedChar == [] && heldKeys == old(heldKeys)
    {
      pressedKeys := [];
      releasedKeys := [];
      receivedChar := [];
    }

    /** `is_pressed`: the key went down this frame, i.e. it is somewhere in the pressed buffer. */
    function IsPressed(k: VirtualKeyCode): (pressed: bool)
      reads this
      ensures pressed <==> exists i :: 0 <= i < |pressedKeys| && pressedKeys[i] == k
    {
      k in pressedKeys
    }

    /** `is_held`: the key is down, i.e. it is somewhere in the held buffer. */
    function IsHeld(k: VirtualKeyCode): (held: bool)
      reads this
      ensures held <==> exists i :: 0 <= i < |heldKeys| && heldKeys[i] == k
    {
      k in heldKeys
    }

    /** `is_released`: the key came up this frame, i.e. it is somewhere in the released buffer. */
    function IsReleased(k: VirtualKeyCode): (released: bool)
      reads this
      ensures released <==> exists i :: 0 <= i < |releasedKeys| && releasedKeys[i] == k
    {
      k in releasedKeys
    }

    /** The body of the received-character handler: typed text is queued, backspace and delete are not. */
    method ReceiveCharacter(c: char)
      requires Valid() && (IsTypedChar(c) ==> |receivedChar| < Capacity)
      modifies this
      ensures Valid()
      ensures receivedChar == if IsTypedChar(c) then old(receivedChar) + [c] else old(receivedChar)
      ensures Buffers() == old(Buffers())
    {
      if c != '\U{7f}' && c != '\U{8}' {
        receivedChar := receivedChar + [c];
      }
    }
  }

  /** In a valid keyboard state a held key occurs exactly once in the held buffer, so one release ends the hold. */
  lemma HeldKeyOccursOnce(kb: KeyboardInput, k: VirtualKeyCode)
    requires kb.Valid()
    ensures kb.IsHeld(k) <==> multiset(kb.heldKeys)[k] == 1
  {
    DistinctMultiplicity(kb.heldKeys, k);
  }

  /** After `KeyboardInput::clear` no key reads as pressed or released, and holds are kept. */
  lemma ClearedKeyboardReads(kb: KeyboardInput, k: VirtualKeyCode, held: seq<VirtualKeyCode>)
    requires kb.pressedKeys == [] && kb.releasedKeys == [] && kb.heldKeys == held
    ensures !kb.IsPressed(k) && !kb.IsReleased(k) && (kb.IsHeld(k) <==> k in held)
  {
  }

  class UserInput {
    var endRequested: bool
    var newFrameSize: Option<Vec2>
    const mouseInput: MouseInput
    const kbInput: KeyboardInput

    ghost predicate Valid()
      reads this, mouseInput, kbInput
    {
      mouseInput.Valid() && kbInput.Valid()
    }

    /** `UserInput::new`. */
    constructor ()
      ensures Valid() && fresh(mouseInput) && fresh(kbInput)
      ensures fresh(mouseInput.mousePressed) && fresh(mouseInput.mouseHeld) && fresh(mouseInput.mouseReleased)
      ensures !endRequested && newFrameSize == None
    {
      endRequested := false;
      newFrameSize := None;
      mouseInput := new MouseInput();
      kbInput := new KeyboardInput();
    }

    /** `clear_input`: forgets the window requests and clears both devices' per-frame state. */
    method ClearInput()
      requires Valid()
      modifies this, mouseInput, mouseInput.mousePressed, mouseInput.mouseReleased, kbInput
      ensures Valid()
      ensures !endRequested && newFrameSize == None
      ensures forall i :: 0 <= i < MouseButtonCount ==> !mouseInput.mousePressed[i] && !mouseInput.mouseReleased[i]
      ensures mouseInput.mouseHeld[..] == old(mouseInput.mouseHeld[..])
      ensures !mouseInput.mouseInputTaken && mouseInput.mouseVerticalScrollDelta == 0.0
      ensures mouseInput.mousePosition == old(mouseInput.mousePosition)
      ensures mouseInput.mousePositionLastFrame == old(mouseInput.mousePosition)
      ensures mouseInput.MouseDeltaPosition() == Vec2(0.0, 0.0)
      ensures kbInput.pressedKeys == [] && kbInput.releasedKeys == [] && kbInput.receivedChar == []
      ensures kbInput.heldKeys == old(kbInput.heldKeys)
    {
      endRequested := false;
      newFrameSize := None;
      mouseInput.Clear();
      kbInput.Clear();
    }

    /** `record_input`: one key event applied to the key buffers. */
    method RecordInput(elementState: ElementState, code: VirtualKeyCode, lastFramePressed: seq<VirtualKeyCode>)
      requires Valid() && CanRecord(kbInput.Buffers(), elementState, code, lastFramePressed)
      modifies kbInput
      ensures Valid()
      ensures kbInput.Buffers() == Recorded(old(kbInput.Buffers()), elementState, code, lastFramePressed)
      ensures kbInput.receivedChar == old(kbInput.receivedChar)
    {
      RecordKeepsHeldUnique(kbInput.Buffers(), elementState, code, lastFramePressed);
      match elementState
      case Pressed =>
        if code !in lastFramePressed {
          if code !in kbInput.heldKeys {
            kbInput.pressedKeys := kbInput.pressedKeys + [code];
            kbInput.heldKeys := kbInput.heldKeys + [code];
          }
        }
      case Released =>
        if code in kbInput.heldKeys {
          var vkPos := IndexOf(kbInput.heldKeys, code);
          kbInput.heldKeys := RemoveAt(kbInput.heldKeys, vkPos);
          kbInput.releasedKeys := kbInput.releasedKeys + [code];
        }
    }
  }
}
