/**
 * src/ecs/systems/user_input.rs: the older input state, which tracks only the left mouse button
 * (one flag each for pressed, held and released) and shares `record_input` with the component
 * version through `KeyBuffers`. Unlike the component version, its `MouseInput::clear` also drops
 * the hold, so a hold never carries over into the next frame.
 */
module SystemsUserInput {
  import opened Wrappers
  import opened Entities
  import opened Sequences
  import opened KeyBuffers

  class MouseInput {
    var mousePosition: Vec2
    var mouseVerticalScrollDelta: real
    var mousePressed: bool
    var mouseHeld: bool
    var mouseReleased: bool

    /** `MouseInput::default()`. */
    constructor ()
      ensures !mousePressed && !mouseHeld && !mouseReleased
      ensures mousePosition == Vec2(0.0, 0.0) && mouseVerticalScrollDelta == 0.0
    {
      mousePosition := Vec2(0.0, 0.0);
      mouseVerticalScrollDelta := 0.0;
      mousePressed := false;
      mouseHeld := false;
      mouseReleased := false;
    }

    /** `MouseInput::clear`: all three button flags and the scroll are reset; the position is kept. */
    method Clear()
      modifies this
      ensures !mousePressed && !mouseHeld && !mouseReleased
      ensures mouseVerticalScrollDelta == 0.0 && mousePosition == old(mousePosition)
    {
      mousePressed := false;
      mouseHeld := false;
      mouseReleased := false;
      mouseVerticalScrollDelta := 0.0;
    }

    /** The left-button press handler: counts only if the button was not down last frame. */
    method PressLeft(clickedLastFrame: bool)
      modifies this
      ensures if clickedLastFrame then mousePressed == old(mousePressed) && mouseHeld == old(mouseHeld)
              else mousePressed && mouseHeld
      ensures mouseReleased == old(mouseReleased) && mousePosition == old(mousePosition)
      ensures mouseVerticalScrollDelta == old(mouseVerticalScrollDelta)
    {
      if clickedLastFrame == false {
        mousePressed := true;
        mouseHeld := true;
      }
    }

    /** The left-button release handler: registers only for a button pressed or held. */
    method ReleaseLeft()
      modifies this
      ensures if old(mousePressed || mouseHeld) then !mousePressed && !mouseHeld && mouseReleased
              else mousePressed == old(mousePressed) && mouseHeld == old(mouseHeld) && mouseReleased == old(mouseReleased)
      ensures mousePosition == old(mousePosition) && mouseVerticalScrollDelta == old(mouseVerticalScrollDelta)
    {
      if mousePressed || mouseHeld {
        mousePressed := false;
        mouseHeld := false;
        mouseReleased := true;
      }
    }
  }

  /**
   * A frame boundary between press and release, for any mouse state: `clear` drops the hold, so
   * a release arriving after it is not registered.
   */
  method ReleaseInLaterFrameIsLost(m: MouseInput) returns (released: bool)
    modifies m
    ensures !released && !m.mouseReleased
  {
    m.Clear();
    m.ReleaseLeft();
    released := m.mouseReleased;
  }

  /** From any mouse state, a fresh press and then a release within one frame are both registered. */
  method ReleaseInSameFrameRegisters(m: MouseInput) returns (pressedBeforeRelease: bool, released: bool)
    modifies m
    ensures pressedBeforeRelease && released
    ensures !m.mousePressed && !m.mouseHeld && m.mouseReleased
  {
    m.Clear();
    m.PressLeft(false);
    pressedBeforeRelease := m.mousePressed;
    m.ReleaseLeft();
    released := m.mouseReleased;
  }

  class KeyboardInput {
    var pressedKeys: seq<VirtualKeyCode>
    var heldKeys: seq<VirtualKeyCode>
    var releasedKeys: seq<VirtualKeyCode>

    /** The `ArrayVec` capacity bounds, and no key held twice. */
    ghost predicate Valid()
      reads this
    {
      |pressedKeys| <= Capacity && |heldKeys| <= Capacity && |releasedKeys| <= Capacity &&
      NoDuplicates(heldKeys)
    }

    function Buffers(): Keys
      reads this
    {
      KeyBuffers.Keys(pressedKeys, heldKeys, releasedKeys)
    }

    /** `KeyboardInput::default()`. */
    constructor ()
      ensures Valid() && pressedKeys == [] && heldKeys == [] && releasedKeys == []
    {
      pressedKeys := [];
      heldKeys := [];
      releasedKeys := [];
    }

    /** `KeyboardInput::clear`: pressed and released empty, held kept. */
    method Clear()
      requires Valid()
      modifies this
      ensures Valid()
      ensures pressedKeys == [] && releasedKeys == [] && heldKeys == old(heldKeys)
    {
      pressedKeys := [];
      releasedKeys := [];
    }
  }

  class UserInput {
    var endRequested: bool
    var newFrameSize: Option<Vec2>
    const mouseInput: MouseInput
    const kbInput: KeyboardInput

    ghost predicate Valid()
      reads this, kbInput
    {
      kbInput.Valid()
    }

    /** `UserInput::new`. */
    constructor ()
      ensures Valid() && fresh(mouseInput) && fresh(kbInput)
      ensures !endRequested && newFrameSize == None
    {
      endRequested := false;
      newFrameSize := None;
      mouseInput := new MouseInput();
      kbInput := new KeyboardInput();
    }

    /** `clear_input`. */
    method ClearInput()
      requires Valid()
      modifies this, mouseInput, kbInput
      ensures Valid()
      ensures !endRequested && newFrameSize == None
      ensures !mouseInput.mousePressed && !mouseInput.mouseHeld && !mouseInput.mouseReleased
      ensures mouseInput.mouseVerticalScrollDelta == 0.0
      ensures mouseInput.mousePosition == old(mouseInput.mousePosition)
      ensures kbInput.pressedKeys == [] && kbInput.releasedKeys == [] && kbInput.heldKeys == old(kbInput.heldKeys)
    {
      endRequested := false;
      newFrameSize := None;
      mouseInput.Clear();
      kbInput.Clear();
    }

    /** `record_input`: one key event applied to the key buffers. */
    method RecordInput(elementState: ElementState, code: VirtualKeyCode, lastFramePressed: seq<VirtualKeyCode>)
      requires Valid() && CanRecord(kbInput.Buffers(), elementState, code, lastFramePressed)
      modifies kbInput
      ensures Valid()
      ensures kbInput.Buffers() == Recorded(old(kbInput.Buffers()), elementState, code, lastFramePressed)
    {
      RecordKeepsHeldUnique(kbInput.Buffers(), elementState, code, lastFramePressed);
      match elementState
      case Pressed =>
        if code !in lastFramePressed {
          if code !in kbInput.heldKeys {
            kbInput.pressedKeys := kbInput.pressedKeys + [code];
            kbInput.heldKeys := kbInput.heldKeys + [code];
          }
        }
      case Released =>
        if code in kbInput.heldKeys {
          var vkPos := IndexOf(kbInput.heldKeys, code);
          kbInput.heldKeys := RemoveAt(kbInput.heldKeys, vkPos);
          kbInput.releasedKeys := kbInput.releasedKeys + [code];
        }
    }
  }
}
