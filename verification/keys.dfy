/**
 * Keyboard state: the key latch of `useOnKeyPress` and the pressed/released
 * flag of `useKeyState`. Listener registration with the window is not modelled;
 * each keydown and keyup event becomes one method call.
 */
module Keys {
  import opened Wrappers

  const DigitKeys: seq<string> := ["1", "2", "3", "4", "5", "6", "7", "8", "9", "0"]
  const DeleteKeys: seq<string> := ["Backspace", "Delete"]
  const ArrowKeys: seq<string> := ["ArrowUp", "ArrowDown", "ArrowLeft", "ArrowRight"]

  /** Whether a keydown may latch `key`: every key may when there is no allowlist. */
  predicate Allows(allowedKeys: Option<seq<string>>, key: string)
  {
    allowedKeys.None? || key in allowedKeys.value
  }

  /**
   * `useOnKeyPress`: a keydown of an allowed key latches it; a keyup of the
   * latched key fires the handler with that key. The latch is not cleared on
   * keyup, only overwritten by the next allowed keydown.
   */
  class KeyLatch {
    const allowedKeys: Option<seq<string>>
    var key: Option<string>

    /** Only an allowed key is ever latched. */
    ghost predicate Valid()
      reads this
    {
      key.Some? ==> Allows(allowedKeys, key.value)
    }

    constructor (allowedKeys: Option<seq<string>>)
      ensures Valid()
      ensures this.allowedKeys == allowedKeys && key == None
    {
      this.allowedKeys := allowedKeys;
      key := None;
    }

    method KeyDown(k: string)
      requires Valid()
      modifies this
      ensures Valid()
      ensures key == if Allows(allowedKeys, k) then Some(k) else old(key)
    {
      if Allows(allowedKeys, k) {
        key := Some(k);
      }
    }

    /** Returns the key the handler fires with, if it fires. */
    method KeyUp(k: string) returns (fired: Option<string>)
      requires Valid()
      ensures fired.Some? <==> key == Some(k)
      ensures fired.Some? ==> fired.value == k && Allows(allowedKeys, k)
    {
      fired := if key == Some(k) then key else None;
    }
  }

  /** `useKeyState`: whether one of `codes` is held down. */
  class KeyState {
    const codes: seq<string>
    var pressed: bool

    constructor (codes: seq<string>)
      ensures this.codes == codes && !pressed
    {
      this.codes := codes;
      pressed := false;
    }

    method KeyDown(k: string)
      modifies this
      ensures pressed == (k in codes || old(pressed))
    {
      if k in codes {
        pressed := true;
      }
    }

    method KeyUp(k: string)
      modifies this
      ensures pressed == (k !in codes && old(pressed))
    {
      if k in codes {
        pressed := false;
      }
    }
  }
}
