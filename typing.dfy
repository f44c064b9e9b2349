/**
 * `useTypingEffect`: a typewriter that reveals a text one character per
 * timer tick. The pending `setTimeout` is the `scheduled` flag, and firing
 * it is the `Tick` method; the delay between ticks (`typingSpeed`) is kept
 * but time itself is not modelled.
 */
module Typing {
  import opened Wrappers

  /** The default delay between two characters, in milliseconds. */
  const DefaultSpeed: nat := 30

  /** `newText || text`: an absent or empty text falls back to the construction text. */
  function TargetOf(newText: Option<string>, text: string): (r: string)
    ensures newText.Some? && newText.value != [] ==> r == newText.value
    ensures !(newText.Some? && newText.value != []) ==> r == text
    ensures r == [] ==> text == []
  {
    if newText.Some? && newText.value != [] then newText.value else text
  }

  /** `newSpeed || speed`: an absent or zero speed falls back to the construction speed. */
  function SpeedOf(newSpeed: Option<nat>, speed: nat): (r: nat)
    ensures r == 0 ==> speed == 0
    ensures newSpeed.Some? && newSpeed.value != 0 ==> r == newSpeed.value
    ensures !(newSpeed.Some? && newSpeed.value != 0) ==> r == speed
  {
    if newSpeed.Some? && newSpeed.value != 0 then newSpeed.value else speed
  }

  class Typewriter {
    /** The text and speed given at construction, the fallbacks of `start`. */
    const text: string
    const speed: nat

    /** The two reactive refs the component renders. */
    var displayText: string
    var isTyping: bool

    /** `timer !== null`: a tick is pending. */
    var scheduled: bool

    /** The state of the running `type` closure: the next position, the text and the delay. */
    var index: nat
    var target: string
    var typingSpeed: nat

    /**
     * While typing, the screen shows exactly the first `index` characters of
     * the target, and a tick is pending exactly while typing.
     */
    ghost predicate Valid()
      reads this
    {
      index <= |target| && scheduled == isTyping && (isTyping ==> displayText == target[..index])
    }

    /** The ticks still to come: one per character left, plus the tick that ends the run. */
    ghost function Remaining(): nat
      reads this
      requires Valid()
    {
      if scheduled then |target| - index + 1 else 0
    }

    /** `useTypingEffect(text = '', speed = 30)`: nothing shown, nothing pending. */
    constructor(initialText: Option<string>, initialSpeed: Option<nat>)
      ensures text == (if initialText.Some? then initialText.value else [])
      ensures speed == (if initialSpeed.Some? then initialSpeed.value else DefaultSpeed)
      ensures displayText == [] && !isTyping && !scheduled
      ensures Valid()
    {
      text := if initialText.Some? then initialText.value else [];
      speed := if initialSpeed.Some? then initialSpeed.value else DefaultSpeed;
      displayText := [];
      isTyping := false;
      scheduled := false;
      index := 0;
      target := [];
      typingSpeed := 0;
    }

    /** `stop()`: cancels the pending tick; the text shown so far stays on screen. */
    method Stop()
      requires Valid()
      modifies this
      ensures !isTyping && !scheduled
      ensures displayText == old(displayText)
      ensures index == old(index) && target == old(target) && typingSpeed == old(typingSpeed)
      ensures Valid()
    {
      scheduled := false;
      isTyping := false;
    }

    /**
     * The `type` closure: shows the next character and schedules the next
     * tick, or, past the end, ends the run with the whole target shown.
     */
    method TypeNext()
      requires index <= |target| && isTyping && displayText == target[..index]
      modifies this
      ensures target == old(target) && typingSpeed == old(typingSpeed)
      ensures old(index) < |target| ==> index == old(index) + 1 && isTyping && scheduled
      ensures old(index) == |target| ==> index == old(index) && !isTyping && !scheduled
      ensures displayText == target[..index]
      ensures Valid()
    {
      if index < |target| {
        displayText := displayText + [target[index]];
        index := index + 1;
        scheduled := true;
      } else {
        isTyping := false;
        scheduled := false;
      }
    }

    /**
     * `start(newText, newSpeed)`: stops any run in progress, clears the
     * screen and types the first character at once; an empty target ends
     * the run inside `start` itself.
     */
    method Start(newText: Option<string>, newSpeed: Option<nat>)
      requires Valid()
      modifies this
      ensures target == TargetOf(newText, text) && typingSpeed == SpeedOf(newSpeed, speed)
      ensures target != [] ==> index == 1 && displayText == target[..1] && isTyping && scheduled
      ensures target == [] ==> displayText == [] && !isTyping && !scheduled
      ensures Valid()
    {
      Stop();
      displayText := [];
      isTyping := true;
      index := 0;
      target := TargetOf(newText, text);
      typingSpeed := SpeedOf(newSpeed, speed);
      TypeNext();
    }

    /**
     * The pending timer fires. Without one nothing happens; with one, the
     * screen grows by one character of the target, or the run ends, and
     * fewer ticks remain.
     */
    method Tick()
      requires Valid()
      modifies this
      ensures !old(scheduled) ==> displayText == old(displayText) && isTyping == old(isTyping) && !scheduled && index == old(index)
      ensures old(scheduled) && old(index) < |target| ==> displayText == old(displayText) + [target[old(index)]]
      ensures old(scheduled) && old(index) < |target| ==> index == old(index) + 1 && isTyping && scheduled
      ensures old(scheduled) && old(index) == |target| ==> displayText == target && !isTyping
      ensures target == old(target) && typingSpeed == old(typingSpeed)
      ensures Valid()
      ensures Remaining() < old(Remaining()) || !old(scheduled)
    {
      if scheduled {
        TypeNext();
        assert index == |target| ==> target[..index] == target;
      }
    }

    /**
     * The timers of one run firing until none is pending: the whole target
     * ends up on screen and the run is over.
     */
    method RunTimers()
      requires Valid()
      modifies this
      ensures !isTyping && !scheduled
      ensures old(scheduled) ==> displayText == target
      ensures !old(scheduled) ==> displayText == old(displayText)
      ensures target == old(target)
    {
      var wasScheduled := scheduled;
      while scheduled
        invariant Valid() && target == old(target)
        invariant wasScheduled ==> scheduled || displayText == target
        invariant !wasScheduled ==> !scheduled && displayText == old(displayText)
        decreases Remaining()
      {
        Tick();
      }
    }

    /** `finish()`: stops and shows the construction text, whatever text the last `start` was typing. */
    method Finish()
      requires Valid()
      modifies this
      ensures displayText == text && !isTyping && !scheduled
      ensures Valid()
    {
      Stop();
      displayText := text;
    }
  }
}
