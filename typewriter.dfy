/**
 * Typing animation (assets/js/modules/typewriter.js).
 *
 * The element being typed into is an object with a mutable `textContent`.
 * The timer chain of `type` becomes a loop in `Start`: each iteration is
 * one timer callback. Speeds and delays are kept but do not affect the
 * order of steps, which is all that is modelled.
 */
module Typewriter {
  import opened Wrappers

  const DefaultSpeed := 50
  const DefaultDelay := 0

  /** The element whose `textContent` the writer appends to. */
  class TextElement {
    var textContent: string

    constructor (textContent: string)
      ensures this.textContent == textContent
    {
      this.textContent := textContent;
    }
  }

  class TypeWriter {
    const element: TextElement
    const text: string
    const speed: int
    const delay: int
    var currentIndex: nat
    /** the element's text when the writer was created */
    ghost const initial: string
    /** how many times the completion callback has been invoked */
    ghost var callbackCalls: nat

    /** What has been typed so far is exactly the first `currentIndex` characters of `text`. */
    ghost predicate Valid()
      reads this, element
    {
      currentIndex <= |text| && element.textContent == initial + text[..currentIndex]
    }

    /** `new TypeWriter(element, text, speed = 50, delay = 0)`; an absent argument takes its default. */
    constructor (element: TextElement, text: string, speed: Option<int>, delay: Option<int>)
      ensures Valid()
      ensures this.element == element && this.text == text && currentIndex == 0
      ensures this.speed == (if speed.Some? then speed.value else DefaultSpeed)
      ensures this.delay == (if delay.Some? then delay.value else DefaultDelay)
      ensures initial == element.textContent && callbackCalls == 0
    {
      this.element := element;
      this.text := text;
      this.speed := speed.GetOr(DefaultSpeed);
      this.delay := delay.GetOr(DefaultDelay);
      currentIndex := 0;
      initial := element.textContent;
      callbackCalls := 0;
    }

    /**
     * One call of `type`: while text remains, append the next character,
     * advance, and schedule another call (`scheduled`); at the end, invoke
     * the callback if there is one and schedule nothing.
     */
    method Type(hasCallback: bool) returns (scheduled: bool)
      requires Valid()
      modifies this, element
      ensures Valid()
      ensures scheduled <==> old(currentIndex) < |text|
      ensures scheduled ==>
        && element.textContent == old(element.textContent) + [text[old(currentIndex)]]
        && currentIndex == old(currentIndex) + 1
        && callbackCalls == old(callbackCalls)
      ensures !scheduled ==>
        && element.textContent == old(element.textContent)
        && currentIndex == old(currentIndex) == |text|
        && callbackCalls == old(callbackCalls) + (if hasCallback then 1 else 0)
    {
      if currentIndex < |text| {
        element.textContent := element.textContent + [text[currentIndex]];
        currentIndex := currentIndex + 1;
        scheduled := true;
      } else {
        if hasCallback {
          callbackCalls := callbackCalls + 1;
        }
        scheduled := false;
      }
    }

    /**
     * `start`: after the delay, run the chain of `type` calls with the
     * promise's resolver as callback. The chain makes one appending step
     * per remaining character, leaves the whole text typed, and resolves
     * exactly once.
     */
    method Start() returns (steps: nat)
      requires Valid()
      modifies this, element
      ensures Valid()
      ensures steps == |text| - old(currentIndex)
      ensures currentIndex == |text|
      ensures element.textContent == old(element.textContent) + text[old(currentIndex)..]
      ensures element.textContent == initial + text
      ensures callbackCalls == old(callbackCalls) + 1
    {
      steps := 0;
      var scheduled := Type(true);
      while scheduled
        invariant Valid()
        invariant old(currentIndex) <= currentIndex
        invariant steps + (if scheduled then 1 else 0) == currentIndex - old(currentIndex)
        invariant element.textContent == old(element.textContent) + text[old(currentIndex)..currentIndex]
        invariant scheduled ==> callbackCalls == old(callbackCalls)
        invariant !scheduled ==> currentIndex == |text| && callbackCalls == old(callbackCalls) + 1
        decreases |text| - currentIndex + (if scheduled then 1 else 0)
      {
        steps := steps + 1;
        scheduled := Type(true);
      }
    }
  }
}
