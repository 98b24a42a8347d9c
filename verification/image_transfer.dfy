/**
 * Sending a photo from a phone to the tablet: the swipe gesture that
 * triggers it and the bounded retry loop around conversion and sending.
 * Conversion and the send call are opaque; each attempt's outcome is given.
 */
module ImageTransfer {
  import opened Options

  /** SWIPE_THRESHOLD, in pixels. */
  const SwipeThreshold: real := 100.0

  /** shouldTriggerSend: the finger moved up by more than the threshold. */
  function ShouldTriggerSend(startY: real, currentY: real): (b: bool)
    ensures b <==> currentY < startY - SwipeThreshold
  {
    startY - currentY > SwipeThreshold
  }

  /** The `delta` of getSwipeTransform: upward movement only, never positive. */
  function SwipeDelta(startY: real, currentY: real): (d: real)
    ensures d <= 0.0
    ensures d == 0.0 <==> currentY >= startY
    ensures d < 0.0 ==> startY + d == currentY
  {
    if currentY - startY < 0.0 then currentY - startY else 0.0
  }

  /** A swipe sends exactly when the card has been dragged up past the threshold. */
  lemma TriggerMatchesDrag(startY: real, currentY: real)
    ensures ShouldTriggerSend(startY, currentY) <==> SwipeDelta(startY, currentY) < -SwipeThreshold
  {
  }

  /** The style getSwipeTransform gives the dragged card. */
  datatype SwipeLook = SwipeLook(translateY: real, scale: real, opacity: real)

  /**
   * getSwipeTransform: the card follows the finger upwards, shrinks by one
   * per 500 px of travel, and fades by one per 300 px down to a floor of 0.3.
   */
  function SwipeTransform(startY: real, currentY: real): (look: SwipeLook)
    ensures look.translateY == SwipeDelta(startY, currentY)
    ensures look.scale <= 1.0 && (look.scale == 1.0 <==> currentY >= startY)
    ensures 0.3 <= look.opacity <= 1.0
    ensures look.opacity == 0.3 <==> startY - currentY >= 210.0
  {
    var delta := SwipeDelta(startY, currentY);
    var distance := -delta;
    var fade := 1.0 - distance / 300.0;
    SwipeLook(delta, 1.0 - distance / 500.0, if fade > 0.3 then fade else 0.3)
  }

  /**
   * The card a swipe is about to send is already visibly shrunk and faded:
   * past the threshold it is below four fifths of its size and two thirds
   * of its opacity.
   */
  lemma TriggeredSwipeLooksSent(startY: real, currentY: real)
    requires ShouldTriggerSend(startY, currentY)
    ensures SwipeTransform(startY, currentY).scale < 0.8
    ensures SwipeTransform(startY, currentY).opacity < 2.0 / 3.0
  {
  }

  /** How one attempt of sendImageToTablet ended. */
  datatype Attempt =
    | ConversionThrew          // convertImageToBase64 rejected
    | SendThrew                // the send function threw
    | SendReturned(ok: bool)   // the send function returned

  predicate Succeeds(a: Attempt) {
    a == SendReturned(true)
  }

  /** The number of attempts the loop allows: `maxRetries + 1`, none when that is not positive. */
  function AttemptLimit(maxRetries: int): nat {
    if maxRetries < 0 then 0 else maxRetries + 1
  }

  /** The default of `maxRetries`, which the camera screen's swipe relies on. */
  const DefaultMaxRetries: int := 2

  /** The first of the attempts `0 .. n-1` that succeeds, if any. */
  function FirstSuccess(outcome: nat -> Attempt, n: nat): (r: Option<nat>)
    ensures r.Some? ==> r.value < n && Succeeds(outcome(r.value))
    ensures r.Some? ==> forall j :: 0 <= j < r.value ==> !Succeeds(outcome(j))
    ensures r.None? ==> forall j :: 0 <= j < n ==> !Succeeds(outcome(j))
    decreases n
  {
    if n == 0 then None
    else
      match FirstSuccess(outcome, n - 1)
      case Some(i) => Some(i)
      case None => if Succeeds(outcome(n - 1)) then Some(n - 1) else None
  }

  /** Once attempt `a` is the first success, no later bound changes the answer. */
  lemma {:induction false} FirstSuccessSettled(outcome: nat -> Attempt, a: nat, n: nat)
    requires a < n
    requires FirstSuccess(outcome, a) == None && Succeeds(outcome(a))
    ensures FirstSuccess(outcome, n) == Some(a)
    decreases n
  {
    if n - 1 > a {
      FirstSuccessSettled(outcome, a, n - 1);
    }
  }

  /**
   * sendImageToTablet: refuse at once when the send function, the image or
   * the position is missing; otherwise try up to `maxRetries + 1` times,
   * waiting before every retry, and stop at the first send that reports
   * success.  `outcome(i)` is how attempt `i` ends.
   */
  method SendImageToTablet(hasSendFn: bool, imageSrc: string, position: string, maxRetries: int,
                           outcome: nat -> Attempt)
    returns (ok: bool, attempts: nat, waits: nat)
    ensures !hasSendFn || imageSrc == "" || position == "" ==> !ok && attempts == 0
    ensures attempts <= AttemptLimit(maxRetries)
    ensures hasSendFn && imageSrc != "" && position != "" ==>
              && (ok <==> FirstSuccess(outcome, AttemptLimit(maxRetries)).Some?)
              && (ok ==> attempts == FirstSuccess(outcome, AttemptLimit(maxRetries)).value + 1)
              && (!ok ==> attempts == AttemptLimit(maxRetries))
    ensures waits == if attempts == 0 then 0 else attempts - 1
  {
    ok, attempts, waits := false, 0, 0;
    if !hasSendFn || imageSrc == "" || position == "" {
      return;
    }
    var attempt: nat := 0;
    while attempt <= maxRetries
      invariant attempt <= AttemptLimit(maxRetries)
      invariant attempts == attempt && !ok
      invariant waits == if attempt == 0 then 0 else attempt - 1
      invariant FirstSuccess(outcome, attempt) == None
      decreases maxRetries - attempt
    {
      if attempt > 0 {
        waits := waits + 1;
      }
      attempts := attempts + 1;
      var result := outcome(attempt);
      if Succeeds(result) {
        FirstSuccessSettled(outcome, attempt, AttemptLimit(maxRetries));
        ok := true;
        return;
      } else if attempt == maxRetries {
        return;
      }
      attempt := attempt + 1;
    }
  }

  /**
   * sendImageToTablet called without `maxRetries`, as the camera screen's
   * swipe does: at most three attempts and two waits, and true exactly when
   * one of the first three attempts succeeds.
   */
  method SendImageWithDefaultRetries(hasSendFn: bool, imageSrc: string, position: string, outcome: nat -> Attempt)
    returns (ok: bool, attempts: nat, waits: nat)
    ensures attempts <= 3 && waits <= 2
    ensures !hasSendFn || imageSrc == "" || position == "" ==> !ok && attempts == 0
    ensures hasSendFn && imageSrc != "" && position != "" ==>
              && (ok <==> exists j :: 0 <= j < 3 && Succeeds(outcome(j)))
              && (!ok ==> attempts == 3 && waits == 2)
  {
    ok, attempts, waits := SendImageToTablet(hasSendFn, imageSrc, position, DefaultMaxRetries, outcome);
  }
}
