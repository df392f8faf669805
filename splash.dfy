/** `gui/splash.py`: the start-up messages shown one per timer tick. */
module Splash {
  import opened Wrappers

  /** The messages of the splash screen, in display order. */
  const StartupMessages: seq<string> := [
    "Loading database...",
    "Checking camera...",
    "Loading face models...",
    "Starting services...",
    "Welcome to EduScan \U{1F393}"
  ]

  /** The callback handed to `start`, identified by a number. */
  type Callback = nat

  class SplashScreen {
    const messages: seq<string>
    var currentStep: nat
    /** The text of `status_label`. */
    var statusText: string
    /** Whether the 800 ms message timer is running. */
    var messageTimerActive: bool
    var durationTimerActive: bool
    var onComplete: Option<Callback>
    var closed: bool
    /** The callbacks invoked so far, in order. */
    var invoked: seq<Callback>
    /** The messages shown so far, in order. */
    ghost var shownSoFar: seq<string>

    ghost predicate Valid()
      reads this
    {
      currentStep <= |messages| && shownSoFar == messages[..currentStep] &&
      (currentStep > 0 ==> statusText == messages[currentStep - 1])
    }

    constructor ()
      ensures Valid() && messages == StartupMessages && currentStep == 0
      ensures statusText == "Starting EduScan..."
      ensures !messageTimerActive && !durationTimerActive && onComplete == None && !closed && invoked == []
    {
      messages := StartupMessages;
      currentStep := 0;
      statusText := "Starting EduScan...";
      messageTimerActive, durationTimerActive := false, false;
      onComplete := None;
      closed := false;
      invoked := [];
      shownSoFar := [];
    }

    /** `start(on_complete)`: stores the callback and starts both timers. */
    method Start(callback: Callback)
      requires Valid()
      modifies this
      ensures Valid() && onComplete == Some(callback) && messageTimerActive && durationTimerActive
      ensures currentStep == old(currentStep) && invoked == old(invoked) && closed == old(closed)
      ensures statusText == old(statusText) && shownSoFar == old(shownSoFar)
    {
      onComplete := Some(callback);
      messageTimerActive, durationTimerActive := true, true;
    }

    /** `update_message`: shows the next message and advances, or, once every message
        has been shown, only stops the message timer. */
    method UpdateMessage()
      requires Valid()
      modifies this
      ensures Valid()
      ensures old(currentStep) < |messages| ==>
        currentStep == old(currentStep) + 1 && statusText == messages[old(currentStep)] &&
        shownSoFar == old(shownSoFar) + [messages[old(currentStep)]] &&
        messageTimerActive == old(messageTimerActive)
      ensures old(currentStep) == |messages| ==>
        currentStep == old(currentStep) && statusText == old(statusText) && !messageTimerActive
      ensures durationTimerActive == old(durationTimerActive) && onComplete == old(onComplete)
      ensures closed == old(closed) && invoked == old(invoked)
    {
      if currentStep < |messages| {
        statusText := messages[currentStep];
        shownSoFar := shownSoFar + [messages[currentStep]];
        assert messages[..currentStep + 1] == messages[..currentStep] + [messages[currentStep]];
        currentStep := currentStep + 1;
      } else {
        messageTimerActive := false;
      }
    }

    /** `finish_splash`, run by the single-shot duration timer that `start` armed: the
        window closes and the stored callback runs. Closing the window neither stops
        the message timer nor changes the label. */
    method FinishSplash()
      requires Valid() && onComplete.Some?
      modifies this
      ensures onComplete == old(onComplete) && currentStep == old(currentStep)
      ensures Valid() && closed && invoked == old(invoked) + [onComplete.value]
      ensures !durationTimerActive
      ensures messageTimerActive == old(messageTimerActive)
      ensures statusText == old(statusText) && shownSoFar == old(shownSoFar)
    {
      closed := true;
      durationTimerActive := false;
      invoked := invoked + [onComplete.value];
    }
  }
}
