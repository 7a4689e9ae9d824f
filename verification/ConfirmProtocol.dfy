/** The confirmation protocol of `internal/cloud/backend_common.go`: a prompt waits for the user while a
    poller watches the run for a decision taken elsewhere. They share two contexts and a channel with
    room for two results, the first of which is returned.

    A run is a sequence of events, one for each step that prompt, poller or surroundings can take, in any
    interleaving the code allows. Reads of a context are steps of their own.
 */
module ConfirmProtocol {
  import opened Addrs

  /** The error of a context: `Live` while there is none. */
  datatype Context = Live | Canceled | DeadlineExceeded

  datatype Outcome =
    | Nil
    | AskError
    | ContextError(err: Context)
    | RetrieveFailed
    | DiscardFailed
    | ApplyDiscarded
    | DestroyDiscarded
    | RunOverridden
    | RunApproved

  datatype InputError = NoError | InputCanceled | InputFailed

  datatype RunStatus = PolicyOverride | PostPlanAwaitingDecision | Discarded | OtherStatus

  /** What the server says about the run. */
  datatype RunView = RunView(status: RunStatus, confirmable: bool, discardable: bool)

  datatype Params = Params(keyword: string, destroy: bool)

  function DiscardOutcome(p: Params): Outcome {
    if p.destroy then DestroyDiscarded else ApplyDiscarded
  }

  /** The decision, if any, that the poller reads off the run. */
  function ExternalDecision(p: Params, r: RunView): Option<Outcome> {
    if p.keyword == "override" then
      if r.status != PolicyOverride && r.status != PostPlanAwaitingDecision then
        Some(if r.status == Discarded then DiscardOutcome(p) else RunOverridden)
      else None
    else if p.keyword == "yes" then
      if !r.confirmable then
        Some(if r.status == Discarded then DiscardOutcome(p) else RunApproved)
      else None
    else None
  }

  /** There is a decision exactly when the run no longer waits for the one being asked about; it is the
      discard error of the operation's mode exactly for a discarded run, and otherwise names the keyword's own
      decision. */
  lemma DecisionMeaning(p: Params, r: RunView)
    ensures ExternalDecision(p, r).Some? <==>
            (p.keyword == "yes" && !r.confirmable) ||
            (p.keyword == "override" && r.status != PolicyOverride && r.status != PostPlanAwaitingDecision)
    ensures ExternalDecision(p, r).Some? ==>
              var d := ExternalDecision(p, r).value;
              && (d == DestroyDiscarded <==> r.status == Discarded && p.destroy)
              && (d == ApplyDiscarded <==> r.status == Discarded && !p.destroy)
              && (d == RunApproved <==> r.status != Discarded && p.keyword == "yes")
              && (d == RunOverridden <==> r.status != Discarded && p.keyword == "override")
  {
    assert "yes"[0] != "override"[0];
  }

  /** Where the prompting side is. */
  datatype Prompt =
    | Asking
    | CheckingError(err: InputError)
    | CheckingDone
    | CheckingStop
    | ReadingStopError
    | Cancelling
    | Comparing
    | Rereading
    | Discarding
    | Sending(outcome: Outcome)
    | Receiving
    | Returned(result: Outcome)

  /** Where the polling side is; `Unwinding` is about to run the deferred cancel. */
  datatype Poller = Selecting | Reading | PollSending(decision: Outcome) | Unwinding | Finished

  datatype Sender = FromPrompt | FromPoller

  datatype Message = Message(sender: Sender, value: Outcome)

  /** `sent` is everything put into the channel, `received` how much of it was taken out again. The fields
      after them remember what the user typed, how asking ended and whether the operation, or the derived context,
      had been cancelled by then, whether the prompt cancelled polling, what it learned on reading the run again,
      whether discarding succeeded if it asked for that, and what the poller learned last. */
  datatype State = State(
    stop: Context, done: Context,
    prompt: Prompt, poller: Poller,
    sent: seq<Message>, received: nat,
    typed: Option<string>, input: InputError, stoppedBefore: bool, endedBefore: bool, promptCancelled: bool,
    reread: Option<Option<RunView>>, discarded: Option<bool>, polled: Option<Option<RunView>>)

  const CAPACITY: nat := 2

  function Start(): State {
    State(Live, Live, Asking, Selecting, [], 0, None, NoError, false, false, false, None, None, None)
  }

  datatype Event =
    | StopEnds(reason: Context)                 // the surrounding operation is stopped
    | StopReachesDone                           // cancellation is passed on to the derived context
    | InputReturns(text: string, inputErr: InputError)
    | PromptStep                                // the next deterministic step of the prompt
    | RereadReturns(view: Option<RunView>)
    | DiscardReturns(ok: bool)
    | PromptReceives
    | PollTimer
    | PollSeesDone
    | PollSeesStop
    | PollReadReturns(view: Option<RunView>)
    | PollSends
    | PollCancels

  /** Cancelling the derived context; a context keeps its first error. */
  function CancelDone(s: State): State {
    if s.done == Live then s.(done := Canceled) else s
  }

  predicate HasRoom(s: State) {
    |s.sent| < s.received + CAPACITY
  }

  /** The deterministic steps of the prompt; `None` if it is waiting for something or blocked. */
  function PromptNext(p: Params, s: State): Option<State> {
    match s.prompt
    case CheckingError(err) =>
      Some(s.(prompt := if err == InputFailed && s.stop != Canceled then Sending(AskError) else CheckingDone))
    case CheckingDone =>
      Some(s.(prompt := if s.done == Canceled then ReadingStopError else CheckingStop))
    case CheckingStop =>
      Some(s.(prompt := if s.stop == Canceled then ReadingStopError else Cancelling))
    case ReadingStopError =>
      Some(s.(prompt := Sending(if s.stop == Live then Nil else ContextError(s.stop))))
    case Cancelling =>
      Some(CancelDone(s).(prompt := Comparing, promptCancelled := true))
    case Comparing =>
      Some(s.(prompt := if s.typed == Some(p.keyword) then Sending(Nil) else Rereading))
    case Sending(outcome) =>
      if HasRoom(s) then Some(s.(prompt := Receiving, sent := s.sent + [Message(FromPrompt, outcome)])) else None
    case _ => None
  }

  /** One event; `None` if it is not possible in the given state. */
  function Apply(p: Params, s: State, e: Event): Option<State> {
    match e
    case StopEnds(err) => if s.stop == Live && err != Live then Some(s.(stop := err)) else None
    case StopReachesDone => if s.stop != Live && s.done == Live then Some(s.(done := s.stop)) else None
    case InputReturns(text, err) =>
      if !s.prompt.Asking? then None
      else
        Some(s.(prompt := CheckingError(err), typed := Some(text), input := err,
                stoppedBefore := s.stop == Canceled, endedBefore := s.done == Canceled))
    case PromptStep => PromptNext(p, s)
    case RereadReturns(view) =>
      if !s.prompt.Rereading? then None
      else if view.None? then Some(s.(prompt := Sending(RetrieveFailed), reread := Some(view)))
      else
        Some(s.(prompt := if view.value.discardable then Discarding else Sending(DiscardOutcome(p)),
                reread := Some(view)))
    case DiscardReturns(ok) =>
      if s.prompt.Discarding? then
        Some(s.(prompt := Sending(if ok then DiscardOutcome(p) else DiscardFailed), discarded := Some(ok)))
      else None
    case PromptReceives =>
      if s.prompt.Receiving? && s.received < |s.sent| then
        Some(s.(prompt := Returned(s.sent[s.received].value), received := s.received + 1))
      else None
    case PollTimer => if s.poller.Selecting? then Some(s.(poller := Reading)) else None
    case PollSeesDone => if s.poller.Selecting? && s.done != Live then Some(s.(poller := Unwinding)) else None
    case PollSeesStop => if s.poller.Selecting? && s.stop != Live then Some(s.(poller := Unwinding)) else None
    case PollReadReturns(view) =>
      if !s.poller.Reading? then None
      else if view.None? then Some(s.(poller := PollSending(RetrieveFailed), polled := Some(view)))
      else
        (match ExternalDecision(p, view.value)
         case None => Some(s.(poller := Selecting, polled := Some(view)))
         case Some(decision) => Some(s.(poller := PollSending(decision), polled := Some(view))))
    case PollSends =>
      if s.poller.PollSending? && HasRoom(s) then
        Some(s.(poller := Unwinding, sent := s.sent + [Message(FromPoller, s.poller.decision)]))
      else None
    case PollCancels => if s.poller.Unwinding? then Some(CancelDone(s).(poller := Finished)) else None
  }

  function Run(p: Params, events: seq<Event>): Option<State> {
    if events == [] then Some(Start()) else
    match Run(p, events[..|events| - 1])
    case None => None
    case Some(s) => Apply(p, s, events[|events| - 1])
  }

  // ---------------------------------------------------------------- what every step keeps

  predicate PromptHasSent(s: State) {
    s.prompt.Receiving? || s.prompt.Returned?
  }

  predicate SentBy(sent: seq<Message>, who: Sender) {
    exists i | 0 <= i < |sent| :: sent[i].sender == who
  }

  predicate PollerHasSent(s: State) {
    SentBy(s.sent, FromPoller)
  }

  /** Each side sends at most once, and nothing is received before the prompt has sent. */
  predicate SendsOnce(s: State) {
    && (forall i, j | 0 <= i < j < |s.sent| :: s.sent[i].sender != s.sent[j].sender)
    && (PromptHasSent(s) <==> SentBy(s.sent, FromPrompt))
    && (PollerHasSent(s) ==> s.poller.Unwinding? || s.poller.Finished?)
    && s.received == (if s.prompt.Returned? then 1 else 0)
    && s.received <= |s.sent|
    && (s.prompt.Returned? ==> s.prompt.result == s.sent[0].value)
  }

  /** The derived context ends, and the poller stops, only for a reason. */
  predicate ContextsExplained(s: State) {
    && (s.done != Live ==> s.stop != Live || PollerHasSent(s) || s.promptCancelled)
    && (s.poller.Unwinding? || s.poller.Finished? ==> s.stop != Live || PollerHasSent(s) || s.promptCancelled)
    && (s.promptCancelled ==> s.done != Live)
  }

  /** The prompt has the user's answer and has not acted upon it. */
  predicate Unacted(s: State) {
    s.typed.Some? && s.reread == None && s.discarded == None
  }

  /** The prompt went on from asking: the question did not fail, or the operation is cancelled. */
  predicate WentOn(s: State) {
    s.input == InputFailed ==> s.stop == Canceled
  }

  /** What was cancelled when asking ended still is. */
  predicate StillEnded(s: State) {
    (s.stoppedBefore ==> s.stop == Canceled) && (s.endedBefore ==> s.done == Canceled)
  }

  /** Where the prompt can be before and after it cancelled polling. */
  predicate PromptPlace(p: Params, s: State) {
    match s.prompt
    case Asking => !s.promptCancelled && s.typed == None && s.reread == None && s.discarded == None
    case CheckingError(err) => !s.promptCancelled && Unacted(s) && s.input == err && StillEnded(s)
    case CheckingDone => !s.promptCancelled && Unacted(s) && WentOn(s) && StillEnded(s)
    case CheckingStop => !s.promptCancelled && Unacted(s) && WentOn(s) && StillEnded(s) && !s.endedBefore
    case ReadingStopError => !s.promptCancelled && Unacted(s) && WentOn(s) && StopExplained(s)
    case Cancelling => !s.promptCancelled && Unacted(s) && WentOn(s) && MayAct(s)
    case Comparing => s.promptCancelled && Unacted(s) && WentOn(s) && MayAct(s)
    case Rereading => s.promptCancelled && Unacted(s) && WentOn(s) && MayAct(s) && s.typed != Some(p.keyword)
    case Discarding =>
      && s.promptCancelled && s.typed.Some? && WentOn(s) && MayAct(s) && s.typed != Some(p.keyword)
      && s.reread.Some? && s.reread.value.Some? && s.reread.value.value.discardable && s.discarded == None
    case Sending(outcome) => s.typed.Some? && OutcomeExplained(p, s, outcome)
    case _ => s.typed.Some?
  }

  /** Nothing had been cancelled when asking ended. */
  predicate MayAct(s: State) {
    !s.stoppedBefore && !s.endedBefore
  }

  /** The prompt gives up on a cancelled context, for which there is a reason. */
  predicate StopExplained(s: State) {
    (s.stop == Canceled || s.done == Canceled) && (s.stop != Live || PollerHasSent(s))
  }

  /** What the prompt's result is once it has cancelled polling: nil for the keyword, and for any other answer what
      became of reading and discarding the run. */
  predicate AnswerExplained(p: Params, s: State, outcome: Outcome) {
    if s.typed == Some(p.keyword) then outcome == Nil && s.reread == None && s.discarded == None
    else
      match s.reread
      case None => false
      case Some(None) => outcome == RetrieveFailed && s.discarded == None
      case Some(Some(view)) =>
        && (s.discarded.Some? <==> view.discardable)
        && outcome == (if s.discarded == Some(false) then DiscardFailed
                       else if p.destroy then DestroyDiscarded else ApplyDiscarded)
  }

  /** A result of the prompt: explained by the answer if polling was cancelled for it, and otherwise a failed
      question, the error of the operation's context, or nil after a decision has been sent. */
  predicate OutcomeExplained(p: Params, s: State, outcome: Outcome) {
    if s.promptCancelled then WentOn(s) && MayAct(s) && AnswerExplained(p, s, outcome)
    else
      && s.discarded == None
      && (|| (outcome == AskError && s.input == InputFailed && !s.stoppedBefore)
          || (outcome == ContextError(s.stop) && s.stop != Live && WentOn(s) && StopExplained(s))
          || (outcome == Nil && PollerHasSent(s) && WentOn(s) && StopExplained(s)))
  }

  /** What the poller makes of the run it has read last. */
  predicate PolledExplained(p: Params, s: State, decision: Outcome) {
    match s.polled
    case None => false
    case Some(None) => decision == RetrieveFailed
    case Some(Some(view)) => ExternalDecision(p, view) == Some(decision)
  }

  /** As far as the poller knows the run waits for a decision. */
  predicate StillWaiting(p: Params, s: State) {
    match s.polled
    case None => true
    case Some(None) => false
    case Some(Some(view)) => ExternalDecision(p, view) == None
  }

  /** Messages in the channel are explained by what their senders know; nil from the prompt is no first message
      unless it answers the question. */
  predicate MessagesExplained(p: Params, s: State) {
    && (forall i | 0 <= i < |s.sent| && s.sent[i].sender == FromPoller :: PolledExplained(p, s, s.sent[i].value))
    && (forall i | 0 <= i < |s.sent| && s.sent[i].sender == FromPrompt :: OutcomeExplained(p, s, s.sent[i].value))
    && (s.poller.PollSending? ==> PolledExplained(p, s, s.poller.decision))
    && (s.poller.Selecting? || s.poller.Reading? ==> StillWaiting(p, s))
    && (|s.sent| > 0 && s.sent[0].sender == FromPrompt && s.sent[0].value == Nil ==> s.promptCancelled)
  }

  predicate Invariant(p: Params, s: State) {
    SendsOnce(s) && ContextsExplained(s) && PromptPlace(p, s) && MessagesExplained(p, s)
  }

  lemma SentGrows(sent: seq<Message>, m: Message, who: Sender)
    ensures SentBy(sent + [m], who) <==> SentBy(sent, who) || m.sender == who
  {
    if i :| 0 <= i < |sent| && sent[i].sender == who {
      assert (sent + [m])[i].sender == who;
    }
    if m.sender == who {
      assert (sent + [m])[|sent|].sender == who;
    }
  }

  lemma PollSendKeeps(p: Params, s: State)
    requires Invariant(p, s) && Apply(p, s, PollSends).Some?
    ensures Invariant(p, Apply(p, s, PollSends).value)
  {
    var m := Message(FromPoller, s.poller.decision);
    var after := Apply(p, s, PollSends).value;
    SentGrows(s.sent, m, FromPoller);
    SentGrows(s.sent, m, FromPrompt);
    assert after.sent[|s.sent|] == m;
    assert forall i | 0 <= i < |s.sent| :: after.sent[i] == s.sent[i];
  }

  lemma PromptSendKeeps(p: Params, s: State)
    requires Invariant(p, s) && s.prompt.Sending? && Apply(p, s, PromptStep).Some?
    ensures Invariant(p, Apply(p, s, PromptStep).value)
  {
    var m := Message(FromPrompt, s.prompt.outcome);
    var after := Apply(p, s, PromptStep).value;
    SentGrows(s.sent, m, FromPoller);
    SentGrows(s.sent, m, FromPrompt);
    assert after.sent[|s.sent|] == m;
    assert forall i | 0 <= i < |s.sent| :: after.sent[i] == s.sent[i];
    assert |s.sent| > 0 ==> s.sent[0].sender == FromPoller;
  }

  lemma PromptChecksKeep(p: Params, s: State)
    requires Invariant(p, s) && Apply(p, s, PromptStep).Some?
    requires s.prompt.CheckingError? || s.prompt.CheckingDone? || s.prompt.CheckingStop? || s.prompt.ReadingStopError?
    ensures Invariant(p, Apply(p, s, PromptStep).value)
  {
  }

  lemma PromptActsKeep(p: Params, s: State)
    requires Invariant(p, s) && Apply(p, s, PromptStep).Some?
    requires s.prompt.Cancelling? || s.prompt.Comparing?
    ensures Invariant(p, Apply(p, s, PromptStep).value)
  {
  }

  /** A stop takes back no reason for a result. */
  lemma StopKeepsOutcome(p: Params, s: State, reason: Context, o: Outcome)
    requires OutcomeExplained(p, s, o) && s.stop == Live && reason != Live
    ensures OutcomeExplained(p, s.(stop := reason), o)
  {
  }

  lemma StopKeepsPlace(p: Params, s: State, reason: Context)
    requires PromptPlace(p, s) && s.stop == Live && reason != Live
    ensures PromptPlace(p, s.(stop := reason))
  {
    if s.prompt.Sending? {
      StopKeepsOutcome(p, s, reason, s.prompt.outcome);
    }
  }

  lemma StopKeeps(p: Params, s: State, reason: Context)
    requires Invariant(p, s) && s.stop == Live && reason != Live
    ensures Invariant(p, s.(stop := reason))
  {
    var after := s.(stop := reason);
    StopKeepsPlace(p, s, reason);
    forall i | 0 <= i < |s.sent| && s.sent[i].sender == FromPrompt ensures OutcomeExplained(p, after, s.sent[i].value) {
      StopKeepsOutcome(p, s, reason, s.sent[i].value);
    }
    assert SendsOnce(after) && ContextsExplained(after);
    assert MessagesExplained(p, after);
  }

  lemma DoneKeeps(p: Params, s: State, done: Context)
    requires Invariant(p, s) && s.stop != Live && s.done == Live
    ensures Invariant(p, s.(done := done))
  {
    var after := s.(done := done);
    assert after == s.(poller := s.poller, polled := s.polled, done := done);
    SamePlace(p, s, s.poller, s.polled, done);
    forall i | 0 <= i < |s.sent| && s.sent[i].sender == FromPrompt ensures OutcomeExplained(p, after, s.sent[i].value) {
      SameOutcome(p, s, s.poller, s.polled, done, s.sent[i].value);
    }
    assert SendsOnce(after) && ContextsExplained(after);
    assert MessagesExplained(p, after);
  }

  lemma SurroundingsKeep(p: Params, s: State, e: Event)
    requires Invariant(p, s) && (e.StopEnds? || e.StopReachesDone?) && Apply(p, s, e).Some?
    ensures Invariant(p, Apply(p, s, e).value)
  {
    if e.StopEnds? {
      StopKeeps(p, s, e.reason);
    } else {
      DoneKeeps(p, s, s.stop);
    }
  }

  lemma AnswerKeeps(p: Params, s: State, e: Event)
    requires Invariant(p, s) && e.InputReturns? && Apply(p, s, e).Some?
    ensures Invariant(p, Apply(p, s, e).value)
  {
  }

  lemma NothingFrom(sent: seq<Message>, who: Sender)
    requires !SentBy(sent, who)
    ensures forall i | 0 <= i < |sent| :: sent[i].sender != who
  {
  }

  /** While the prompt has sent nothing, where it is and what it has learned matter to no message. */
  lemma PromptMovesOn(p: Params, s: State, next: Prompt, reread: Option<Option<RunView>>, discarded: Option<bool>)
    requires Invariant(p, s) && !PromptHasSent(s) && !next.Receiving? && !next.Returned?
    requires PromptPlace(p, s.(prompt := next, reread := reread, discarded := discarded))
    ensures Invariant(p, s.(prompt := next, reread := reread, discarded := discarded))
  {
    var after := s.(prompt := next, reread := reread, discarded := discarded);
    NothingFrom(s.sent, FromPrompt);
    assert SendsOnce(after) && ContextsExplained(after);
    assert forall i | 0 <= i < |s.sent| ::
      PolledExplained(p, s, s.sent[i].value) == PolledExplained(p, after, s.sent[i].value);
    assert MessagesExplained(p, after);
  }

  lemma RefusalKeeps(p: Params, s: State, e: Event)
    requires Invariant(p, s) && (e.RereadReturns? || e.DiscardReturns?) && Apply(p, s, e).Some?
    ensures Invariant(p, Apply(p, s, e).value)
  {
    var after := Apply(p, s, e).value;
    assert after == s.(prompt := after.prompt, reread := after.reread, discarded := after.discarded);
    assert PromptPlace(p, after);
    PromptMovesOn(p, s, after.prompt, after.reread, after.discarded);
  }

  lemma ReceiveKeeps(p: Params, s: State)
    requires Invariant(p, s) && Apply(p, s, PromptReceives).Some?
    ensures Invariant(p, Apply(p, s, PromptReceives).value)
  {
  }

  /** Where the poller is and what it has learned explain no result of the prompt, nor does the end of the derived
      context take back a reason. */
  lemma SameOutcome(p: Params, s: State, poller: Poller, polled: Option<Option<RunView>>, done: Context, o: Outcome)
    requires OutcomeExplained(p, s, o) && (s.done != Live ==> done == s.done)
    ensures OutcomeExplained(p, s.(poller := poller, polled := polled, done := done), o)
  {
  }

  lemma SamePlace(p: Params, s: State, poller: Poller, polled: Option<Option<RunView>>, done: Context)
    requires PromptPlace(p, s) && (s.done != Live ==> done == s.done)
    ensures PromptPlace(p, s.(poller := poller, polled := polled, done := done))
  {
    if s.prompt.Sending? {
      SameOutcome(p, s, poller, polled, done, s.prompt.outcome);
    }
  }

  /** While the poller has sent nothing, what it has learned matters to no message but its own. */
  lemma PollerMovesOn(p: Params, s: State, next: Poller, polled: Option<Option<RunView>>)
    requires Invariant(p, s) && (s.poller.Selecting? || s.poller.Reading?)
    requires if next.PollSending? then PolledExplained(p, s.(polled := polled), next.decision)
             else (next.Selecting? || next.Reading?) && StillWaiting(p, s.(polled := polled))
    ensures Invariant(p, s.(poller := next, polled := polled))
  {
    var after := s.(poller := next, polled := polled);
    assert after == s.(poller := next, polled := polled, done := s.done);
    NothingFrom(s.sent, FromPoller);
    SamePlace(p, s, next, polled, s.done);
    forall i | 0 <= i < |s.sent| ensures OutcomeExplained(p, after, s.sent[i].value) {
      SameOutcome(p, s, next, polled, s.done, s.sent[i].value);
    }
    assert SendsOnce(after);
    assert ContextsExplained(after);
    assert MessagesExplained(p, after);
  }

  lemma PollRead(p: Params, s: State, view: Option<RunView>)
    requires s.poller.Reading?
    ensures var after := Apply(p, s, PollReadReturns(view)).value;
            && after == s.(poller := after.poller, polled := Some(view))
            && if after.poller.PollSending? then PolledExplained(p, s.(polled := Some(view)), after.poller.decision)
               else after.poller.Selecting? && StillWaiting(p, s.(polled := Some(view)))
  {
  }

  lemma PollReadKeeps(p: Params, s: State, e: Event)
    requires Invariant(p, s) && (e.PollTimer? || e.PollReadReturns?) && Apply(p, s, e).Some?
    ensures Invariant(p, Apply(p, s, e).value)
  {
    if e.PollTimer? {
      assert s.(poller := Reading) == s.(poller := Reading, polled := s.polled);
      PollerMovesOn(p, s, Reading, s.polled);
    } else {
      PollRead(p, s, e.view);
      PollerMovesOn(p, s, Apply(p, s, e).value.poller, Some(e.view));
    }
  }

  /** The poller may stop, and end the derived context on its way out, if it has sent its decision or if some
      context has ended. */
  lemma PollerEnds(p: Params, s: State, poller: Poller, done: Context)
    requires Invariant(p, s) && (poller.Unwinding? || poller.Finished?) && (s.done != Live ==> done == s.done)
    requires s.stop != Live || PollerHasSent(s) || s.promptCancelled
    ensures Invariant(p, s.(poller := poller, done := done))
  {
    var after := s.(poller := poller, done := done);
    assert after == s.(poller := poller, polled := s.polled, done := done);
    SamePlace(p, s, poller, s.polled, done);
    forall i | 0 <= i < |s.sent| && s.sent[i].sender == FromPrompt ensures OutcomeExplained(p, after, s.sent[i].value) {
      SameOutcome(p, s, poller, s.polled, done, s.sent[i].value);
    }
    assert MessagesExplained(p, after);
  }

  lemma PollExitKeeps(p: Params, s: State, e: Event)
    requires Invariant(p, s) && (e.PollSeesDone? || e.PollSeesStop?) && Apply(p, s, e).Some?
    ensures Invariant(p, Apply(p, s, e).value)
  {
    PollerEnds(p, s, Unwinding, s.done);
  }

  lemma PollCancelKeeps(p: Params, s: State)
    requires Invariant(p, s) && Apply(p, s, PollCancels).Some?
    ensures Invariant(p, Apply(p, s, PollCancels).value)
  {
    var after := Apply(p, s, PollCancels).value;
    assert after == s.(poller := Finished, done := after.done);
    PollerEnds(p, s, Finished, after.done);
  }

  lemma {:induction false} EveryRunKeeps(p: Params, events: seq<Event>)
    requires Run(p, events).Some?
    ensures Invariant(p, Run(p, events).value)
  {
    if events != [] {
      var init, e := events[..|events| - 1], events[|events| - 1];
      EveryRunKeeps(p, init);
      var s := Run(p, init).value;
      if e == PollSends {
        PollSendKeeps(p, s);
      } else if e == PromptStep && s.prompt.Sending? {
        PromptSendKeeps(p, s);
      } else if e == PromptStep && (s.prompt.Cancelling? || s.prompt.Comparing?) {
        PromptActsKeep(p, s);
      } else if e == PromptStep {
        PromptChecksKeep(p, s);
      } else if e.StopEnds? || e.StopReachesDone? {
        SurroundingsKeep(p, s, e);
      } else if e.InputReturns? {
        AnswerKeeps(p, s, e);
      } else if e.RereadReturns? || e.DiscardReturns? {
        RefusalKeeps(p, s, e);
      } else if e.PromptReceives? {
        ReceiveKeeps(p, s);
      } else if e.PollTimer? || e.PollReadReturns? {
        PollReadKeeps(p, s, e);
      } else if e.PollCancels? {
        PollCancelKeeps(p, s);
      } else {
        PollExitKeeps(p, s, e);
      }
    }
  }

  // ---------------------------------------------------------------- the guarantees

  /** Nil is returned if and only if the prompt's own result is the first one and the user, whose answer ended
      polling, typed the keyword. */
  lemma NilMeansConfirmed(p: Params, events: seq<Event>)
    requires Run(p, events).Some? && Run(p, events).value.prompt.Returned?
    ensures var s := Run(p, events).value;
            && |s.sent| > 0
            && (s.prompt.result == Nil <==>
                s.sent[0].sender == FromPrompt && s.promptCancelled && s.typed == Some(p.keyword))
  {
    EveryRunKeeps(p, events);
    var s := Run(p, events).value;
    if s.sent[0].sender == FromPoller {
      PolledIsNotNil(p, s, s.sent[0].value);
    }
  }

  lemma PolledIsNotNil(p: Params, s: State, decision: Outcome)
    requires PolledExplained(p, s, decision)
    ensures decision != Nil && decision != AskError
  {
  }

  /** With any other answer as the first result the run is read again. If that fails, this is the result. Otherwise
      the server is asked to discard the run exactly if it can be discarded; the result is the failure to do so,
      or else the discard error of the operation's mode. */
  lemma RefusalMeaning(p: Params, events: seq<Event>)
    requires Run(p, events).Some? && Run(p, events).value.prompt.Returned?
    requires var s := Run(p, events).value;
             |s.sent| > 0 && s.sent[0].sender == FromPrompt && s.promptCancelled && s.typed != Some(p.keyword)
    ensures var s := Run(p, events).value;
            && s.reread.Some?
            && (s.prompt.result == RetrieveFailed <==> s.reread.value.None?)
            && (s.discarded.Some? <==> s.reread.value.Some? && s.reread.value.value.discardable)
            && (s.prompt.result == DiscardFailed <==> s.discarded == Some(false))
            && (s.prompt.result == DestroyDiscarded <==>
                s.reread.value.Some? && s.discarded != Some(false) && p.destroy)
            && (s.prompt.result == ApplyDiscarded <==>
                s.reread.value.Some? && s.discarded != Some(false) && !p.destroy)
  {
    EveryRunKeeps(p, events);
  }

  /** A first result of the prompt that does not stem from the user's answer is a question that failed before the
      operation was cancelled, or the error of the operation's context. A failed question is the result unless
      the operation is cancelled. Without a failed question, a stop or a decision the answer is acted upon. */
  lemma UnansweredMeaning(p: Params, events: seq<Event>)
    requires Run(p, events).Some? && Run(p, events).value.prompt.Returned?
    ensures var s := Run(p, events).value;
            && |s.sent| > 0
            && (s.sent[0].sender == FromPrompt && !s.promptCancelled ==>
                  || (s.prompt.result == AskError && s.input == InputFailed && !s.stoppedBefore)
                  || (&& s.prompt.result == ContextError(s.stop) && s.stop != Live
                      && (s.stop == Canceled || s.done == Canceled)))
            && (s.sent[0].sender == FromPrompt && s.input == InputFailed && s.stop != Canceled ==>
                  s.prompt.result == AskError)
            && (s.input != InputFailed && s.stop == Live && !PollerHasSent(s) ==>
                  s.promptCancelled && s.sent[0].sender == FromPrompt)
  {
    EveryRunKeeps(p, events);
    var s := Run(p, events).value;
    assert s.sent[0].sender == FromPrompt || PollerHasSent(s);
  }

  /** A prompt that was cancelled by the time asking ended, be it by a stop or by a decision, acts on nothing. */
  lemma CancelledPromptDoesNotAct(p: Params, events: seq<Event>)
    requires Run(p, events).Some?
    requires Run(p, events).value.stoppedBefore || Run(p, events).value.endedBefore
    requires Run(p, events).value.typed.Some?
    ensures var s := Run(p, events).value; !s.promptCancelled && s.discarded == None
  {
    EveryRunKeeps(p, events);
    var s := Run(p, events).value;
    if s.prompt.Receiving? || s.prompt.Returned? {
      assert SentBy(s.sent, FromPrompt);
    }
  }

  /** The poller goes on only as long as the run it has read last waits for the decision. */
  lemma PollerGoesOnWaiting(p: Params, events: seq<Event>)
    requires Run(p, events).Some?
    requires Run(p, events).value.poller.Selecting? && Run(p, events).value.polled.Some?
    ensures var polled := Run(p, events).value.polled.value;
            polled.Some? && ExternalDecision(p, polled.value) == None
  {
    EveryRunKeeps(p, events);
  }

  /** A first result of the poller is what it makes of the run it has read last. */
  lemma DecisionIsRead(p: Params, events: seq<Event>)
    requires Run(p, events).Some? && Run(p, events).value.prompt.Returned?
    requires |Run(p, events).value.sent| > 0 && Run(p, events).value.sent[0].sender == FromPoller
    ensures var s := Run(p, events).value;
            && s.polled.Some?
            && (s.polled.value.None? ==> s.prompt.result == RetrieveFailed)
            && (s.polled.value.Some? ==> ExternalDecision(p, s.polled.value.value) == Some(s.prompt.result))
  {
    EveryRunKeeps(p, events);
  }

  /** Neither side is ever blocked on a full channel, and the receiver always finds a result. */
  lemma NobodyBlocks(p: Params, events: seq<Event>)
    requires Run(p, events).Some?
    ensures var s := Run(p, events).value;
            && (s.prompt.Sending? ==> Apply(p, s, PromptStep).Some?)
            && (s.poller.PollSending? ==> Apply(p, s, PollSends).Some?)
            && (s.prompt.Receiving? ==> Apply(p, s, PromptReceives).Some?)
  {
    EveryRunKeeps(p, events);
    var s := Run(p, events).value;
    AtMostTwo(s);
  }

  lemma TwoSenders(a: Sender, b: Sender, c: Sender)
    ensures a == b || b == c || a == c
  {
  }

  lemma AtMostTwo(s: State)
    requires SendsOnce(s)
    ensures |s.sent| <= 2
    ensures s.prompt.Sending? ==> |s.sent| <= 1
    ensures s.poller.PollSending? ==> |s.sent| <= 1
  {
    if |s.sent| >= 3 {
      TwoSenders(s.sent[0].sender, s.sent[1].sender, s.sent[2].sender);
    }
    if |s.sent| == 2 {
      TwoSenders(s.sent[0].sender, s.sent[1].sender, FromPrompt);
      TwoSenders(s.sent[0].sender, s.sent[1].sender, FromPoller);
    }
  }

  lemma StepOnlySends(p: Params, s: State, e: Event)
    requires Apply(p, s, e).Some?
    ensures s.sent <= Apply(p, s, e).value.sent
  {
  }

  /** A run is a run from its beginning on, and what has been sent stays sent. */
  lemma {:induction false} RunExtends(p: Params, before: seq<Event>, after: seq<Event>)
    requires Run(p, before + after).Some?
    ensures Run(p, before).Some? && Run(p, before).value.sent <= Run(p, before + after).value.sent
    decreases |after|
  {
    if after == [] {
      assert before + after == before;
    } else {
      var init := after[..|after| - 1];
      assert (before + after)[..|before + after| - 1] == before + init;
      RunExtends(p, before, init);
      StepOnlySends(p, Run(p, before + init).value, after[|after| - 1]);
    }
  }

  /** The poller has sent its decision while the prompt has sent nothing: only from here on can the decision be
      what cancels the prompt. */
  predicate DecisionLeads(s: State) {
    PollerHasSent(s) && !PromptHasSent(s)
  }

  /** At some point of the run the decision led. */
  ghost predicate DecisionLed(p: Params, events: seq<Event>) {
    exists k | 0 <= k <= |events| :: Run(p, events[..k]).Some? && DecisionLeads(Run(p, events[..k]).value)
  }

  /** A decision taken elsewhere that is sent while the prompt has no result yet is the value returned, whatever
      happens afterwards, the end of the surrounding operation included. */
  lemma LeadingDecisionReturned(p: Params, before: seq<Event>, after: seq<Event>)
    requires Run(p, before + after).Some? && Run(p, before + after).value.prompt.Returned?
    requires Run(p, before).Some? && DecisionLeads(Run(p, before).value)
    ensures |Run(p, before).value.sent| > 0
    ensures var first := Run(p, before).value.sent[0];
            && first.sender == FromPoller && first.value != Nil
            && Run(p, before + after).value.prompt.result == first.value
  {
    RunExtends(p, before, after);
    EveryRunKeeps(p, before);
    EveryRunKeeps(p, before + after);
    assert SentBy(Run(p, before).value.sent, FromPoller);
  }

  /** The first message comes from the poller only if its decision led at some point. */
  lemma {:induction false} FirstMessageLed(p: Params, events: seq<Event>)
    requires Run(p, events).Some? && |Run(p, events).value.sent| > 0
    requires Run(p, events).value.sent[0].sender == FromPoller
    ensures DecisionLed(p, events)
  {
    var init := events[..|events| - 1];
    var s := Run(p, init).value;
    assert events[..|events|] == events;
    EveryRunKeeps(p, events);
    EveryRunKeeps(p, init);
    StepOnlySends(p, s, events[|events| - 1]);
    if |s.sent| > 0 {
      FirstMessageLed(p, init);
      var k :| 0 <= k <= |init| && Run(p, init[..k]).Some? && DecisionLeads(Run(p, init[..k]).value);
      assert events[..k] == init[..k];
      assert DecisionLed(p, events);
    } else {
      OnlyMessage(p, s, events[|events| - 1]);
    }
  }

  lemma OnlyMessage(p: Params, s: State, e: Event)
    requires !PromptHasSent(s) && s.sent == [] && Apply(p, s, e).Some?
    requires |Apply(p, s, e).value.sent| > 0 && Apply(p, s, e).value.sent[0].sender == FromPoller
    ensures DecisionLeads(Apply(p, s, e).value)
  {
  }

  lemma LedIsFirst(p: Params, events: seq<Event>)
    requires Run(p, events).Some? && Run(p, events).value.prompt.Returned? && DecisionLed(p, events)
    ensures |Run(p, events).value.sent| > 0 && Run(p, events).value.sent[0].sender == FromPoller
  {
    var k :| 0 <= k <= |events| && Run(p, events[..k]).Some? && DecisionLeads(Run(p, events[..k]).value);
    assert events[..k] + events[k..] == events;
    RunExtends(p, events[..k], events[k..]);
    LeadingDecisionReturned(p, events[..k], events[k..]);
  }

  /** What is returned is the poller's decision if and only if that decision was sent at a point where the prompt
      had no result yet; a prompt that neither cancelled polling nor was stopped always returns it, unless
      asking failed. */
  lemma ExternalDecisionReturned(p: Params, events: seq<Event>)
    requires Run(p, events).Some? && Run(p, events).value.prompt.Returned?
    ensures var s := Run(p, events).value;
            && |s.sent| > 0 && s.prompt.result == s.sent[0].value
            && (s.sent[0].sender == FromPoller <==> DecisionLed(p, events))
            && (s.sent[0].sender == FromPoller ==> s.prompt.result != Nil)
            && (!s.promptCancelled && s.stop == Live && s.prompt.result != AskError ==> s.sent[0].sender == FromPoller)
  {
    EveryRunKeeps(p, events);
    var s := Run(p, events).value;
    if s.sent[0].sender == FromPoller {
      FirstMessageLed(p, events);
    }
    if DecisionLed(p, events) {
      LedIsFirst(p, events);
    }
  }

  /** The server is asked to discard the run only after the user answered something else. */
  lemma DiscardOnlyOnRefusal(p: Params, events: seq<Event>)
    requires Run(p, events).Some? && Run(p, events).value.discarded.Some?
    ensures Run(p, events).value.typed.Some? && Run(p, events).value.typed != Some(p.keyword)
  {
    EveryRunKeeps(p, events);
  }

  /** Before the user's answer is acted upon, polling has been cancelled. */
  lemma PollingEndsBeforeActing(p: Params, events: seq<Event>)
    requires Run(p, events).Some?
    requires Run(p, events).value.prompt.Rereading? || Run(p, events).value.prompt.Discarding?
    ensures Run(p, events).value.done != Live
  {
    EveryRunKeeps(p, events);
  }

  /** Nothing will end the poller: no context has ended and it has taken no decision. */
  predicate PollerGoesOn(s: State) {
    s.done == Live && s.stop == Live && !PollerHasSent(s)
  }

  /** Once a result is returned, the poller has no reason to stop if and only if asking failed, the operation
      was not stopped and the poller sent nothing; it is then still polling. */
  lemma PollerStopsUnlessAskingFailed(p: Params, events: seq<Event>)
    requires Run(p, events).Some? && Run(p, events).value.prompt.Returned?
    ensures var s := Run(p, events).value;
            && (PollerGoesOn(s) <==> s.prompt.result == AskError && s.stop == Live && !PollerHasSent(s))
            && (PollerGoesOn(s) ==> s.poller.Selecting? || s.poller.Reading? || s.poller.PollSending?)
  {
    EveryRunKeeps(p, events);
    var s := Run(p, events).value;
    assert s.sent[0].sender == FromPrompt || PollerHasSent(s);
  }

  /** When asking fails, confirmation returns with nothing cancelled and the poller goes on. */
  lemma FailedQuestionLeavesPollerRunning(p: Params)
    ensures var events := [InputReturns("", InputFailed), PromptStep, PromptStep, PromptReceives];
            && Run(p, events).Some?
            && Run(p, events).value.prompt == Returned(AskError)
            && Run(p, events).value.done == Live && Run(p, events).value.poller == Selecting
  {
    var e1, e2, e3, e4 := InputReturns("", InputFailed), PromptStep, PromptStep, PromptReceives;
    assert [e1][..0] == [];
    assert [e1, e2][..1] == [e1];
    assert [e1, e2, e3][..2] == [e1, e2];
    assert [e1, e2, e3, e4][..3] == [e1, e2, e3];
    var s1 := Apply(p, Start(), e1).value;
    var s2 := Apply(p, s1, e2).value;
    var s3 := Apply(p, s2, e3).value;
    assert Run(p, [e1]) == Some(s1);
    assert Run(p, [e1, e2]) == Some(s2);
    assert Run(p, [e1, e2, e3]) == Some(s3);
    assert Run(p, [e1, e2, e3, e4]) == Apply(p, s3, e4);
  }
}
