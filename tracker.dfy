/**
 * `LegalBillablesTracker` (chrome-extension/content.js) as a class whose
 * fields the handlers update in place, and the local entry store it writes
 * to (`chrome.storage.local`, key `billableEntries`).
 *
 * Every browser callback (a click, an input event, an observer or interval
 * firing) is a method call that receives the clock reading `now` and what
 * the callback would read from the page as parameters.
 */
module Tracker {
  import opened Wrappers
  import opened Clock
  import opened Compose
  import opened Entries
  import TimerDisplay

  /** The local durable queue: `chrome.storage.local`'s `billableEntries`,
      None while the key has never been written. */
  class EntryStore {
    var billableEntries: Option<seq<StoredEntry>>

    constructor (initial: Option<seq<StoredEntry>>)
      ensures billableEntries == initial
    {
      billableEntries := initial;
    }

    /** The list as read: a missing key reads as the empty list. */
    function Entries(): seq<StoredEntry>
      reads this
    {
      if billableEntries.Some? then billableEntries.value else []
    }

    /** `chrome.storage.local.set({ billableEntries: entries })`; `writeOk` is
        whether the storage layer accepted the write. */
    method Set(entries: seq<StoredEntry>, writeOk: bool) returns (ok: bool)
      modifies this
      ensures ok == writeOk
      ensures billableEntries == if writeOk then Some(entries) else old(billableEntries)
    {
      ok := writeOk;
      if writeOk {
        billableEntries := Some(entries);
      }
    }
  }

  /** The draft context the handlers keep: the latest body, subject and recipient. */
  datatype DraftContext = DraftContext(content: string, subject: string, recipient: string)

  /** Which dialogs and buttons carry the attach-once markers, and every
      attachment made, in order. */
  datatype Registry = Registry(trackedDialogs: set<NodeId>, composeSetups: seq<NodeId>,
                               listenedButtons: set<NodeId>, sendHandlers: seq<NodeId>)

  class LegalBillablesTracker {
    var isTracking: bool
    var startTime: Option<nat>
    var totalTime: nat
    var lastActivity: nat
    const activityThreshold: nat

    var emailContent: string
    var recipient: string
    var subject: string

    /** Dialogs carrying `data-billables-tracked`. */
    var trackedDialogs: set<NodeId>
    /** One element per call of `setupComposeTracking`, in call order. */
    var composeSetups: seq<NodeId>
    /** Send buttons carrying `data-billables-listener`. */
    var listenedButtons: set<NodeId>
    /** One element per click listener added to a send button, in order. */
    var sendHandlers: seq<NodeId>

    /** The object invariant: a running timer has a start time, and each
        marker was set by exactly one attachment. */
    ghost predicate Valid()
      reads this
    {
      (isTracking ==> startTime.Some?) &&
      activityThreshold == ActivityThreshold &&
      NoDuplicates(composeSetups) && Elements(composeSetups) == trackedDialogs &&
      NoDuplicates(sendHandlers) && Elements(sendHandlers) == listenedButtons
    }

    function Timer(): Session
      reads this
    {
      Session(isTracking, startTime, totalTime, lastActivity)
    }

    function Context(): DraftContext
      reads this
    {
      DraftContext(emailContent, subject, recipient)
    }

    function Markers(): Registry
      reads this
    {
      Registry(trackedDialogs, composeSetups, listenedButtons, sendHandlers)
    }

    constructor (now: nat)
      ensures Valid()
      ensures Timer() == Initial(now)
      ensures Context() == DraftContext("", "", "")
      ensures Markers() == Registry({}, [], {}, [])
    {
      isTracking := false;
      startTime := None;
      totalTime := 0;
      emailContent := "";
      recipient := "";
      subject := "";
      lastActivity := now;
      activityThreshold := ActivityThreshold;
      trackedDialogs := {};
      composeSetups := [];
      listenedButtons := {};
      sendHandlers := [];
    }

    // -------------------------------------------------------------------------
    // Timer
    // -------------------------------------------------------------------------

    method StartTimer(now: nat)
      requires Valid() && ReadyAt(Timer(), now)
      modifies this
      ensures Valid()
      ensures Timer() == Start(old(Timer()), now)
      ensures Context() == old(Context()) && Markers() == old(Markers())
    {
      if !isTracking {
        isTracking := true;
        startTime := Some(now);
      }
    }

    method PauseTimer(now: nat)
      requires Valid() && ReadyAt(Timer(), now)
      modifies this
      ensures Valid()
      ensures Timer() == Pause(old(Timer()), now)
      ensures Context() == old(Context()) && Markers() == old(Markers())
    {
      if isTracking {
        isTracking := false;
        totalTime := totalTime + (now - startTime.value);
      }
    }

    method ResetTimer()
      requires Valid()
      modifies this
      ensures Valid()
      ensures Timer() == Reset(old(Timer()))
      ensures Context() == old(Context()) && Markers() == old(Markers())
    {
      isTracking := false;
      totalTime := 0;
      startTime := None;
    }

    /** The text `updateTimerDisplay` writes into the widget. */
    method UpdateTimerDisplay(now: nat) returns (text: string)
      requires Valid() && ReadyAt(Timer(), now)
      ensures TimerDisplay.Parse(text) == Some(TimerDisplay.FieldsOf(Elapsed(Timer(), now)))
      ensures TimerDisplay.FieldsMs(TimerDisplay.Parse(text).value) == Elapsed(Timer(), now) - Elapsed(Timer(), now) % 1000
    {
      var currentTime := totalTime;
      if isTracking {
        currentTime := currentTime + (now - startTime.value);
      }
      assert currentTime == Elapsed(Timer(), now);
      text := TimerDisplay.Format(currentTime);
      TimerDisplay.DisplayedValue(currentTime);
    }

    /** One firing of the activity monitor's 5 s interval. */
    method ActivityTick(now: nat)
      requires Valid() && ReadyAt(Timer(), now)
      modifies this
      ensures Valid()
      ensures Timer() == Tick(old(Timer()), now)
      ensures Context() == old(Context()) && Markers() == old(Markers())
    {
      if isTracking && now - lastActivity > activityThreshold {
        PauseTimer(now);
      }
    }

    // -------------------------------------------------------------------------
    // Handlers installed by setupComposeTracking
    // -------------------------------------------------------------------------

    /** Focus on the body: start the timer unless it runs. The activity time is not updated. */
    method OnBodyFocus(now: nat)
      requires Valid() && ReadyAt(Timer(), now)
      modifies this
      ensures Valid()
      ensures Timer() == Start(old(Timer()), now)
      ensures Context() == old(Context()) && Markers() == old(Markers())
    {
      if !isTracking {
        StartTimer(now);
      }
    }

    /** Input in the body: record the activity and the body text. */
    method OnBodyInput(now: nat, innerText: string, textContent: string)
      requires Valid()
      modifies this
      ensures Valid()
      ensures Timer() == Touch(old(Timer()), now)
      ensures Context() == old(Context()).(content := BodyText(innerText, textContent))
      ensures Markers() == old(Markers())
    {
      lastActivity := now;
      emailContent := BodyText(innerText, textContent);
    }

    /** The delayed blur check: pause when focus is no longer inside the dialog. */
    method OnBodyBlurTimeout(now: nat, focusInsideDialog: bool)
      requires Valid() && ReadyAt(Timer(), now)
      modifies this
      ensures Valid()
      ensures Timer() == if focusInsideDialog then old(Timer()) else Pause(old(Timer()), now)
      ensures Context() == old(Context()) && Markers() == old(Markers())
    {
      if !focusInsideDialog {
        PauseTimer(now);
      }
    }

    /** Input in the subject field. */
    method OnSubjectInput(now: nat, value: string)
      requires Valid()
      modifies this
      ensures Valid()
      ensures Timer() == Touch(old(Timer()), now)
      ensures Context() == old(Context()).(subject := value)
      ensures Markers() == old(Markers())
    {
      subject := value;
      lastActivity := now;
    }

    /** One firing of the 1 s recipient poll; `emails` are the `email`
        attributes of the dialog's recipient chips. */
    method PollRecipient(emails: seq<string>)
      requires Valid()
      modifies this
      ensures Valid()
      ensures recipient == NextRecipient(old(recipient), GetToEmail(emails))
      ensures old(recipient) != "" ==> recipient != ""
      ensures Timer() == old(Timer()) && Markers() == old(Markers())
      ensures emailContent == old(emailContent) && subject == old(subject)
    {
      var currentEmail := GetToEmail(emails);
      if currentEmail != "" && currentEmail != recipient {
        recipient := currentEmail;
      }
    }

    // -------------------------------------------------------------------------
    // Observers
    // -------------------------------------------------------------------------

    /** `setupComposeTracking`: installs the handlers above on one dialog. */
    method SetupComposeTracking(dialog: NodeId)
      modifies this
      ensures composeSetups == old(composeSetups) + [dialog]
      ensures trackedDialogs == old(trackedDialogs) && listenedButtons == old(listenedButtons)
      ensures sendHandlers == old(sendHandlers)
      ensures Timer() == old(Timer()) && Context() == old(Context())
    {
      composeSetups := composeSetups + [dialog];
    }

    /** The `forEach` over the dialogs found in the document. */
    method AttachComposeDialogs(dialogs: seq<NodeId>)
      requires Valid()
      modifies this
      ensures Valid()
      ensures trackedDialogs == old(trackedDialogs) + Elements(dialogs)
      ensures composeSetups == old(composeSetups) + NewlyAttached(dialogs, old(trackedDialogs))
      ensures listenedButtons == old(listenedButtons) && sendHandlers == old(sendHandlers)
      ensures Timer() == old(Timer()) && Context() == old(Context())
    {
      for j := 0 to |dialogs|
        invariant Valid()
        invariant trackedDialogs == old(trackedDialogs) + Elements(dialogs[..j])
        invariant composeSetups == old(composeSetups) + NewlyAttached(dialogs[..j], old(trackedDialogs))
        invariant listenedButtons == old(listenedButtons) && sendHandlers == old(sendHandlers)
        invariant Timer() == old(Timer()) && Context() == old(Context())
      {
        assert dialogs[..j + 1][..j] == dialogs[..j];
        if dialogs[j] !in trackedDialogs {
          SetupComposeTracking(dialogs[j]);
          trackedDialogs := trackedDialogs + {dialogs[j]};
        }
      }
      assert dialogs[..|dialogs|] == dialogs;
    }

    /** The compose observer's callback: for every `childList` mutation record,
        attach to each dialog that is not yet marked. */
    method OnComposeMutations(mutations: seq<MutationKind>, dialogs: seq<NodeId>)
      requires Valid()
      modifies this
      ensures Valid()
      ensures trackedDialogs == old(trackedDialogs) + (if ChildList in mutations then Elements(dialogs) else {})
      ensures composeSetups == old(composeSetups) + (if ChildList in mutations then NewlyAttached(dialogs, old(trackedDialogs)) else [])
      ensures listenedButtons == old(listenedButtons) && sendHandlers == old(sendHandlers)
      ensures Timer() == old(Timer()) && Context() == old(Context())
    {
      for i := 0 to |mutations|
        invariant Valid()
        invariant trackedDialogs == old(trackedDialogs) + (if ChildList in mutations[..i] then Elements(dialogs) else {})
        invariant composeSetups == old(composeSetups) + (if ChildList in mutations[..i] then NewlyAttached(dialogs, old(trackedDialogs)) else [])
        invariant listenedButtons == old(listenedButtons) && sendHandlers == old(sendHandlers)
        invariant Timer() == old(Timer()) && Context() == old(Context())
      {
        assert mutations[..i + 1] == mutations[..i] + [mutations[i]];
        if mutations[i] == ChildList {
          if ChildList in mutations[..i] {
            NothingNewWhenMarked(dialogs, trackedDialogs);
          }
          AttachComposeDialogs(dialogs);
        }
      }
      assert mutations[..|mutations|] == mutations;
    }

    /** `button.addEventListener('click', () => this.handleEmailSend())`. */
    method AddClickListener(button: NodeId)
      modifies this
      ensures sendHandlers == old(sendHandlers) + [button]
      ensures listenedButtons == old(listenedButtons) && trackedDialogs == old(trackedDialogs)
      ensures composeSetups == old(composeSetups)
      ensures Timer() == old(Timer()) && Context() == old(Context())
    {
      sendHandlers := sendHandlers + [button];
    }

    /** The send observer's callback: add one click listener to each send button not yet marked. */
    method OnSendMutations(buttons: seq<NodeId>)
      requires Valid()
      modifies this
      ensures Valid()
      ensures listenedButtons == old(listenedButtons) + Elements(buttons)
      ensures sendHandlers == old(sendHandlers) + NewlyAttached(buttons, old(listenedButtons))
      ensures trackedDialogs == old(trackedDialogs) && composeSetups == old(composeSetups)
      ensures Timer() == old(Timer()) && Context() == old(Context())
    {
      for j := 0 to |buttons|
        invariant Valid()
        invariant listenedButtons == old(listenedButtons) + Elements(buttons[..j])
        invariant sendHandlers == old(sendHandlers) + NewlyAttached(buttons[..j], old(listenedButtons))
        invariant trackedDialogs == old(trackedDialogs) && composeSetups == old(composeSetups)
        invariant Timer() == old(Timer()) && Context() == old(Context())
      {
        assert buttons[..j + 1][..j] == buttons[..j];
        if buttons[j] !in listenedButtons {
          AddClickListener(buttons[j]);
          listenedButtons := listenedButtons + {buttons[j]};
        }
      }
      assert buttons[..|buttons|] == buttons;
    }

    // -------------------------------------------------------------------------
    // Send, entry generation and persistence
    // -------------------------------------------------------------------------

    /** `handleEmailSend` through `generateBillableEntry`: returns the draft the
        confirmation dialog shows, or None when there is nothing to bill.
        `summary` is what the summary generator returned. */
    method HandleEmailSend(now: nat, summary: string) returns (draft: Option<Draft>)
      requires Valid() && ReadyAt(Timer(), now)
      modifies this
      ensures Valid()
      ensures Context() == old(Context()) && Markers() == old(Markers())
      ensures old(totalTime) == 0 && !old(isTracking) ==> draft == None && Timer() == old(Timer())
      ensures old(totalTime) > 0 || old(isTracking) ==>
                Timer() == Pause(old(Timer()), now) && !isTracking &&
                draft == Some(GenerateBillableEntry(SendData(totalTime, emailContent, recipient, subject, now), summary))
      ensures draft.Some? ==> draft.value.data.duration == totalTime == Elapsed(old(Timer()), now)
    {
      if totalTime > 0 || isTracking {
        PauseTimer(now);
        var billableData := SendData(Elapsed(Timer(), now), emailContent, recipient, subject, now);
        draft := Some(GenerateBillableEntry(billableData, summary));
      } else {
        draft := None;
      }
    }

    /** A click on a send button: the browser runs every click listener the
        button carries, and the registry guarantees there is at most one. */
    method ClickSend(button: NodeId, now: nat, summary: string) returns (draft: Option<Draft>)
      requires Valid() && ReadyAt(Timer(), now)
      modifies this
      ensures Valid()
      ensures Context() == old(Context()) && Markers() == old(Markers())
      ensures button !in listenedButtons ==> draft == None && Timer() == old(Timer())
      ensures old(totalTime) == 0 && !old(isTracking) ==> draft == None && Timer() == old(Timer())
      ensures button in listenedButtons && (old(totalTime) > 0 || old(isTracking)) ==>
                Timer() == Pause(old(Timer()), now) &&
                draft == Some(GenerateBillableEntry(SendData(totalTime, emailContent, recipient, subject, now), summary))
    {
      var listeners := Count(sendHandlers, button);
      CountAtMostOne(sendHandlers, button);
      if listeners == 1 {
        draft := HandleEmailSend(now, summary);
      } else {
        draft := None;
      }
    }

    /** `getStoredEntries`. */
    method GetStoredEntries(store: EntryStore) returns (entries: seq<StoredEntry>)
      ensures entries == (if store.billableEntries.Some? then store.billableEntries.value else [])
    {
      entries := store.Entries();
    }

    /** `saveLocally`: append the entry, then close the dialog and reset the
        timer; when the write fails nothing changes and the entry can be saved again. */
    method SaveLocally(store: EntryStore, entryData: Draft, now: nat, writeOk: bool) returns (ok: bool)
      requires Valid()
      modifies this, store
      ensures Valid()
      ensures ok == writeOk
      ensures store.billableEntries == if writeOk then Some(old(store.Entries()) + [LocalEntry(entryData, now)]) else old(store.billableEntries)
      ensures Timer() == if writeOk then Reset(old(Timer())) else old(Timer())
      ensures Context() == old(Context()) && Markers() == old(Markers())
    {
      var entries := GetStoredEntries(store);
      entries := entries + [LocalEntry(entryData, now)];
      ok := store.Set(entries, writeOk);
      if ok {
        ResetTimer();
      }
    }

    /** `saveToPracticePanther` in the content script: returns the request body;
        `accepted` is whether the backend answered with `success`. Only then is
        the timer reset. */
    method SaveToPracticePanther(entryData: Draft, rateInput: real, accepted: bool) returns (payload: LogPayload)
      requires Valid()
      modifies this
      ensures Valid()
      ensures payload == DialogLogPayload(entryData, rateInput)
      ensures Timer() == if accepted then Reset(old(Timer())) else old(Timer())
      ensures Context() == old(Context()) && Markers() == old(Markers())
    {
      payload := DialogLogPayload(entryData, rateInput);
      if accepted {
        ResetTimer();
      }
    }
  }
}
