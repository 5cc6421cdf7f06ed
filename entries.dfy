/**
 * The records that flow from a send click to storage and to the backend
 * (chrome-extension/content.js:204-243, 320-379): the snapshot taken on
 * send, the draft entry shown for confirmation with its hours, the entry as
 * `saveLocally` stores it, and the body of a log request.
 */
module Entries {
  import opened Wrappers
  import HoursParser
  import TimerDisplay

  /** `billableData` of `handleEmailSend`: the snapshot taken when the send button is clicked. */
  datatype SendData = SendData(duration: nat, content: string, recipient: string, subject: string, timestamp: nat)

  /** `entryData`: the snapshot with its summary and hours, as shown for confirmation. */
  datatype Draft = Draft(data: SendData, summary: string, hours: real)

  /** An element of the `billableEntries` list in local storage. `synced` is
      absent (None) unless some other writer set it. */
  datatype StoredEntry = StoredEntry(entry: Draft, id: nat, saved: bool, synced: Option<bool>)

  /** The only `source` and `status` values the extension sends: "email" and "logged". */
  datatype Source = Email
  datatype Status = Logged

  /** The JSON body of a `POST /log` request. */
  datatype LogPayload = LogPayload(recipient: string, subject: string, content: string, summary: string,
                                   timeSpent: real, source: Source, status: Status, rate: real)

  /** The hours of a draft: an explicit hour count found in the body wins,
      otherwise the timer duration converted to hours; never a mix of both. */
  function SelectHours(parsed: Option<real>, duration: nat): (h: real)
    ensures parsed.Some? ==> h == parsed.value
    ensures parsed.None? ==> h * TimerDisplay.MsPerHour as real == duration as real
  {
    if parsed.Some? then parsed.value else duration as real / TimerDisplay.MsPerHour as real
  }

  /** `generateBillableEntry` up to the confirmation dialog; `summary` is what
      the summary generator returned. */
  function GenerateBillableEntry(data: SendData, summary: string): (d: Draft)
    ensures d.data == data && d.summary == summary
    ensures d.hours >= 0.0
    ensures HoursParser.ParseHours(data.content).Some? ==> d.hours == HoursParser.ParseHours(data.content).value
    ensures HoursParser.ParseHours(data.content).None? ==> d.hours * TimerDisplay.MsPerHour as real == data.duration as real
  {
    Draft(data, summary, SelectHours(HoursParser.ParseHours(data.content), data.duration))
  }

  /** The entry `saveLocally` appends: the draft, `id = Date.now()`, `saved: false`, no `synced` field. */
  function LocalEntry(d: Draft, now: nat): (e: StoredEntry)
    ensures e.entry == d && e.id == now && !e.saved && e.synced == None
  {
    StoredEntry(d, now, false, None)
  }

  /** The body `saveToPracticePanther` in the content script sends: the
      draft's hours converted back to milliseconds (the dialog's Hours field
      is not read back) and the rate typed into the dialog. */
  function DialogLogPayload(d: Draft, rateInput: real): (p: LogPayload)
    ensures p.timeSpent == d.hours * TimerDisplay.MsPerHour as real && p.rate == rateInput
    ensures p.source == Email && p.status == Logged
    ensures p.recipient == d.data.recipient && p.subject == d.data.subject
    ensures p.content == d.data.content && p.summary == d.summary
  {
    LogPayload(d.data.recipient, d.data.subject, d.data.content, d.summary, d.hours * TimerDisplay.MsPerHour as real, Email, Logged, rateInput)
  }

  /** Without an hour expression in the body, the logged time is exactly the
      timer duration (the two-decimal rounding of the dialog is not modelled). */
  lemma LoggedTimeIsDuration(data: SendData, summary: string, rateInput: real)
    requires HoursParser.ParseHours(data.content).None?
    ensures DialogLogPayload(GenerateBillableEntry(data, summary), rateInput).timeSpent == data.duration as real
  {
  }

  /** 90 s of tracked time and no hour expression give 0.025 hours. */
  lemma NinetySecondsOfHours(data: SendData, summary: string)
    requires data.duration == 90000 && HoursParser.ParseHours(data.content).None?
    ensures GenerateBillableEntry(data, summary).hours == 0.025
  {
  }
}
