/** Reading the portal's texts: the alert-dialog listener that turns the
    booking confirmation dialog into a signal for the click loop, and the
    check of the confirmation page after a booking. Both match literal
    portal phrases by substring. */
module Dialog {
  import opened GoLib

  /** The phrase of the dialog that asks the user to confirm a booking. */
  const ConfirmPhrase: string := "您是否確定預約"
  /** The portal's text for "you have already booked two slots today". */
  const DailyLimitText: string := "您今日已預約超過可預約場地2場次(2小時)"
  /** The portal's text for "network busy, please book again later". */
  const BusyText: string := "網路繁忙中，請您稍後重新執行預約作業"

  /** What the listener does with one dialog: whether it publishes the
      confirmation signal, and whether it accepts (closes) the dialog. */
  datatype Reaction = Reaction(signal: bool, accept: bool)

  /** The listener registered by `registerAlertDialogListen`, for one
      `EventJavascriptDialogOpening` carrying `message`. */
  function OnDialog(message: string, dryRun: bool): (r: Reaction)
    ensures r.signal <==> exists i :: OccursAt(message, ConfirmPhrase, i)
    ensures r.accept <==> !(r.signal && dryRun)
  {
    if Contains(message, ConfirmPhrase) then
      if dryRun then Reaction(true, false) else Reaction(true, true)
    else
      Reaction(false, true)
  }

  /** A dialog that is not the confirmation dialog is accepted and never
      signals, in a dry run or not. */
  lemma StrayDialogAccepted(message: string, dryRun: bool)
    requires forall i :: !OccursAt(message, ConfirmPhrase, i)
    ensures OnDialog(message, dryRun) == Reaction(false, true)
  {
  }

  /** A dialog whose message contains the confirmation phrase anywhere
      signals in both modes; a dry run leaves it open. */
  lemma DryRunLeavesConfirmationOpen(message: string)
    requires Contains(message, ConfirmPhrase)
    ensures OnDialog(message, true) == Reaction(true, false)
    ensures OnDialog(message, false) == Reaction(true, true)
  {
  }

  /** What `reserve` concludes from the confirmation page once `ensure` has
      succeeded. */
  datatype Verdict =
    | NoError             // booked, or a dry run that stopped at the dialog
    | DailyLimitExceeded  // the account already holds two slots today
    | NetworkBusy         // the portal was busy: someone else got the slot
    | InfoUnreadable      // waiting for or reading the info label failed

  /** The post-confirmation check of `reserve`; `info` is the text of the
      info label, or `None` when the browser could not read it. In a dry
      run nothing is read. */
  function CheckOutcome(dryRun: bool, info: Option<string>): (v: Verdict)
    ensures dryRun ==> v == NoError
    ensures !dryRun && info.None? ==> v == InfoUnreadable
    ensures !dryRun && info.Some? ==>
      && (v == DailyLimitExceeded <==> exists i :: OccursAt(info.value, DailyLimitText, i))
      && (v == NetworkBusy <==>
            (forall i :: !OccursAt(info.value, DailyLimitText, i)) &&
            exists i :: OccursAt(info.value, BusyText, i))
      && (v == NoError <==>
            (forall i :: !OccursAt(info.value, DailyLimitText, i)) &&
            forall i :: !OccursAt(info.value, BusyText, i))
  {
    if dryRun then NoError
    else match info
      case None => InfoUnreadable
      case Some(text) =>
        if Contains(text, DailyLimitText) then DailyLimitExceeded
        else if Contains(text, BusyText) then NetworkBusy
        else NoError
  }

  /** The daily-limit text is looked for first: a page showing both texts
      is reported as the daily limit. */
  lemma DailyLimitCheckedFirst(text: string)
    requires Contains(text, DailyLimitText) && Contains(text, BusyText)
    ensures CheckOutcome(false, Some(text)) == DailyLimitExceeded
  {
  }
}
