/** The `send_mailing` management command: it sends the message of one
    mailing to each of its recipients once, writing "Отправлено" before and
    "Завершена" after, and logs no attempts. */
module SendCommand {
  import opened Shared
  import opened MailModels
  import opened MailViews

  /** How the command ends.
      `MissingMailing`: no mailing has that id; the error is written to
      standard output and the following status write raises.
      `Aborted`: a send raised something other than `SMTPRecipientsRefused`,
      which escapes; `sent` sends had been attempted.
      `Completed`: every recipient was sent to. */
  datatype CommandOutcome = MissingMailing | Aborted(error: string, sent: nat) | Completed(sent: nat)

  /** The position of the first of `n` recipients whose send raises an
      error the command does not catch. */
  function FirstFailure(deliver: nat -> Delivery, n: nat): (r: Option<nat>)
    ensures r.Some? ==> r.value < n && deliver(r.value).SendFailed?
    ensures r.Some? ==> forall p :: 0 <= p < r.value ==> !deliver(p).SendFailed?
    ensures r.None? <==> forall p :: 0 <= p < n ==> !deliver(p).SendFailed?
  {
    if n == 0 then None
    else
      var earlier := FirstFailure(deliver, n - 1);
      if earlier.Some? then earlier
      else if deliver(n - 1).SendFailed? then Some(n - 1)
      else None
  }

  /** `Command.handle` for `mailingId`, `deliver(p)` being the outcome of
      `send_mail` for the recipient at position `p`. */
  method Handle(store: Store, mailingId: int, deliver: nat -> Delivery) returns (outcome: CommandOutcome)
    requires store.Valid()
    modifies store
    ensures store.Valid()
    ensures store.recipients == old(store.recipients) && store.messages == old(store.messages)
    ensures store.attempts == old(store.attempts)
    ensures mailingId < 0 || !HasMailing(old(store.mailings), mailingId as nat) ==>
              outcome == MissingMailing && store.mailings == old(store.mailings)
    ensures mailingId >= 0 && HasMailing(old(store.mailings), mailingId as nat) ==>
              var i := FindMailing(old(store.mailings), mailingId as nat).value;
              var n := |old(store.mailings)[i].recipients|;
              match FirstFailure(deliver, n)
              case Some(p) =>
                outcome == Aborted(deliver(p).error, p + 1) && store.mailings == SetStatus(old(store.mailings), i, SENT)
              case None =>
                outcome == Completed(n) && store.mailings == SetStatus(old(store.mailings), i, FINISHED)
  {
    if mailingId < 0 {
      return MissingMailing;
    }
    var found := FindMailing(store.mailings, mailingId as nat);
    if found.None? {
      return MissingMailing;
    }
    var i := found.value;
    store.WriteStatus(i, SENT);
    var rs := store.mailings[i].recipients;
    var p := 0;
    while p < |rs|
      invariant 0 <= p <= |rs|
      invariant forall q :: 0 <= q < p ==> !deliver(q).SendFailed?
    {
      match deliver(p)
      case SendFailed(e) =>
        assert FirstFailure(deliver, |rs|) == Some(p);
        return Aborted(e, p + 1);
      case _ =>
        // a delivered message, or a refusal that is only printed
      p := p + 1;
    }
    SetStatusTwice(old(store.mailings), i, SENT, FINISHED);
    store.WriteStatus(i, FINISHED);
    outcome := Completed(|rs|);
  }
}
