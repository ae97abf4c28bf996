/** The view layer of the mailing application (`mail_serv/views.py`): the
    mailing lifecycle (create, send trigger, background send cycle, disable,
    deletion with its cascades) as methods on the database, and the profile
    and statistics pages as queries over its tables. */
module MailViews {
  import opened Shared
  import opened MailModels

  /** The route every mailing handler redirects to. */
  const PROFILE: string := "mail_serv:profile"

  // Delivery and the attempt log.

  /** What `send_mail` does for one recipient: it returns, raises
      `SMTPRecipientsRefused`, or raises any other exception, whose text is
      `error`. */
  datatype Delivery = Delivered | RecipientsRefused | SendFailed(error: string)

  /** The attempt row logged for one delivery. */
  function AttemptFor(d: Delivery, mailing: nat, owner: nat): (a: Attempt)
    ensures a.mailing == mailing && a.owner == owner && AttemptFits(a)
    ensures a.status == SUCCESS <==> d.Delivered?
    ensures d.Delivered? ==> a.serverResponse == "Сообщение отправлено"
    ensures d.RecipientsRefused? ==> a.serverResponse == "Почты не существует"
    ensures d.SendFailed? ==> a.serverResponse == "Ошибка при отправке " + d.error
  {
    match d
    case Delivered => Attempt(SUCCESS, "Сообщение отправлено", mailing, owner)
    case RecipientsRefused => Attempt(FAILURE, "Почты не существует", mailing, owner)
    case SendFailed(e) => Attempt(FAILURE, "Ошибка при отправке " + e, mailing, owner)
  }

  /** The attempts that the pass of cycle `cycle` logs for the first `n`
      recipients, `deliver(cycle, p)` being the outcome for the recipient at
      position `p`. */
  function CycleLog(n: nat, cycle: nat, deliver: (nat, nat) -> Delivery, mailing: nat, owner: nat): seq<Attempt> {
    if n == 0 then []
    else CycleLog(n - 1, cycle, deliver, mailing, owner) + [AttemptFor(deliver(cycle, n - 1), mailing, owner)]
  }

  /** A pass logs exactly one attempt per recipient, in recipient order, each
      for this mailing and the triggering user, with the status and response
      its delivery outcome dictates. */
  lemma {:induction false} CycleLogShape(n: nat, cycle: nat, deliver: (nat, nat) -> Delivery, mailing: nat, owner: nat)
    ensures |CycleLog(n, cycle, deliver, mailing, owner)| == n
    ensures forall p :: 0 <= p < n ==>
      CycleLog(n, cycle, deliver, mailing, owner)[p] == AttemptFor(deliver(cycle, p), mailing, owner)
  {
    if n > 0 {
      CycleLogShape(n - 1, cycle, deliver, mailing, owner);
    }
  }

  /** For a stored mailing, whose recipients form a set, a pass logs exactly
      one attempt per distinct recipient. */
  lemma PassPerRecipient(m: Mailing, rs: seq<Recipient>, gs: seq<Message>, cycle: nat, deliver: (nat, nat) -> Delivery, owner: nat)
    requires MailingRefsExist(m, rs, gs)
    ensures |CycleLog(|m.recipients|, cycle, deliver, m.id, owner)| == |Members(m.recipients)|
  {
    CycleLogShape(|m.recipients|, cycle, deliver, m.id, owner);
    LinksCountRecipients(m.recipients);
  }

  /** The attempts logged by `cycles` complete passes over `n` recipients. */
  function RunLog(cycles: nat, n: nat, deliver: (nat, nat) -> Delivery, mailing: nat, owner: nat): seq<Attempt> {
    if cycles == 0 then []
    else RunLog(cycles - 1, n, deliver, mailing, owner) + CycleLog(n, cycles - 1, deliver, mailing, owner)
  }

  /** `cycles` passes log `cycles * n` attempts, all for this mailing and
      owner; a single pass logs exactly the attempts of that pass. */
  lemma {:induction false} RunLogShape(cycles: nat, n: nat, deliver: (nat, nat) -> Delivery, mailing: nat, owner: nat)
    ensures |RunLog(cycles, n, deliver, mailing, owner)| == cycles * n
    ensures forall k :: 0 <= k < |RunLog(cycles, n, deliver, mailing, owner)| ==>
      var a := RunLog(cycles, n, deliver, mailing, owner)[k];
      a.mailing == mailing && a.owner == owner && AttemptFits(a)
    ensures RunLog(0, n, deliver, mailing, owner) == []
    ensures RunLog(1, n, deliver, mailing, owner) == CycleLog(n, 0, deliver, mailing, owner)
  {
    CycleLogShape(n, if cycles == 0 then 0 else cycles - 1, deliver, mailing, owner);
    if cycles > 0 {
      RunLogShape(cycles - 1, n, deliver, mailing, owner);
      var before := RunLog(cycles - 1, n, deliver, mailing, owner);
      var pass := CycleLog(n, cycles - 1, deliver, mailing, owner);
      var all: seq<Attempt> := before + pass;
      assert |all| == (cycles - 1) * n + n;
      forall k | 0 <= k < |all|
        ensures all[k].mailing == mailing && all[k].owner == owner && AttemptFits(all[k])
      {
        if k >= |before| {
          assert all[k] == pass[k - |before|];
        } else {
          assert all[k] == before[k];
        }
      }
    }
  }

  /** Logging one more pass after `cycles` passes gives the log of
      `cycles + 1` passes. */
  lemma RunLogStep(log: seq<Attempt>, cycles: nat, n: nat, deliver: (nat, nat) -> Delivery, mailing: nat, owner: nat)
    ensures log + RunLog(cycles, n, deliver, mailing, owner) + CycleLog(n, cycles, deliver, mailing, owner)
            == log + RunLog(cycles + 1, n, deliver, mailing, owner)
  {
  }

  /** Every status that other handlers write between the worker's own
      "Завершена" and its next refresh is "Завершена" (a disable), never one
      that revives the mailing. A write seen by the first refresh comes
      before any pass and cannot revive anything. */
  ghost predicate NoRevival(external: nat -> Option<string>) {
    forall j :: j >= 1 && external(j).Some? ==> external(j).value == FINISHED
  }

  /** Pass `c` of the loop ran: the `c + 1`-th loop test held, and the
      `c`-th refresh did not read "Завершена". */
  predicate PassRan(clock: seq<int>, end: int, external: nat -> Option<string>, c: nat) {
    c + 1 < |clock| && clock[c + 1] < end && !SeesFinished(external, c)
  }

  /** The loop ran exactly `cycles` passes: every earlier pass ran, and at
      pass `cycles` the loop test or the refresh stops it. */
  predicate LoopStops(clock: seq<int>, end: int, external: nat -> Option<string>, cycles: nat) {
    && cycles + 1 < |clock|
    && (forall c :: 0 <= c < cycles ==> PassRan(clock, end, external, c))
    && (clock[cycles + 1] >= end || SeesFinished(external, cycles))
  }

  /** A loop that stops this way runs a pass exactly when the first loop
      test holds and the first refresh does not read "Завершена", and, with
      no revival, at most one pass. */
  lemma LoopStopsBounds(clock: seq<int>, end: int, external: nat -> Option<string>, cycles: nat)
    requires LoopStops(clock, end, external, cycles)
    ensures cycles > 0 <==> clock[1] < end && external(0) != Some(FINISHED)
    ensures NoRevival(external) ==> cycles <= 1
  {
    if cycles > 0 {
      assert PassRan(clock, end, external, 0);
    }
    if cycles > 1 {
      assert PassRan(clock, end, external, 1);
    }
  }

  /** The `j`-th refresh of the loop reads "Завершена": another handler
      wrote it, or nobody wrote anything and the status is the worker's own
      ("Запущена" before the first pass, "Завершена" after every pass). */
  predicate SeesFinished(external: nat -> Option<string>, j: nat) {
    if external(j).Some? then external(j).value == FINISHED else j > 0
  }

  /** How the background worker ends: it returns, or it dies with an
      exception (comparing the clock with a null `ended_at`). */
  datatype WorkerOutcome = Returned | Crashed

  /** The status the worker leaves behind, given the end of the mailing and
      the first two clock readings. */
  function WorkerStatus(end: Option<int>, clock: seq<int>): string
    requires |clock| >= 2
  {
    if end.None? then STARTED
    else if clock[0] > end.value || clock[1] < end.value then FINISHED
    else STARTED
  }

  // The profile page.

  datatype ProfilePage = ProfilePage(
    mailings: seq<Mailing>,
    recipients: seq<Recipient>,
    messages: seq<Message>,
    totalMessages: nat,
    totalRecipients: nat,
    totalMailings: nat)

  /** `RecipientView.get_context_data`: a holder of `can_disable_mailing` sees
      every row, any other user exactly the rows they own; each total is a
      separate count query and equals the length of its list. */
  function ProfileContext(canDisable: bool, user: nat, rs: seq<Recipient>, gs: seq<Message>, ms: seq<Mailing>): (c: ProfilePage)
    ensures canDisable ==> c.mailings == ms && c.recipients == rs && c.messages == gs
    ensures !canDisable ==> forall m :: m in c.mailings <==> m in ms && m.owner == user
    ensures !canDisable ==> forall r :: r in c.recipients <==> r in rs && r.owner == user
    ensures !canDisable ==> forall g :: g in c.messages <==> g in gs && g.owner == user
    ensures !canDisable ==> forall m :: multiset(c.mailings)[m] == if m.owner == user then multiset(ms)[m] else 0
    ensures !canDisable ==> forall r :: multiset(c.recipients)[r] == if r.owner == user then multiset(rs)[r] else 0
    ensures !canDisable ==> forall g :: multiset(c.messages)[g] == if g.owner == user then multiset(gs)[g] else 0
    ensures c.totalMailings == |c.mailings| && c.totalRecipients == |c.recipients| && c.totalMessages == |c.messages|
  {
    if canDisable then ProfilePage(ms, rs, gs, |gs|, |rs|, |ms|)
    else
      var ownR := (r: Recipient) => r.owner == user;
      var ownG := (g: Message) => g.owner == user;
      var ownM := (m: Mailing) => m.owner == user;
      CountIsFilterLength(rs, ownR);
      CountIsFilterLength(gs, ownG);
      CountIsFilterLength(ms, ownM);
      FilterMultiset(rs, ownR);
      FilterMultiset(gs, ownG);
      FilterMultiset(ms, ownM);
      ProfilePage(Filter(ms, ownM), Filter(rs, ownR), Filter(gs, ownG), Count(gs, ownG), Count(rs, ownR), Count(ms, ownM))
  }

  // The statistics page.

  /** `EmailSendingAttemptListView.get_queryset`: the requester's attempts,
      for one mailing when a `mailing_id` is given. */
  function AttemptQueryset(log: seq<Attempt>, user: nat, mailingId: Option<nat>): (r: seq<Attempt>)
    ensures forall a :: a in r <==> a in log && a.owner == user && (mailingId.Some? ==> a.mailing == mailingId.value)
    ensures forall a :: multiset(r)[a] ==
              if a.owner == user && (mailingId.Some? ==> a.mailing == mailingId.value) then multiset(log)[a] else 0
    ensures |r| <= |log|
  {
    if mailingId.Some? then
      var mine := (a: Attempt) => a.mailing == mailingId.value && a.owner == user;
      FilterMultiset(log, mine);
      Filter(log, mine)
    else
      var mine := (a: Attempt) => a.owner == user;
      FilterMultiset(log, mine);
      Filter(log, mine)
  }

  datatype StatisticsPage = StatisticsPage(
    attempts: seq<Attempt>,
    successCount: nat,
    failureCount: nat,
    successful: seq<Attempt>,
    unsuccessful: seq<Attempt>)

  /** `EmailSendingAttemptListView.get_context_data`: the counts are separate
      count queries and equal the sizes of the two sublists; when every
      attempt has one of the two declared statuses they add up to the whole
      list. */
  function StatisticsContext(qs: seq<Attempt>): (c: StatisticsPage)
    ensures c.attempts == qs
    ensures forall a :: a in c.successful <==> a in qs && a.status == SUCCESS
    ensures forall a :: a in c.unsuccessful <==> a in qs && a.status == FAILURE
    ensures forall a :: multiset(c.successful)[a] == if a.status == SUCCESS then multiset(qs)[a] else 0
    ensures forall a :: multiset(c.unsuccessful)[a] == if a.status == FAILURE then multiset(qs)[a] else 0
    ensures c.successCount == |c.successful| && c.failureCount == |c.unsuccessful|
    ensures (forall i :: 0 <= i < |qs| ==> AttemptFits(qs[i])) ==> c.successCount + c.failureCount == |qs|
  {
    var ok := (a: Attempt) => a.status == SUCCESS;
    var failed := (a: Attempt) => a.status == FAILURE;
    CountIsFilterLength(qs, ok);
    CountIsFilterLength(qs, failed);
    FilterMultiset(qs, ok);
    FilterMultiset(qs, failed);
    if forall i :: 0 <= i < |qs| ==> AttemptFits(qs[i]) then
      CountPartition(qs, ok, failed);
      StatisticsPage(qs, Count(qs, ok), Count(qs, failed), Filter(qs, ok), Filter(qs, failed))
    else
      StatisticsPage(qs, Count(qs, ok), Count(qs, failed), Filter(qs, ok), Filter(qs, failed))
  }

  /** The database of the mailing application, one table per record type. */
  class Store {
    var recipients: seq<Recipient>
    var messages: seq<Message>
    var mailings: seq<Mailing>
    var attempts: seq<Attempt>

    predicate Valid()
      reads this
    {
      Consistent(recipients, messages, mailings, attempts)
    }

    constructor (rs: seq<Recipient>, gs: seq<Message>, ms: seq<Mailing>, log: seq<Attempt>)
      requires Consistent(rs, gs, ms, log)
      ensures Valid()
      ensures recipients == rs && messages == gs && mailings == ms && attempts == log
    {
      recipients, messages, mailings, attempts := rs, gs, ms, log;
    }

    /** `MailingCreateView.form_valid`: the mailing the form describes is
        saved with the requester as owner and status "Создана". The form made
        both timestamps required and offered only existing rows as choices;
        the cleaned multiple choice holds each chosen row once. */
    method CreateMailing(requester: nat, newId: nat, now: int, startedAt: int, endedAt: int, message: nat, chosen: seq<nat>)
      returns (r: Response)
      requires Valid() && !HasMailing(mailings, newId)
      requires HasMessage(messages, message)
      requires forall k :: 0 <= k < |chosen| ==> HasRecipient(recipients, chosen[k])
      requires UniqueKeys(chosen, LinkKey)
      modifies this
      ensures Valid() && r == Redirect(PROFILE)
      ensures mailings == old(mailings) + [Mailing(newId, now, Some(startedAt), Some(endedAt), CREATED, message, chosen, requester)]
      ensures recipients == old(recipients) && messages == old(messages) && attempts == old(attempts)
    {
      var m := Mailing(newId, now, Some(startedAt), Some(endedAt), CREATED, message, chosen, requester);
      WrittenStatusesFit();
      var ms := mailings + [m];
      assert UniqueKeys(ms, MailingKey) by {
        forall i, j | 0 <= i < j < |ms| ensures ms[i].id != ms[j].id {
          if j == |mailings| {
            assert ms[i] == mailings[i];
          } else {
            assert ms[i] == mailings[i] && ms[j] == mailings[j];
          }
        }
      }
      forall i | 0 <= i < |attempts| ensures HasMailing(ms, attempts[i].mailing) {
        assert HasMailing(mailings, attempts[i].mailing);
        var j :| 0 <= j < |mailings| && mailings[j].id == attempts[i].mailing;
        assert ms[j] == mailings[j];
      }
      mailings := ms;
      r := Redirect(PROFILE);
    }

    /** `MailingSendView.post`: the primary key comes from the route or, when
        the route has none, from the posted form. An unknown key raises
        `DoesNotExist`; otherwise the status becomes "Запущена" and the
        background worker (`SendMessage`) is started. */
    method Send(pk: Option<nat>, postedPk: Option<nat>) returns (r: Response)
      requires Valid()
      modifies this
      ensures Valid()
      ensures recipients == old(recipients) && messages == old(messages) && attempts == old(attempts)
      ensures var key := if pk.Some? then pk else postedPk;
        if key.None? || !HasMailing(old(mailings), key.value) then
          r == ServerError && mailings == old(mailings)
        else
          r == Redirect(PROFILE) && mailings == SetStatus(old(mailings), FindMailing(old(mailings), key.value).value, STARTED)
    {
      var key := if pk.Some? then pk else postedPk;
      if key.None? {
        return ServerError;
      }
      var found := FindMailing(mailings, key.value);
      if found.None? {
        return ServerError;
      }
      WrittenStatusesFit();
      StatusWriteKeepsConsistent(recipients, messages, mailings, attempts, found.value, STARTED);
      mailings := SetStatus(mailings, found.value, STARTED);
      r := Redirect(PROFILE);
    }

    /** `send_message`, the background worker, for mailing `id` started by
        `owner`.

        `clock` holds the successive readings of the clock: `clock[0]` for the
        check against `ended_at`, then one reading per test of the loop
        condition. `external(j)` is the last status another handler saved
        before the `j`-th refresh, if any: for `j = 0` after the worker's
        first write, for later `j` after the worker's own "Завершена" that
        ends the previous pass (a write during the pause before that save is
        overwritten by it and never seen). `deliver(c, p)` is the outcome of
        sending to the recipient at position `p` in pass `c`.

        Pass `c` runs exactly when the `c + 1`-th loop test holds and the
        `c`-th refresh does not read "Завершена", and the loop stops at the
        first test or refresh that fails. The worker logs one attempt per
        recipient per pass. Because it writes "Завершена" at the end of every
        pass, a second pass runs only if some other handler revives the
        mailing after that write. */
    method SendMessage(id: nat, owner: nat, clock: seq<int>, external: nat -> Option<string>, deliver: (nat, nat) -> Delivery)
      returns (outcome: WorkerOutcome, cycles: nat)
      requires Valid() && HasMailing(mailings, id)
      requires |clock| >= 2
      requires forall i :: 0 <= i < |mailings| && mailings[i].id == id && mailings[i].endedAt.Some? ==>
                 mailings[i].endedAt.value <= clock[|clock| - 1]
      requires forall j :: external(j).Some? ==> WrittenStatus(external(j).value)
      modifies this
      ensures Valid()
      ensures recipients == old(recipients) && messages == old(messages)
      ensures var i := FindMailing(old(mailings), id).value;
              var m := old(mailings)[i];
              && mailings == SetStatus(old(mailings), i, WorkerStatus(m.endedAt, clock))
              && attempts == old(attempts) + RunLog(cycles, |m.recipients|, deliver, id, owner)
              && (outcome == Crashed <==> m.endedAt.None?)
              && (cycles > 0 <==> m.endedAt.Some? && clock[0] <= m.endedAt.value && clock[1] < m.endedAt.value
                                  && external(0) != Some(FINISHED))
              && (m.endedAt.Some? && clock[0] > m.endedAt.value ==> cycles == 0 && attempts == old(attempts))
              && (m.endedAt.Some? && clock[0] == m.endedAt.value <= clock[1] ==>
                    cycles == 0 && mailings[i].status == STARTED)
              && (m.endedAt.Some? && clock[0] <= m.endedAt.value ==> LoopStops(clock, m.endedAt.value, external, cycles))
      ensures NoRevival(external) ==> cycles <= 1
    {
      var i := FindMailing(mailings, id).value;
      WriteStatus(i, STARTED);
      var rs := mailings[i].recipients;
      var endOpt := mailings[i].endedAt;
      if endOpt.None? {
        return Crashed, 0;
      }
      var end := endOpt.value;
      if clock[0] > end {
        WriteStatus(i, FINISHED);
        return Returned, 0;
      }
      cycles := SendLoop(i, end, clock, external, deliver, owner);
      outcome := Returned;
    }

    /** `mailing.status = s; mailing.save()` on row `i`. */
    method WriteStatus(i: nat, s: string)
      requires Valid() && i < |mailings| && WrittenStatus(s)
      modifies this`mailings
      ensures Valid()
      ensures mailings == SetStatus(old(mailings), i, s)
    {
      WrittenStatusesFit();
      StatusWriteKeepsConsistent(recipients, messages, mailings, attempts, i, s);
      mailings := SetStatus(mailings, i, s);
    }

    /** The `while` loop of the worker, for the mailing on row `i`, whose
        `ended_at` is `end` and which `clock[0]` has not passed. */
    method SendLoop(i: nat, end: int, clock: seq<int>, external: nat -> Option<string>, deliver: (nat, nat) -> Delivery, owner: nat)
      returns (cycles: nat)
      requires Valid() && i < |mailings| && mailings[i].status == STARTED
      requires 2 <= |clock| && clock[|clock| - 1] >= end
      requires forall j :: external(j).Some? ==> WrittenStatus(external(j).value)
      modifies this`mailings, this`attempts
      ensures Valid()
      ensures mailings == SetStatus(old(mailings), i, if clock[1] < end then FINISHED else STARTED)
      ensures attempts == old(attempts) + RunLog(cycles, |old(mailings)[i].recipients|, deliver, old(mailings)[i].id, owner)
      ensures cycles > 0 <==> clock[1] < end && external(0) != Some(FINISHED)
      ensures LoopStops(clock, end, external, cycles)
      ensures NoRevival(external) ==> cycles <= 1
    {
      var id := mailings[i].id;
      var rs := mailings[i].recipients;
      cycles := 0;
      var k := 1;
      ghost var status := STARTED;
      assert mailings == SetStatus(old(mailings), i, status);
      while clock[k] < end
        invariant 1 <= k < |clock| && cycles == k - 1
        invariant Valid() && mailings == SetStatus(old(mailings), i, status)
        invariant attempts == old(attempts) + RunLog(cycles, |rs|, deliver, id, owner)
        invariant status == if k == 1 then STARTED else FINISHED
        invariant forall c :: 0 <= c < cycles ==> PassRan(clock, end, external, c)
        decreases |clock| - k
      {
        var stopped := LoopBody(i, cycles, external, deliver, owner, old(mailings), old(attempts));
        status := FINISHED;
        if stopped {
          break;
        }
        assert PassRan(clock, end, external, cycles);
        cycles := cycles + 1;
        k := k + 1;
      }
      LoopStopsBounds(clock, end, external, cycles);
    }

    /** One run of the worker's loop body, in pass `cycle`: the refresh
        reads `external(cycle)`, the status another handler saved, if any,
        and otherwise the worker's own last status; a finished mailing stops
        the loop, otherwise one pass is logged and the status is set to
        "Завершена". */
    method LoopBody(i: nat, cycle: nat, external: nat -> Option<string>, deliver: (nat, nat) -> Delivery, owner: nat,
                    ghost rows: seq<Mailing>, ghost log: seq<Attempt>)
      returns (stopped: bool)
      requires Valid() && i < |rows| && mailings == SetStatus(rows, i, if cycle == 0 then STARTED else FINISHED)
      requires attempts == log + RunLog(cycle, |rows[i].recipients|, deliver, rows[i].id, owner)
      requires external(cycle).Some? ==> WrittenStatus(external(cycle).value)
      modifies this`mailings, this`attempts
      ensures Valid()
      ensures mailings == SetStatus(rows, i, FINISHED)
      ensures stopped <==> SeesFinished(external, cycle)
      ensures stopped ==> attempts == old(attempts)
      ensures !stopped ==> attempts == log + RunLog(cycle + 1, |rows[i].recipients|, deliver, rows[i].id, owner)
    {
      ghost var status := if cycle == 0 then STARTED else FINISHED;
      var written := external(cycle);
      var id := mailings[i].id;
      var rs := mailings[i].recipients;
      assert id == rows[i].id && rs == rows[i].recipients;
      ghost var seen := status;
      // refresh_from_db()
      if written.Some? {
        WriteStatus(i, written.value);
        SetStatusTwice(rows, i, status, written.value);
        seen := written.value;
      }
      assert mailings == SetStatus(rows, i, seen);
      if mailings[i].status == FINISHED {
        return true;
      }
      assert HasMailing(mailings, id) by { assert mailings[i].id == id; }
      LogPass(rs, cycle, deliver, id, owner);
      RunLogStep(log, cycle, |rs|, deliver, id, owner);
      WriteStatus(i, FINISHED);
      SetStatusTwice(rows, i, seen, FINISHED);
      stopped := false;
    }

    /** One pass of the worker over the recipients `rs` of mailing `id`:
        every recipient is sent to, in order, and one attempt is logged per
        recipient whatever the delivery outcome. */
    method LogPass(rs: seq<nat>, cycle: nat, deliver: (nat, nat) -> Delivery, id: nat, owner: nat)
      requires Valid() && HasMailing(mailings, id)
      modifies this`attempts
      ensures Valid()
      ensures attempts == old(attempts) + CycleLog(|rs|, cycle, deliver, id, owner)
    {
      var p := 0;
      while p < |rs|
        invariant 0 <= p <= |rs|
        invariant attempts == old(attempts) + CycleLog(p, cycle, deliver, id, owner)
      {
        attempts := attempts + [AttemptFor(deliver(cycle, p), id, owner)];
        p := p + 1;
      }
      var pass := CycleLog(|rs|, cycle, deliver, id, owner);
      CycleLogShape(|rs|, cycle, deliver, id, owner);
      AppendKeepsConsistent(recipients, messages, mailings, old(attempts), pass);
    }

    /** `DisableMailingView.post`: no (or a zero) primary key is a bad
        request, an unknown one is not found, a requester without
        `can_disable_mailing` is forbidden; otherwise only the mailing's
        status changes, to "Завершена". */
    method Disable(mailingId: Option<nat>, canDisable: bool) returns (r: Response)
      requires Valid()
      modifies this
      ensures Valid()
      ensures recipients == old(recipients) && messages == old(messages) && attempts == old(attempts)
      ensures mailingId.None? || mailingId.value == 0 ==>
                r == BadRequest("Не передан ID рассылки") && mailings == old(mailings)
      ensures mailingId.Some? && mailingId.value != 0 && !HasMailing(old(mailings), mailingId.value) ==>
                r == NotFound && mailings == old(mailings)
      ensures mailingId.Some? && mailingId.value != 0 && HasMailing(old(mailings), mailingId.value) && !canDisable ==>
                r == Forbidden("Недостаточно прав") && mailings == old(mailings)
      ensures mailingId.Some? && mailingId.value != 0 && HasMailing(old(mailings), mailingId.value) && canDisable ==>
                r == Redirect(PROFILE)
                && mailings == SetStatus(old(mailings), FindMailing(old(mailings), mailingId.value).value, FINISHED)
    {
      if mailingId.None? || mailingId.value == 0 {
        return BadRequest("Не передан ID рассылки");
      }
      var found := FindMailing(mailings, mailingId.value);
      if found.None? {
        return NotFound;
      }
      if !canDisable {
        return Forbidden("Недостаточно прав");
      }
      WrittenStatusesFit();
      StatusWriteKeepsConsistent(recipients, messages, mailings, attempts, found.value, FINISHED);
      mailings := SetStatus(mailings, found.value, FINISHED);
      r := Redirect(PROFILE);
    }

    /** Deleting a mailing (`MailingDeleteView`) deletes its attempts. */
    method DeleteMailing(id: nat) returns (r: Response)
      requires Valid()
      modifies this
      ensures Valid()
      ensures recipients == old(recipients) && messages == old(messages)
      ensures !HasMailing(old(mailings), id) ==> r == NotFound && mailings == old(mailings) && attempts == old(attempts)
      ensures HasMailing(old(mailings), id) ==>
                r == Redirect(PROFILE)
                && mailings == MailingsWithout(old(mailings), id)
                && attempts == AttemptsOf(old(attempts), mailings)
    {
      if FindMailing(mailings, id).None? {
        return NotFound;
      }
      DeleteMailingKeepsConsistent(recipients, messages, mailings, attempts, id);
      mailings := MailingsWithout(mailings, id);
      attempts := AttemptsOf(attempts, mailings);
      r := Redirect(PROFILE);
    }

    /** Deleting a message (`MessageManagementDeleteView`) deletes the
        mailings that send it and their attempts. */
    method DeleteMessage(id: nat) returns (r: Response)
      requires Valid()
      modifies this
      ensures Valid()
      ensures recipients == old(recipients)
      ensures !HasMessage(old(messages), id) ==>
                r == NotFound && messages == old(messages) && mailings == old(mailings) && attempts == old(attempts)
      ensures HasMessage(old(messages), id) ==>
                r == Redirect(PROFILE)
                && messages == MessagesWithout(old(messages), id)
                && mailings == MailingsNotSending(old(mailings), id)
                && attempts == AttemptsOf(old(attempts), mailings)
    {
      if !HasMessage(messages, id) {
        return NotFound;
      }
      var gs, ms := MessagesWithout(messages, id), MailingsNotSending(mailings, id);
      var log := AttemptsOf(attempts, ms);
      DeleteMessageKeepsConsistent(recipients, messages, mailings, attempts, id);
      messages, mailings, attempts := gs, ms, log;
      r := Redirect(PROFILE);
    }

    /** Deleting a recipient (`RecipientDeleteView`) takes it out of every
        mailing's recipient list. */
    method DeleteRecipient(id: nat) returns (r: Response)
      requires Valid()
      modifies this
      ensures Valid()
      ensures messages == old(messages) && attempts == old(attempts)
      ensures !HasRecipient(old(recipients), id) ==> r == NotFound && recipients == old(recipients) && mailings == old(mailings)
      ensures HasRecipient(old(recipients), id) ==>
                r == Redirect(PROFILE)
                && recipients == RecipientsWithout(old(recipients), id)
                && mailings == MailingsWithoutRecipient(old(mailings), id)
    {
      if !exists j :: 0 <= j < |recipients| && recipients[j].id == id {
        return NotFound;
      }
      DeleteRecipientKeepsConsistent(recipients, messages, mailings, attempts, id);
      recipients := RecipientsWithout(recipients, id);
      mailings := MailingsWithoutRecipient(mailings, id);
      r := Redirect(PROFILE);
    }
  }
}
