/** The four record types of the mailing application (`mail_serv/models.py`),
    their status vocabularies and length bounds, and the consistency of the
    tables they are stored in: unique primary keys, foreign keys that point at
    existing rows, and stored values that fit their columns. */
module MailModels {
  import opened Shared

  datatype Recipient = Recipient(id: nat, email: string, initials: string, comment: string, owner: nat)

  datatype Message = Message(id: nat, subject: string, body: string, owner: nat)

  /** `started_at` and `ended_at` are nullable; `recipients` is the
      many-to-many relation, listed in database order. */
  datatype Mailing = Mailing(
    id: nat,
    createdAt: int,
    startedAt: Option<int>,
    endedAt: Option<int>,
    status: string,
    message: nat,
    recipients: seq<nat>,
    owner: nat)

  /** One row of the append-only log of delivery attempts. The creation
      timestamp the mapper fills in is not modelled. */
  datatype Attempt = Attempt(status: string, serverResponse: string, mailing: nat, owner: nat)

  /** The choices declared for `Mailing.status`: each has a key and a label. */
  datatype MailingStatus = Created | Started | Finished {
    function Key(): string {
      match this
      case Created => "Created"
      case Started => "Started"
      case Finished => "Finished"
    }
    function Label(): string {
      match this
      case Created => "Создана"
      case Started => "Запущена"
      case Finished => "Завершена"
    }
  }

  /** The view handlers store the labels, not the keys. */
  const CREATED: string := Created.Label()
  const STARTED: string := Started.Label()
  const FINISHED: string := Finished.Label()

  /** Written by the management command before it sends; it is neither a key
      nor a label of the declared choices. */
  const SENT: string := "Отправлено"

  /** The two choices of `EmailSendingAttempt.status` (key and label agree). */
  const SUCCESS: string := "Успешно"
  const FAILURE: string := "Не успешно"

  const STATUS_MAX_LENGTH: nat := 10

  predicate StatusFits(s: string) {
    |s| <= STATUS_MAX_LENGTH
  }

  /** Every value a handler of this application writes into `Mailing.status`. */
  predicate WrittenStatus(s: string) {
    s == CREATED || s == STARTED || s == FINISHED || s == SENT
  }

  predicate RecipientFits(r: Recipient) {
    |r.email| <= 100 && |r.initials| <= 100 && |r.comment| <= 150
  }

  predicate MessageFits(m: Message) {
    |m.subject| <= 100 && |m.body| <= 1000
  }

  predicate AttemptFits(a: Attempt) {
    (a.status == SUCCESS || a.status == FAILURE) && StatusFits(a.status)
  }

  /** Every status a handler writes fits the 10-character column. */
  lemma WrittenStatusesFit()
    ensures forall s :: WrittenStatus(s) ==> StatusFits(s)
  {
  }

  /** Every status value the application writes fits the 10-character
      column, and the labels it stores differ from the choice keys. */
  lemma VocabularyFits(c: MailingStatus)
    ensures StatusFits(c.Label()) && c.Label() != c.Key()
    ensures forall s :: WrittenStatus(s) ==> StatusFits(s)
    ensures StatusFits(SUCCESS) && StatusFits(FAILURE) && SUCCESS != FAILURE
    ensures SENT != Created.Key() && SENT != Started.Key() && SENT != Finished.Key()
    ensures SENT != CREATED && SENT != STARTED && SENT != FINISHED
  {
  }

  predicate HasRecipient(rs: seq<Recipient>, id: nat) {
    exists j :: 0 <= j < |rs| && rs[j].id == id
  }

  predicate HasMessage(gs: seq<Message>, id: nat) {
    exists j :: 0 <= j < |gs| && gs[j].id == id
  }

  predicate HasMailing(ms: seq<Mailing>, id: nat) {
    exists j :: 0 <= j < |ms| && ms[j].id == id
  }

  function RecipientKey(r: Recipient): nat { r.id }
  function MessageKey(g: Message): nat { g.id }
  function MailingKey(m: Mailing): nat { m.id }

  function RecipientOwner(r: Recipient): nat { r.owner }
  function MessageOwner(g: Message): nat { g.owner }

  /** A recipient's entry in a mailing's recipient list: the many-to-many
      table holds one row per mailing and recipient, so no entry repeats. */
  function LinkKey(recipient: nat): nat { recipient }

  /** Foreign keys of a mailing: its one message and its recipients exist,
      and its recipients form a set. */
  predicate MailingRefsExist(m: Mailing, rs: seq<Recipient>, gs: seq<Message>) {
    && HasMessage(gs, m.message)
    && (forall k :: 0 <= k < |m.recipients| ==> HasRecipient(rs, m.recipients[k]))
    && UniqueKeys(m.recipients, LinkKey)
  }

  /** The recipients a recipient list names. */
  function Members(xs: seq<nat>): set<nat> {
    set x | x in xs
  }

  /** A recipient list without repeats has one entry per recipient, so a
      pass over it sends to each recipient once. */
  lemma {:induction false} LinksCountRecipients(xs: seq<nat>)
    requires UniqueKeys(xs, LinkKey)
    ensures |Members(xs)| == |xs|
  {
    if xs != [] {
      var tail := xs[1..];
      assert UniqueKeys(tail, LinkKey) by {
        forall i, j | 0 <= i < j < |tail| ensures LinkKey(tail[i]) != LinkKey(tail[j]) {
          assert tail[i] == xs[i + 1] && tail[j] == xs[j + 1];
        }
      }
      LinksCountRecipients(tail);
      assert xs[0] !in Members(tail) by {
        forall j | 0 <= j < |tail| ensures tail[j] != xs[0] {
          assert tail[j] == xs[j + 1];
        }
      }
      forall x ensures x in Members(xs) <==> x in Members(tail) || x == xs[0] {
        assert xs == [xs[0]] + tail;
      }
      assert Members(xs) == Members(tail) + {xs[0]};
    }
  }

  /** The database invariant: primary keys are unique, every foreign key
      points at an existing row, and every stored value fits its column. */
  predicate Consistent(rs: seq<Recipient>, gs: seq<Message>, ms: seq<Mailing>, log: seq<Attempt>) {
    && UniqueKeys(rs, RecipientKey) && UniqueKeys(gs, MessageKey) && UniqueKeys(ms, MailingKey)
    && (forall i :: 0 <= i < |rs| ==> RecipientFits(rs[i]))
    && (forall i :: 0 <= i < |gs| ==> MessageFits(gs[i]))
    && (forall i :: 0 <= i < |ms| ==> StatusFits(ms[i].status) && MailingRefsExist(ms[i], rs, gs))
    && (forall i :: 0 <= i < |log| ==> AttemptFits(log[i]) && HasMailing(ms, log[i].mailing))
  }

  /** The position of the mailing with primary key `id`, if there is one. */
  function FindMailing(ms: seq<Mailing>, id: nat): (r: Option<nat>)
    ensures r.Some? ==> r.value < |ms| && ms[r.value].id == id
    ensures r.None? <==> !HasMailing(ms, id)
  {
    if ms == [] then None
    else if ms[0].id == id then Some(0)
    else match FindMailing(ms[1..], id)
      case None => None
      case Some(j) => Some(j + 1)
  }

  /** The table after `mailing.status = s; mailing.save()` on row `i`. */
  function SetStatus(ms: seq<Mailing>, i: nat, s: string): (r: seq<Mailing>)
    requires i < |ms|
  {
    ms[i := ms[i].(status := s)]
  }

  /** A second status write to the same row overrides the first. */
  lemma SetStatusTwice(ms: seq<Mailing>, i: nat, s: string, t: string)
    requires i < |ms|
    ensures SetStatus(SetStatus(ms, i, s), i, t) == SetStatus(ms, i, t)
  {
  }

  /** A status write that fits the column keeps the database consistent and
      leaves every primary key where it was. */
  lemma {:induction false} StatusWriteKeepsConsistent(
    rs: seq<Recipient>, gs: seq<Message>, ms: seq<Mailing>, log: seq<Attempt>, i: nat, s: string)
    requires Consistent(rs, gs, ms, log) && i < |ms| && StatusFits(s)
    ensures Consistent(rs, gs, SetStatus(ms, i, s), log)
    ensures forall id :: HasMailing(SetStatus(ms, i, s), id) <==> HasMailing(ms, id)
  {
    var ms' := SetStatus(ms, i, s);
    forall id ensures HasMailing(ms', id) <==> HasMailing(ms, id) {
      if HasMailing(ms, id) {
        var j :| 0 <= j < |ms| && ms[j].id == id;
        assert ms'[j].id == id;
      }
      if HasMailing(ms', id) {
        var j :| 0 <= j < |ms'| && ms'[j].id == id;
        assert ms[j].id == id;
      }
    }
  }

  /** Appending attempts that fit and belong to an existing mailing keeps the
      database consistent. */
  lemma {:induction false} AppendKeepsConsistent(
    rs: seq<Recipient>, gs: seq<Message>, ms: seq<Mailing>, log: seq<Attempt>, extra: seq<Attempt>)
    requires Consistent(rs, gs, ms, log)
    requires forall i :: 0 <= i < |extra| ==> AttemptFits(extra[i]) && HasMailing(ms, extra[i].mailing)
    ensures Consistent(rs, gs, ms, log + extra)
  {
    var all := log + extra;
    forall i | 0 <= i < |all| ensures AttemptFits(all[i]) && HasMailing(ms, all[i].mailing) {
      if i < |log| {
        assert all[i] == log[i];
      } else {
        assert all[i] == extra[i - |log|];
      }
    }
  }

  // Deletion. Every foreign key of the application is declared
  // `on_delete=CASCADE`; a deleted recipient leaves the many-to-many lists.

  function RecipientsWithout(rs: seq<Recipient>, id: nat): seq<Recipient> {
    Filter(rs, (r: Recipient) => r.id != id)
  }

  function MessagesWithout(gs: seq<Message>, id: nat): seq<Message> {
    Filter(gs, (g: Message) => g.id != id)
  }

  function MailingsWithout(ms: seq<Mailing>, id: nat): seq<Mailing> {
    Filter(ms, (m: Mailing) => m.id != id)
  }

  /** The mailings that do not send message `id`. */
  function MailingsNotSending(ms: seq<Mailing>, id: nat): seq<Mailing> {
    Filter(ms, (m: Mailing) => m.message != id)
  }

  /** The attempts whose mailing is still in `ms`: an attempt is deleted with
      its mailing. */
  function AttemptsOf(log: seq<Attempt>, ms: seq<Mailing>): seq<Attempt> {
    Filter(log, (a: Attempt) => HasMailing(ms, a.mailing))
  }

  /** Every mailing with recipient `id` taken out of its recipient list. */
  function MailingsWithoutRecipient(ms: seq<Mailing>, id: nat): (r: seq<Mailing>)
    ensures |r| == |ms|
    ensures forall i :: 0 <= i < |ms| ==>
      r[i] == ms[i].(recipients := r[i].recipients)
      && (forall x :: x in r[i].recipients <==> x in ms[i].recipients && x != id)
  {
    seq(|ms|, i requires 0 <= i < |ms| => ms[i].(recipients := Filter(ms[i].recipients, (x: nat) => x != id)))
  }

  /** A row of a filtered table is a row of the table. */
  lemma FilteredRow<T(!new)>(s: seq<T>, p: T -> bool, i: nat)
    requires i < |Filter(s, p)|
    ensures exists j :: 0 <= j < |s| && s[j] == Filter(s, p)[i] && p(s[j])
  {
    assert Filter(s, p)[i] in Filter(s, p);
  }

  /** When the attempts that keep their mailing are exactly those that
      satisfy `keep`, the cascade keeps every copy of those and no other. */
  lemma AttemptsOfMultiset(log: seq<Attempt>, ms: seq<Mailing>, keep: Attempt -> bool)
    requires forall a :: a in log ==> (HasMailing(ms, a.mailing) <==> keep(a))
    ensures forall a :: multiset(AttemptsOf(log, ms))[a] == if keep(a) then multiset(log)[a] else 0
  {
    FilterMultiset(log, (a: Attempt) => HasMailing(ms, a.mailing));
    forall a ensures multiset(AttemptsOf(log, ms))[a] == if keep(a) then multiset(log)[a] else 0 {
      if a !in log {
        assert multiset(log)[a] == 0;
      }
    }
  }

  /** Deleting a mailing deletes exactly its attempts and keeps the database
      consistent. */
  lemma {:induction false} DeleteMailingKeepsConsistent(
    rs: seq<Recipient>, gs: seq<Message>, ms: seq<Mailing>, log: seq<Attempt>, id: nat)
    requires Consistent(rs, gs, ms, log)
    ensures !HasMailing(MailingsWithout(ms, id), id)
    ensures forall a :: a in AttemptsOf(log, MailingsWithout(ms, id)) <==> a in log && a.mailing != id
    ensures forall a :: multiset(AttemptsOf(log, MailingsWithout(ms, id)))[a] ==
              if a.mailing != id then multiset(log)[a] else 0
    ensures Consistent(rs, gs, MailingsWithout(ms, id), AttemptsOf(log, MailingsWithout(ms, id)))
  {
    var ms' := MailingsWithout(ms, id);
    var log' := AttemptsOf(log, ms');
    FilterKeepsUniqueKeys(ms, (m: Mailing) => m.id != id, MailingKey);
    forall i | 0 <= i < |ms'|
      ensures ms'[i].id != id && StatusFits(ms'[i].status) && MailingRefsExist(ms'[i], rs, gs)
    {
      FilteredRow(ms, (m: Mailing) => m.id != id, i);
    }
    forall i | 0 <= i < |log'| ensures AttemptFits(log'[i]) && HasMailing(ms', log'[i].mailing) {
      FilteredRow(log, (a: Attempt) => HasMailing(ms', a.mailing), i);
    }
    forall a | a in log ensures HasMailing(ms', a.mailing) <==> a.mailing != id {
      if a.mailing != id {
        var k :| 0 <= k < |log| && log[k] == a;
        var j :| 0 <= j < |ms| && ms[j].id == a.mailing;
        assert ms[j] in ms';
        var j' :| 0 <= j' < |ms'| && ms'[j'] == ms[j];
      }
    }
    AttemptsOfMultiset(log, ms', (a: Attempt) => a.mailing != id);
  }

  /** Mailing `mailing` is stored and sends a message other than `id`. */
  predicate SendsOther(ms: seq<Mailing>, mailing: nat, id: nat) {
    exists j :: 0 <= j < |ms| && ms[j].id == mailing && ms[j].message != id
  }

  /** The attempts that survive the deletion of message `id` are every copy
      of those whose mailing sends another message, and nothing else. */
  lemma NotSendingAttempts(ms: seq<Mailing>, log: seq<Attempt>, id: nat)
    ensures forall a :: multiset(AttemptsOf(log, MailingsNotSending(ms, id)))[a] ==
              if SendsOther(ms, a.mailing, id) then multiset(log)[a] else 0
  {
    var ms' := MailingsNotSending(ms, id);
    forall a | a in log ensures HasMailing(ms', a.mailing) <==> SendsOther(ms, a.mailing, id) {
      if HasMailing(ms', a.mailing) {
        var j' :| 0 <= j' < |ms'| && ms'[j'].id == a.mailing;
        assert ms'[j'] in ms';
        var j :| 0 <= j < |ms| && ms[j] == ms'[j'];
      }
      if SendsOther(ms, a.mailing, id) {
        var j :| 0 <= j < |ms| && ms[j].id == a.mailing && ms[j].message != id;
        assert ms[j] in ms';
        var j' :| 0 <= j' < |ms'| && ms'[j'] == ms[j];
      }
    }
    AttemptsOfMultiset(log, ms', (a: Attempt) => SendsOther(ms, a.mailing, id));
  }

  /** Deleting a message deletes the mailings that send it and, with them,
      their attempts; the database stays consistent. */
  lemma {:induction false} DeleteMessageKeepsConsistent(
    rs: seq<Recipient>, gs: seq<Message>, ms: seq<Mailing>, log: seq<Attempt>, id: nat)
    requires Consistent(rs, gs, ms, log)
    ensures forall g :: g in MessagesWithout(gs, id) <==> g in gs && g.id != id
    ensures forall m :: m in MailingsNotSending(ms, id) <==> m in ms && m.message != id
    ensures forall a :: multiset(AttemptsOf(log, MailingsNotSending(ms, id)))[a] ==
              if SendsOther(ms, a.mailing, id) then multiset(log)[a] else 0
    ensures Consistent(rs, MessagesWithout(gs, id), MailingsNotSending(ms, id),
                       AttemptsOf(log, MailingsNotSending(ms, id)))
  {
    var gs' := MessagesWithout(gs, id);
    var ms' := MailingsNotSending(ms, id);
    var log' := AttemptsOf(log, ms');
    FilterKeepsUniqueKeys(gs, (g: Message) => g.id != id, MessageKey);
    FilterKeepsUniqueKeys(ms, (m: Mailing) => m.message != id, MailingKey);
    forall i | 0 <= i < |gs'| ensures MessageFits(gs'[i]) {
      FilteredRow(gs, (g: Message) => g.id != id, i);
    }
    forall i | 0 <= i < |ms'| ensures StatusFits(ms'[i].status) && MailingRefsExist(ms'[i], rs, gs') {
      FilteredRow(ms, (m: Mailing) => m.message != id, i);
      var j :| 0 <= j < |gs| && gs[j].id == ms'[i].message;
      assert gs[j] in gs';
      var j' :| 0 <= j' < |gs'| && gs'[j'] == gs[j];
    }
    forall i | 0 <= i < |log'| ensures AttemptFits(log'[i]) && HasMailing(ms', log'[i].mailing) {
      FilteredRow(log, (a: Attempt) => HasMailing(ms', a.mailing), i);
    }
    NotSendingAttempts(ms, log, id);
  }

  /** Deleting a recipient takes it out of every mailing's recipient list and
      keeps the database consistent. */
  lemma {:induction false} DeleteRecipientKeepsConsistent(
    rs: seq<Recipient>, gs: seq<Message>, ms: seq<Mailing>, log: seq<Attempt>, id: nat)
    requires Consistent(rs, gs, ms, log)
    ensures forall i :: 0 <= i < |ms| ==> id !in MailingsWithoutRecipient(ms, id)[i].recipients
    ensures Consistent(RecipientsWithout(rs, id), gs, MailingsWithoutRecipient(ms, id), log)
  {
    var rs' := RecipientsWithout(rs, id);
    var ms' := MailingsWithoutRecipient(ms, id);
    FilterKeepsUniqueKeys(rs, (r: Recipient) => r.id != id, RecipientKey);
    forall i | 0 <= i < |rs'| ensures RecipientFits(rs'[i]) {
      FilteredRow(rs, (r: Recipient) => r.id != id, i);
    }
    assert UniqueKeys(ms', MailingKey) by {
      forall i, j | 0 <= i < j < |ms'| ensures ms'[i].id != ms'[j].id {
        assert ms'[i].id == ms[i].id && ms'[j].id == ms[j].id;
      }
    }
    forall i | 0 <= i < |ms'| ensures StatusFits(ms'[i].status) && MailingRefsExist(ms'[i], rs', gs) {
      FilterKeepsUniqueKeys(ms[i].recipients, (x: nat) => x != id, LinkKey);
      assert ms'[i].recipients == Filter(ms[i].recipients, (x: nat) => x != id);
      forall k | 0 <= k < |ms'[i].recipients| ensures HasRecipient(rs', ms'[i].recipients[k]) {
        var x := ms'[i].recipients[k];
        assert x in ms'[i].recipients;
        var k' :| 0 <= k' < |ms[i].recipients| && ms[i].recipients[k'] == x;
        var j :| 0 <= j < |rs| && rs[j].id == x;
        assert rs[j] in rs';
        var j' :| 0 <= j' < |rs'| && rs'[j'] == rs[j];
      }
    }
    forall i | 0 <= i < |log| ensures HasMailing(ms', log[i].mailing) {
      var j :| 0 <= j < |ms| && ms[j].id == log[i].mailing;
      assert ms'[j].id == ms[j].id;
    }
  }
}
