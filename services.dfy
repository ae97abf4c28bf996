/** The read-through cache of `mail_serv/services.py`: one getter per table,
    each storing the whole table under a fixed key the first time it is asked
    for and answering from the cache afterwards. */
module Cache {
  import opened MailModels

  const RECIPIENTS_KEY: string := "recipients"
  const MESSAGES_KEY: string := "messages"
  const MAILINGS_KEY: string := "mailings"

  /** A value held by the cache backend. The getters store whole tables;
      other users of the backend (page caching) store other values. */
  datatype Entry =
    | Recipients(recipientRows: seq<Recipient>)
    | Messages(messageRows: seq<Message>)
    | Mailings(mailingRows: seq<Mailing>)
    | Other

  /** The cache backend as the three getters see it. `enabled` is the
      `CACHE_ENABLED` setting, fixed for the life of the process. */
  class ReadThrough {
    const enabled: bool
    var entries: map<string, Entry>

    /** Each getter's key holds, when present, a table of its own kind. */
    predicate Valid()
      reads this
    {
      && (RECIPIENTS_KEY in entries ==> entries[RECIPIENTS_KEY].Recipients?)
      && (MESSAGES_KEY in entries ==> entries[MESSAGES_KEY].Messages?)
      && (MAILINGS_KEY in entries ==> entries[MAILINGS_KEY].Mailings?)
    }

    /** An empty backend. */
    constructor (cacheEnabled: bool)
      ensures enabled == cacheEnabled && entries == map[]
      ensures Valid()
    {
      enabled := cacheEnabled;
      entries := map[];
    }

    /** `get_recipients_from_cache`, with `table` the current contents of the
        recipients table. */
    method GetRecipients(table: seq<Recipient>) returns (r: seq<Recipient>)
      requires Valid()
      modifies this
      ensures Valid()
      ensures !enabled ==> r == table && entries == old(entries)
      ensures enabled && RECIPIENTS_KEY in old(entries) ==>
                r == old(entries)[RECIPIENTS_KEY].recipientRows && entries == old(entries)
      ensures enabled && RECIPIENTS_KEY !in old(entries) ==>
                r == table && entries == old(entries)[RECIPIENTS_KEY := Recipients(table)]
    {
      if !enabled {
        return table;
      }
      if RECIPIENTS_KEY in entries {
        return entries[RECIPIENTS_KEY].recipientRows;
      }
      entries := entries[RECIPIENTS_KEY := Recipients(table)];
      r := table;
    }

    /** `get_messages_from_cache`, with `table` the current contents of the
        messages table. */
    method GetMessages(table: seq<Message>) returns (r: seq<Message>)
      requires Valid()
      modifies this
      ensures Valid()
      ensures !enabled ==> r == table && entries == old(entries)
      ensures enabled && MESSAGES_KEY in old(entries) ==>
                r == old(entries)[MESSAGES_KEY].messageRows && entries == old(entries)
      ensures enabled && MESSAGES_KEY !in old(entries) ==>
                r == table && entries == old(entries)[MESSAGES_KEY := Messages(table)]
    {
      if !enabled {
        return table;
      }
      if MESSAGES_KEY in entries {
        return entries[MESSAGES_KEY].messageRows;
      }
      entries := entries[MESSAGES_KEY := Messages(table)];
      r := table;
    }

    /** `get_mailings_from_cache`, with `table` the current contents of the
        mailings table. */
    method GetMailings(table: seq<Mailing>) returns (r: seq<Mailing>)
      requires Valid()
      modifies this
      ensures Valid()
      ensures !enabled ==> r == table && entries == old(entries)
      ensures enabled && MAILINGS_KEY in old(entries) ==>
                r == old(entries)[MAILINGS_KEY].mailingRows && entries == old(entries)
      ensures enabled && MAILINGS_KEY !in old(entries) ==>
                r == table && entries == old(entries)[MAILINGS_KEY := Mailings(table)]
    {
      if !enabled {
        return table;
      }
      if MAILINGS_KEY in entries {
        return entries[MAILINGS_KEY].mailingRows;
      }
      entries := entries[MAILINGS_KEY := Mailings(table)];
      r := table;
    }
  }

  /** The three keys are distinct, so a getter that stores its table updates
      no other getter's entry. */
  lemma KeysAreDistinct()
    ensures RECIPIENTS_KEY != MESSAGES_KEY && MESSAGES_KEY != MAILINGS_KEY && RECIPIENTS_KEY != MAILINGS_KEY
  {
  }

  /** A fresh process asks for the recipients while the table is `before`,
      the table then changes to `after`, and it asks again: with caching on,
      the second answer is still `before`; with caching off it is `after`.
      Either way the whole table comes back, whoever owns its rows. */
  method RecipientsGoStale(cacheEnabled: bool, before: seq<Recipient>, after: seq<Recipient>)
    returns (first: seq<Recipient>, second: seq<Recipient>)
    ensures first == before
    ensures cacheEnabled ==> second == before
    ensures !cacheEnabled ==> second == after
  {
    var backend := new ReadThrough(cacheEnabled);
    first := backend.GetRecipients(before);
    second := backend.GetRecipients(after);
  }

  /** Storing one table does not disturb a table already cached under
      another key: after the mailings are cached, the recipients entry still
      answers with the old snapshot. */
  method MailingsLeaveRecipientsAlone(before: seq<Recipient>, after: seq<Recipient>, ms: seq<Mailing>)
    returns (first: seq<Recipient>, mailings: seq<Mailing>, second: seq<Recipient>)
    ensures first == before && mailings == ms && second == before
  {
    var backend := new ReadThrough(true);
    first := backend.GetRecipients(before);
    mailings := backend.GetMailings(ms);
    second := backend.GetRecipients(after);
  }
}
