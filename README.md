# Mailing list management service: a verified model of its core

The service lets users keep recipients, messages and mailings, send a
mailing to its recipients from a background worker, log every delivery
attempt, and look at per-user statistics. Accounts log in by e-mail,
confirm their address through a mailed link, request password resets, and
can be blocked by holders of a permission.

This project models the sequential rules behind those features:

- the forbidden-word check that cleans a recipient's initials and a
  message's subject (module `Forms`), and the form mixin that scopes the
  mailing form's choices to the requesting user and styles its widgets
  (class `Forms.StyledForm`);
- the four record types, their status vocabularies, column bounds and
  delete cascades (module `MailModels`);
- the mailing lifecycle: create, send trigger, the background send cycle,
  disable and deletion (class `MailViews.Store`), with the profile and
  statistics pages as queries over its tables;
- the read-through cache of the three tables (class `Cache.ReadThrough`);
- the `send_mailing` management command (module `SendCommand`);
- the account record and the account handlers (modules `UserModels` and
  `UserViews`, class `UserViews.UserStore`).

Tables are sequences of rows in database order with unique primary keys,
and a mailing's recipients are a list without repeats
(`MailModels.Consistent` is the database invariant every handler keeps);
the users table is a map keyed by id. The clock, the SMTP server, the
random token generator and other handlers running concurrently become
inputs: `clock` is the sequence of clock readings the worker takes,
`deliver` says what `send_mail` does for each recipient, `external` is the
status another handler wrote that the worker sees when it refreshes the
mailing, `mailed` says whether the account handlers' `send_mail` returned,
and the tokens are parameters.

Behaviour the proofs bring out, all as the code is written:

- The worker writes "Завершена" at the end of every pass of its loop, so
  it sends at most one pass unless another handler revives the mailing
  between that write and the next refresh (`MailViews.Store.SendMessage`,
  `NoRevival`, `LoopStopsBounds`).
- If the first clock reading equals `ended_at`, neither the early-finish
  test nor the loop test fires, and the mailing stays "Запущена".
- The statuses stored are the Russian labels of the declared choices, not
  their keys. The management command also writes "Отправлено", which is
  not a declared choice. The declared choice keys are "Created",
  "Started" and "Finished", but no handler stores them.
- The reset request and the e-mail confirmation share the `token` column
  and neither checks `is_active`, so a blocked user who requests a reset
  and opens the confirmation route with the new token is active again
  (`UserViews.BlockedUserReactivates`). Whether blocked users are meant
  to keep that route is not evident from the code.
- The rejection message names the first forbidden word in list order,
  not the first one in the text (`Forms.ListOrderWins`).
- The confirmation link mailed at registration has no trailing '/', while
  its route requires one, so the link does not resolve to that route as
  written (`UserViews.ConfirmationLinkMissesRoute`). The reset link does
  resolve. Whether the framework's slash-appending redirect rescues the
  confirmation link depends on settings that are not part of this model.

## Model

| member | source | states |
|---|---|---|
| Shared.CountIsFilterLength | mail_serv/views.py:63-71 | a separate count query over a table equals the length of the list the same filter returns |
| Shared.FilterMultiset | mail_serv/views.py:63-71 | a filter keeps every copy of each matching row and no copy of any other, so equal rows are counted as often as they are stored |
| Shared.CountPartition | mail_serv/views.py:331-336 | when every row satisfies exactly one of two conditions, the two counts add up to the table size |
| MailModels.VocabularyFits | mail_serv/models.py:53-61 | every mailing status label fits the 10-character column and differs from its key; every status a handler writes fits; both attempt statuses fit and differ; "Отправлено" is neither a key nor a label |
| MailModels.FindMailing | mail_serv/views.py:237 | finds the row holding primary key `id`; none exactly when no mailing has that key |
| MailModels.StatusWriteKeepsConsistent | mail_serv/models.py:53-61 | writing a status that fits the column keeps the database consistent and every mailing key present |
| MailModels.AppendKeepsConsistent | mail_serv/models.py:82-98 | appending attempts with a declared status for an existing mailing keeps the database consistent |
| MailModels.MailingsWithoutRecipient | mail_serv/models.py:65 | after a recipient is deleted, each mailing's recipient list holds exactly its old members but that one, and nothing else about the mailing changes |
| MailModels.WrittenStatusesFit | mail_serv/models.py:53-61 | every status value a handler writes fits the 10-character column |
| MailModels.DeleteMailingKeepsConsistent | mail_serv/models.py:89 | deleting a mailing removes it; every copy of an attempt of another mailing stays and no attempt of the deleted one does; the database stays consistent |
| MailModels.NotSendingAttempts | mail_serv/models.py:62-89 | after a message is deleted, the log keeps every copy of the attempts whose mailing sends another message, and nothing else |
| MailModels.DeleteMessageKeepsConsistent | mail_serv/models.py:62-64 | deleting a message removes exactly it from the messages and exactly the mailings that send it; the log keeps every copy of the attempts of the other mailings and nothing else; the database stays consistent |
| MailModels.DeleteRecipientKeepsConsistent | mail_serv/models.py:65 | deleting a recipient leaves no mailing listing it, and the database stays consistent |
| Forms.LowerIsIdempotent | mail_serv/forms.py:49 | lowercasing, on the modelled alphabet, keeps the length, and lowercasing again changes nothing |
| Forms.ForbiddenWordsAreLower | mail_serv/forms.py:7-17 | every forbidden word is lower case, so matching the lowercased field is case-insensitive |
| Forms.ContainsIsOccurs | mail_serv/forms.py:51 | the position-by-position search succeeds exactly when the word occurs as a substring |
| Forms.FirstMatch | mail_serv/forms.py:50-52 | returns the first word in list order that occurs in the text, and none exactly when no word occurs |
| Forms.Clean | mail_serv/forms.py:48-53 | rejects exactly when some forbidden word occurs in the lowercased value, with a message naming the first such word in list order; otherwise returns the lowercased value, which holds no forbidden word |
| Forms.CleanInitials | mail_serv/forms.py:48-53 | the initials field gets exactly that check and result |
| Forms.CleanSubject | mail_serv/forms.py:63-68 | the subject field gets exactly the same check and result |
| Forms.CleanIsIdempotent | mail_serv/forms.py:49-53 | cleaning an accepted value again accepts it and returns it unchanged |
| Forms.CleanKeepsLength | mail_serv/forms.py:53 | on the modelled alphabet, an accepted value is as long as the input |
| Forms.ListOrderWins | mail_serv/forms.py:7-17 | for "Радар казино" both "радар" and "казино" occur, and the error names "казино", the earlier word of the list |
| Forms.Styled | mail_serv/forms.py:34-38 | a boolean field gets class "form-check-input"; any other gets class "form-control" and a placeholder equal to its label, which is `None` for a field declared without a label; no other attribute or property of the field changes |
| Forms.OwnedIds | mail_serv/forms.py:26-32 | offers exactly the primary keys of the rows owned by the user, for recipients and messages alike |
| Forms.StyledForm.constructor | mail_serv/forms.py:23-38 | keeps the user; with a user, the recipient and message choices are that user's rows; every field is then styled; field order and count are kept |
| Forms.StyledForm.ScopeChoices | mail_serv/forms.py:26-32 | only the choices of the "recipients" and "message" fields change, to the owner's rows |
| Forms.StyledForm.StyleWidgets | mail_serv/forms.py:33-38 | every field, in order, is replaced by its styled form |
| MailViews.AttemptFor | mail_serv/views.py:274-297 | a delivered send logs ("Успешно", "Сообщение отправлено"); a refused one ("Не успешно", "Почты не существует"); any other error ("Не успешно", "Ошибка при отправке " + error); always for this mailing and the triggering user |
| MailViews.CycleLogShape | mail_serv/views.py:265-297 | a pass logs exactly one attempt per recipient, in recipient order, each the one its delivery outcome dictates |
| MailViews.RunLogShape | mail_serv/views.py:260-301 | `c` passes log `c` times the number of recipients, every attempt for this mailing and owner with a declared status; zero passes log nothing and one pass logs exactly that pass |
| MailViews.ProfileContext | mail_serv/views.py:48-72 | a holder of `can_disable_mailing` sees every row; anyone else every copy of each row they own and nothing else; each total equals the length of its list |
| MailViews.AttemptQueryset | mail_serv/views.py:317-327 | every copy of each of the requester's attempts, of the given mailing when a mailing id is given, and nothing else |
| MailViews.StatisticsContext | mail_serv/views.py:329-343 | the two sublists hold every copy of each successful and of each unsuccessful attempt and nothing else, the counts equal their sizes, and with declared statuses only they add up to the whole list |
| MailViews.Store.CreateMailing | mail_serv/views.py:192-198 | appends the described mailing with the requester as owner, status "Создана" and the chosen recipients, each once; nothing else changes |
| MailModels.LinksCountRecipients | mail_serv/models.py:65 | a mailing's recipient list, which the many-to-many relation keeps free of repeats, has exactly one entry per recipient |
| MailViews.PassPerRecipient | mail_serv/views.py:252-297 | for a stored mailing, a pass logs exactly as many attempts as the mailing has distinct recipients |
| MailViews.Store.Send | mail_serv/views.py:234-243 | takes the key from the URL or else the form; a missing or unknown key raises; otherwise only that mailing's status becomes "Запущена" |
| MailViews.Store.SendMessage | mail_serv/views.py:246-301 | a null end crashes after "Запущена"; a past end finishes with no attempt; a first reading equal to the end leaves "Запущена" with no attempt; otherwise the status ends "Завершена" exactly when some loop test held (an end passed between the first reading and the first loop test leaves "Запущена" with no attempt), and each pass that ran logs one attempt per recipient; every pass that ran had its loop test hold and its refresh not read "Завершена", and the loop stopped at the first test or refresh that failed; with no revival after the first refresh at most one pass runs |
| MailViews.Store.SendLoop | mail_serv/views.py:260-301 | the loop logs whole passes only, ends with "Завершена" if the loop test ever held, runs pass `c` exactly when the `c + 1`-th test holds and the `c`-th refresh does not read "Завершена" for every earlier pass, and runs at most one pass unless the mailing is revived |
| MailViews.LoopStopsBounds | mail_serv/views.py:260-301 | a loop that stops that way runs a pass exactly when the first test holds and the first refresh does not read "Завершена", and at most one pass when no later refresh reads a reviving status |
| MailViews.Store.LoopBody | mail_serv/views.py:261-301 | a refresh that reads "Завершена" (written by another handler, or the worker's own after a pass) stops with no attempt; otherwise one pass is logged and the status becomes "Завершена" |
| MailViews.Store.LogPass | mail_serv/views.py:265-297 | appends exactly the attempts of one pass to the log |
| MailViews.Store.Disable | mail_serv/views.py:349-361 | no or zero id is a bad request, an unknown id not found, a requester without the permission forbidden, all with no change; otherwise only the mailing's status changes, to "Завершена" |
| MailViews.Store.DeleteMailing | mail_serv/views.py:209-213 | removes the mailing and exactly its attempts; an unknown id changes nothing |
| MailViews.Store.DeleteMessage | mail_serv/views.py:161-167 | removes the message, the mailings that send it and their attempts; an unknown id changes nothing |
| MailViews.Store.DeleteRecipient | mail_serv/views.py:115-122 | removes the recipient and takes it out of every mailing's list; an unknown id changes nothing |
| Cache.ReadThrough.GetRecipients | mail_serv/services.py:7-17 | disabled: the table, cache untouched; hit: the stored table, cache untouched; miss: the table, stored under "recipients" and nothing else changed |
| Cache.ReadThrough.GetMessages | mail_serv/services.py:20-30 | the same three paths for "messages" |
| Cache.ReadThrough.GetMailings | mail_serv/services.py:33-43 | the same three paths for "mailings" |
| Cache.KeysAreDistinct | mail_serv/services.py:11-37 | the three keys differ, so one getter never writes another's entry |
| Cache.RecipientsGoStale | mail_serv/services.py:12-17 | with caching on, a second read after the table changed still returns the first snapshot, unfiltered; with caching off it returns the new table |
| Cache.MailingsLeaveRecipientsAlone | mail_serv/services.py:33-43 | caching the mailings leaves the cached recipients as they were |
| SendCommand.FirstFailure | mail_serv/management/commands/send_mailing.py:22-34 | the first recipient whose send raises an error other than a refusal; none exactly when no send does |
| SendCommand.Handle | mail_serv/management/commands/send_mailing.py:13-37 | an unknown id changes nothing; otherwise the status becomes "Отправлено", one send is tried per recipient in order, refusals are passed over, a first other error stops with "Отправлено" after that many sends, and otherwise the status ends "Завершена"; no attempt is logged |
| UserModels.DisplayIdentifies | users/models.py:22-23 | since e-mails are unique, two users show the same string exactly when they are the same user |
| UserModels.UserByEmail | users/models.py:9-14 | the one user whose login is the e-mail, if any; none exactly when nobody has it |
| UserViews.TokenRoute | users/urls.py:15 | a path resolves only as the prefix, a non-empty token without '/', and a trailing '/' |
| UserViews.ConfirmationLinkMissesRoute | users/views.py:33 | the mailed confirmation path does not resolve to its route, the same path with '/' appended resolves to the token, and the reset path resolves to its route |
| UserViews.HexTokenFits | users/models.py:10-12 | a 32-character token fits the 100-character column |
| UserViews.OrderByIdContents | users/views.py:132-134 | the list holds each stored user and nothing else, as many entries as there are users |
| UserViews.OrderByIdSorted | users/views.py:132-134 | the list is in strictly ascending id order |
| UserViews.UserStore.Register | users/views.py:26-45 | the new user is saved inactive, with the token; when `send_mail` returns it joins the group "Пользователь" and the response redirects to the login, and when it raises the user stays saved outside every group and the request ends in the exception; no other user changes; the mailed link is the host followed by the confirmation path |
| UserViews.UserStore.VerifyEmail | users/views.py:48-53 | no user with the token is not found, several raise, both with no change; otherwise only that user's `is_active` becomes true |
| UserViews.UserStore.RequestReset | users/views.py:75-93 | an invalid form renders again, an unknown e-mail is not found, both with no change; otherwise only that user's token is replaced by the fresh one and the reset link is mailed, and the response redirects to the login when `send_mail` returns and is the exception when it raises (the new token stays saved) |
| UserViews.UserStore.Block | users/views.py:141-155 | no permission is forbidden, no or zero id a bad request, an unknown id not found, the requester's own id a bad request, all with no change; otherwise only the target's `is_active` becomes false; blocking a blocked user changes nothing |
| UserViews.BlockedUserReactivates | users/views.py:48-92 | a user blocked by a permission holder who then requests a reset and opens the confirmation route with the new token is active again |
| UserViews.UserStore.Unblock | users/views.py:162-176 | the same guards; otherwise only the target's `is_active` becomes true; unblocking an active user changes nothing |

## Left out

- The worker's thread, `time.sleep(30)` and `timezone.now()`: the worker runs to completion as one call, and the clock is the input sequence of its readings.
- MailViews.Store.SendMessage: another handler's status writes are modelled only as the value the next refresh reads. The worker saves the whole row from its own copy, so a write between its first lookup (mail_serv/views.py:248) and its "Запущена" save (:250), or between a refresh (:261) and the "Завершена" save that ends that pass (:300-301), including the 30-second pause, is overwritten and has no effect. A write between the "Запущена" save and the first refresh is `external(0)`, and one between the end-of-pass save and the next refresh is `external(j)` for the next `j`. Writes to a mailing's other columns while the worker runs (its end, message or recipients) are not modelled.
- `send_mail`: an outcome per recipient (and per pass in the worker) stands in for it in the worker and the command, and a `mailed` flag in `Register` and `RequestReset`; the message text, sender and recipient address are not modelled.
- The object mapper, `get_object_or_404`, `render` and `redirect`: tables are sequences or a map, and responses are a small datatype. A lookup or a call that raises out of a handler is `ServerError`.
- The creation timestamps (`created_at`, the attempt `datetime`): `createdAt` is a parameter and the attempt timestamp is not modelled.
- The owner default (`default=1`) of the record types: none of the modelled handlers saves a record without an owner.
- The `__str__` forms of recipients, messages, mailings and attempts: display text only.
- `RecipientView.get_queryset`: the tuple of cached tables becomes the list's default context entry, which `get_context_data` then replaces; the cache itself is modelled in `Cache`.
- Cache expiry and eviction by the backend: cached entries stay until the end of the model.
- Non-numeric `pk` or `mailing_id` values: ids are natural numbers, or absent.
- The printed and standard-output messages of the worker and the command.
- `token_hex` randomness: the token is a parameter that must be 32 hex digits; collisions are handled (`VerifyEmail` with several holders).
- PasswordResetRequestView.get, PasswordResetConfirmView, `check_token` and `login()`: foreign framework calls.
- UserViews.UserStore.Register: the password and the rest of the registration form, and the form's validation, which the precondition stands for (a fresh e-mail).
- UserViews.UserStore.Block, UserViews.UserStore.Unblock, MailViews.Store.Disable, MailViews.Store.CreateMailing: an anonymous request, which the login mixin redirects; the requester is a signed-in user, and superuser rights are folded into the permission set.
- MailViews.Store.Send, MailViews.Store.SendMessage, MailViews.ProfileContext, MailViews.AttemptQueryset: the requester is a signed-in user id. In the source, the login mixin of the send view, of the attempt list and of the recipient list is not in front of the view class, or is missing, so it does not redirect an anonymous request. An anonymous send still writes "Запущена", and its worker dies at the first attempt it logs, because creating an attempt with an anonymous owner raises, and so does the handler's own attempt. The status is left as the worker last saved it. The profile and statistics queries filter by an anonymous user and raise. None of this is modelled.
- Forms.StyledForm.constructor: a user may be given only to a form with "recipients" and "message" fields; the `KeyError` any other form raises is not modelled. The new-password form of `users/forms.py` reaches it: its user is passed positionally, the framework's base form stores it as `self.user`, and the mixin then looks up the missing "recipients" field.
- `cache_page`, the URL tables apart from the confirmation and reset routes, the admin configuration and `users/forms.py`: routing, HTTP caching and framework form setup.
- Forms.Clean: `str.lower` is modelled on ASCII and the Russian alphabet (А–Я, Ё) only; other characters are left as they are. The accept or reject decision and the message do not depend on this, since no other character lowercases into the Russian letters.
- Forms.LowerIsIdempotent, Forms.CleanKeepsLength: the kept length holds only on the modelled alphabet. Python's `str.lower` turns some characters into two ('İ' becomes 'i' and a combining dot), so in the program a cleaned value can be longer than its input and than its column.
- Deleting a user, whose cascades remove that user's records: there is no delete handler for users in the core.
