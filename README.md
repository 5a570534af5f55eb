# FSR referral and ticket ledger — a Dafny model

This project models the referral and ticket ledger of the FSR giveaway bot,
together with the small decision rules at its two front doors: the Telegram
bot and the HTTP API.

- **The ledger.** `Ledger.Database` is a class. Its fields are the SQLite
  tables: `users`, `referral_invites`, `tickets_subscription`,
  `tickets_referral`, `giveaway_participants` and `giveaway_prizes`. The
  methods that change these tables become methods: `add_user`,
  `_process_referral`, `add_ticket_for_referral_start`,
  `set_subscription_status`, `add_referral_ticket`, `complete_task` and
  `_init_giveaway_prizes`.
  - Each method is proved to perform one atomic transition. The transition
    is a pure function of module `LedgerSpec`, for example `AddUserSpec` or
    `AddTicketSpec`.
  - The queries are functions of the table state, for example
    `ReferralInfoOf`, `TicketsOf` and `TaskStatusesOf`.
  - Module `LedgerProps` proves what the transitions promise:
    insert-or-ignore registration; fresh, well-formed referral codes;
    check-then-insert for the start-link credit; the subscription upsert;
    the idempotent referral ticket; task progress.
  - It also proves the lock-step invariant `CountersAgree`: `referral_count`
    and XP stay in step with the joined invite rows.
- **The bot** (module `Bot`):
  - how `/start` extracts `referred_by` (Python's `str.split`, a "ref"
    prefix, a slice);
  - the two crediting calls `cmd_start` makes (method `CmdStart` against
    the `Database` class);
  - the admin gate of `/stats`;
  - the top-referrers ranking (filter, sort, `LIMIT 5`, labels built in a
    loop).
- **The API** (module `Api`):
  - the early-return validation of `upload_photo` and
    `create_prepared_message`;
  - the `photo_uploads` table that upload and delete change (class
    `PhotoStore`);
  - the "any channel" membership loop;
  - the ticket count of `GET /api/user/<id>/tickets`;
  - `POST /api/add-ticket-for-referral`, which runs the start-link credit and
    reports the ledger's ticket count.

Files:

- `common.dfy`: Option, Python's `str()`/`int()` on integers, whitespace,
  SQLite's 64-bit bind range, the id scan order.
- `sorting.dfy`: the descending sort used for `ORDER BY … DESC`, and
  `LIMIT`.
- `ledger_spec.dfy`, `ledger_props.dfy`, `ledger.dfy`: the ledger.
- `bot.dfy`, `api.dfy`: the two front doors.

How the model relates to the code:

- **Random draws become an input.** `_generate_referral_code` draws random
  suffixes. Here the draws are a sequence given as a parameter, and running
  out of draws is `None`.
- **Integer ranges.** Python integers are unbounded, but SQLite binds only
  64-bit integers. Where an id outside that range makes a method raise and
  report failure (`add_user`, `add_ticket_for_referral_start`, the photo
  insert), the model has the same branch.
- **Behaviours of the code worth noting:**
  - In the atomic model of `add_user`, nothing stops self-referral. A user
    is credited for their own registration when `referred_by` equals the
    code just drawn for them (`LedgerProps.AddUserRegisters`). The line on
    connections under "## Left out" explains why the program as written
    does not apply this credit.
  - In the atomic model, registering again with a code credits the inviter
    again, because `_process_referral` runs even when the INSERT was ignored
    (`LedgerProps.AddUserCreditsInviter`; calling it twice with the same code
    credits the inviter twice and leaves two joined invite rows,
    `LedgerProps.AddUserTwiceCreditsTwice`). The same line applies.
  - `add_ticket_for_referral_start` writes `referral_invites`, never
    `tickets_referral`. So the ledger's `get_user_tickets` and the HTTP
    tickets endpoint count different tables
    (`Api.EndpointAndLedgerDisagree`).
    For the same reason `POST /api/add-ticket-for-referral` reports a ticket
    count that its own credit never raises (`Api.AddTicketEndpointReply`).
  - An invite written for an inviter id that is not registered yet is later
    counted by `successful_invites` but by no `referral_count`
    (`LedgerProps.OrphanInviteDrift`). This is why the lock-step invariant
    holds only under its registered-inviter condition.
  - The tickets endpoint falls back to 0 invites when there is no referral
    info. That fallback never decides the answer: an unknown user makes the
    subsequent `get_user_stats(...).get` raise, so the answer is 500
    (`Api.TicketsEndpointCounts`).
  - In `get_task_statuses`, the query's `"joined"` is written in double
    quotes. SQLite reads this as the string `'joined'`, because no column
    has that name.

## Model

| member | source | states |
|---|---|---|
| Ledger.Database.GenerateReferralCode | database.py:210-226 | the loop returns the first "FSR"+draw that no user holds, and `None` only when every draw is taken; with well-formed draws the code is "FSR" plus six A–Z/0–9 characters and is unused |
| LedgerProps.FirstFreeCodeIsFresh | database.py:215-226 | a generated code is well formed and unused; it comes from the first draw that was free, and every earlier draw was taken; `None` iff all draws collide |
| LedgerProps.PrefixedSuffixIsValid | database.py:217-218 | "FSR" followed by six alphabet characters is a well-formed code |
| Ledger.Database.AddUser | database.py:184-208 | performs `add_user`'s transition and return value (insert-or-ignore, then referral processing); keeps the UNIQUE code constraint when the draws are well formed |
| LedgerProps.AddUserOnExistingUser | database.py:193-208 | on a present user_id the row and its referral code are kept, except for the credit it earns when `referred_by` is its own code; the result is true iff a code was drawn and the id is bindable |
| LedgerProps.AddUserCreditsInviter | database.py:193-201 | after the insert or the ignored insert, a truthy `referred_by` whose holder is `inv` gives `inv` +1 count and +100 XP and appends one joined invite (inviter, user, code), also when the user already existed; nothing else changes and the call returns true |
| LedgerProps.AddUserTwiceCreditsTwice | database.py:199-201 | registering an existing user twice with another user's code credits that inviter twice and leaves two joined invite rows |
| LedgerProps.AddUserRegisters | database.py:189-201 | a new bindable user gets a fresh row with the first free code; it is credited itself only when `referred_by` equals that code (no self-referral guard) |
| LedgerProps.AddUserKeepsCodesUnique | database.py:27 | registration keeps every code well formed and no two users sharing one |
| LedgerProps.NewCodeFindsOnlyNewUser | database.py:235-241 | after inserting a row with an unused code, the lookup by code finds the new user exactly for that code |
| LedgerProps.ProcessReferralRow | database.py:248-253 | `_process_referral` changes at most the inviter's row, and only by the +1 count / +100 XP credit |
| Ledger.Database.ProcessReferral | database.py:228-279 | performs `_process_referral`: look up the code's holder, credit it, append one joined invite; keeps the UNIQUE code constraint |
| LedgerProps.ProcessReferralUnknownCode | database.py:235-241 | a code no user holds changes nothing |
| LedgerProps.ProcessReferralCredits | database.py:243-260 | when the lookup finds the inviter: +1 `referral_count`, +100 XP, +1 `successful_invites`, one appended joined invite, nothing else changed |
| LedgerProps.InviterIsHolder | database.py:27 | under the UNIQUE constraint the lookup by code finds the user holding it |
| LedgerProps.ProcessReferralKeepsCodes | database.py:248-253 | processing a referral leaves every referral code unchanged |
| Ledger.Database.CountInvites | database.py:672-675 | the count of invite rows for (inviter, invitee) is positive iff such a row exists |
| Ledger.Database.AddTicketForReferralStart | database.py:666-692 | performs `add_ticket_for_referral_start`'s transition and return value |
| LedgerProps.AddTicketFresh | database.py:672-689 | with no row for the pair: returns true, appends one joined row with an empty code, +1 to the inviter's count (XP unchanged), other users and the ticket tables untouched |
| LedgerProps.AddTicketOnce | database.py:672-677 | an existing row for the pair means false and no change, so an identical repeated call returns false |
| LedgerProps.CountersAgreeInfo | database.py:281-306 | where the counters agree, `referral_count` equals `successful_invites` and the XP is at most 100 per successful invite |
| LedgerProps.EmptyCountersAgree | database.py:17-33 | the empty store, seeded with prizes, satisfies the counter agreement |
| LedgerProps.ProcessReferralKeepsCounters | database.py:248-260 | a processed referral keeps `referral_count`/XP in step with the joined invite rows |
| LedgerProps.CountersAgreeAfterCredit | database.py:248-260 | one joined invite recorded together with +1 count (and +100 XP when it carries a code) keeps the counters in step |
| LedgerProps.AddUserKeepsCounters | database.py:184-208 | registration keeps the counters in step |
| LedgerProps.AddTicketKeepsCounters | database.py:679-686 | the start-link credit keeps the counters in step when the inviter is registered or the pair already has a row |
| LedgerProps.BookkeepingKeepsCounters | database.py:694-723 | the subscription upsert, the referral ticket, task completion and the prize seed keep the counters in step |
| LedgerProps.OrphanInviteDrift | database.py:679-686 | counterexample: a credit for an unregistered inviter id and a later registration of that id give `successful_invites` 1 with `referral_count` 0 |
| Ledger.Database.SetSubscriptionStatus | database.py:694-710 | performs the upsert on `tickets_subscription`; keeps the code constraint |
| LedgerProps.SetSubscriptionTickets | database.py:698-708 | after the upsert the user has exactly one flag, holding the new value; other users' flags and tickets are untouched; the user's ledger tickets follow the flag |
| Ledger.Database.AddReferralTicket | database.py:712-723 | performs the insert-if-absent on `tickets_referral`; keeps the code constraint |
| LedgerProps.AddReferralTicketIdempotent | database.py:716-722 | `add_referral_ticket` is idempotent per pair and adds exactly one ledger ticket for a new pair, to that user only |
| LedgerProps.ReferralTicketsOfInsert | database.py:743-744 | inserting a new pair adds exactly one row to that user's `tickets_referral` count and to nobody else's |
| LedgerProps.AddTicketLeavesLedgerTickets | database.py:733-749 | the start-link credit changes no user's `get_user_tickets` |
| LedgerProps.FrontDoorOperationsKeepTicketTables | database.py:739-746 | registration, the start-link credit and task completion never write the subscription, referral-ticket or participant tables, so `get_user_tickets` depends on none of them |
| Ledger.Database.CompleteTask | database.py:402-460 | performs `complete_task`'s transition |
| LedgerProps.CompleteTaskEffect | database.py:412-432 | an existing user's row changes only by +1 task, with `giveaway_completed` set once the new count is at least 2; other users and every other table are unchanged; an unknown user changes nothing |
| LedgerProps.TwoTasksCompleteGiveaway | database.py:427-432 | a fresh user has completed the giveaway after two tasks and not after one |
| LedgerProps.CreditMarksTaskTwo | database.py:751-770 | after either crediting path, task 2 of `get_task_statuses` is done for the inviter |
| LedgerProps.UserByOwnCode | database.py:325-350 | looking up a user's own code returns that user's summary |
| LedgerProps.UserByCodeFinds | database.py:325-350 | `get_user_by_referral_code` (`LedgerSpec.UserByCode`) finds a user iff some user holds the code, and the user it returns holds that code |
| LedgerSpec.InviterOf | database.py:235-241 | the lookup by code finds a user iff some user holds the code, and the user found is registered and holds it |
| LedgerProps.ReferralInfoOfUser | database.py:281-306 | `get_user_referral_info` (`LedgerSpec.ReferralInfoOf`) answers only for a registered user, with that user's code, count and XP; `successful_invites` is positive iff the user has a joined invite row |
| LedgerProps.ReferralInfoAfterCredit | database.py:281-306 | after one credit with a joined invite, the inviter's referral info shows count +1, XP +100 and successful invites +1 |
| LedgerProps.ReferralLinkShape | database.py:308-323 | `get_referral_link` (`LedgerSpec.ReferralLinkOf`) answers only for a registered user: the bot's start link "https://t.me/FSRUBOT?start=ref" followed by that user's code |
| LedgerProps.TaskStatusesMeaning | database.py:751-770 | `get_task_statuses` (`LedgerSpec.TaskStatusesOf`): task 1 is done iff the user is a giveaway participant, task 2 iff the user has a joined invite row |
| LedgerProps.TicketsOfMeaning | database.py:733-749 | `get_user_tickets` (`LedgerSpec.TicketsOf`) is zero iff the user has neither a true subscription flag nor a `tickets_referral` row, and at least one for a true flag |
| Ledger.Database.GetGiveawayPrizes | database.py:352-378 | the result lists every prize exactly once (as a multiset), by value descending |
| LedgerProps.PrizesByValueOrdered | database.py:358-362 | `ORDER BY value DESC` is a permutation of the table, sorted by value |
| Ledger.Database.constructor | database.py:7-182 | a fresh store has empty tables plus the seed prizes, and satisfies the code invariant |
| Ledger.Database.InitGiveawayPrizes | database.py:143-182 | the three seed prizes are inserted only into an empty table; the code constraint is kept |
| LedgerProps.JoinedCountPositive | database.py:764-765 | a positive joined count means some joined invite row of that inviter exists, and conversely |
| LedgerProps.JoinedCountAppend | database.py:289 | appending an invite row adds one to `successful_invites` exactly when it is a joined row of that inviter |
| Common.ParseIntToString | bot.py:109 | `int(str(n)) == n` |
| Common.AscendingIdsAscend | database.py:235-236 | the scan visits the user ids in strictly ascending order |
| Bot.Words | bot.py:98-99 | `message.text.split()`: every word is non-empty and holds no whitespace |
| Bot.LeadingWord | bot.py:98-99 | the first word is a whitespace-free prefix of the text, ended by whitespace or the end of the text |
| Bot.WordsCons | bot.py:98-99 | a whitespace-free word followed by whitespace is the first word of the split, and the rest splits on its own |
| Bot.ReferredBy | bot.py:97-101 | the result is `r` exactly when the second word of the text is "ref" + `r`; without a second word starting with "ref" it is `None` |
| Bot.ReferredByOfStart | bot.py:97-101 | "/start ref<p>" followed by anything after whitespace yields exactly `p`; later words are ignored |
| Bot.BareRefIsNoReferral | bot.py:97-107 | a bare "ref" gives an empty `referred_by`, which is not truthy |
| Bot.NoSecondWordNoReferral | bot.py:97 | without a second word there is no referral |
| Bot.ReferralLinkRoundTrip | database.py:308-323 | opening a user's referral link yields exactly that user's code, and the lookup by code returns that user |
| Bot.ValidCodeIsNotAnInteger | bot.py:109 | a referral code never parses as an integer, so the numeric path does not fire for a code |
| Bot.IntegerIsNotACode | bot.py:100-104 | the decimal text of an id is never a referral code |
| Bot.CmdStart | bot.py:88-113 | performs `Bot.StartSpec`: `add_user` with the extracted `referred_by`, then the numeric credit for a truthy parameter that `int()` accepts; a parse failure changes nothing; with well-formed draws the code constraint is kept |
| Bot.StartWithoutInteger | bot.py:106-113 | when the parameter is not an integer, `/start` is registration alone |
| Bot.StartWithCodeCreditsOnce | bot.py:97-113 | a start link with a code credits only through registration |
| Bot.StartWithIdCreditsOnce | bot.py:97-113 | a start parameter "ref<id>" credits nobody at registration, and the numeric path alone records the invite |
| Bot.AddUserWithForeignReferral | database.py:200-201 | a `referred_by` that cannot begin a code credits nobody at registration |
| Bot.AdminIds | bot.py:31 | the configured admin list holds exactly one id |
| Bot.AdminGate | bot.py:270-279 | the gate of `/stats` (`Bot.StatsGate`): with ADMIN_CHAT_ID unset every real sender is refused; a configured id is admitted, and only that id |
| Bot.TopRowsSpec | bot.py:402-408 | the ranking (`Bot.TopRows`) has at most 5 rows, all from `users` with a positive count; it is sorted by (count, XP) descending and drawn from the qualifying rows; every row left out ranks no higher than the last one shown; it is empty iff no user qualifies |
| Bot.QualifyingMembers | bot.py:405 | the filtered rows are exactly the users with a positive `referral_count` |
| Bot.TopReferrers | bot.py:394-424 | the placeholder is returned iff no user qualifies; otherwise one line per ranked row, labelled by username, else first name, else "Unknown" |
| Bot.Label | bot.py:412 | the label is never empty |
| Sorting.SortDescSorted | bot.py:406 | `ORDER BY … DESC` yields a sorted sequence |
| Sorting.SortDesc | bot.py:406 | the sorted rows are a permutation of the input |
| Sorting.TakeOfSorted | bot.py:407 | `LIMIT n` of a sorted permutation is sorted, is drawn from the input, and ranks at least as high as everything left out |
| Api.FirstMissing | api_server.py:57-60 | the reported field is the first required one that is absent, in list order; `None` iff all are present |
| Api.UploadVerdictOrder | api_server.py:50-70 | the checks of `Api.UploadVerdict`: an empty body gives the no-data 400, then the first missing field, then a non-image/video `mimeType`, then a `fileSize` over 10 MiB; a request passes iff all four checks pass |
| Api.SizeLimitBoundary | api_server.py:69 | exactly 10485760 bytes passes and 10485761 is rejected |
| Api.UploadInsertsOnlyValid | api_server.py:47-107 | the upload (`Api.UploadSpec`): only a request passing every check adds a row, exactly one, answered 200; any other request leaves the table unchanged; 400 iff a check rejects |
| Api.UploadKeepsIdsUnique | api_server.py:29 | the photo id primary key survives every upload |
| Api.PhotoStore.Upload | api_server.py:47-107 | performs the upload transition and status, keeping the primary key |
| Api.PhotoStore.Delete | api_server.py:178-203 | 404 iff no row has the id; otherwise those rows are removed; the primary key is kept |
| Api.WithoutIdKeepsIdsUnique | api_server.py:185-189 | deleting rows by id keeps the photo-id primary key |
| Api.DeleteNotFoundIff | api_server.py:178-203 | the delete (`Api.DeleteSpec`): 404 exactly when no row had the id, and then nothing changes; afterwards no row has it, every row with another id is still there, and a second delete is 404 |
| Api.WithoutId | api_server.py:185-189 | the rows left after deleting by id have none with that id and all come from the table; the count drops iff some row had the id |
| Api.WithoutIdCounts | api_server.py:185-189 | deleting by id removes every row with that id and keeps every other row as often as it occurred |
| Api.UploadThenDelete | api_server.py:178-203 | a photo uploaded with a string id can be deleted by that id |
| Api.PreparedMessageRequiresFields | api_server.py:294-320 | `create_prepared_message` (`Api.CreatePreparedMessage`): a message id is produced iff title, description, message_text and user_id are all present; otherwise the first missing field is reported |
| Api.PreparedMessageRoundTrip | api_server.py:310 | the id is "invite_" + user id + "_" + timestamp, and both integers can be read back from it |
| Api.CheckMembership | api_server.py:432-440 | subscribed iff some channel reports member, administrator or creator; raising calls are skipped; the loop stops at the first hit |
| Api.TicketsEndpointCounts | api_server.py:445-475 | the endpoint (`Api.UserTicketsEndpoint`) answers only for a registered user, and then returns (1 if subscribed) + that user's joined invite count |
| Api.AddTicketEndpointReply | api_server.py:511-525 | `POST /api/add-ticket-for-referral` (`Api.AddTicketEndpoint`) answers 500 iff the body is no object or an id fails `int()`, and then changes nothing; otherwise it performs `add_ticket_for_referral_start` and reports the inviter's `get_user_tickets` from before the call (0 for an unbindable id), which the credit never raises |
| Api.AddTicketEndpointOnce | api_server.py:516-522 | with integer ids (numbers or decimal strings), the first request for a pair reports success and a repeated one failure, both with the same ticket count |
| Api.EndpointAndLedgerDisagree | api_server.py:445-475 | the start-link credit raises the endpoint's count and not `get_user_tickets`; `add_referral_ticket` does the reverse |

## Left out

- Connections and locking: each method is one atomic transition, and `add_user` is modelled as if `_process_referral` ran inside its transaction. In the source the two use separate connections. The `INSERT OR IGNORE` at database.py:193-197 opens a transaction on `add_user`'s connection, and that transaction holds the write lock until the commit at database.py:203. `_process_referral` (database.py:228-279) runs before that commit, on a second connection with the default 5-second busy timeout. Its SELECT at database.py:235 cannot see the uncommitted new row, so a new user's own code is never found. When an inviter is found, the UPDATE at database.py:248-253 needs the write lock that the first connection holds. It waits out the timeout, raises "database is locked", and the `except` at database.py:278-279 discards the error. So in the program as written, the credit made during registration (`LedgerProps.ProcessReferralCredits`, `LedgerProps.AddUserRegisters`, `LedgerProps.AddUserOnExistingUser`, `LedgerProps.AddUserCreditsInviter`, `LedgerProps.AddUserTwiceCreditsTwice`) never takes effect, and every `/start` whose referral code names an existing user stalls for about five seconds. The numeric start-link credit (`add_ticket_for_referral_start`) runs after the commit and is not affected. The model keeps the atomic reading, which is what the code is evidently meant to do.
- `set_user_premium` (database.py:725-731): it writes `users.is_premium`, a column that no modelled query reads.
- `add_photo_upload` (database.py:591-617): neither the bot nor the API server calls it; the photo table is modelled through the HTTP upload in `Api.PhotoStore`.
- `add_activity`, `log_referral_stats` and `log_folder_subscription` (database.py:380, 462, 491): they write only `user_activity` and `last_activity`, or send log messages; no modelled query reads these.
- Ledger.Database.GenerateReferralCode: randomness is an input sequence of draws; the unbounded `while True` retry becomes "give up (`None`) when the draws run out", where the source would keep drawing.
- Timestamps (`created_at`, `last_activity`, the 7-day window, `datetime.now()`): the prepared-message timestamp is an integer parameter; the others are not modelled.
- Telegram calls (`get_chat_member`, message sending, prepared inline messages): membership results are a given list of status-or-exception values; replies are reduced to which branch is taken.
- The notifier tasks, `add_activity`, `user_activity` and logging: outbound messages and audit rows that no modelled query reads.
- The reply texts of `/start`, `/stats` and the ranking, keyboards and emoji: only the ranking's label and numbers are modelled.
- Bot.TopRows: SQLite leaves the order of ties unspecified. The model lists the qualifying rows in ascending id order before sorting (`Common.AscendingIdsAscend` proves that scan order), and no lemma states where ties end up after the sort.
- Api.UploadVerdict: JSON floats are not modelled (a float `fileSize` would be compared numerically), and neither are top-level bodies that are lists, strings or numbers.
- Api.PreparedMessageRoundTrip: the `Json` values have no floats, so the id that `str()` builds from a float `user_id` at api_server.py:310 (for example "invite_1.5_…") is not modelled; the round trip is stated for an integer `user_id` only.
- Api.PhotoStore: the model follows the schema of `init_photo_uploads_table`. database.py declares `photo_uploads` without `file_data`, and under that schema every insert fails; which schema exists depends on which code created the table first.
- Ledger.Database.SetSubscriptionStatus, Ledger.Database.AddReferralTicket and Ledger.Database.CompleteTask: ids outside SQLite's 64-bit range (which would raise) are not modelled; registration and the start-link credit already refuse such ids.
- The query functions `TicketsOf` and `TaskStatusesOf` do not model the 0 / false fallback for an exception, which only an unbindable id can cause.
- `get_user_stats`, `get_photo_stats`, `get_global_stats` and the other read-only endpoints: aggregates for display; only the tickets endpoint's use of `get_user_stats` (None for an unknown user) is modelled.
- `check_subscription` (api_server.py:414-443): only its membership loop, which it shares with the tickets endpoint, is modelled (`Api.CheckMembership`); its request parsing and channel query are not.
- Api.AddTicketEndpointReply: a JSON float id is not modelled; Python's `int()` would truncate it, while `Api.PyInt` treats every non-integer, non-string, non-boolean value as raising.
- `giveaway_participants` is read by `get_task_statuses` but written only by a test-data script; it is a field that no modelled operation changes.
- Non-ASCII digits: Python's `int()` also accepts other Unicode decimal digits; `Common.ParseInt` accepts ASCII digits only.
