# Botgart persistence layer and key-handling commands, in Dafny

This project models the database layer of the Botgart Discord bot and the two
commands whose decisions rest on it. Every SQLite table becomes a class holding
its rows. The table's constraints are written out as invariants, following
SQLite's rules:

- `ON CONFLICT REPLACE` deletes the clashing row, then inserts.
- A plain `UNIQUE` aborts the insert.
- `AUTOINCREMENT` hands out one more than the largest id ever issued.
- `SUM` over no rows is NULL.
- `x = NULL` is never true.

The modules are:

- `Registrations`: the `registrations` table of `src/DB.ts` (and its older twin in `src/DB.js`). It covers `storeAPIKey`, `deleteKey`, `whois`, `findDuplicateRegistrations` and `getDesignatedRoles`, with `ORDER BY guild` as a proved sorted permutation.
- `Permissions`: `checkPermission` (the signed-weight sum) and `setPermission` (upsert on (command, receiver), then a read-back sum).
- `Faqs`: the FAQ and keyword tables of `src/DB.ts`, with foreign keys enforced.
- `LegacyFaqs`: the same tables as `src/DB.js` declares them. FAQ text is unique with replace, and `deleteFAQ` ignores the guild. `src/DB.js` never sets the `foreign_keys` pragma, so whether the replace cascades to the replaced FAQ's keywords depends on the SQLite build's default. The store takes that default as a constant and both behaviours are modelled.
- `Cronjobs`: the cronjob table, which is the same in both versions.
- `Revalidation`: the per-row classification of `revalidateKeys` in both versions. The API answer for each row is an input.
- `Authenticate`: the `authenticate` command, covering:
  - the key-format regular expression;
  - collecting the author's memberships;
  - the per-guild store/assign/reply loop;
  - mapping validation errors to replies.
- `DeleteCron`: the `deletecron` command, which unschedules a job, deletes it from the database and reports whether either happened.
- `Common` and `Ordering`: shared pieces:
  - an option type;
  - row filtering that keeps uniqueness;
  - ASCII lower-casing and substring search for `LIKE '%…%'`;
  - the code-point order SQLite's default `BINARY` collation uses.

Discord, the Guild Wars 2 API and the scheduler library are not modelled. What they return is a parameter. What the bot sends, deletes or assigns is an output list of effects.

Notes on how the code behaves, where it differs from its own documentation:

- `storeAPIKey` refuses a user re-registering the key they already hold in the guild (see "## Findings").
- A permission grant whose guild is NULL never matches (`guild = ?`). The same holds for a check without a guild. There is no global scope in the code.
- `deleteKey` and `deleteCronjob` return a boolean (`changes > 0`), not a count.
- `revalidateKeys` only classifies; it writes nothing back. `Promise.all` keeps the snapshot's `ORDER BY guild` order in its result.
- No `updateRole` operation exists in the code.

## Model

| member | source | states |
|---|---|---|
| Registrations.InsertReplacesPair | src/DB.ts:59-69 | an insert aborts exactly when a row of the guild holds the key; otherwise both UNIQUE constraints still hold, the new row is the only one of its (user, guild), every other pair's row is kept and nothing else appears |
| Registrations.SameUserSameKeyRefused | src/DB.ts:59-69 | a user storing again the key their own row of the guild holds is refused |
| Registrations.InsertIntendedReplacesOwnKey | src/commands/Authenticate.ts:14 | the intended insert aborts exactly on another user's key in the guild, accepts a user's own key again, keeps both constraints and leaves one row per (user, guild) |
| Registrations.WithoutKeyConstrained | src/DB.ts:269-278 | deleting the rows of a key keeps both UNIQUE constraints |
| Registrations.OrderByGuild | src/DB.ts:184 | `ORDER BY guild` yields the same rows (as a multiset), sorted by guild |
| Registrations.UsersOf | src/DB.ts:338 | `group_concat(user)` of an account holds each user as many times as it has rows for that account, so its size is the group's `COUNT(*)`; a user is in it iff it has such a row |
| Registrations.RegistrationTable.StoreAPIKey | src/DB.ts:219-230 | true iff no row of the guild held the key; then the table is the old one without the user's row in that guild plus the new row; false leaves the table unchanged; constraints kept; src/DB.js:113-124 is the same insert without a role column (role None) |
| Registrations.RegistrationTable.DeleteKey | src/DB.ts:269-278 | removes every row with the key in any guild, keeps all others, returns true iff one existed; src/DB.js:134-143 is the same |
| Registrations.RegistrationTable.Whois | src/DB.ts:116-139 | the result is exactly the (user, account name) pairs of rows whose user is a candidate, united with those whose lower-cased account name contains the lower-cased search string |
| Registrations.RegistrationTable.FindDuplicateRegistrations | src/DB.ts:337-339 | one group per account with more than one row, holding its users and a count equal to that account's number of rows; every such account has a group |
| Registrations.RegistrationTable.GetDesignatedRoles | src/DB.ts:183-185 | one (user, guild, role) per row, sorted by guild, exactly the projections of the rows, each as often as its rows |
| Registrations.DesignationsInsert | src/DB.ts:184 | placing a row by guild adds exactly that row's (user, guild, role) to the projection |
| Registrations.DesignationsOrdered | src/DB.ts:184 | `ORDER BY guild` changes the projected (user, guild, role) rows only in their order |
| Ordering.TextLeqTotal | src/DB.ts:184 | the order used for `ORDER BY guild` relates every two strings |
| Ordering.TextLeqTransitive | src/DB.ts:184 | that order is transitive |
| Ordering.TextLeqAntisymmetric | src/DB.ts:184 | that order is antisymmetric |
| Permissions.SqlSum | src/DB.ts:146-147 | `SUM(value)` is NULL exactly when no row is selected |
| Permissions.SqlSumIsTotal | src/DB.ts:146-147 | when some row is selected, SUM is the plain sum of the selected values |
| Permissions.SqlSumSameSelection | src/DB.ts:150-154 | two conditions selecting the same rows give the same sum |
| Permissions.WeightIsSumOfApplicable | src/DB.ts:141-157 | the weight is NULL iff no grant for the command, guild, candidate receivers and type user/role exists; otherwise it is the sum over exactly those grants; with none it does not allow |
| Permissions.WeightIgnoresReceiverOrder | src/DB.ts:143-155 | the weight depends only on which receivers are candidates, not their order or repetition |
| Permissions.Find | src/DB.ts:163-165 | locates the grant with the conflict key (command, receiver), or reports that none has it |
| Permissions.UpsertSetsValue | src/DB.ts:163-166 | after the upsert (command, receiver) is still unique and its grant carries the new value; an existing grant keeps type and guild; every other grant is kept and nothing else appears |
| Permissions.ReceiverWeightAfterUpsert | src/DB.ts:167-171 | the read-back sum is the new value when the stored grant's guild equals gid, NULL otherwise |
| Permissions.SingleSelected | src/DB.ts:167-171 | a sum over a selection of one row is that row's value, NULL when it is not selected |
| Permissions.OpposingGrantsScenario | src/DB.ts:141-175 | a role granted +5 and its member granted -10 on one command and guild give weight -5, which does not allow |
| Permissions.RoleList.Push | src/DB.ts:142 | appends the user id to the caller's array |
| Permissions.PermissionTable.CheckPermission | src/DB.ts:141-157 | appends uid to the caller's roles and changes nothing else; returns the weight over the grants that apply to roles plus uid, allowed iff it is a number above 0 |
| Permissions.PermissionTable.SetPermission | src/DB.ts:159-175 | the table becomes the upsert of the grant, the key stays unique, and the result is the read-back sum for (command, gid, receiver) |
| Faqs.PutKeyStep | src/DB.ts:86-97 | storing a keyword under the next id keeps ids and keywords unique and replaces exactly the old row of that keyword |
| Faqs.PutKeysValid | src/DB.ts:193-194 | storing a list of keywords keeps the keyword table's constraints and advances its counter by their number |
| Faqs.PutKeysEffect | src/DB.ts:187-198 | after storing, every given keyword has a row pointing at the new FAQ with the caller's user and guild; rows of other keywords are kept and no other row appears |
| Faqs.InsertKeyRows | src/DB.ts:193-194 | the insert loop yields the stored keywords and the counter advanced by their number |
| Faqs.StoreKeepsForeignKeys | src/DB.ts:94-96 | a new FAQ plus its keywords leaves every keyword pointing at an existing FAQ |
| Faqs.FaqById | src/DB.ts:213 | finds the FAQ a keyword row points at, or reports that none has that id |
| Faqs.JoinWhere | src/DB.ts:213 | the join holds exactly the (FAQ, selected keyword) pairs linked by `faq_id`, with `fk`'s shared columns |
| Faqs.LookupFaq | src/DB.ts:212-214 | a joined row exists iff the keyword (key, guild) points at an existing FAQ, and it is that pair's row |
| Faqs.GuildFaqs | src/DB.ts:216-218 | exactly the joined rows of the guild's keywords |
| Faqs.FaqStore.StoreFAQ | src/DB.ts:187-198 | returns the next id; the FAQ is appended under it, the keywords are stored pointing at it; ids, keyword uniqueness and foreign keys keep holding |
| Faqs.FaqStore.DeleteFAQ | src/DB.ts:200-210 | removes the keyword rows of (key, guild), then every FAQ no keyword points at; true iff a keyword row was removed |
| Faqs.FaqStore.GetFAQ | src/DB.ts:212-214 | the FAQ the keyword (key, guild) points at, if any |
| Faqs.FaqStore.GetFAQs | src/DB.ts:216-218 | every (FAQ, keyword) pair of the guild |
| LegacyFaqs.InsertFaqReplacesText | src/DB.js:60-67 | an FAQ under a fresh id becomes the only FAQ with its text; FAQs with other texts are kept; ids and texts stay unique |
| LegacyFaqs.ReplacedFaqLeavesDanglingKeys | src/DB.js:68-78 | with foreign keys not enforced, a keyword of a replaced FAQ that is not stored again keeps its row and then points at no FAQ |
| LegacyFaqs.ReplacedFaqCascades | src/DB.js:60-78 | with foreign keys enforced, the replace deletes the replaced FAQ's keywords (`ON DELETE CASCADE`): afterwards no keyword points at it, every keyword points at an existing FAQ, and the keyword constraints hold |
| LegacyFaqs.LegacyFaqStore.StoreFAQ | src/DB.js:84-94 | returns the next id; the FAQ replaces any FAQ with the same text; with foreign keys enforced the replaced FAQ's keyword rows are deleted with it and every keyword keeps pointing at an existing FAQ; the keywords are stored pointing at the new FAQ |
| LegacyFaqs.LegacyFaqStore.DeleteFAQ | src/DB.js:96-103 | removes the keyword's row in any guild, then every FAQ no keyword points at; returns nothing |
| LegacyFaqs.LegacyFaqStore.GetFAQ | src/DB.js:105-107 | the FAQ the keyword (key, guild) points at, if any |
| LegacyFaqs.LegacyFaqStore.GetFAQs | src/DB.js:109-111 | every (FAQ, keyword) pair of the guild |
| Cronjobs.WithoutId | src/DB.ts:313 | exactly the rows with another id remain; one fewer iff a row had the id; unchanged iff none had it |
| Cronjobs.CronjobTable.StoreCronjob | src/DB.ts:293-303 | returns an id larger than every existing one; the job is appended under it; src/DB.js:158-168 is the same |
| Cronjobs.CronjobTable.DeleteCronjob | src/DB.ts:309-318 | removes the row with the id; true iff there was one; src/DB.js:174-183 is the same |
| Registrations.OrderByGuildSameRows | src/DB.ts:243 | the sorted snapshot holds exactly the table's rows |
| Revalidation.Classify | src/DB.ts:246-260 | a resolved role gives [row, role]; `false` or `invalid_key` give [row, false]; any other rejection gives undefined |
| Revalidation.RevalidateKeys | src/DB.ts:239-267 | one entry per registration; an entry is missing exactly where the check failed with another error than an invalid key; entries hold the earned role or `false`, keep guild order and come from the table |
| Revalidation.EveryRowIsChecked | src/DB.ts:241-244 | every registration appears in the result at some position |
| Revalidation.LegacyRevalidateKeys | src/DB.js:126-132 | any rejected check rejects the whole result; otherwise each row in guild order is kept where the check resolved falsy and is undefined elsewhere |
| Revalidation.LegacyMatchesFalseEntries | src/DB.js:129 | without failures or an empty role name, the older version keeps exactly the rows the newer one marks `false` |
| Authenticate.MatchesGroupsShape | src/commands/Authenticate.ts:67 | a string matches the group pattern iff it has the pattern's width, '-' at each separator and a word character elsewhere |
| Authenticate.KeyWidth | src/commands/Authenticate.ts:66-67 | the key pattern is 72 characters wide |
| Authenticate.WrongLengthRefused | src/commands/Authenticate.ts:67-70 | a key of another length, the empty default included, does not match |
| Authenticate.FindMember | src/commands/Authenticate.ts:59 | the member found is the first with the author's id; none is found iff no member has it |
| Authenticate.FindRole | src/commands/Authenticate.ts:90 | the role found is the first role with the world's name; none is found iff no role has it |
| Authenticate.MembersOf | src/commands/Authenticate.ts:58-63 | the memberships collected are the author's, on guilds of the bot; every guild with a member of the author's id has one |
| Authenticate.CollectMembers | src/commands/Authenticate.ts:52-63 | the `forEach`/`push` loop collects exactly those memberships |
| Authenticate.ErrorReply | src/commands/Authenticate.ts:112-130 | `invalid_key` is answered KEY_DECLINED, every other rejection INTERNAL_ERROR |
| Authenticate.StoreKeys | src/commands/Authenticate.ts:89-108 | the per-guild loop leaves table, effects and reply as the fold of the per-guild step; constraints kept |
| Authenticate.Command | src/commands/Authenticate.ts:46-134 | the effects and the new table are those of the whole command's specification |
| Authenticate.StoreAllRows | src/commands/Authenticate.ts:89-107 | the loop keeps the constraints, and every row is an old one or the key stored for a membership whose guild has the role; a guild without it gets no row |
| Authenticate.StoreAllEffects | src/commands/Authenticate.ts:95-101 | the loop only appends role assignments and their log lines, for the world's role, each for a membership whose guild has it |
| Authenticate.StoreAllAssignments | src/commands/Authenticate.ts:95-99 | every role assignment is for the world's role and names the member and guild of a membership whose guild has the role |
| Authenticate.Assignment | src/commands/Authenticate.ts:90-99 | the assignment of a successful store names the member, its guild, and the id of a role of that guild with the world's name |
| Authenticate.StoreForOutcome | src/commands/Authenticate.ts:90-106 | one iteration assigns and logs exactly when the guild has the role and does not hold the key; then the row is written; otherwise (missing role, duplicate key) neither table nor effects change |
| Authenticate.StoreAllSplit | src/commands/Authenticate.ts:89 | running the loop over two lists in a row is running it over their concatenation |
| Authenticate.StoreAllKeepsRow | src/commands/Authenticate.ts:95 | the loop never removes a row of a guild none of the memberships is on |
| Authenticate.StoreAllAssignsStored | src/commands/Authenticate.ts:95-99 | each membership whose store succeeded at its turn gets its role assignment |
| Authenticate.StoreAllAssignsOnlyStored | src/commands/Authenticate.ts:95-106 | every role assignment belongs to a membership whose store succeeded at its turn; a duplicate key or a missing role assigns nothing |
| Authenticate.StoreAllWritesRow | src/commands/Authenticate.ts:95 | on distinct guilds, the row a successful store writes is still in the table after the loop |
| Authenticate.StoreAllWritesRows | src/commands/Authenticate.ts:89-108 | on distinct guilds, every membership whose store succeeded at its turn has its row in the final table |
| Authenticate.MembersOfDistinctGuilds | src/commands/Authenticate.ts:58-63 | guilds with distinct ids yield memberships on distinct guilds |
| Authenticate.ReplyFromLastGuild | src/commands/Authenticate.ts:89-109 | the reply is decided by the last guild: INTERNAL_ERROR iff it lacks the role, KEY_ACCEPTED iff its store succeeded, KEY_NOT_UNIQUE iff the guild held the key |
| Authenticate.InvalidFormatStoresNothing | src/commands/Authenticate.ts:65-70 | a malformed key gets CHECKING_KEY then KEY_INVALID_FORMAT; nothing is validated, deleted or stored |
| Authenticate.RefusalStoresNothing | src/commands/Authenticate.ts:81-131 | a `false` validation or a rejection stores nothing and assigns no role; the last message goes to the user: KEY_DECLINED for `false` or `invalid_key`, INTERNAL_ERROR otherwise |
| Authenticate.OneReplyAfterLoop | src/commands/Authenticate.ts:88-110 | after a successful validation exactly one message goes to the user, the last one; each role assigned is the world's role on one of the author's guilds that has it |
| DeleteCron.NegatedIdNeverNegative | src/commands/cron/DeleteCron.js:24 | `!args.id < 0` is false for every id |
| DeleteCron.NegativeIdPasses | src/commands/cron/DeleteCron.js:24 | the check as written lets id -1 through |
| DeleteCron.MissingArgsThrow | src/commands/cron/DeleteCron.js:24 | with missing arguments or id the check as written throws instead of producing the help text |
| DeleteCron.CheckArgs | src/commands/cron/DeleteCron.js:23-25 | the intended check: help text iff arguments or id are missing or the id is not positive |
| DeleteCron.CheckArgsDiffersOnNegativeIds | src/commands/cron/DeleteCron.js:24 | where the written check throws the intended one answers with help; elsewhere they differ only on negative ids |
| DeleteCron.ScheduledJob.Cancel | src/commands/cron/DeleteCron.js:56 | the job is cancelled |
| DeleteCron.DeleteCronCommand.DeleteCronjob | src/commands/cron/DeleteCron.js:52-66 | a scheduled id is cancelled and unscheduled, no other job is touched, the database row is deleted, and the result is true iff it was scheduled or in the database; otherwise nothing changes |
| DeleteCron.DeleteCronCommand.Exec | src/commands/cron/DeleteCron.js:33-45 | with the corrected argument check: a DM is refused and bad arguments get the help text, both without changes; otherwise the job is deleted and whether it was is sent |
| DeleteCron.DeleteCronCommand.ExecAsWritten | src/commands/cron/DeleteCron.js:23-45 | with the argument check as written: a DM is refused; missing arguments, a missing id or id 0 raise the ReferenceError with nothing sent or changed; any other id, negative ones included, is deleted and whether it was is sent |

## Left out

- The revalidation semaphore, the delay after each check and the asynchrony of the commands: they are concurrency and timing. Each command runs to completion in order.
- `Util.validateWorld`, `Util.getAccountGUID`, `Util.assignServerRole`, `discordLog` and Discord messaging are not part of this model. Their answers are inputs. Their calls are effects in the output list.
- SQLite connection handling, pragmas other than foreign-key enforcement, and logging. The catch-all in `execute` turns an exception into `undefined`.
- Permissions.SqlSum: uses unbounded integers. SQLite's `SUM` over integers raises "integer overflow" once the total leaves the 64-bit range (above 2^63-1), and `execute` then returns `undefined` from `checkPermission` or `setPermission`; the model has no such outcome.
- `created` timestamps: they come from the clock and are left out. `getFAQ`, `getFAQs` and `getCronjobs` do return them through `SELECT *` (src/DB.ts:213, 217, 306; src/DB.js:106, 110, 171), and `FaqView` and `Cronjob` omit that column.
- The registration `id`: no modelled query reads it.
- Registrations.AccountMatches: `LIKE` wildcards inside the search string are not interpreted, and lower-casing covers ASCII letters only.
- The `account_name` column is not in the shown schema. It is modelled as a nullable column that `storeAPIKey` leaves NULL.
- `getGW2Accounts`: its SQL has no `FROM` clause, so preparing it fails and `execute` returns `undefined`; it also calls `.all()` on the result of `.run(...)`.
- `getPermanentRoles`: its SQL is valid, but it calls `.all()` on the result of `.run(...)`, which is not a statement, so the call throws and `execute` returns `undefined`. `storePermanentRole`, log channels and `getUserByAccountName` are outside the modelled core.
- Registrations.RegistrationTable.StoreAPIKey: keeps the insert as written (`Insert`), and so does the `authenticate` model, because they model what the code does; the intended insert of "## Findings" is `InsertIntended`.
- Authenticate.Command: a failed account lookup (`guid` None) stops the command after the privacy step. An unhandled rejection sends nothing more.
- Authenticate.Command: the auth log goes to the guild the command was invoked in (`guild`), not to the guild of the membership. It is recorded as given.
- DeleteCron.DeleteCronCommand.DeleteCronjob: the database deletion is a `CronjobTable` instance. The code calls `DB.deleteCronjob` on the module's class export.
- Cronjobs.CronjobTable.GetCronjobs returns the rows as they are and carries no contract.
- DeleteCron.DeleteCronCommand.Exec: uses the corrected argument check `CheckArgs`, not the code as written; `ExecAsWritten` models the code as written.
- LegacyFaqs.LegacyFaqStore.StoreFAQ: which foreign-key default the deployed SQLite build has is not known to the model; it is the `foreignKeys` constant, and both values are modelled.
- The schedule map's keys are integers. JavaScript object keys are strings, which `in` reaches by coercing the id.

## Findings

| source | as written | input that shows it | evidently intended | confidence | as-written member | corrected member |
|---|---|---|---|---|---|---|
| src/commands/cron/DeleteCron.js:24 | `!args.id < 0` compares a boolean with 0, so it is never true | id -1 passes the check and is passed on to the deletion | reject negative ids (`args.id < 0`) | not executed | DeleteCron.NegativeIdPasses | DeleteCron.CheckArgs |
| src/DB.ts:59-69, src/DB.ts:219-230, src/commands/Authenticate.ts:14 | the aborting `UNIQUE(guild, api_key)` is checked before the `UNIQUE(user, guild) ON CONFLICT REPLACE`, so the user's own row blocks the insert | a row (user, guild, key) exists and the same user stores the same key in that guild again | the key is stored again, replacing the user's row ("valid duplicate key for the same user -> key replaced") | not executed | Registrations.SameUserSameKeyRefused | Registrations.InsertIntended, proved in Registrations.InsertIntendedReplacesOwnKey |
| src/commands/cron/DeleteCron.js:24 | the help branch calls `message.util.send`, but `message` is not in scope in `checkArgs`, so it throws a ReferenceError | arguments missing, or id "" or 0 | return the help text for `exec` to send | not executed | DeleteCron.MissingArgsThrow | DeleteCron.CheckArgs |
