# Reminder bot: a verified model of its reminder subsystem

This project models the reminder subsystem of a Discord bot in which users create,
list and delete reminders that the bot later posts in a channel. It has five parts:

- **The time-expression parser** (`parse_datetime`). It reads durations such as `1d`,
  `30m` or `2y3M`, the literals `tomorrow` and `next week`, and anything else through a
  general date parser.
- **The text helpers.** These are the mention scanner, its space-joined form, the bold
  wrapper and the chunking of embed fields into pages.
- **The reminder store** (`ReminderService`). It keeps a per-guild reminder counter and
  the table of reminders, each numbered within its guild.
- **The reminder commands** (`UserReminder`). These cover:
  - the checks of `/reminder create`;
  - the author-or-administrator rule of `/reminder delete` and its autocomplete;
  - arming and firing a reminder;
  - the start-up reconciliation;
  - the order of the error handler.
- **The guild bookkeeping** (`Events`). This is the search for a channel to greet in,
  the start-up guild sync, and the join and leave listeners.

Files:

- `wrappers.dfy`: `Option` and `Result`.
- `seqs.dfy`: filtering, taking, flattening and pairwise-ordering lemmas on sequences.
- `time_parse.dfy`: `parse_datetime`, and the round trip between groups and their
  spelling.
- `text.dfy`: `convert_text_to_bold`, `get_mentions_as_list` and
  `get_mentions_as_string`.
- `embeds.dfy`: `create_embeds_from_fields`, with a small `Embed` class.
- `reminder_service.dfy`: the store as a class over its counters and rows, with the
  numbering invariant.
- `reminders_cog.dfy`: the command logic, with the armed tasks as a field of the cog.
- `events.dfy`: the channel search and the guild directory class.

Time is an integer count of seconds. The bot's clock (`now`) is a parameter. dateutil's
calendar addition (`relativedelta`) and its general parser (`parse`) are function-valued
parameters.

## Model

| member | source | states |
|---|---|---|
| TimeParse.Group | app/utils.py:39 | an optional group `(\d+u)?` matches iff the maximal digit run at the position is non-empty and is followed straight away by the unit letter; it then consumes exactly that run and the letter, and its value is the run's decimal value; otherwise it consumes nothing |
| TimeParse.GroupReads | app/utils.py:39 | wherever a non-empty run of digits ends at the unit letter, the group takes exactly that run and the letter, with the run's value |
| TimeParse.RenderedGroups | app/utils.py:39-49 | any seven optional amounts, spelled in the order y M w d h m s and followed by text that does not start with a digit, are read back as exactly those groups (the scan recovers every component and its value) |
| TimeParse.ParseDuration | app/utils.py:39-58 | for such a text the result is `now` plus weeks·604800 + days·86400 + hours·3600 + minutes·60 + seconds, then moved by the calendar addition only when years or months are nonzero |
| TimeParse.DurationOfGroups | app/utils.py:41-58 | whenever some group matched, the instant is the fixed-length shift followed by the calendar shift of the matched years and months |
| TimeParse.OneComponent | app/utils.py:51-54 | a text whose only group is one fixed-length component of amount v gives `now` + v × that unit's seconds |
| TimeParse.NoLeadingDigit | app/utils.py:39-41 | a text that is empty or does not start with a digit matches no group, so the duration branch is not taken |
| TimeParse.ParseDatetime | app/utils.py:36-74 | `parse_datetime` fails only when neither a duration nor a named literal matched and the general parser fails on the text; whenever the text goes to the general parser it goes there unchanged |
| TimeParse.ParseBranches | app/utils.py:41-70 | the duration branch is taken iff some group matched; `Tomorrow` iff the text is exactly "tomorrow"; `NextWeek` iff it is exactly "next week"; everything else goes to the general parser with the text unchanged |
| TimeParse.NamedLiterals | app/utils.py:60-70 | "tomorrow" is `now` + 1 day, "next week" is `now` + 7 days, and "" is whatever the general parser makes of "" |
| TimeParse.OneDayThenJunk | app/utils.py:39-54 | "1dxyz" is one day from `now`: text after the last component is ignored |
| TimeParse.MinutesBeforeHours | app/utils.py:39-54 | "30m1h" is thirty minutes: the pattern tries hours before minutes, so the later `1h` is never read |
| TimeParse.OneMonth | app/utils.py:39-58 | "1M" is one month by calendar addition (capital M is months) |
| TimeParse.OneMinute | app/utils.py:39-54 | "1m" is sixty seconds (small m is minutes) |
| TimeParse.DecimalValue | app/utils.py:43-49 | `int()` of `str(n)` is `n`, so codes and amounts read back as the numbers that were written |
| Text.ConvertTextToBold | app/utils.py:14-15 | the bold form is the text between the two ANSI escapes: 8 characters longer, and stripping the escapes gives the text back |
| Text.MatchAtIsMention | app/utils.py:78 | the matcher at a position reports length n iff the n characters there form one of `<@!digits>`, `<@&digits>`, `<#digits>`, `<@digits>`, `@everyone` or `@here` |
| Text.MentionsFindAll | app/utils.py:77-78 | about `get_mentions_as_list`: every reported item is a mention cut from the text at its span, spans run left to right without overlap, and no mention starts at a position the spans leave uncovered |
| Text.UserMention | app/cogs/reminders.py:203-222 | `member.mention`, `<@id>`, is itself a mention the scanner recognises |
| Text.JoinedMentions | app/utils.py:77-83 | scanning mentions joined by single spaces (with or without one trailing space) gives exactly those mentions back, in order |
| Text.MentionsString | app/utils.py:81-83 | about `get_mentions_as_string`: the joined string is "" iff there are no mentions, and splitting it at single spaces gives the list back |
| Embeds.ChunksFlatten | app/utils.py:93 | about `as_chunks`: concatenating the chunks gives the field list back, in order |
| Embeds.ChunksSizes | app/utils.py:93 | every chunk is non-empty and holds at most `max_size` fields, every chunk but the last holds exactly `max_size`, so there are ⌈len/`max_size`⌉ chunks |
| Embeds.ChunksEmpty | app/utils.py:93-103 | there are no chunks iff there are no fields |
| Embeds.CreateEmbedsFromFields | app/utils.py:86-103 | a size above 25 fails the assertion and a size below 1 fails the chunking, both with the template untouched; otherwise the template's fields are cleared, the result is `None` iff there are no fields, and page k is a distinct fresh copy of the template holding exactly chunk k |
| ReminderService.Get | app/services/ReminderService.py:67-75 | a reminder is returned iff one has that id, and it is that reminder |
| ReminderService.GetByCode | app/services/ReminderService.py:77-85 | a reminder is returned iff one of the guild has that number, and it is in that guild with that number |
| ReminderService.GetFindsTheRow | app/services/ReminderService.py:67-75 | under the table invariant, looking up any stored reminder's id returns that very reminder |
| ReminderService.CodeFindsTheRow | app/services/ReminderService.py:77-85 | under the numbering invariant, looking up any stored reminder's guild and number returns that very reminder (codes are unique per guild) |
| ReminderService.GetAllDispatch | app/services/ReminderService.py:128-166 | about `get_all`: guild wins over member. A guild without a truthy `take` gives its record with its counter and exactly its reminders, every one of them a stored row of that guild (None when the guild is not stored). A guild with `take` gives at most `take` of its reminders, all of them when it has no more. A member gives only its own reminders in its guild, at most `take` of them, and all of them when there are no more than `take` or no `take`. Neither gives the table capped by `take` |
| ReminderService.AddKeepsInvariant | app/services/ReminderService.py:21-65 | appending the reminder numbered counter+1 and bumping the counter keeps ids and per-guild numbers increasing; the new reminder is the guild's last; its number was never issued before and exceeds every number the guild has in use |
| ReminderService.WithoutKeepsInvariant | app/services/ReminderService.py:87-92 | deleting by id keeps the invariant, leaves no reminder with that id and keeps every other reminder |
| ReminderService.UnexpiredKeepsInvariant | app/services/ReminderService.py:94-106 | purging keeps the invariant, keeps exactly the reminders with `expires_at > now` and removes as many as have `expires_at <= now` |
| ReminderService.ReminderStore.Add | app/services/ReminderService.py:13-65 | for a stored guild: the counter goes from c to c+1, the table gains exactly one reminder numbered c+1 with the given channel, author, content and due time, and that reminder is returned; for a guild that is not stored nothing changes |
| ReminderService.ReminderStore.Remove | app/services/ReminderService.py:87-92 | returns the reminder with that id (or None), deletes only it and leaves every counter alone |
| ReminderService.ReminderStore.RemoveExpiredReminders | app/services/ReminderService.py:94-106 | deletes exactly the reminders with `expires_at <= now`, returns how many, and leaves the counters alone |
| RemindersCog.CheckCreate | app/cogs/reminders.py:44-61 | with the three clock readings of `create` kept apart (the parser's, then `self.bot.now` twice), the checks pass iff `in` is non-empty, it parses against the first reading, the parsed instant is after the second reading and before the third plus 1825 days, `1 <= len(content) <= 1000`, and the channel is a text channel; on success the due time is the parsed instant |
| RemindersCog.FiveYearsAfterParse | app/cogs/reminders.py:46-53 | when the past check passes, `in="1825d"` is accepted iff the five-year check reads a later clock than the parser did, because it is due exactly 1825 days after the parser's reading |
| RemindersCog.CheckOrder | app/cogs/reminders.py:50-61 | the first failing check is the one reported, in source order: past, too far, too long, empty, not a text channel |
| RemindersCog.UserReminder.Create | app/cogs/reminders.py:37-71 | when a check fails nothing is stored or armed; otherwise exactly one reminder is added as `add` promises and exactly one task is armed for it with the creating interaction |
| RemindersCog.UserReminder.Store | app/cogs/reminders.py:63-71 | `add` followed by `add_task`: one reminder added, one task with the interaction appended |
| RemindersCog.DeleteTarget | app/cogs/reminders.py:159-175 | "not found" iff no reminder of the guild has that code; allowed iff it exists and the caller wrote it or is an administrator; the target is that guild's reminder with that code |
| RemindersCog.UserReminder.Delete | app/cogs/reminders.py:152-175 | when allowed only that reminder is removed; otherwise the store is unchanged; the armed tasks are never touched |
| RemindersCog.AutocompleteCodes | app/cogs/reminders.py:177-186 | one code per reminder read, in order, each reading back as that reminder's number |
| RemindersCog.SuggestedRows | app/cogs/reminders.py:177-186 | at most 24 reminders are read, each a stored reminder of the caller's guild and, unless the caller is an administrator, the caller's own; when that scope holds no more than 24, every reminder in it is read |
| RemindersCog.AutocompleteSuggests | app/cogs/reminders.py:177-186 | at most 24 suggestions; each is the decimal code of a reminder the caller may see (of the caller's guild, the caller's own unless they are an administrator), and that code looks the reminder up again; when that scope holds no more than 24 reminders, the code of every one of them is suggested |
| RemindersCog.TimeOfDay | app/cogs/reminders.py:189 | the task time is a second within the day |
| RemindersCog.TimeOfDayForgetsDate | app/cogs/reminders.py:189 | the task time ignores the date: instants whole days apart get the same task time, and the date part is exactly what is dropped |
| RemindersCog.UserReminder.AddTask | app/cogs/reminders.py:188-192 | appends one task for the reminder's id, with the interaction and the time of day of its due time |
| RemindersCog.Deliver | app/cogs/reminders.py:224-234 | with no interaction only the channel is tried; with one the follow-up is tried first and the channel only after an HTTPException; the delivery succeeded iff the last attempt returned |
| RemindersCog.MessageMentions | app/cogs/reminders.py:203-222 | the text sent carries the author's mention and then the content's mentions, in order: scanning it for mentions gives the author's mention followed by the content's mentions |
| RemindersCog.Fire | app/cogs/reminders.py:194-236 | a firing finds nothing iff no reminder has that id; it deletes only that reminder, and only after a send returned, sending a text made of the author's mention and the content's mentions; otherwise the table is left as it was |
| RemindersCog.DeletedTaskIsInert | app/cogs/reminders.py:195-198 | firing a task whose reminder has been deleted sends nothing and changes nothing |
| RemindersCog.FireRemovesOnlyAfterSend | app/cogs/reminders.py:194-236 | for a stored reminder: it is removed iff a send returned, and then the message is its text; a failed send leaves the table as it was |
| RemindersCog.UserReminder.RemindTask | app/cogs/reminders.py:194-236 | one firing changes the table exactly as the firing step says and never changes the counters |
| RemindersCog.StartupTasks | app/cogs/reminders.py:296-297 | the start-up tasks are one per reminder, task k being reminder k's without interaction |
| RemindersCog.StartupTasksCover | app/cogs/reminders.py:296-297 | one task per reminder, in order, each without interaction, no two for the same reminder |
| RemindersCog.StartupArmsSurvivorsOnce | app/cogs/reminders.py:287-297 | after the purge every reminder with `expires_at > now` is armed, each exactly once, with no interaction, and no task is armed for a purged one |
| RemindersCog.UserReminder.Ready | app/cogs/reminders.py:287-297 | purges exactly the expired reminders, returns how many, then appends the start-up tasks of the remaining reminders |
| RemindersCog.UserReminder.ArmAll | app/cogs/reminders.py:296-297 | the loop appends one task without interaction per reminder, in order |
| RemindersCog.InvokeShowsMessage | app/cogs/reminders.py:242-249 | the message shown for a `CommandInvokeError` ends with the text of the original error |
| RemindersCog.CreateErrorShown | app/cogs/reminders.py:44-59 | the message of every failed `create` check reaches the user: the wrapped `AssertionError` is answered with an embed whose description ends with that message |
| RemindersCog.DispatchError | app/cogs/reminders.py:238-278 | the handler as written raises again exactly the errors that are neither a `CommandInvokeError`, an `HTTPException` nor a `MissingPermissions`, and it raises that same error |
| RemindersCog.ForbiddenBranchUnreachable | app/cogs/reminders.py:250-266 | as written, a `Forbidden` handed to the handler gets the send-failure reply, and no error ever gets the permission reply of the `Forbidden` branch |
| RemindersCog.DispatchErrorIntended | app/cogs/reminders.py:238-278 | the corrected handler raises again exactly the same errors as the written one, and that same error |
| RemindersCog.WrappedForbiddenShowsArgs | app/cogs/reminders.py:242-266 | a `Forbidden` wrapped in `CommandInvokeError` gets the `args[0]` reply under the written order and under the corrected one alike |
| RemindersCog.IntendedDispatch | app/cogs/reminders.py:242-278 | with `Forbidden` tested before `HTTPException`, a `Forbidden` gets the permission reply, every other error is handled as before, and exactly the errors outside the four classes are re-raised |
| Events.FirstSendable | app/cogs/events.py:14-22 | None iff no channel is a text channel the bot can send in; otherwise the channel at the first position that is |
| Events.GetChannel | app/cogs/events.py:14-22 | the loop returns the first sendable channel in order, or None |
| Events.WelcomeTargets | app/cogs/events.py:53-59 | the welcome goes to the found channel and then the owner, or only to the owner when no channel was found |
| Events.NewGuilds | app/cogs/events.py:32-37 | the guilds added are guilds of the bot that were not stored, added once each, and every guild that was not stored is among them |
| Events.SyncTwiceAddsNothing | app/cogs/events.py:32-37 | a second sync after the first adds nothing |
| Events.GuildDirectory.SyncOnReady | app/cogs/events.py:27-37 | afterwards the stored guilds are the old ones plus every guild of the bot, and the ones added are exactly the new guilds |
| Events.GuildDirectory.JoinedGuild | app/cogs/events.py:42-59 | the guild is stored, and the welcome targets are the found channel, if any, then the owner |
| Events.GuildDirectory.QuitGuild | app/cogs/events.py:64-65 | the guild is no longer stored and nothing else changes |

## Left out

- Discord I/O. `channel.send`, `interaction.followup.send`, `inter.send`, `guild.owner.send`, `getch_member` and `get_user` are not modelled. A send is an abstract outcome: it returned, raised `HTTPException`, or raised something else. A channel or member that comes back `None` and makes the send fail is folded into that outcome.
- Embed styling and text. The titles, descriptions, colours, `format_dt`, `create_field_from_reminder`, `PaginationView` and `getattr(embed, emb_style)` are not modelled: the template page is passed in as the styled embed.
- The list command and its pagination are not modelled.
- `disnake.ext.tasks.loop`, timers and the passage of time are not modelled. Arming records a task of reminder id, interaction and time of day. Firing is an explicit step, and no claim is made about when a task fires.
- A loop iteration that raises ends that loop. This is not modelled: a firing whose sends all fail leaves the reminder stored, and the model keeps the task in `armed`.
- Which errors reach the error handler unwrapped is not modelled: the error is a parameter. An error raised inside a command body arrives wrapped in `CommandInvokeError`; the sends of `remind_task` run in a task loop and never reach this handler.
- `allowed_mentions` is not modelled: which of the mentions in the sent text actually notify someone (users yes; `@everyone`, `@here` and roles no) is decided by Discord.
- Events.GuildDirectory.JoinedGuild: both welcome sends are taken to return. In the source a raising `channel.send` ends the listener, so the owner is never messaged; the model does not capture that.
- The dateutil `parse` and `relativedelta` calls are function-valued parameters. A `ParserError` is `None` from the general parser.
- The wall clock and time zone are not modelled. `now` is a parameter (for `create`, the three readings of the clock it makes, kept apart in `Readings`), and instants are integer seconds in one fixed frame, so microseconds and time-zone awareness are lost. A naive instant from `parse` compared with the aware clock would raise `TypeError`, which is also not modelled.
- Python's `\d` also matches non-ASCII decimal digits, and `int()` accepts them. The model only knows `0`-`9`.
- Python integers are unbounded, like Dafny's, so no overflow is modelled. `datetime`'s `OverflowError` for instants past year 9999 is not modelled.
- Prisma and concurrency. `add` reads the counter and then updates it in two steps that are not one transaction. The model runs them as one sequential step.
- ReminderService.ReminderStore: the table is a sequence in id order rather than a database. `take` is a natural number, so Prisma's negative `take` (counting from the end) is not modelled.
- RemindersCog.DeleteTarget: `int(reminder_number)` raising `ValueError` for a non-numeric code is not modelled; the code arrives as an integer. The `getch_member` comparison `member == inter.author` is an author-id comparison.
- The guild rows that GuildService creates and the ones the reminder store counts in are not linked: `Events.GuildDirectory` is a separate set of guild ids, and the store's guilds are given to its constructor.
- The `AttributeError` `add` raises for a guild that is not stored becomes `None` from `Add`. It becomes `GuildMissing` for `create`.
- `CommandInvokeError.args[0]` is the library's message for the wrapped error. It is `"Command raised an exception: "` followed by the error's class name and text, as `InvokeMessage` writes it.
- Logging, the bot's settings and the routes of the web API are not modelled.
- `get_member_by_id` and `get_bot_from_request` are plumbing and are not modelled.
- `app/bot.py` and the GuildService internals are not part of this model.

## Findings

| source | as written | input that shows it | evidently intended | confidence | as-written member | corrected member |
|---|---|---|---|---|---|---|
| app/cogs/reminders.py:250-266 | `HTTPException` is tested before `Forbidden`, which is its subclass, so the `Forbidden` branch can never run | a bare `Forbidden` handed to the handler, not wrapped in `CommandInvokeError`, gets "I couldn't send the reminder in the channel" instead of the permission message; a `Forbidden` from a send inside a command arrives wrapped and gets the `args[0]` reply under both orders | test `Forbidden` first, so a `Forbidden` that reaches the handler unwrapped gets the permission message | not executed | RemindersCog.DispatchError / RemindersCog.ForbiddenBranchUnreachable | RemindersCog.DispatchErrorIntended / RemindersCog.IntendedDispatch |
