/** The reminder commands of app/cogs/reminders.py: the checks of
    `/reminder create`, the rule of `/reminder delete` and its autocomplete,
    arming (`add_task`) and firing (`remind_task`) reminders, the start-up
    reconciliation in `setup`, and the order of `cog_slash_command_error`. */
module RemindersCog {
  import opened Wrappers
  import TimeParse
  import Text
  import opened ReminderService

  /** `datetime.timedelta(days=1825)` in seconds: the furthest a reminder may
      be set. */
  const MaxAhead: int := 1825 * TimeParse.SecondsPerDay
  const MaxContent: nat := 1000
  /** The `take` of the autocomplete queries. */
  const SuggestionLimit: nat := 24

  // ---------------------------------------------------------------------
  // create

  /** Why `create` stopped, in the order the checks run. `ParseFailed` is an
      error raised by the fallback parser; `GuildMissing` the `AttributeError`
      of `add` for a guild that is not stored. */
  datatype CreateError =
    | EmptyWhen | ParseFailed | InPast | TooFar | ContentTooLong | ContentEmpty | NotTextChannel | GuildMissing

  /** The message of the `assert` behind each check; the parser's error and
      the missing guild raise without one of ours. */
  function CreateMessage(e: CreateError): Option<string> {
    match e
    case EmptyWhen => Some("You must specify a date")
    case ParseFailed => None
    case InPast => Some("You can't set a reminder in the past")
    case TooFar => Some("You can't set a reminder more than 5 years in the future")
    case ContentTooLong => Some("Content must be less than 1000 characters")
    case ContentEmpty => Some("Content must be more than 0 characters")
    case NotTextChannel => Some("You can only set reminders in text channels")
    case GuildMissing => None
  }

  /** The three readings of the clock `create_reminder` makes, in order: the
      one inside `parse_datetime`, then `self.bot.now` for the past check and
      again for the five-year check. */
  datatype Readings = Readings(parse: int, past: int, far: int)

  /** The checks of `create_reminder` up to the store call: the instant the
      reminder is due, or the first check that failed. */
  function CheckCreate(clock: Readings, when: string, content: string, isTextChannel: bool,
                       calendar: (int, nat, nat) -> int, fallback: string -> Option<int>): (r: Result<int, CreateError>)
    ensures r.Ok? <==>
      && |when| > 0
      && TimeParse.ParseDatetime(clock.parse, when, calendar, fallback).Some?
      && clock.past < TimeParse.ParseDatetime(clock.parse, when, calendar, fallback).value < clock.far + MaxAhead
      && 0 < |content| <= MaxContent
      && isTextChannel
    ensures r.Ok? ==> r.value == TimeParse.ParseDatetime(clock.parse, when, calendar, fallback).value
    ensures r == Err(EmptyWhen) <==> |when| == 0
    ensures r == Err(ParseFailed) <==> |when| > 0 && TimeParse.ParseDatetime(clock.parse, when, calendar, fallback).None?
    ensures r.Err? ==> r.error != GuildMissing
  {
    if |when| == 0 then Err(EmptyWhen)
    else
      match TimeParse.ParseDatetime(clock.parse, when, calendar, fallback)
      case None => Err(ParseFailed)
      case Some(at) =>
        if !(at > clock.past) then Err(InPast)
        else if !(at < clock.far + MaxAhead) then Err(TooFar)
        else if !(|content| <= MaxContent) then Err(ContentTooLong)
        else if !(|content| > 0) then Err(ContentEmpty)
        else if !isTextChannel then Err(NotTextChannel)
        else Ok(at)
  }

  /** The order of the checks: a failing check hides every later one. */
  lemma CheckOrder(clock: Readings, when: string, content: string, isTextChannel: bool,
                   calendar: (int, nat, nat) -> int, fallback: string -> Option<int>)
    requires |when| > 0 && TimeParse.ParseDatetime(clock.parse, when, calendar, fallback).Some?
    ensures var at := TimeParse.ParseDatetime(clock.parse, when, calendar, fallback).value;
      var r := CheckCreate(clock, when, content, isTextChannel, calendar, fallback);
      && (at <= clock.past ==> r == Err(InPast))
      && (clock.past < at && at >= clock.far + MaxAhead ==> r == Err(TooFar))
      && (clock.past < at < clock.far + MaxAhead && |content| > MaxContent ==> r == Err(ContentTooLong))
      && (clock.past < at < clock.far + MaxAhead && |content| == 0 ==> r == Err(ContentEmpty))
      && (clock.past < at < clock.far + MaxAhead && 0 < |content| <= MaxContent && !isTextChannel ==> r == Err(NotTextChannel))
  {
  }

  /** `in="1825d"` is due exactly five years after the clock reading inside
      the parser. It is accepted iff the five-year check reads a later clock,
      so whether it passes depends on the time that went by between the two
      readings. */
  lemma FiveYearsAfterParse(clock: Readings, calendar: (int, nat, nat) -> int, fallback: string -> Option<int>)
    requires clock.past < clock.parse + MaxAhead
    ensures var r := CheckCreate(clock, "1825d", "x", true, calendar, fallback);
      && (clock.parse < clock.far ==> r == Ok(clock.parse + MaxAhead))
      && (clock.far <= clock.parse ==> r == Err(TooFar))
  {
    TimeParse.FiveYearsInDays(clock.parse, "1825d", calendar, fallback);
    FarCheck(clock, "1825d", "x", true, calendar, fallback, clock.parse + MaxAhead);
  }

  /** Past the parser and the past check, with acceptable content and channel,
      only the five-year check decides. */
  lemma FarCheck(clock: Readings, when: string, content: string, isTextChannel: bool,
                 calendar: (int, nat, nat) -> int, fallback: string -> Option<int>, at: int)
    requires |when| > 0 && TimeParse.ParseDatetime(clock.parse, when, calendar, fallback) == Some(at)
    requires clock.past < at && 0 < |content| <= MaxContent && isTextChannel
    ensures CheckCreate(clock, when, content, isTextChannel, calendar, fallback)
      == if at < clock.far + MaxAhead then Ok(at) else Err(TooFar)
  {
  }

  // ---------------------------------------------------------------------
  // delete and its autocomplete

  datatype DeleteError = NotFound | NotAuthor

  /** `delete_reminder`'s lookup and rule: the reminder with that code in the
      guild, provided the caller wrote it or is an administrator. */
  function DeleteTarget(rows: seq<Reminder>, guild: nat, code: int, caller: nat, isAdmin: bool): (r: Result<Reminder, DeleteError>)
    ensures r == Err(NotFound) <==> GetByCode(rows, guild, code).None?
    ensures r.Ok? <==> GetByCode(rows, guild, code).Some? && (GetByCode(rows, guild, code).value.author == caller || isAdmin)
    ensures r.Ok? ==> r.value in rows && r.value.guild == guild && r.value.number == code
  {
    match GetByCode(rows, guild, code)
    case None => Err(NotFound)
    case Some(x) => if x.author == caller || isAdmin then Ok(x) else Err(NotAuthor)
  }

  /** The reminders `delete_reminder_auto_complete` reads: `get_all` on the
      guild for an administrator, on the caller otherwise, 24 at most. */
  function Suggested(counts: map<nat, nat>, rows: seq<Reminder>, caller: Member, isAdmin: bool): seq<Reminder> {
    var found := if isAdmin then GetAll(counts, rows, Some(caller.guild), None, Some(SuggestionLimit))
                 else GetAll(counts, rows, None, Some(caller), Some(SuggestionLimit));
    found.rows
  }

  /** `delete_reminder_auto_complete`: `str(reminder_number)` of each
      reminder read. */
  function AutocompleteCodes(counts: map<nat, nat>, rows: seq<Reminder>, caller: Member, isAdmin: bool): (codes: seq<string>)
    ensures var found := Suggested(counts, rows, caller, isAdmin);
      |codes| == |found| && forall k :: 0 <= k < |codes| ==> TimeParse.DigitsValue(codes[k]) == found[k].number
  {
    var found := Suggested(counts, rows, caller, isAdmin);
    var codes := seq(|found|, k requires 0 <= k < |found| => TimeParse.Decimal(found[k].number));
    assert forall k :: 0 <= k < |codes| ==> TimeParse.DigitsValue(codes[k]) == found[k].number by {
      forall k | 0 <= k < |codes| ensures TimeParse.DigitsValue(codes[k]) == found[k].number {
        TimeParse.DecimalValue(found[k].number);
      }
    }
    codes
  }

  /** The caller may see `x` among the suggestions: a reminder of the guild,
      and the caller's own unless the caller is an administrator. */
  predicate Visible(x: Reminder, caller: Member, isAdmin: bool) {
    x.guild == caller.guild && (isAdmin || x.author == caller.id)
  }

  /** The rows read for the suggestions: at most 24, each visible to the
      caller; and when the caller has no more than 24 visible reminders, all
      of them. */
  lemma SuggestedRows(counts: map<nat, nat>, rows: seq<Reminder>, caller: Member, isAdmin: bool)
    ensures var found := Suggested(counts, rows, caller, isAdmin);
      && |found| <= SuggestionLimit
      && (forall x :: x in found ==> x in rows && Visible(x, caller, isAdmin))
      && (isAdmin && |InGuild(rows, caller.guild)| <= SuggestionLimit ==>
            forall x :: x in rows && x.guild == caller.guild ==> x in found)
      && (!isAdmin && |ByAuthor(rows, caller)| <= SuggestionLimit ==>
            forall x :: x in rows && Visible(x, caller, isAdmin) ==> x in found)
  {
    if isAdmin {
      GetAllDispatch(counts, rows, Some(caller.guild), None, Some(SuggestionLimit));
    } else {
      GetAllDispatch(counts, rows, None, Some(caller), Some(SuggestionLimit));
    }
  }

  /** Some visible reminder of the caller's guild carries this code. */
  ghost predicate NamesVisible(rows: seq<Reminder>, caller: Member, isAdmin: bool, code: string) {
    exists x :: x in rows && Visible(x, caller, isAdmin)
      && GetByCode(rows, caller.guild, TimeParse.DigitsValue(code)) == Some(x)
  }

  /** At most 24 suggestions; read back as a number, each names a reminder the
      caller may see; and when the caller has no more than 24 such reminders,
      every one of them is suggested. */
  lemma AutocompleteSuggests(counts: map<nat, nat>, rows: seq<Reminder>, caller: Member, isAdmin: bool)
    requires Numbered(counts, rows)
    ensures var codes := AutocompleteCodes(counts, rows, caller, isAdmin);
      && |codes| <= SuggestionLimit
      && (forall k :: 0 <= k < |codes| ==> NamesVisible(rows, caller, isAdmin, codes[k]))
      && (isAdmin && |InGuild(rows, caller.guild)| <= SuggestionLimit ==>
            forall x :: x in rows && x.guild == caller.guild ==> TimeParse.Decimal(x.number) in codes)
      && (!isAdmin && |ByAuthor(rows, caller)| <= SuggestionLimit ==>
            forall x :: x in rows && Visible(x, caller, isAdmin) ==> TimeParse.Decimal(x.number) in codes)
  {
    var found := Suggested(counts, rows, caller, isAdmin);
    var codes := AutocompleteCodes(counts, rows, caller, isAdmin);
    SuggestedRows(counts, rows, caller, isAdmin);
    forall k | 0 <= k < |codes| ensures NamesVisible(rows, caller, isAdmin, codes[k]) {
      SuggestionNames(counts, rows, caller, isAdmin, k);
    }
    forall x | x in found ensures TimeParse.Decimal(x.number) in codes {
      SuggestionListed(counts, rows, caller, isAdmin, x);
    }
  }

  lemma SuggestionNames(counts: map<nat, nat>, rows: seq<Reminder>, caller: Member, isAdmin: bool, k: nat)
    requires Numbered(counts, rows) && k < |AutocompleteCodes(counts, rows, caller, isAdmin)|
    ensures NamesVisible(rows, caller, isAdmin, AutocompleteCodes(counts, rows, caller, isAdmin)[k])
  {
    var found := Suggested(counts, rows, caller, isAdmin);
    var code := AutocompleteCodes(counts, rows, caller, isAdmin)[k];
    SuggestedRows(counts, rows, caller, isAdmin);
    var x := found[k];
    assert x in found;
    assert TimeParse.DigitsValue(code) == x.number;
    CodeFindsTheRow(counts, rows, x);
  }

  lemma SuggestionListed(counts: map<nat, nat>, rows: seq<Reminder>, caller: Member, isAdmin: bool, x: Reminder)
    requires x in Suggested(counts, rows, caller, isAdmin)
    ensures TimeParse.Decimal(x.number) in AutocompleteCodes(counts, rows, caller, isAdmin)
  {
    var found := Suggested(counts, rows, caller, isAdmin);
    var codes := AutocompleteCodes(counts, rows, caller, isAdmin);
    var k :| 0 <= k < |found| && found[k] == x;
    assert codes[k] == TimeParse.Decimal(x.number);
  }

  // ---------------------------------------------------------------------
  // add_task and remind_task

  /** `expires_at.time()`: the time of day, in seconds after midnight. */
  function TimeOfDay(t: int): (r: int)
    ensures 0 <= r < TimeParse.SecondsPerDay
  {
    t % TimeParse.SecondsPerDay
  }

  /** The task is armed with the time of day alone: instants whole days apart
      arm the same time, so the date of the reminder is lost. */
  lemma TimeOfDayForgetsDate(t: int, days: int)
    ensures TimeOfDay(t + days * TimeParse.SecondsPerDay) == TimeOfDay(t)
    ensures t - TimeOfDay(t) == (t / TimeParse.SecondsPerDay) * TimeParse.SecondsPerDay
  {
    var d := TimeParse.SecondsPerDay;
    assert (t + days * d) / d == t / d + days by {
      assert t + days * d == (t / d + days) * d + t % d;
    }
  }

  /** An armed `disnake.ext.tasks.loop`: which reminder it fires for, the
      interaction it carries (its id), and its daily time. */
  datatype Task = Task(reminderId: nat, interaction: Option<nat>, timeOfDay: int)

  function TaskFor(x: Reminder, interaction: Option<nat>): Task {
    Task(x.id, interaction, TimeOfDay(x.expiresAt))
  }

  /** How one send ended: it returned, raised `HTTPException` (or `Forbidden`,
      a subclass), or raised anything else. */
  datatype SendOutcome = Returned | HttpError | OtherError

  datatype Route = ViaFollowup | ViaChannel

  /** The sends `remind_task` makes, in order, and the route that returned,
      if one did. */
  datatype Delivery = Delivery(attempts: seq<Route>, delivered: Option<Route>)

  /** The delivery of `remind_task`: the channel alone without an
      interaction; with one, the follow-up, and the channel only when the
      follow-up raised `HTTPException`. Any other failure propagates. */
  function Deliver(hasInteraction: bool, followup: SendOutcome, channel: SendOutcome): (d: Delivery)
    ensures !hasInteraction ==> d.attempts == [ViaChannel]
    ensures hasInteraction ==> d.attempts == if followup == HttpError then [ViaFollowup, ViaChannel] else [ViaFollowup]
    ensures d.delivered.Some? <==> |d.attempts| > 0 && (if d.attempts[|d.attempts| - 1] == ViaFollowup then followup else channel) == Returned
    ensures d.delivered.Some? ==> d.delivered.value == d.attempts[|d.attempts| - 1]
  {
    if !hasInteraction then
      Delivery([ViaChannel], if channel == Returned then Some(ViaChannel) else None)
    else if followup == Returned then Delivery([ViaFollowup], Some(ViaFollowup))
    else if followup == HttpError then
      Delivery([ViaFollowup, ViaChannel], if channel == Returned then Some(ViaChannel) else None)
    else Delivery([ViaFollowup], None)
  }

  /** The text both sends carry: `member.mention` of the author, a space,
      then the mentions found in the reminder. */
  function MessageText(author: nat, content: string): string {
    Text.UserMention(author) + " " + Text.GetMentionsAsString(content)
  }

  /** The text a reminder is sent with carries the author's mention first and
      then exactly the mentions of the reminder's content, in order: scanning
      it again for mentions gives back that list. */
  lemma MessageMentions(author: nat, content: string)
    ensures Text.GetMentionsAsList(MessageText(author, content))
         == [Text.UserMention(author)] + Text.GetMentionsAsList(content)
  {
    var xs := Text.GetMentionsAsList(content);
    var ys := [Text.UserMention(author)] + xs;
    Text.MentionsFindAll(content);
    assert Text.AllMentions(ys) by {
      forall k | 0 <= k < |ys| ensures Text.IsMention(ys[k]) {
        if k > 0 {
          assert ys[k] == xs[k - 1];
        }
      }
    }
    assert ys[0] == Text.UserMention(author) && ys[1..] == xs;
    if xs == [] {
      assert MessageText(author, content) == Text.Join(ys) + " ";
      Text.JoinedMentions(ys, " ");
    } else {
      assert MessageText(author, content) == Text.Join(ys) + "";
      Text.JoinedMentions(ys, "");
    }
  }

  datatype FireOutcome = Gone | Delivered(route: Route, text: string) | Failed

  /** One firing of `remind_task(reminder_id, interaction)` against the table
      `rows`: the outcome and the table after it. The reminder is only
      removed once a send returned. */
  function Fire(rows: seq<Reminder>, id: nat, hasInteraction: bool, followup: SendOutcome, channel: SendOutcome)
    : (r: (FireOutcome, seq<Reminder>))
    ensures r.0.Gone? <==> Get(rows, id).None?
    ensures r.0.Delivered? ==> r.1 == Without(rows, id) && r.0.text == MessageText(Get(rows, id).value.author, Get(rows, id).value.content)
    ensures !r.0.Delivered? ==> r.1 == rows
  {
    match Get(rows, id)
    case None => (Gone, rows)
    case Some(x) =>
      var d := Deliver(hasInteraction, followup, channel);
      if d.delivered.Some? then (Delivered(d.delivered.value, MessageText(x.author, x.content)), Without(rows, id))
      else (Failed, rows)
  }

  /** A task whose reminder was deleted does nothing when it fires: `delete`
      never cancels the task, and this look-up is what neutralises it. */
  lemma DeletedTaskIsInert(counts: map<nat, nat>, rows: seq<Reminder>, nextId: nat, id: nat,
                           hasInteraction: bool, followup: SendOutcome, channel: SendOutcome)
    requires TableInvariant(counts, rows, nextId)
    ensures var after := Without(rows, id);
      Fire(after, id, hasInteraction, followup, channel) == (Gone, after)
  {
    WithoutKeepsInvariant(counts, rows, nextId, id);
  }

  /** A reminder is removed exactly when one of the sends returned; a failed
      send leaves it stored, so a later start-up arms it again if it has not
      expired by then. */
  lemma FireRemovesOnlyAfterSend(rows: seq<Reminder>, id: nat, hasInteraction: bool, followup: SendOutcome,
                                 channel: SendOutcome)
    requires Get(rows, id).Some?
    ensures var (o, after) := Fire(rows, id, hasInteraction, followup, channel);
      && (o.Delivered? <==> Deliver(hasInteraction, followup, channel).delivered.Some?)
      && (o.Delivered? ==> after == Without(rows, id) && o.text == MessageText(Get(rows, id).value.author, Get(rows, id).value.content))
      && (!o.Delivered? ==> o == Failed && after == rows)
      && (!hasInteraction ==> (o.Delivered? <==> channel == Returned))
      && (hasInteraction ==> (o.Delivered? <==> followup == Returned || (followup == HttpError && channel == Returned)))
  {
  }

  // ---------------------------------------------------------------------
  // setup.ready

  /** The tasks the start-up loop arms, one per reminder in table order, none
      with an interaction. */
  function StartupTasks(rows: seq<Reminder>): (ts: seq<Task>)
    ensures |ts| == |rows|
    ensures forall k :: 0 <= k < |ts| ==> ts[k] == TaskFor(rows[k], None)
  {
    if rows == [] then [] else [TaskFor(rows[0], None)] + StartupTasks(rows[1..])
  }

  /** One task per reminder of `rows`, each without interaction, and no two
      for the same reminder when the ids increase. */
  lemma StartupTasksCover(rows: seq<Reminder>)
    requires IdsIncreasing(rows)
    ensures var ts := StartupTasks(rows);
      && (forall i :: 0 <= i < |ts| ==> ts[i] == TaskFor(rows[i], None))
      && (forall i, j :: 0 <= i < j < |ts| ==> ts[i].reminderId != ts[j].reminderId)
  {
    var ts := StartupTasks(rows);
    forall i, j | 0 <= i < j < |ts| ensures ts[i].reminderId != ts[j].reminderId {
      assert rows[i].id < rows[j].id;
    }
  }

  /** Some task of `ts` is the start-up task of `x`. */
  ghost predicate Arms(ts: seq<Task>, x: Reminder) {
    exists i :: 0 <= i < |ts| && ts[i] == TaskFor(x, None)
  }

  /** Some reminder of `rows` with that id outlives `now`. */
  ghost predicate Survives(rows: seq<Reminder>, now: int, id: nat) {
    exists k :: 0 <= k < |rows| && rows[k].expiresAt > now && rows[k].id == id
  }

  /** Start-up first purges every reminder with `expires_at <= now`, then arms
      each survivor exactly once, without an interaction: there is one task
      per surviving reminder, no two tasks share a reminder, and no task is
      armed for a purged one. */
  lemma StartupArmsSurvivorsOnce(rows: seq<Reminder>, now: int)
    requires IdsIncreasing(rows)
    ensures var ts := StartupTasks(Unexpired(rows, now));
      && (forall i :: 0 <= i < |ts| ==> ts[i].interaction.None?)
      && (forall i, j :: 0 <= i < j < |ts| ==> ts[i].reminderId != ts[j].reminderId)
      && (forall k :: 0 <= k < |rows| && rows[k].expiresAt > now ==> Arms(ts, rows[k]))
      && (forall i :: 0 <= i < |ts| ==> Survives(rows, now, ts[i].reminderId))
  {
    UnexpiredIncreasing(rows, now);
    StartupTasksCover(Unexpired(rows, now));
    SurvivorsArmed(rows, now);
    ArmedSurvive(rows, now);
  }

  lemma SurvivorsArmed(rows: seq<Reminder>, now: int)
    ensures forall k :: 0 <= k < |rows| && rows[k].expiresAt > now ==> Arms(StartupTasks(Unexpired(rows, now)), rows[k])
  {
    var live := Unexpired(rows, now);
    var ts := StartupTasks(live);
    forall k | 0 <= k < |rows| && rows[k].expiresAt > now ensures Arms(ts, rows[k]) {
      var i :| 0 <= i < |live| && live[i] == rows[k];
    }
  }

  lemma ArmedSurvive(rows: seq<Reminder>, now: int)
    ensures var ts := StartupTasks(Unexpired(rows, now));
      forall i :: 0 <= i < |ts| ==> Survives(rows, now, ts[i].reminderId)
  {
    var live := Unexpired(rows, now);
    var ts := StartupTasks(live);
    forall i | 0 <= i < |ts| ensures Survives(rows, now, ts[i].reminderId) {
      assert live[i] in rows;
      var k :| 0 <= k < |rows| && rows[k] == live[i];
    }
  }

  // ---------------------------------------------------------------------
  // cog_slash_command_error

  /** The exceptions the handler tells apart. `text` is `str(error)`;
      `Forbidden` is a subclass of `HTTPException`. */
  datatype Exception =
    | CommandInvokeError(original: Exception)
    | HttpException(text: string)
    | Forbidden(text: string)
    | MissingPermissions(text: string)
    | AssertionError(text: string)
    | OtherException(className: string, text: string)

  function ClassName(e: Exception): string {
    match e
    case CommandInvokeError(_) => "CommandInvokeError"
    case HttpException(_) => "HTTPException"
    case Forbidden(_) => "Forbidden"
    case MissingPermissions(_) => "MissingPermissions"
    case AssertionError(_) => "AssertionError"
    case OtherException(name, _) => name
  }

  function Str(e: Exception): string
    decreases e, 0
  {
    match e
    case CommandInvokeError(o) => InvokeMessage(o)
    case HttpException(t) => t
    case Forbidden(t) => t
    case MissingPermissions(t) => t
    case AssertionError(t) => t
    case OtherException(_, t) => t
  }

  /** `args[0]` of a `CommandInvokeError`, as the library builds it from the
      exception the command raised. */
  function InvokeMessage(original: Exception): string
    decreases original, 1
  {
    "Command raised an exception: " + ClassName(original) + ": " + Str(original)
  }

  /** `isinstance(e, disnake.HTTPException)`. */
  predicate IsHttpException(e: Exception) {
    e.HttpException? || e.Forbidden?
  }

  /** The error embeds the handler can send. */
  datatype Message =
    | InvokeArgs(original: Exception)
    | SendFailed
    | NoSendPermission
    | NoCommandPermission

  /** The description of each error embed. */
  function Description(m: Message): string {
    match m
    case InvokeArgs(o) => InvokeMessage(o)
    case SendFailed => "I couldn't send the reminder in the channel"
    case NoSendPermission => "I don't have permissions to send messages in that channel"
    case NoCommandPermission => "You don't have permissions to use this command"
  }

  /** What the handler does: answer with an error embed, or raise the error
      again. */
  datatype Handling = Reply(message: Message) | Reraise(error: Exception)

  /** `cog_slash_command_error` as written: the `isinstance` tests in source
      order. */
  function DispatchError(e: Exception): (h: Handling)
    ensures h.Reraise? <==> !(e.CommandInvokeError? || IsHttpException(e) || e.MissingPermissions?)
    ensures h.Reraise? ==> h.error == e
  {
    if e.CommandInvokeError? then Reply(InvokeArgs(e.original))
    else if IsHttpException(e) then Reply(SendFailed)
    else if e.Forbidden? then Reply(NoSendPermission)
    else if e.MissingPermissions? then Reply(NoCommandPermission)
    else Reraise(e)
  }

  /** An error a command raised is answered with an embed whose description
      ends with that error's own text. */
  lemma InvokeShowsMessage(o: Exception)
    ensures var h := DispatchError(CommandInvokeError(o));
      && h == Reply(InvokeArgs(o))
      && var d := Description(h.message);
         |Str(o)| < |d| && d[|d| - |Str(o)|..] == Str(o)
  {
    var head := "Command raised an exception: " + ClassName(o) + ": ";
    assert InvokeMessage(o) == head + Str(o);
  }

  /** A failed check of `create` reaches the user: the `AssertionError` it
      raises comes back as an embed that ends with the check's message. */
  lemma CreateErrorShown(e: CreateError)
    requires CreateMessage(e).Some?
    ensures var msg := CreateMessage(e).value;
      var h := DispatchError(CommandInvokeError(AssertionError(msg)));
      && h.Reply? && h.message.InvokeArgs?
      && var d := Description(h.message);
         |msg| < |d| && d[|d| - |msg|..] == msg
  {
    InvokeShowsMessage(AssertionError(CreateMessage(e).value));
  }

  /** The `Forbidden` branch can never be taken: a `Forbidden` error handed
      to the handler is an `HTTPException` and is answered with the
      send-failure message, and no error at all gets the
      missing-permission-to-send message. */
  lemma ForbiddenBranchUnreachable(text: string)
    ensures DispatchError(Forbidden(text)) == Reply(SendFailed)
    ensures forall e :: DispatchError(e) != Reply(NoSendPermission)
  {
  }

  /** The handler with the more specific `Forbidden` test first, as the
      separate message for it evidently intends. */
  function DispatchErrorIntended(e: Exception): (h: Handling)
    ensures h.Reraise? <==> !(e.CommandInvokeError? || IsHttpException(e) || e.MissingPermissions?)
    ensures h.Reraise? ==> h.error == e
  {
    if e.CommandInvokeError? then Reply(InvokeArgs(e.original))
    else if e.Forbidden? then Reply(NoSendPermission)
    else if IsHttpException(e) then Reply(SendFailed)
    else if e.MissingPermissions? then Reply(NoCommandPermission)
    else Reraise(e)
  }

  /** The intended handler answers `Forbidden` with its own message, and
      agrees with the written one on every other error; it raises again
      exactly the errors none of the tests name. */
  lemma IntendedDispatch(e: Exception)
    ensures e.Forbidden? ==> DispatchErrorIntended(e) == Reply(NoSendPermission)
    ensures !e.Forbidden? ==> DispatchErrorIntended(e) == DispatchError(e)
    ensures DispatchErrorIntended(e).Reraise? <==> !(e.CommandInvokeError? || IsHttpException(e) || e.MissingPermissions?)
  {
  }

  /** A `Forbidden` raised by a send inside a command reaches the handler
      wrapped in `CommandInvokeError`, and both orders answer it with the
      wrapped message: the order of the tests only matters for a `Forbidden`
      that arrives unwrapped. */
  lemma WrappedForbiddenShowsArgs(text: string)
    ensures DispatchError(CommandInvokeError(Forbidden(text))) == Reply(InvokeArgs(Forbidden(text)))
    ensures DispatchErrorIntended(CommandInvokeError(Forbidden(text))) == DispatchError(CommandInvokeError(Forbidden(text)))
  {
  }

  // ---------------------------------------------------------------------
  // The cog

  /** The cog's state: the store it reads and writes, and the tasks armed so
      far. The model keeps every armed task in `armed`; it does not model a
      loop ending or being cancelled. */
  class UserReminder {
    const store: ReminderStore
    var armed: seq<Task>

    ghost predicate Valid()
      reads store
    {
      store.Valid()
    }

    constructor (store: ReminderStore)
      ensures this.store == store && armed == []
    {
      this.store := store;
      armed := [];
    }

    /** `add_task(reminder, interaction)`. */
    method AddTask(x: Reminder, interaction: Option<nat>)
      modifies this
      ensures armed == old(armed) + [TaskFor(x, interaction)]
    {
      armed := armed + [TaskFor(x, interaction)];
    }

    /** The part of `create_reminder` after its checks: `add`, then
        `add_task` with the creating interaction. */
    method Store(at: int, content: string, guild: nat, channel: nat, author: nat, interaction: nat)
      returns (r: Result<Reminder, CreateError>)
      requires Valid()
      modifies this, store
      ensures Valid()
      ensures guild !in old(store.counts) ==> r == Err(GuildMissing) && unchanged(store) && armed == old(armed)
      ensures guild in old(store.counts) ==>
        var x := Reminder(old(store.nextId), guild, channel, author, content, at, old(store.counts[guild]) + 1);
        && r == Ok(x)
        && store.rows == old(store.rows) + [x]
        && store.counts == old(store.counts)[guild := old(store.counts[guild]) + 1]
        && store.nextId == old(store.nextId) + 1
        && armed == old(armed) + [TaskFor(x, Some(interaction))]
    {
      var added := store.Add(guild, channel, author, at, content);
      if added.None? {
        return Err(GuildMissing);
      }
      AddTask(added.value, Some(interaction));
      r := Ok(added.value);
    }

    /** `create_reminder`: the checks, then the store call. Nothing is stored
        or armed unless every check passes. */
    method Create(clock: Readings, when: string, content: string, isTextChannel: bool, guild: nat, channel: nat,
                  author: nat, interaction: nat, calendar: (int, nat, nat) -> int, fallback: string -> Option<int>)
      returns (r: Result<Reminder, CreateError>)
      requires Valid()
      modifies this, store
      ensures Valid()
      ensures var c := CheckCreate(clock, when, content, isTextChannel, calendar, fallback);
        && (c.Err? ==> r == Err(c.error) && unchanged(store) && armed == old(armed))
        && (c.Ok? && guild !in old(store.counts) ==> r == Err(GuildMissing) && unchanged(store) && armed == old(armed))
        && (c.Ok? && guild in old(store.counts) ==>
              var x := Reminder(old(store.nextId), guild, channel, author, content, c.value, old(store.counts[guild]) + 1);
              && r == Ok(x)
              && store.rows == old(store.rows) + [x]
              && store.counts == old(store.counts)[guild := old(store.counts[guild]) + 1]
              && store.nextId == old(store.nextId) + 1
              && armed == old(armed) + [TaskFor(x, Some(interaction))])
    {
      var c := CheckCreate(clock, when, content, isTextChannel, calendar, fallback);
      if c.Err? {
        return Err(c.error);
      }
      r := Store(c.value, content, guild, channel, author, interaction);
    }

    /** `delete_reminder`: remove the reminder with that code when the rule
        allows it, otherwise leave the store as it was. The armed task is not
        touched. */
    method Delete(guild: nat, code: int, caller: nat, isAdmin: bool) returns (r: Result<Reminder, DeleteError>)
      requires Valid()
      modifies store
      ensures Valid()
      ensures r == DeleteTarget(old(store.rows), guild, code, caller, isAdmin)
      ensures r.Ok? ==> store.rows == Without(old(store.rows), r.value.id) && store.counts == old(store.counts)
                        && store.nextId == old(store.nextId)
      ensures r.Err? ==> unchanged(store)
    {
      r := DeleteTarget(store.rows, guild, code, caller, isAdmin);
      if r.Ok? {
        var _ := store.Remove(r.value.id);
      }
    }

    /** `remind_task(reminder_id, interaction)`, with the outcomes of the two
        sends as parameters. */
    method RemindTask(id: nat, interaction: Option<nat>, followup: SendOutcome, channel: SendOutcome)
      returns (o: FireOutcome)
      requires Valid()
      modifies store
      ensures Valid()
      ensures (o, store.rows) == Fire(old(store.rows), id, interaction.Some?, followup, channel)
      ensures store.counts == old(store.counts) && store.nextId == old(store.nextId)
    {
      var found := Get(store.rows, id);
      if found.None? {
        return Gone;
      }
      var d := Deliver(interaction.Some?, followup, channel);
      if d.delivered.None? {
        return Failed;
      }
      var _ := store.Remove(found.value.id);
      o := Delivered(d.delivered.value, MessageText(found.value.author, found.value.content));
    }

    /** The `on_ready` listener of `setup`: purge the expired reminders, read
        all that are left, and arm a task without interaction for each. */
    method Ready(now: int) returns (purged: nat)
      requires Valid()
      modifies this, store
      ensures Valid()
      ensures store.rows == Unexpired(old(store.rows), now) && store.counts == old(store.counts)
      ensures store.nextId == old(store.nextId)
      ensures purged == |Expired(old(store.rows), now)|
      ensures armed == old(armed) + StartupTasks(store.rows)
    {
      purged := store.RemoveExpiredReminders(now);
      var all := GetAll(store.counts, store.rows, None, None, None).rows;
      ArmAll(all);
    }

    /** The loop of the listener: `add_task(reminder, interaction=None)` for
        each reminder in turn. */
    method ArmAll(all: seq<Reminder>)
      modifies this
      ensures armed == old(armed) + StartupTasks(all)
    {
      ghost var before := armed;
      var k := 0;
      while k < |all|
        invariant 0 <= k <= |all|
        invariant armed == before + StartupTasks(all[..k])
      {
        AddTask(all[k], None);
        StartupTasksAppend(all[..k], all[k]);
        assert all[..k + 1] == all[..k] + [all[k]];
        k := k + 1;
      }
      assert all[..k] == all;
    }
  }

  lemma {:induction false} StartupTasksAppend(rows: seq<Reminder>, x: Reminder)
    ensures StartupTasks(rows + [x]) == StartupTasks(rows) + [TaskFor(x, None)]
  {
    if rows == [] {
      assert [] + [x] == [x];
    } else {
      assert (rows + [x])[1..] == rows[1..] + [x];
      StartupTasksAppend(rows[1..], x);
    }
  }
}
