/** The reminder store of app/services/ReminderService.py: each guild's
    `reminders_count` and the table of reminders, with `add`, `remove` and
    `remove_expired_reminders` changing it and `get`, `get_by_code` and
    `get_all` reading it. */
module ReminderService {
  import opened Wrappers
  import opened Seqs

  /** A row of the reminder table. `guild` is the guild's snowflake and
      `number` the per-guild code users see. */
  datatype Reminder = Reminder(
    id: nat, guild: nat, channel: nat, author: nat, content: string, expiresAt: int, number: nat)

  /** A guild row of the store, with its reminders included. */
  datatype GuildRecord = GuildRecord(snowflake: nat, remindersCount: nat, reminders: seq<Reminder>)

  /** A member as `get_all` reads it: the author id and the guild it is in. */
  datatype Member = Member(id: nat, guild: nat)

  // ---------------------------------------------------------------------
  // The table: `counts` maps each stored guild to its `reminders_count`,
  // `rows` holds the reminders in id order, and `nextId` is the id the
  // database hands out next.

  ghost predicate IdsIncreasing(rows: seq<Reminder>) {
    Pairwise(rows, (a: Reminder, b: Reminder) => a.id < b.id)
  }

  /** The numbering rule: every reminder belongs to a stored guild, its number
      is one its guild has issued, and within a guild numbers increase with
      the id, so no two reminders of a guild share a number. */
  ghost predicate Numbered(counts: map<nat, nat>, rows: seq<Reminder>) {
    && (forall k :: 0 <= k < |rows| ==> rows[k].guild in counts && 1 <= rows[k].number <= counts[rows[k].guild])
    && (forall i, j :: 0 <= i < j < |rows| && rows[i].guild == rows[j].guild ==> rows[i].number < rows[j].number)
  }

  ghost predicate TableInvariant(counts: map<nat, nat>, rows: seq<Reminder>, nextId: nat) {
    && IdsIncreasing(rows)
    && (forall k :: 0 <= k < |rows| ==> rows[k].id < nextId)
    && Numbered(counts, rows)
  }

  /** Whether the guild has already handed out number `n`. */
  predicate Issued(counts: map<nat, nat>, guild: nat, n: nat) {
    guild in counts && 1 <= n <= counts[guild]
  }

  // ---------------------------------------------------------------------
  // Queries

  /** `get(reminder_id)`: `find_unique` on the id. */
  function Get(rows: seq<Reminder>, id: nat): (r: Option<Reminder>)
    ensures r.Some? <==> exists k :: 0 <= k < |rows| && rows[k].id == id
    ensures r.Some? ==> r.value in rows && r.value.id == id
  {
    if rows == [] then None
    else if rows[0].id == id then Some(rows[0])
    else Get(rows[1..], id)
  }

  /** `get_by_code(guild, code)`: `find_first` on the guild and number. */
  function GetByCode(rows: seq<Reminder>, guild: nat, code: int): (r: Option<Reminder>)
    ensures r.Some? <==> exists k :: 0 <= k < |rows| && rows[k].guild == guild && rows[k].number == code
    ensures r.Some? ==> r.value in rows && r.value.guild == guild && r.value.number == code
  {
    if rows == [] then None
    else if rows[0].guild == guild && rows[0].number == code then Some(rows[0])
    else GetByCode(rows[1..], guild, code)
  }

  /** Ids are unique, so `get` finds the one reminder with that id. */
  lemma {:induction false} GetFindsTheRow(counts: map<nat, nat>, rows: seq<Reminder>, nextId: nat, x: Reminder)
    requires TableInvariant(counts, rows, nextId) && x in rows
    ensures Get(rows, x.id) == Some(x)
  {
    if rows[0] != x {
      PairwiseTail(rows, (a: Reminder, b: Reminder) => a.id < b.id);
      assert x in rows[1..];
      assert rows[0].id != x.id;
      NumberedTail(counts, rows);
      GetFindsTheRow(counts, rows[1..], nextId, x);
    }
  }

  /** A guild's numbers are unique, so the code names exactly one reminder. */
  lemma {:induction false} CodeFindsTheRow(counts: map<nat, nat>, rows: seq<Reminder>, x: Reminder)
    requires Numbered(counts, rows) && x in rows
    ensures GetByCode(rows, x.guild, x.number) == Some(x)
  {
    if rows[0] != x {
      assert x in rows[1..];
      var k :| 0 <= k < |rows[1..]| && rows[1..][k] == x;
      assert rows[k + 1] == x;
      NumberedTail(counts, rows);
      CodeFindsTheRow(counts, rows[1..], x);
    }
  }

  lemma NumberedTail(counts: map<nat, nat>, rows: seq<Reminder>)
    requires Numbered(counts, rows) && rows != []
    ensures Numbered(counts, rows[1..])
  {
    var t := rows[1..];
    forall i, j | 0 <= i < j < |t| && t[i].guild == t[j].guild ensures t[i].number < t[j].number {
      assert t[i] == rows[i + 1] && t[j] == rows[j + 1];
    }
  }

  function InGuild(rows: seq<Reminder>, guild: nat): seq<Reminder> {
    Filter(rows, (r: Reminder) => r.guild == guild)
  }

  function ByAuthor(rows: seq<Reminder>, member: Member): seq<Reminder> {
    Filter(rows, (r: Reminder) => r.author == member.id && r.guild == member.guild)
  }

  /** Prisma's `take`: absent means no limit. */
  function Limit(s: seq<Reminder>, take: Option<nat>): seq<Reminder> {
    if take.None? then s else Take(s, take.value)
  }

  /** What `get_all` returns: the guild record (or `None` when the guild is not
      stored) or a list of reminders. */
  datatype GetAllResult = Record(record: Option<GuildRecord>) | Rows(rows: seq<Reminder>)

  /** Python's truth value of `take`: `None` and `0` are false. */
  predicate Truthy(take: Option<nat>) {
    take.Some? && take.value != 0
  }

  /** `get_all(guild=, member=, take=)`. */
  function GetAll(counts: map<nat, nat>, rows: seq<Reminder>, guild: Option<nat>, member: Option<Member>, take: Option<nat>): GetAllResult {
    if guild.Some? && !Truthy(take) then
      Record(if guild.value in counts then Some(GuildRecord(guild.value, counts[guild.value], InGuild(rows, guild.value))) else None)
    else if guild.Some? then Rows(Take(InGuild(rows, guild.value), take.value))
    else if member.Some? then Rows(Limit(ByAuthor(rows, member.value), take))
    else Rows(Limit(rows, take))
  }

  /** The dispatch order of `get_all`: a guild wins over a member; a guild
      without a (non-zero) `take` gives its record and every reminder it has;
      otherwise the result is the matching reminders in table order, capped by
      `take`. */
  lemma GetAllDispatch(counts: map<nat, nat>, rows: seq<Reminder>, guild: Option<nat>, member: Option<Member>, take: Option<nat>)
    ensures var r := GetAll(counts, rows, guild, member, take);
      && (guild.Some? && !Truthy(take) ==>
            && r.Record?
            && (r.record.Some? <==> guild.value in counts)
            && (r.record.Some? ==>
                  && r.record.value.remindersCount == counts[guild.value]
                  && (forall x :: x in r.record.value.reminders ==> x in rows && x.guild == guild.value)
                  && forall x :: x in rows ==> (x in r.record.value.reminders <==> x.guild == guild.value)))
      && (guild.Some? && Truthy(take) ==>
            && r.Rows? && |r.rows| <= take.value
            && (forall x :: x in r.rows ==> x in rows && x.guild == guild.value)
            && (|InGuild(rows, guild.value)| <= take.value ==> forall x :: x in rows && x.guild == guild.value ==> x in r.rows))
      && (guild.None? && member.Some? ==>
            && r.Rows?
            && (take.Some? ==> |r.rows| <= take.value)
            && (forall x :: x in r.rows ==> x in rows && x.author == member.value.id && x.guild == member.value.guild)
            && ((take.None? || |ByAuthor(rows, member.value)| <= take.value) ==>
                  forall x :: x in rows && x.author == member.value.id && x.guild == member.value.guild ==> x in r.rows))
      && (guild.None? && member.None? ==>
            r == Rows(if take.None? then rows else Take(rows, take.value)))
  {
    var r := GetAll(counts, rows, guild, member, take);
    if guild.Some? && Truthy(take) {
      TakeMembers(InGuild(rows, guild.value), take.value);
    } else if guild.None? && member.Some? {
      if take.Some? {
        TakeMembers(ByAuthor(rows, member.value), take.value);
      }
    }
  }

  lemma TakeMembers(s: seq<Reminder>, n: nat)
    ensures forall x :: x in Take(s, n) ==> x in s
  {
    var t := Take(s, n);
    forall x | x in t ensures x in s {
      var k :| 0 <= k < |t| && t[k] == x;
      assert s[k] == x;
    }
  }

  // ---------------------------------------------------------------------
  // Changes

  /** The table with the reminder of that id deleted. */
  function Without(rows: seq<Reminder>, id: nat): seq<Reminder> {
    Filter(rows, (r: Reminder) => r.id != id)
  }

  /** The table once every reminder with `expires_at <= now` is deleted. */
  function Unexpired(rows: seq<Reminder>, now: int): seq<Reminder> {
    Filter(rows, (r: Reminder) => r.expiresAt > now)
  }

  function Expired(rows: seq<Reminder>, now: int): seq<Reminder> {
    Filter(rows, (r: Reminder) => r.expiresAt <= now)
  }

  /** Deleting keeps every other reminder, drops the one with that id, and
      keeps the invariant with the counters untouched; a number once freed is
      not issued again, since the counter stays where it was. */
  lemma {:induction false} WithoutKeepsInvariant(counts: map<nat, nat>, rows: seq<Reminder>, nextId: nat, id: nat)
    requires TableInvariant(counts, rows, nextId)
    ensures TableInvariant(counts, Without(rows, id), nextId)
    ensures Get(Without(rows, id), id) == None
    ensures forall x :: x in rows && x.id != id ==> x in Without(rows, id)
  {
    var p := (r: Reminder) => r.id != id;
    var w := Without(rows, id);
    FilterPairwise(rows, p, (a: Reminder, b: Reminder) => a.id < b.id);
    FilterNumbered(counts, rows, p);
    forall x | x in rows && x.id != id ensures x in w {
      var k :| 0 <= k < |rows| && rows[k] == x;
    }
  }

  /** `remove_expired_reminders` deletes exactly the reminders with
      `expires_at <= now`; the rest stay, and the invariant holds after. */
  lemma {:induction false} UnexpiredKeepsInvariant(counts: map<nat, nat>, rows: seq<Reminder>, nextId: nat, now: int)
    requires TableInvariant(counts, rows, nextId)
    ensures TableInvariant(counts, Unexpired(rows, now), nextId)
    ensures |rows| - |Unexpired(rows, now)| == |Expired(rows, now)|
    ensures forall x :: x in rows ==> (x in Unexpired(rows, now) <==> x.expiresAt > now)
  {
    var p := (r: Reminder) => r.expiresAt > now;
    var u := Unexpired(rows, now);
    FilterPairwise(rows, p, (a: Reminder, b: Reminder) => a.id < b.id);
    FilterNumbered(counts, rows, p);
    FilterComplement(rows, (r: Reminder) => r.expiresAt <= now, p);
    forall x | x in rows && x.expiresAt > now ensures x in u {
      var k :| 0 <= k < |rows| && rows[k] == x;
    }
  }

  /** The purge keeps the ids increasing. */
  lemma UnexpiredIncreasing(rows: seq<Reminder>, now: int)
    requires IdsIncreasing(rows)
    ensures IdsIncreasing(Unexpired(rows, now))
  {
    FilterPairwise(rows, (r: Reminder) => r.expiresAt > now, (a: Reminder, b: Reminder) => a.id < b.id);
  }

  lemma {:induction false} FilterNumbered(counts: map<nat, nat>, rows: seq<Reminder>, p: Reminder -> bool)
    requires Numbered(counts, rows)
    ensures Numbered(counts, Filter(rows, p))
  {
    var rel := (a: Reminder, b: Reminder) => a.guild == b.guild ==> a.number < b.number;
    assert Pairwise(rows, rel) by {
      forall i, j | 0 <= i < j < |rows| ensures rel(rows[i], rows[j]) {
      }
    }
    FilterPairwise(rows, p, rel);
    var f := Filter(rows, p);
    forall k | 0 <= k < |f| ensures f[k].guild in counts && 1 <= f[k].number <= counts[f[k].guild] {
      var m :| 0 <= m < |rows| && rows[m] == f[k];
    }
    forall i, j | 0 <= i < j < |f| && f[i].guild == f[j].guild ensures f[i].number < f[j].number {
      assert rel(f[i], f[j]);
    }
  }

  /** `add` for a stored guild: the counter goes from `count` to `count + 1`,
      the new reminder carries number `count + 1` and the next id; it is the
      last of its guild's reminders, its number has not been issued before and
      exceeds every number already in the guild, and the invariant holds
      after. */
  lemma {:induction false} AddKeepsInvariant(counts: map<nat, nat>, rows: seq<Reminder>, nextId: nat, x: Reminder)
    requires TableInvariant(counts, rows, nextId)
    requires x.guild in counts && x.id == nextId && x.number == counts[x.guild] + 1
    ensures TableInvariant(counts[x.guild := counts[x.guild] + 1], rows + [x], nextId + 1)
    ensures var mine := InGuild(rows + [x], x.guild); |mine| > 0 && mine[|mine| - 1] == x
    ensures !Issued(counts, x.guild, x.number)
    ensures forall y :: y in rows && y.guild == x.guild ==> y.number < x.number
  {
    AppendIncreasing(rows, nextId, x);
    AppendNumbered(counts, rows, x);
    forall y | y in rows && y.guild == x.guild ensures y.number < x.number {
      var k :| 0 <= k < |rows| && rows[k] == y;
    }
    FilterAppend(rows, [x], (r: Reminder) => r.guild == x.guild);
  }

  lemma AppendIncreasing(rows: seq<Reminder>, nextId: nat, x: Reminder)
    requires IdsIncreasing(rows) && (forall k :: 0 <= k < |rows| ==> rows[k].id < nextId) && x.id == nextId
    ensures IdsIncreasing(rows + [x]) && forall k :: 0 <= k < |rows + [x]| ==> (rows + [x])[k].id < nextId + 1
  {
    var t := rows + [x];
    forall i, j | 0 <= i < j < |t| ensures t[i].id < t[j].id {
      if j == |rows| {
        assert t[i] == rows[i];
      } else {
        assert t[i] == rows[i] && t[j] == rows[j];
      }
    }
  }

  lemma AppendNumbered(counts: map<nat, nat>, rows: seq<Reminder>, x: Reminder)
    requires Numbered(counts, rows)
    requires x.guild in counts && x.number == counts[x.guild] + 1
    ensures Numbered(counts[x.guild := counts[x.guild] + 1], rows + [x])
  {
    var c := counts[x.guild := counts[x.guild] + 1];
    var t := rows + [x];
    forall k | 0 <= k < |t| ensures t[k].guild in c && 1 <= t[k].number <= c[t[k].guild] {
      if k < |rows| {
        assert t[k] == rows[k];
      }
    }
    forall i, j | 0 <= i < j < |t| && t[i].guild == t[j].guild ensures t[i].number < t[j].number {
      assert t[i] == rows[i];
      if j < |rows| {
        assert t[j] == rows[j];
      }
    }
  }

  /** The reminder service's state: the guilds' counters and the reminder
      table. */
  class ReminderStore {
    var counts: map<nat, nat>
    var rows: seq<Reminder>
    var nextId: nat

    ghost predicate Valid()
      reads this
    {
      TableInvariant(counts, rows, nextId)
    }

    /** A store holding the given guilds, each with counter zero, and no
        reminders. */
    constructor (guilds: set<nat>)
      ensures Valid() && rows == [] && nextId == 1
      ensures counts == map g | g in guilds :: 0
    {
      counts := map g | g in guilds :: 0;
      rows := [];
      nextId := 1;
    }

    /** `add(guild, channel, member, expires_at, content)`. `None` stands
        for the `AttributeError` raised when the guild is not stored; nothing
        changes then. */
    method Add(guild: nat, channel: nat, author: nat, expiresAt: int, content: string) returns (r: Option<Reminder>)
      requires Valid()
      modifies this
      ensures Valid()
      ensures guild !in old(counts) ==> r == None && unchanged(this)
      ensures guild in old(counts) ==>
        var x := Reminder(old(nextId), guild, channel, author, content, expiresAt, old(counts[guild]) + 1);
        && r == Some(x)
        && counts == old(counts)[guild := old(counts[guild]) + 1]
        && rows == old(rows) + [x]
        && nextId == old(nextId) + 1
    {
      if guild !in counts {
        return None;
      }
      var current := counts[guild];
      var x := Reminder(nextId, guild, channel, author, content, expiresAt, current + 1);
      var newRows := rows + [x];
      AddKeepsInvariant(counts, rows, nextId, x);
      var mine := InGuild(newRows, guild);
      r := Some(mine[|mine| - 1]);
      counts, rows, nextId := counts[guild := current + 1], newRows, nextId + 1;
    }

    /** `remove(reminder_id)`: the deleted reminder, or `None` when there was
        none with that id. */
    method Remove(id: nat) returns (r: Option<Reminder>)
      requires Valid()
      modifies this
      ensures Valid()
      ensures r == Get(old(rows), id)
      ensures rows == Without(old(rows), id) && counts == old(counts) && nextId == old(nextId)
    {
      r := Get(rows, id);
      WithoutKeepsInvariant(counts, rows, nextId, id);
      rows := Without(rows, id);
    }

    /** `remove_expired_reminders()`, with the bot's clock as `now`: the number
        of reminders deleted. */
    method RemoveExpiredReminders(now: int) returns (n: nat)
      requires Valid()
      modifies this
      ensures Valid()
      ensures rows == Unexpired(old(rows), now) && counts == old(counts) && nextId == old(nextId)
      ensures n == |Expired(old(rows), now)|
    {
      UnexpiredKeepsInvariant(counts, rows, nextId, now);
      n := |Expired(rows, now)|;
      rows := Unexpired(rows, now);
    }
  }
}
