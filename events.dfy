/** The guild bookkeeping of app/cogs/events.py: the search for a channel to
    greet in, the reconciliation of the stored guilds on start-up, and the
    join and leave listeners. The guild store behind `exists`, `add` and
    `remove` is a set of guild ids. */
module Events {
  import opened Wrappers

  /** A channel of a guild as `get_channel` sees it: whether it is a text
      channel, and whether the bot's member may send messages in it. */
  datatype Channel = Channel(id: nat, isText: bool, canSend: bool)

  predicate Sendable(c: Channel) {
    c.isText && c.canSend
  }

  /** `k` is the first position of `channels` holding a sendable channel. */
  predicate FirstAt(channels: seq<Channel>, k: int) {
    && 0 <= k < |channels|
    && Sendable(channels[k])
    && forall j :: 0 <= j < k ==> !Sendable(channels[j])
  }

  /** The channel `get_channel` settles on: the first sendable one in
      `guild.channels` order, or none when no channel qualifies. */
  function FirstSendable(channels: seq<Channel>): (r: Option<Channel>)
    ensures r.None? <==> forall k :: 0 <= k < |channels| ==> !Sendable(channels[k])
    ensures r.Some? ==> exists k :: FirstAt(channels, k) && channels[k] == r.value
  {
    if channels == [] then None
    else if Sendable(channels[0]) then
      assert FirstAt(channels, 0);
      Some(channels[0])
    else
      var rest := FirstSendable(channels[1..]);
      if rest.Some? then
        var k :| FirstAt(channels[1..], k) && channels[1..][k] == rest.value;
        assert FirstAt(channels, k + 1);
        rest
      else
        rest
  }

  /** `get_channel`: walk the channels in order and return the first text
      channel the bot may send in. */
  method GetChannel(channels: seq<Channel>) returns (r: Option<Channel>)
    ensures r == FirstSendable(channels)
  {
    var i := 0;
    while i < |channels|
      invariant 0 <= i <= |channels|
      invariant FirstSendable(channels[i..]) == FirstSendable(channels)
    {
      assert channels[i..][1..] == channels[i + 1..];
      if Sendable(channels[i]) {
        return Some(channels[i]);
      }
      i := i + 1;
    }
    assert channels[i..] == [];
    return None;
  }

  /** Where the welcome embed of `joined_guild` is sent. */
  datatype Target = ToChannel(channel: Channel) | ToOwner

  /** The channel when one was found, then the owner; only the owner when
      none was. */
  function WelcomeTargets(found: Option<Channel>): (t: seq<Target>)
    ensures |t| == if found.Some? then 2 else 1
    ensures t[|t| - 1] == ToOwner
    ensures forall c :: ToChannel(c) in t <==> found == Some(c)
    ensures found.Some? ==> t[0] == ToChannel(found.value)
  {
    match found
    case Some(c) => [ToChannel(c), ToOwner]
    case None => [ToOwner]
  }

  /** The guilds `is_ready` adds, in the order it adds them: each guild not
      yet stored when the loop reaches it. */
  function NewGuilds(known: set<nat>, guilds: seq<nat>): (r: seq<nat>)
    ensures forall k :: 0 <= k < |r| ==> r[k] in guilds && r[k] !in known
    ensures forall k :: 0 <= k < |guilds| && guilds[k] !in known ==> guilds[k] in r
    ensures forall i, j :: 0 <= i < j < |r| ==> r[i] != r[j]
    decreases |guilds|
  {
    if guilds == [] then []
    else if guilds[0] in known then NewGuilds(known, guilds[1..])
    else [guilds[0]] + NewGuilds(known + {guilds[0]}, guilds[1..])
  }

  /** A second start-up right after the first adds nothing: every guild it
      sees is stored by then. */
  lemma SyncTwiceAddsNothing(known: set<nat>, guilds: seq<nat>)
    ensures NewGuilds(known + (set k | 0 <= k < |guilds| :: guilds[k]), guilds) == []
  {
    NoneNew(known + (set k | 0 <= k < |guilds| :: guilds[k]), guilds);
  }

  lemma {:induction false} NoneNew(known: set<nat>, guilds: seq<nat>)
    requires forall k :: 0 <= k < |guilds| ==> guilds[k] in known
    ensures NewGuilds(known, guilds) == []
    decreases |guilds|
  {
    if guilds != [] {
      NoneNew(known, guilds[1..]);
    }
  }

  /** The store of known guild ids behind `exists`, `add` and `remove`. */
  class GuildDirectory {
    var known: set<nat>

    constructor (known: set<nat>)
      ensures this.known == known
    {
      this.known := known;
    }

    /** `is_ready`: add every guild the bot is in that is not stored yet.
        Afterwards every such guild is stored, nothing else is, and a guild
        that was stored already is never added again. */
    method SyncOnReady(guilds: seq<nat>) returns (added: seq<nat>)
      modifies this
      ensures known == old(known) + (set k | 0 <= k < |guilds| :: guilds[k])
      ensures added == NewGuilds(old(known), guilds)
    {
      ghost var start := known;
      added := [];
      var i := 0;
      while i < |guilds|
        invariant 0 <= i <= |guilds|
        invariant known == start + (set k | 0 <= k < i :: guilds[k])
        invariant added + NewGuilds(known, guilds[i..]) == NewGuilds(start, guilds)
      {
        assert guilds[i..][1..] == guilds[i + 1..];
        if guilds[i] !in known {
          assert added + NewGuilds(known, guilds[i..]) == (added + [guilds[i]]) + NewGuilds(known + {guilds[i]}, guilds[i + 1..]);
          known := known + {guilds[i]};
          added := added + [guilds[i]];
        }
        assert (set k | 0 <= k < i + 1 :: guilds[k]) == (set k | 0 <= k < i :: guilds[k]) + {guilds[i]};
        i := i + 1;
      }
      assert guilds[i..] == [];
      assert added + [] == added;
    }

    /** `joined_guild`: store the guild, then greet it where it can be
        greeted. */
    method JoinedGuild(guild: nat, channels: seq<Channel>) returns (targets: seq<Target>)
      modifies this
      ensures known == old(known) + {guild}
      ensures targets == WelcomeTargets(FirstSendable(channels))
    {
      known := known + {guild};
      var channel := GetChannel(channels);
      targets := WelcomeTargets(channel);
    }

    /** `quit_guild`: forget the guild. */
    method QuitGuild(guild: nat)
      modifies this
      ensures known == old(known) - {guild}
    {
      known := known - {guild};
    }
  }
}
