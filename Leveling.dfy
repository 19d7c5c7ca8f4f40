/**
  The leveling cog: per-message experience accrual with a per-(guild, user)
  cooldown kept in memory, level-up handling (notification channel and role
  reward), the progress figures of the level command, and the argument checks
  of the administrator commands.

  The chat platform is reduced to what the decisions read: the message's
  author, guild and channel, the roles the author holds, the roles that exist
  in the guild and the channels the bot can resolve. Sending messages and
  granting roles are outbound requests, returned as a `LevelUpPlan`.
*/
module Leveling {
  import opened Wrappers
  import opened LevelFormula
  import opened Database

  /** A received message, as the listener sees it; `guildId` is `None` for a direct message. */
  datatype Message = Message(
    authorIsBot: bool,
    guildId: Option<string>,
    authorId: string,
    authorName: string,
    channelId: string,
    authorRoles: set<string>)

  /** What a level-up asks of the platform: where to announce it and which role to grant. */
  datatype LevelUpPlan = LevelUpPlan(level: int, notifyChannel: Option<string>, grantRole: Option<string>)

  /** How one message was handled. */
  datatype MessageOutcome =
    | Ignored                  // from a bot, or not in a guild
    | CoolingDown              // inside the author's cooldown window
    | Awarded(amount: int, award: XpAward, levelUp: Option<LevelUpPlan>)

  // ------------------------------------------------------------ cooldown

  /** The cooldown gate: a key with no recorded award passes; otherwise the elapsed seconds must reach the cooldown. */
  predicate CooldownPasses(cooldowns: map<UserKey, int>, key: UserKey, now: int, cooldown: int)
    ensures key !in cooldowns ==> CooldownPasses(cooldowns, key, now, cooldown)
    ensures key in cooldowns ==> (CooldownPasses(cooldowns, key, now, cooldown) <==> cooldowns[key] + cooldown <= now)
  {
    key !in cooldowns || now - cooldowns[key] >= cooldown
  }

  /** Once an award is recorded at `t`, no message of that key earns experience before `t + cooldown`. */
  lemma AtMostOneAwardPerWindow(cooldowns: map<UserKey, int>, key: UserKey, t: int, later: int, cooldown: int)
    requires t <= later < t + cooldown
    ensures !CooldownPasses(cooldowns[key := t], key, later, cooldown)
    ensures CooldownPasses(cooldowns[key := t], key, t + cooldown, cooldown)
  {
  }

  /** Awards at 60-second cooldown: first message at t passes, t + 30 is refused, t + 61 passes. */
  lemma CooldownExample(key: UserKey, t: int)
    ensures CooldownPasses(map[], key, t, 60)
    ensures !CooldownPasses(map[key := t], key, t + 30, 60)
    ensures CooldownPasses(map[key := t], key, t + 61, 60)
  {
  }

  // ------------------------------------------------------------ level-up

  /** The guild's settings row as `get_guild_settings` returns it: the stored one, or the defaults. */
  function SettingsFor(settings: map<string, SettingsRow>, guild: string): (row: SettingsRow)
    requires forall g :: g in settings ==> WellFormedSettings(settings[g])
    ensures WellFormedSettings(row)
    ensures row == EnsureSettings(settings, guild)[guild]
  {
    DefaultSettingsWellFormed();
    if guild in settings then settings[guild] else DefaultSettings
  }

  /**
    The channel a level-up is announced in: the configured level-up channel
    when one is set (and only if the bot can resolve it), else the channel
    the message came from.
  */
  function NotificationChannel(row: SettingsRow, messageChannel: string, knownChannels: set<string>): (r: Option<string>)
    requires WellFormedSettings(row)
    ensures row["level_up_channel_id"] in {Null, Text("")} ==> r == Some(messageChannel)
    ensures row["level_up_channel_id"] !in {Null, Text("")} ==>
              (r.Some? <==> row["level_up_channel_id"].text in knownChannels)
              && (r.Some? ==> r.value == row["level_up_channel_id"].text)
  {
    match row["level_up_channel_id"]
    case Text(id) =>
      if id == "" then Some(messageChannel)
      else if id in knownChannels then Some(id) else None
    case _ => Some(messageChannel)
  }

  /**
    The level-up handling for arrival level `level`: only the reward of that
    level is consulted, and its role is granted only when it exists in the
    guild and the author does not already hold it.
  */
  function PlanLevelUp(row: SettingsRow, reward: Option<LevelReward>, level: int, msg: Message,
                       knownChannels: set<string>, guildRoles: set<string>): (r: LevelUpPlan)
    requires WellFormedSettings(row)
    ensures r.level == level
    ensures r.notifyChannel == NotificationChannel(row, msg.channelId, knownChannels)
    ensures r.grantRole.Some? <==>
              reward.Some? && reward.value.roleId in guildRoles && reward.value.roleId !in msg.authorRoles
    ensures r.grantRole.Some? ==> r.grantRole.value == reward.value.roleId
  {
    var grant :=
      if reward.Some? && reward.value.roleId in guildRoles && reward.value.roleId !in msg.authorRoles
      then Some(reward.value.roleId) else None;
    LevelUpPlan(level, NotificationChannel(row, msg.channelId, knownChannels), grant)
  }

  // ------------------------------------------------------------ progress

  /**
    The progress figures of the level command: experience gained since the
    current level's threshold, and the experience between that threshold and
    the next one.
  */
  function LevelProgress(xp: int, level: int): (r: (int, int))
    ensures level >= 1 ==> r.1 == (2 * level - 1) * 100 && r.1 > 0
    ensures level <= 0 ==> r.1 == 0
    ensures xp >= 0 && level == CalculateLevel(xp) ==> 0 <= r.0 < r.1
  {
    var current := XpForLevel(level);
    var next := XpForLevel(level + 1);
    assert level >= 1 ==> next - current == (2 * level - 1) * 100 by {
      if level >= 1 {
        ThresholdIncreasing(level);
      }
    }
    assert xp >= 0 && level == CalculateLevel(xp) ==> current <= xp < next by {
      if xp >= 0 && level == CalculateLevel(xp) {
        ThresholdBracket(xp);
      }
    }
    (xp - current, next - current)
  }

  /** What the level command shows for a user with data. */
  datatype LevelCard = LevelCard(level: int, xp: int, totalMessages: int, rank: Option<int>,
                                 progress: int, needed: int, nextLevelXp: int)

  // --------------------------------------------------------- admin checks

  /** The outcome of the `setxp` argument checks. */
  datatype SetXpCheck =
    | XpOutOfRange
    | CooldownOutOfRange
    | Accept(kwargs: seq<(string, SettingValue)>)

  /**
    `setxp <xp_amount> [cooldown]`: the amount must lie in [1, 100] and a given
    cooldown in [0, 600]; otherwise nothing is written, not even the amount.
  */
  function CheckSetXp(xpAmount: int, cooldown: Option<int>): (r: SetXpCheck)
    ensures r.XpOutOfRange? <==> xpAmount < 1 || xpAmount > 100
    ensures r.CooldownOutOfRange? <==>
              1 <= xpAmount <= 100 && cooldown.Some? && (cooldown.value < 0 || cooldown.value > 600)
    ensures r.Accept? ==>
              && DistinctNames(r.kwargs)
              && (forall i :: 0 <= i < |r.kwargs| ==> r.kwargs[i].0 in AllowedFields && FitsColumn(r.kwargs[i].0, r.kwargs[i].1))
              && |r.kwargs| == (if cooldown.Some? then 2 else 1)
              && r.kwargs[0] == ("xp_per_message", Integer(xpAmount))
              && (cooldown.Some? ==> r.kwargs[1] == ("xp_cooldown", Integer(cooldown.value)))
  {
    if xpAmount < 1 || xpAmount > 100 then XpOutOfRange
    else
      match cooldown
      case None => Accept([("xp_per_message", Integer(xpAmount))])
      case Some(c) =>
        if c < 0 || c > 600 then CooldownOutOfRange
        else Accept([("xp_per_message", Integer(xpAmount)), ("xp_cooldown", Integer(c))])
  }

  /** The row an accepted `setxp` writes: the new amount, and the new cooldown when one is given. */
  lemma SetXpWrites(row: SettingsRow, xpAmount: int, cooldown: Option<int>)
    requires WellFormedSettings(row)
    requires CheckSetXp(xpAmount, cooldown).Accept?
    ensures var after := ApplyAssignments(row, AllowedOnly(CheckSetXp(xpAmount, cooldown).kwargs));
            && WellFormedSettings(after)
            && XpPerMessage(after) == xpAmount
            && XpCooldown(after) == if cooldown.Some? then cooldown.value else XpCooldown(row)
  {
    var kwargs := CheckSetXp(xpAmount, cooldown).kwargs;
    var assignments := AllowedOnly(kwargs);
    var after := ApplyAssignments(row, assignments);
    forall i | 0 <= i < |assignments|
      ensures assignments[i].0 in AllowedFields && FitsColumn(assignments[i].0, assignments[i].1)
    {
      var k :| 0 <= k < |kwargs| && kwargs[k] == assignments[i];
    }
    AssignmentsKeepWellFormed(row, assignments);
    UpdateWritesAllowed(row, kwargs, 0);
    if cooldown.Some? {
      UpdateWritesAllowed(row, kwargs, 1);
    } else {
      UpdateKeepsOthers(row, kwargs, "xp_cooldown");
    }
  }

  // ---------------------------------------------------------------- cog

  class Leveling {
    const store: LevelStore
    /** The time, in seconds, of each (guild, user)'s last award since the process started. */
    var xpCooldowns: map<UserKey, int>

    constructor (store: LevelStore)
      ensures this.store == store && xpCooldowns == map[]
    {
      this.store := store;
      xpCooldowns := map[];
    }

    /**
      `on_message`: ignore bots and direct messages; look up the guild's
      settings (creating them); refuse inside the cooldown window; otherwise
      record the time, award a random amount in [base, base + 10] with exactly
      one `add_xp`, and on a level-up plan the notification and role reward.
    */
    method OnMessage(msg: Message, now: int, knownChannels: set<string>, guildRoles: set<string>)
      returns (outcome: MessageOutcome)
      requires store.Valid()
      modifies this, store
      ensures store.Valid()
      ensures msg.authorIsBot || msg.guildId.None? ==>
                && outcome == Ignored
                && xpCooldowns == old(xpCooldowns)
                && store.users == old(store.users)
                && store.rewards == old(store.rewards)
                && store.settings == old(store.settings)
      ensures !msg.authorIsBot && msg.guildId.Some? ==>
                var guild := msg.guildId.value;
                var key := (guild, msg.authorId);
                var row := SettingsFor(old(store.settings), guild);
                && store.settings == EnsureSettings(old(store.settings), guild)
                && store.rewards == old(store.rewards)
                && if !CooldownPasses(old(xpCooldowns), key, now, XpCooldown(row)) then
                     && outcome == CoolingDown
                     && xpCooldowns == old(xpCooldowns)
                     && store.users == old(store.users)
                   else
                     && outcome.Awarded?
                     && xpCooldowns == old(xpCooldowns)[key := now]
                     && XpPerMessage(row) <= outcome.amount <= XpPerMessage(row) + 10
                     && (store.users, outcome.award)
                          == AddXpTo(old(store.users), key, msg.authorName, outcome.amount, now)
                     && outcome.levelUp
                          == if outcome.award.leveledUp
                             then Some(PlanLevelUp(row, store.GetLevelReward(guild, outcome.award.level),
                                                   outcome.award.level, msg, knownChannels, guildRoles))
                             else None
    {
      if msg.authorIsBot {
        return Ignored;
      }
      if msg.guildId.None? {
        return Ignored;
      }
      var guild := msg.guildId.value;
      var key := (guild, msg.authorId);
      var settings := store.GetGuildSettings(guild);
      var cooldown := XpCooldown(settings);
      var baseXp := XpPerMessage(settings);
      if key in xpCooldowns {
        var elapsed := now - xpCooldowns[key];
        if elapsed < cooldown {
          return CoolingDown;
        }
      }
      xpCooldowns := xpCooldowns[key := now];
      var amount :| baseXp <= amount <= baseXp + 10;
      var award := store.AddXp(guild, msg.authorId, msg.authorName, amount, now);
      if award.leveledUp {
        var plan := HandleLevelUp(msg, award.level, guild, knownChannels, guildRoles);
        outcome := Awarded(amount, award, Some(plan));
      } else {
        outcome := Awarded(amount, award, None);
      }
    }

    /** `_handle_level_up`: reads the (existing) settings row and the reward of the arrival level. */
    method HandleLevelUp(msg: Message, newLevel: int, guild: string, knownChannels: set<string>, guildRoles: set<string>)
      returns (plan: LevelUpPlan)
      requires store.Valid() && guild in store.settings
      modifies store
      ensures store.Valid()
      ensures store.users == old(store.users) && store.rewards == old(store.rewards)
      ensures store.settings == old(store.settings)
      ensures plan == PlanLevelUp(store.settings[guild], store.GetLevelReward(guild, newLevel),
                                  newLevel, msg, knownChannels, guildRoles)
    {
      var settings := store.GetGuildSettings(guild);
      var channel := NotificationChannel(settings, msg.channelId, knownChannels);
      var reward := store.GetLevelReward(guild, newLevel);
      var grant: Option<string> := None;
      if reward.Some? {
        var roleId := reward.value.roleId;
        if roleId in guildRoles && roleId !in msg.authorRoles {
          grant := Some(roleId);
        }
      }
      plan := LevelUpPlan(newLevel, channel, grant);
    }

    /** `level_command`: nothing without data; otherwise level, experience, rank and progress. */
    function LevelCommand(guild: string, user: string): (r: Option<LevelCard>)
      reads this, store
      requires store.Valid()
      ensures r.None? <==> (guild, user) !in store.users
      ensures r.Some? ==>
                var d := store.users[(guild, user)];
                && r.value.level == d.level && r.value.xp == d.xp && r.value.totalMessages == d.totalMessages
                && r.value.rank == Some(RankOf(store.users, guild, user))
                && (r.value.progress, r.value.needed) == LevelProgress(d.xp, d.level)
      ensures r.Some? ==> r.value.rank.Some? && r.value.rank.value >= 1
      ensures r.Some? && r.value.xp >= 0 ==> 0 <= r.value.progress < r.value.needed
      ensures r.Some? ==> r.value.nextLevelXp == XpForLevel(r.value.level + 1) && r.value.nextLevelXp > r.value.xp
    {
      match store.GetUserLevel(guild, user)
      case None => None
      case Some(data) =>
        var progress := LevelProgress(data.xp, data.level);
        assert data.xp >= 0 ==> XpForLevel(data.level + 1) > data.xp by {
          if data.xp >= 0 {
            ThresholdBracket(data.xp);
          }
        }
        assert data.xp < 0 ==> XpForLevel(data.level + 1) >= 0;
        Some(LevelCard(data.level, data.xp, data.totalMessages, store.GetUserRank(guild, user),
                       progress.0, progress.1, XpForLevel(data.level + 1)))
    }

    /** `setlevelreward`: a level below 1 is refused and nothing is written. */
    method SetLevelReward(guild: string, level: int, roleId: string, roleName: string) returns (accepted: bool)
      requires store.Valid()
      modifies store
      ensures store.Valid()
      ensures accepted <==> level >= 1
      ensures accepted ==> store.rewards == old(store.rewards)[(guild, level) := LevelReward(roleId, roleName)]
      ensures !accepted ==> store.rewards == old(store.rewards)
      ensures store.users == old(store.users) && store.settings == old(store.settings)
    {
      if level < 1 {
        return false;
      }
      store.AddLevelReward(guild, level, roleId, roleName);
      accepted := true;
    }

    /** `setxp`: out-of-range arguments change nothing; accepted ones set the amount and, if given, the cooldown. */
    method SetXp(guild: string, xpAmount: int, cooldown: Option<int>) returns (check: SetXpCheck)
      requires store.Valid()
      modifies store
      ensures store.Valid()
      ensures check == CheckSetXp(xpAmount, cooldown)
      ensures !check.Accept? ==> store.settings == old(store.settings)
      ensures check.Accept? ==>
                && store.settings.Keys == old(store.settings).Keys + {guild}
                && XpPerMessage(store.settings[guild]) == xpAmount
                && XpCooldown(store.settings[guild])
                     == (if cooldown.Some? then cooldown.value else XpCooldown(SettingsFor(old(store.settings), guild)))
      ensures check.Accept? ==>
                var e := EnsureSettings(old(store.settings), guild);
                store.settings == e[guild := ApplyAssignments(e[guild], check.kwargs)]
      ensures store.users == old(store.users) && store.rewards == old(store.rewards)
    {
      check := CheckSetXp(xpAmount, cooldown);
      if check.Accept? {
        ghost var e := EnsureSettings(store.settings, guild);
        ghost var before := SettingsFor(store.settings, guild);
        AllowedOnlyKeepsAllowed(check.kwargs);
        store.UpdateGuildSettings(guild, check.kwargs);
        assert store.settings == e[guild := ApplyAssignments(before, check.kwargs)];
        SetXpWrites(before, xpAmount, cooldown);
      }
    }

    /** `setlevelchannel`: level-ups of the guild are announced in `channelId` from now on. */
    method SetLevelChannel(guild: string, channelId: string)
      requires store.Valid()
      modifies store
      ensures store.Valid()
      ensures guild in store.settings && store.settings[guild]["level_up_channel_id"] == Text(channelId)
      ensures forall c :: c in AllowedFields && c != "level_up_channel_id" ==>
                store.settings[guild][c] == SettingsFor(old(store.settings), guild)[c]
      ensures var e := EnsureSettings(old(store.settings), guild);
              store.settings == e[guild := ApplyAssignments(e[guild], [("level_up_channel_id", Text(channelId))])]
      ensures store.users == old(store.users) && store.rewards == old(store.rewards)
    {
      var kwargs := [("level_up_channel_id", Text(channelId))];
      var before := SettingsFor(store.settings, guild);
      store.UpdateGuildSettings(guild, kwargs);
      UpdateWritesAllowed(before, kwargs, 0);
      AllowedOnlyKeepsAllowed(kwargs);
      forall c | c in AllowedFields && c != "level_up_channel_id"
        ensures store.settings[guild][c] == before[c]
      {
        UpdateKeepsOthers(before, kwargs, c);
      }
    }
  }
}
