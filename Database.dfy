/**
  The persistent store of the leveling system. The three SQLite tables are
  keyed maps held by one `LevelStore` object:

  - `user_levels`, keyed on (guild id, user id);
  - `level_rewards`, keyed on (guild id, level);
  - `guild_settings`, keyed on guild id, each row a map from column name to value.

  Each database function becomes a method (when it writes) or a function
  (when it only reads) of `LevelStore`; the table updates are specified by
  the pure functions of this module, about which the lemmas are stated.
*/
module Database {
  import opened Wrappers
  import opened LevelFormula

  // ---------------------------------------------------------------- rows

  /** (guild id, user id), the unique key of `user_levels`. */
  type UserKey = (string, string)

  /** (guild id, level), the unique key of `level_rewards`. */
  type RewardKey = (string, int)

  /** A `user_levels` row; `lastXpTime` is the award time in integer seconds. */
  datatype UserLevel = UserLevel(username: string, xp: int, level: int, totalMessages: int, lastXpTime: int)

  /** A `level_rewards` row. */
  datatype LevelReward = LevelReward(roleId: string, roleName: string)

  /** A value stored in a `guild_settings` column. */
  datatype SettingValue = Null | Text(text: string) | Integer(number: int)

  /** A `guild_settings` row without its key: column name to value. */
  type SettingsRow = map<string, SettingValue>

  const TextColumns: set<string> :=
    {"welcome_channel_id", "welcome_message", "rules_channel_id", "log_channel_id", "level_up_channel_id"}

  const IntegerColumns: set<string> := {"xp_per_message", "xp_cooldown"}

  /** The columns `update_guild_settings` is allowed to write. */
  const AllowedFields: set<string> := TextColumns + IntegerColumns

  /** The row `get_guild_settings` creates: channels unset, 15 XP per message, 60 s cooldown. */
  const DefaultSettings: SettingsRow := map[
    "welcome_channel_id" := Null,
    "welcome_message" := Null,
    "rules_channel_id" := Null,
    "log_channel_id" := Null,
    "level_up_channel_id" := Null,
    "xp_per_message" := Integer(15),
    "xp_cooldown" := Integer(60)
  ]

  /** A value of the column's declared type (any value for an unknown column). */
  predicate FitsColumn(column: string, v: SettingValue) {
    if column in IntegerColumns then v.Integer?
    else if column in TextColumns then !v.Integer?
    else true
  }

  predicate WellFormedSettings(row: SettingsRow) {
    && row.Keys == AllowedFields
    && forall c :: c in row ==> FitsColumn(c, row[c])
  }

  function XpPerMessage(row: SettingsRow): int
    requires WellFormedSettings(row)
  {
    row["xp_per_message"].number
  }

  function XpCooldown(row: SettingsRow): int
    requires WellFormedSettings(row)
  {
    row["xp_cooldown"].number
  }

  lemma DefaultSettingsWellFormed()
    ensures WellFormedSettings(DefaultSettings)
    ensures XpPerMessage(DefaultSettings) == 15 && XpCooldown(DefaultSettings) == 60
    ensures forall c :: c in TextColumns ==> DefaultSettings[c] == Null
  {
  }

  // ---------------------------------------------------------- user_levels

  /** The stored level of every row is the level of its stored experience. */
  ghost predicate ConsistentLevels(users: map<UserKey, UserLevel>) {
    forall k :: k in users ==> users[k].level == CalculateLevel(users[k].xp)
  }

  /** What `add_xp` reports: the level and experience now stored, and whether the level went up. */
  datatype XpAward = XpAward(level: int, xp: int, leveledUp: bool)

  /** Experience before an award; an absent row counts as 0. */
  function PriorXp(users: map<UserKey, UserLevel>, key: UserKey): int {
    if key in users then users[key].xp else 0
  }

  /** Level before an award as `add_xp` reads it: the stored level, or 1 for an absent row. */
  function PriorLevel(users: map<UserKey, UserLevel>, key: UserKey): int {
    if key in users then users[key].level else 1
  }

  /**
    The `user_levels` table after `add_xp(guild, user, username, amount)` at
    time `now`, and the triple `add_xp` returns.
  */
  function AddXpTo(users: map<UserKey, UserLevel>, key: UserKey, username: string, amount: int, now: int)
    : (r: (map<UserKey, UserLevel>, XpAward))
    ensures r.0.Keys == users.Keys + {key}
    ensures forall k :: k in users && k != key ==> r.0[k] == users[k]
    ensures r.0[key].xp == PriorXp(users, key) + amount
    ensures r.0[key].level == CalculateLevel(r.0[key].xp)
    ensures r.0[key].username == username && r.0[key].lastXpTime == now
    ensures r.0[key].totalMessages == (if key in users then users[key].totalMessages else 0) + 1
    ensures r.1 == XpAward(r.0[key].level, r.0[key].xp, r.0[key].level > PriorLevel(users, key))
  {
    if key in users then
      var row := users[key];
      var newXp := row.xp + amount;
      var newLevel := CalculateLevel(newXp);
      (users[key := UserLevel(username, newXp, newLevel, row.totalMessages + 1, now)],
       XpAward(newLevel, newXp, newLevel > row.level))
    else
      var newLevel := CalculateLevel(amount);
      (users[key := UserLevel(username, amount, newLevel, 1, now)],
       XpAward(newLevel, amount, newLevel > 1))
  }

  lemma AddXpKeepsLevelsConsistent(users: map<UserKey, UserLevel>, key: UserKey, username: string, amount: int, now: int)
    requires ConsistentLevels(users)
    ensures ConsistentLevels(AddXpTo(users, key, username, amount, now).0)
  {
  }

  /**
    On a consistent table, `add_xp` reports a level-up exactly when the new
    experience reaches the threshold of the level after the prior one.
  */
  lemma {:induction false} LevelUpIffNextThreshold(users: map<UserKey, UserLevel>, key: UserKey, username: string, amount: int, now: int)
    requires ConsistentLevels(users)
    ensures AddXpTo(users, key, username, amount, now).1.leveledUp
        <==> PriorXp(users, key) + amount >= XpForLevel(PriorLevel(users, key) + 1)
  {
    var r := AddXpTo(users, key, username, amount, now);
    LevelExceededIff(PriorLevel(users, key), r.0[key].xp);
  }

  /** A non-negative award never lowers a consistent level. */
  lemma {:induction false} LevelNeverDrops(users: map<UserKey, UserLevel>, key: UserKey, username: string, amount: int, now: int)
    requires ConsistentLevels(users) && PriorXp(users, key) >= 0 && amount >= 0
    ensures AddXpTo(users, key, username, amount, now).1.level >= PriorLevel(users, key)
  {
    LevelMonotone(PriorXp(users, key), PriorXp(users, key) + amount);
    assert CalculateLevel(0) == 1;
  }

  /** A fresh user given 50 and then 60 experience: (1, 50, no level-up), then (2, 110, level-up). */
  lemma TwoAwardsExample(key: UserKey)
    ensures var first := AddXpTo(map[], key, "A", 50, 0);
            var second := AddXpTo(first.0, key, "A", 60, 1);
            first.1 == XpAward(1, 50, false) && second.1 == XpAward(2, 110, true)
  {
    assert CalculateLevel(50) == 1;
    assert CalculateLevel(110) == 2;
  }

  // ------------------------------------------------------ rank and board

  /** The keys of `users` that belong to `guild`. */
  function GuildKeys(users: map<UserKey, UserLevel>, guild: string): set<UserKey> {
    set k | k in users && k.0 == guild
  }

  /** The rows of `guild` with strictly more than `xp` experience. */
  function Above(users: map<UserKey, UserLevel>, guild: string, xp: int): set<UserKey> {
    set k | k in users && k.0 == guild && users[k].xp > xp
  }

  /**
    `get_user_rank`: one plus the number of rows of the guild with strictly
    more experience. For an absent user the inner query yields no value, the
    comparison with it holds for no row, and the rank is 1.
  */
  function RankOf(users: map<UserKey, UserLevel>, guild: string, user: string): (r: int)
    ensures r >= 1
    ensures (guild, user) !in users ==> r == 1
  {
    if (guild, user) in users then 1 + |Above(users, guild, users[(guild, user)].xp)| else 1
  }

  lemma SubsetCardinality<T>(a: set<T>, b: set<T>)
    requires a <= b
    ensures |a| <= |b|
  {
    assert b == a + (b - a);
  }

  /** Users with equal experience share a rank; more experience means a strictly smaller rank. */
  lemma {:induction false} RankOrder(users: map<UserKey, UserLevel>, guild: string, u: string, v: string)
    requires (guild, u) in users && (guild, v) in users
    ensures users[(guild, u)].xp == users[(guild, v)].xp ==> RankOf(users, guild, u) == RankOf(users, guild, v)
    ensures users[(guild, u)].xp > users[(guild, v)].xp ==> RankOf(users, guild, u) < RankOf(users, guild, v)
  {
    var xu, xv := users[(guild, u)].xp, users[(guild, v)].xp;
    if xu > xv {
      var au, av := Above(users, guild, xu), Above(users, guild, xv);
      assert (guild, u) !in au;
      assert au + {(guild, u)} <= av;
      SubsetCardinality(au + {(guild, u)}, av);
    }
  }

  /** A present user's rank is at most the number of rows in the guild. */
  lemma {:induction false} RankAtMostGuildSize(users: map<UserKey, UserLevel>, guild: string, user: string)
    requires (guild, user) in users
    ensures RankOf(users, guild, user) <= |GuildKeys(users, guild)|
  {
    var above := Above(users, guild, users[(guild, user)].xp);
    assert above + {(guild, user)} <= GuildKeys(users, guild);
    SubsetCardinality(above + {(guild, user)}, GuildKeys(users, guild));
  }

  /** Three users with 300, 100 and 100 experience rank 1, 2 and 2. */
  lemma RankExample(a: string, b: string, c: string)
    requires a != b && b != c && a != c
    ensures var users := map[("g", a) := UserLevel("a", 300, 2, 1, 0),
                             ("g", b) := UserLevel("b", 100, 2, 1, 0),
                             ("g", c) := UserLevel("c", 100, 2, 1, 0)];
            RankOf(users, "g", a) == 1 && RankOf(users, "g", b) == 2 && RankOf(users, "g", c) == 2
  {
    var users := map[("g", a) := UserLevel("a", 300, 2, 1, 0),
                     ("g", b) := UserLevel("b", 100, 2, 1, 0),
                     ("g", c) := UserLevel("c", 100, 2, 1, 0)];
    assert Above(users, "g", 300) == {};
    assert Above(users, "g", 100) == {("g", a)};
  }

  /**
    `board` is what `get_leaderboard(guild, limit)` may return: rows of the
    guild, each user once, in non-increasing experience, as many as the limit
    allows (a negative SQLite limit means no limit), and no omitted row of the
    guild has more experience than a listed one. Rows of equal experience may
    come in any order.
  */
  ghost predicate IsLeaderboard(users: map<UserKey, UserLevel>, guild: string, limit: int, board: seq<(string, UserLevel)>)
    ensures IsLeaderboard(users, guild, limit, board) ==>
              |board| <= |GuildKeys(users, guild)| && (limit >= 0 ==> |board| <= limit)
  {
    && (forall i :: 0 <= i < |board| ==> (guild, board[i].0) in users && users[(guild, board[i].0)] == board[i].1)
    && (forall i, j :: 0 <= i < j < |board| ==> board[i].0 != board[j].0)
    && (forall i, j :: 0 <= i < j < |board| ==> board[i].1.xp >= board[j].1.xp)
    && |board| == (if 0 <= limit < |GuildKeys(users, guild)| then limit else |GuildKeys(users, guild)|)
    && (forall k, i :: k in GuildKeys(users, guild) && k.1 !in BoardUsers(board) && 0 <= i < |board| ==>
          users[k].xp <= board[i].1.xp)
  }

  /** The users listed on a board. */
  function BoardUsers(board: seq<(string, UserLevel)>): set<string> {
    if board == [] then {} else BoardUsers(board[..|board| - 1]) + {board[|board| - 1].0}
  }

  lemma BoardUsersAppend(board: seq<(string, UserLevel)>, x: (string, UserLevel))
    ensures BoardUsers(board + [x]) == BoardUsers(board) + {x.0}
  {
    assert (board + [x])[..|board|] == board;
  }

  /** A user is on the board exactly when some entry names them. */
  lemma {:induction false} BoardUsersListed(board: seq<(string, UserLevel)>, u: string)
    ensures u in BoardUsers(board) <==> exists i :: 0 <= i < |board| && board[i].0 == u
  {
    if board != [] {
      var front := board[..|board| - 1];
      BoardUsersListed(front, u);
      if exists i :: 0 <= i < |board| && board[i].0 == u {
        var i :| 0 <= i < |board| && board[i].0 == u;
        if i < |front| {
          assert front[i] == board[i];
        }
      }
      if exists i :: 0 <= i < |front| && front[i].0 == u {
        var i :| 0 <= i < |front| && front[i].0 == u;
        assert board[i] == front[i];
      }
    }
  }

  /** The first row of a non-empty leaderboard has the most experience in the guild. */
  lemma LeaderboardTopIsMax(users: map<UserKey, UserLevel>, guild: string, limit: int, board: seq<(string, UserLevel)>)
    requires IsLeaderboard(users, guild, limit, board) && |board| > 0
    ensures forall k :: k in GuildKeys(users, guild) ==> users[k].xp <= board[0].1.xp
  {
    forall k | k in GuildKeys(users, guild)
      ensures users[k].xp <= board[0].1.xp
    {
      BoardUsersListed(board, k.1);
      if k.1 in BoardUsers(board) {
        var j :| 0 <= j < |board| && board[j].0 == k.1;
        assert k == (guild, board[j].0);
      }
    }
  }

  /**
    A leaderboard under construction: `taken` rows are listed in `board`,
    `remaining` rows are not, and none of those has more experience than a
    listed row.
  */
  ghost predicate BoardSoFar(users: map<UserKey, UserLevel>, guild: string, board: seq<(string, UserLevel)>,
                             taken: set<UserKey>, remaining: set<UserKey>) {
    && taken !! remaining && taken + remaining == GuildKeys(users, guild)
    && |board| == |taken|
    && (forall i :: 0 <= i < |board| ==> (guild, board[i].0) in taken)
    && (forall t :: t in taken ==> t.1 in BoardUsers(board))
    && (forall i :: 0 <= i < |board| ==> (guild, board[i].0) in users && users[(guild, board[i].0)] == board[i].1)
    && (forall i, j :: 0 <= i < j < |board| ==> board[i].0 != board[j].0)
    && (forall i, j :: 0 <= i < j < |board| ==> board[i].1.xp >= board[j].1.xp)
    && (forall k, i :: k in remaining && 0 <= i < |board| ==> users[k].xp <= board[i].1.xp)
  }

  /** Listing a remaining row of highest experience keeps the construction sound. */
  lemma BoardStep(users: map<UserKey, UserLevel>, guild: string, board: seq<(string, UserLevel)>,
                  taken: set<UserKey>, remaining: set<UserKey>, k: UserKey)
    requires BoardSoFar(users, guild, board, taken, remaining)
    requires k in remaining && forall c :: c in remaining ==> users[c].xp <= users[k].xp
    ensures BoardSoFar(users, guild, board + [(k.1, users[k])], taken + {k}, remaining - {k})
  {
    var entry := (k.1, users[k]);
    var nb, nt, nr := board + [entry], taken + {k}, remaining - {k};
    assert k == (guild, k.1);
    forall i | 0 <= i < |board| ensures board[i].0 != k.1 {
      assert (guild, board[i].0) in taken;
    }
    BoardUsersAppend(board, entry);
    assert nt !! nr && nt + nr == GuildKeys(users, guild);
    forall i | 0 <= i < |nb|
      ensures (guild, nb[i].0) in nt
      ensures (guild, nb[i].0) in users && users[(guild, nb[i].0)] == nb[i].1
    {
      if i < |board| {
        assert nb[i] == board[i];
        assert (guild, board[i].0) in taken;
      }
    }
    forall i, j | 0 <= i < j < |nb|
      ensures nb[i].0 != nb[j].0 && nb[i].1.xp >= nb[j].1.xp
    {
      assert nb[i] == board[i];
      if j < |board| {
        assert nb[j] == board[j];
      } else {
        assert nb[j] == entry;
        assert k in remaining;
      }
    }
    forall c, i | c in nr && 0 <= i < |nb|
      ensures users[c].xp <= nb[i].1.xp
    {
      if i < |board| {
        assert nb[i] == board[i];
      }
    }
  }

  /** A construction stopped by the limit or by running out of rows is a leaderboard. */
  lemma BoardDone(users: map<UserKey, UserLevel>, guild: string, limit: int, board: seq<(string, UserLevel)>,
                  taken: set<UserKey>, remaining: set<UserKey>)
    requires BoardSoFar(users, guild, board, taken, remaining)
    requires limit >= 0 ==> |board| <= limit
    requires remaining == {} || (limit >= 0 && |board| == limit)
    ensures IsLeaderboard(users, guild, limit, board)
  {
    var all := GuildKeys(users, guild);
    SubsetCardinality(taken, all);
    assert |taken| + |remaining| == |all|;
    forall k | k in all && k.1 !in BoardUsers(board)
      ensures k in remaining
    {
    }
  }

  /** The keys of the first `n` board entries. */
  function PrefixKeys(board: seq<(string, UserLevel)>, guild: string, n: nat): set<UserKey>
    requires n <= |board|
  {
    set j | 0 <= j < n :: (guild, board[j].0)
  }

  lemma {:induction false} PrefixKeysCardinality(board: seq<(string, UserLevel)>, guild: string, n: nat)
    requires n <= |board|
    ensures |PrefixKeys(board, guild, n)| <= n
  {
    if n > 0 {
      PrefixKeysCardinality(board, guild, n - 1);
      assert PrefixKeys(board, guild, n) == PrefixKeys(board, guild, n - 1) + {(guild, board[n - 1].0)};
    } else {
      assert PrefixKeys(board, guild, 0) == {};
    }
  }

  /** Every row with more experience than board entry `i` is listed before it. */
  lemma {:induction false} AboveIsListedBefore(users: map<UserKey, UserLevel>, guild: string, limit: int,
                                               board: seq<(string, UserLevel)>, i: int)
    requires IsLeaderboard(users, guild, limit, board)
    requires 0 <= i < |board|
    ensures Above(users, guild, board[i].1.xp) <= PrefixKeys(board, guild, i)
  {
    forall k | k in Above(users, guild, board[i].1.xp)
      ensures k in PrefixKeys(board, guild, i)
    {
      assert k in GuildKeys(users, guild);
      BoardUsersListed(board, k.1);
      if k.1 in BoardUsers(board) {
        var j :| 0 <= j < |board| && board[j].0 == k.1;
        assert j < i;
        assert k == (guild, board[j].0);
      }
    }
  }

  /** Each leaderboard position is at least as good as the rank `get_user_rank` reports for it. */
  lemma {:induction false} LeaderboardAgreesWithRank(users: map<UserKey, UserLevel>, guild: string, limit: int,
                                                     board: seq<(string, UserLevel)>, i: int)
    requires IsLeaderboard(users, guild, limit, board)
    requires 0 <= i < |board|
    ensures RankOf(users, guild, board[i].0) <= i + 1
  {
    AboveIsListedBefore(users, guild, limit, board, i);
    SubsetCardinality(Above(users, guild, board[i].1.xp), PrefixKeys(board, guild, i));
    PrefixKeysCardinality(board, guild, i);
  }

  // ------------------------------------------------------ guild_settings

  /** The settings table after `get_guild_settings(guild)`: the default row is created if missing. */
  function EnsureSettings(settings: map<string, SettingsRow>, guild: string): (r: map<string, SettingsRow>)
    ensures r.Keys == settings.Keys + {guild}
    ensures forall h :: h in settings ==> r[h] == settings[h]
    ensures guild !in settings ==> r[guild] == DefaultSettings
  {
    if guild in settings then settings else settings[guild := DefaultSettings]
  }

  /** A second `get_guild_settings` creates nothing and sees the same row. */
  lemma EnsureSettingsIdempotent(settings: map<string, SettingsRow>, guild: string)
    ensures EnsureSettings(EnsureSettings(settings, guild), guild) == EnsureSettings(settings, guild)
  {
  }

  /** Keyword arguments: a Python call cannot name the same keyword twice. */
  predicate DistinctNames(kwargs: seq<(string, SettingValue)>) {
    forall i, j :: 0 <= i < j < |kwargs| ==> kwargs[i].0 != kwargs[j].0
  }

  /** The `column = ?` assignments `update_guild_settings` keeps: those naming an allowed field, in order. */
  function AllowedOnly(kwargs: seq<(string, SettingValue)>): (r: seq<(string, SettingValue)>)
    ensures forall i :: 0 <= i < |r| ==> r[i].0 in AllowedFields && r[i] in kwargs
  {
    if kwargs == [] then []
    else
      var last := kwargs[|kwargs| - 1];
      AllowedOnly(kwargs[..|kwargs| - 1]) + (if last.0 in AllowedFields then [last] else [])
  }

  /** Keyword arguments that all name allowed columns pass the filter whole. */
  lemma {:induction false} AllowedOnlyKeepsAllowed(kwargs: seq<(string, SettingValue)>)
    requires forall i :: 0 <= i < |kwargs| ==> kwargs[i].0 in AllowedFields
    ensures AllowedOnly(kwargs) == kwargs
  {
    if kwargs != [] {
      var init := kwargs[..|kwargs| - 1];
      AllowedOnlyKeepsAllowed(init);
      assert init + [kwargs[|kwargs| - 1]] == kwargs;
    }
  }

  /** The row after `UPDATE guild_settings SET c1 = v1, ..., cn = vn`. */
  function ApplyAssignments(row: SettingsRow, assignments: seq<(string, SettingValue)>): (r: SettingsRow)
  {
    if assignments == [] then row
    else
      var last := assignments[|assignments| - 1];
      ApplyAssignments(row, assignments[..|assignments| - 1])[last.0 := last.1]
  }

  /** An UPDATE keeps every column of the row and adds exactly the assigned ones. */
  lemma {:induction false} ApplyAssignmentsKeys(row: SettingsRow, assignments: seq<(string, SettingValue)>)
    ensures ApplyAssignments(row, assignments).Keys == row.Keys + set i | 0 <= i < |assignments| :: assignments[i].0
  {
    if assignments != [] {
      var n := |assignments| - 1;
      var init := assignments[..n];
      ApplyAssignmentsKeys(row, init);
      var named := set i | 0 <= i < |assignments| :: assignments[i].0;
      var namedInit := set i | 0 <= i < |init| :: init[i].0;
      forall c | c in named ensures c in namedInit + {assignments[n].0} {
        var i :| 0 <= i < |assignments| && assignments[i].0 == c;
        if i < n {
          assert init[i] == assignments[i];
        }
      }
      forall c | c in namedInit ensures c in named {
        var i :| 0 <= i < |init| && init[i].0 == c;
        assert assignments[i] == init[i];
      }
      assert named == namedInit + {assignments[n].0};
    }
  }

  /** Unfolds `AllowedOnly` and `ApplyAssignments` at the last keyword. */
  lemma {:induction false} ApplyAllowedLast(row: SettingsRow, kwargs: seq<(string, SettingValue)>)
    requires kwargs != []
    ensures var front, last := kwargs[..|kwargs| - 1], kwargs[|kwargs| - 1];
            ApplyAssignments(row, AllowedOnly(kwargs))
              == if last.0 in AllowedFields
                 then ApplyAssignments(row, AllowedOnly(front))[last.0 := last.1]
                 else ApplyAssignments(row, AllowedOnly(front))
  {
    var front, last := kwargs[..|kwargs| - 1], kwargs[|kwargs| - 1];
    var assignments := AllowedOnly(kwargs);
    if last.0 in AllowedFields {
      assert assignments == AllowedOnly(front) + [last];
      assert assignments[..|assignments| - 1] == AllowedOnly(front);
    } else {
      assert assignments == AllowedOnly(front);
    }
  }

  /** An allowed keyword's value is written to its column. */
  lemma {:induction false} UpdateWritesAllowed(row: SettingsRow, kwargs: seq<(string, SettingValue)>, i: int)
    requires DistinctNames(kwargs)
    requires 0 <= i < |kwargs| && kwargs[i].0 in AllowedFields
    ensures var r := ApplyAssignments(row, AllowedOnly(kwargs));
            kwargs[i].0 in r && r[kwargs[i].0] == kwargs[i].1
  {
    var front := kwargs[..|kwargs| - 1];
    ApplyAllowedLast(row, kwargs);
    if i < |kwargs| - 1 {
      assert DistinctNames(front) && front[i] == kwargs[i];
      UpdateWritesAllowed(row, front, i);
    }
  }

  /** A column no allowed keyword names, an unknown keyword's included, is left as it was. */
  lemma {:induction false} UpdateKeepsOthers(row: SettingsRow, kwargs: seq<(string, SettingValue)>, column: string)
    requires column !in AllowedFields || forall i :: 0 <= i < |kwargs| ==> kwargs[i].0 != column
    ensures var r := ApplyAssignments(row, AllowedOnly(kwargs));
            (column in r <==> column in row) && (column in row ==> r[column] == row[column])
  {
    if kwargs != [] {
      var front := kwargs[..|kwargs| - 1];
      ApplyAllowedLast(row, kwargs);
      assert forall i :: 0 <= i < |front| ==> front[i] == kwargs[i];
      UpdateKeepsOthers(row, front, column);
    }
  }

  /** Assignments of well-typed values to allowed columns keep a row well formed. */
  lemma {:induction false} AssignmentsKeepWellFormed(row: SettingsRow, assignments: seq<(string, SettingValue)>)
    requires WellFormedSettings(row)
    requires forall i :: 0 <= i < |assignments| ==> assignments[i].0 in AllowedFields && FitsColumn(assignments[i].0, assignments[i].1)
    ensures WellFormedSettings(ApplyAssignments(row, assignments))
  {
    if assignments != [] {
      AssignmentsKeepWellFormed(row, assignments[..|assignments| - 1]);
    }
  }

  /** A key of `keys` with the lowest level. */
  method LowestLevel(keys: set<RewardKey>) returns (low: RewardKey)
    requires keys != {}
    ensures low in keys
    ensures forall k :: k in keys ==> low.1 <= k.1
  {
    low :| low in keys;
    var rest := keys - {low};
    while rest != {}
      invariant rest <= keys && low in keys
      invariant forall k :: k in keys && k !in rest ==> low.1 <= k.1
      decreases rest
    {
      var k :| k in rest;
      if k.1 < low.1 {
        low := k;
      }
      rest := rest - {k};
    }
  }

  /** The levels named by a reward listing. */
  function LevelsOf(list: seq<(int, LevelReward)>): set<int> {
    set i | 0 <= i < |list| :: list[i].0
  }

  lemma LevelsOfAppend(list: seq<(int, LevelReward)>, x: (int, LevelReward))
    ensures LevelsOf(list + [x]) == LevelsOf(list) + {x.0}
  {
    var b := list + [x];
    forall l | l in LevelsOf(b) ensures l in LevelsOf(list) + {x.0} {
      var i :| 0 <= i < |b| && b[i].0 == l;
      if i < |list| {
        assert b[i] == list[i];
      }
    }
    forall l | l in LevelsOf(list) ensures l in LevelsOf(b) {
      var i :| 0 <= i < |list| && list[i].0 == l;
      assert b[i] == list[i];
    }
    assert b[|list|] == x;
  }

  /**
    A reward listing under construction: the listed rewards are stored ones in
    strictly ascending level, below every level still `remaining`, and a key
    of `all` is remaining exactly when its level is not listed yet.
  */
  ghost predicate RewardsSoFar(rewards: map<RewardKey, LevelReward>, guild: string, all: set<RewardKey>,
                               remaining: set<RewardKey>, list: seq<(int, LevelReward)>) {
    && remaining <= all
    && (forall k :: k in all ==> (k in remaining <==> k.1 !in LevelsOf(list)))
    && (forall i :: 0 <= i < |list| ==> (guild, list[i].0) in rewards && rewards[(guild, list[i].0)] == list[i].1)
    && (forall i, j :: 0 <= i < j < |list| ==> list[i].0 < list[j].0)
    && (forall i, k :: 0 <= i < |list| && k in remaining ==> list[i].0 < k.1)
  }

  /** Listing the remaining reward of lowest level keeps the construction sound. */
  lemma RewardsStep(rewards: map<RewardKey, LevelReward>, guild: string, all: set<RewardKey>,
                    remaining: set<RewardKey>, list: seq<(int, LevelReward)>, low: RewardKey)
    requires all == set k | k in rewards && k.0 == guild
    requires RewardsSoFar(rewards, guild, all, remaining, list)
    requires low in remaining && forall k :: k in remaining ==> low.1 <= k.1
    ensures RewardsSoFar(rewards, guild, all, remaining - {low}, list + [(low.1, rewards[low])])
  {
    LevelsOfAppend(list, (low.1, rewards[low]));
  }

  // --------------------------------------------------------------- store

  class LevelStore {
    var users: map<UserKey, UserLevel>
    var rewards: map<RewardKey, LevelReward>
    var settings: map<string, SettingsRow>

    ghost predicate Valid()
      reads this
    {
      && ConsistentLevels(users)
      && forall g :: g in settings ==> WellFormedSettings(settings[g])
    }

    /** `init_db` on a fresh database: three empty tables. */
    constructor ()
      ensures Valid()
      ensures users == map[] && rewards == map[] && settings == map[]
    {
      users, rewards, settings := map[], map[], map[];
    }

    /** `get_user_level`: the row of (guild, user), if any. */
    function GetUserLevel(guild: string, user: string): (r: Option<UserLevel>)
      reads this
      ensures r.Some? <==> (guild, user) in users
      ensures r.Some? ==> r.value == users[(guild, user)]
    {
      if (guild, user) in users then Some(users[(guild, user)]) else None
    }

    /** `add_xp`: read-modify-write of one row; every other table and row is unchanged. */
    method AddXp(guild: string, user: string, username: string, amount: int, now: int) returns (award: XpAward)
      requires Valid()
      modifies this
      ensures Valid()
      ensures (users, award) == AddXpTo(old(users), (guild, user), username, amount, now)
      ensures rewards == old(rewards) && settings == old(settings)
    {
      var key := (guild, user);
      ghost var spec := AddXpTo(users, key, username, amount, now);
      AddXpKeepsLevelsConsistent(users, key, username, amount, now);
      var newLevel, newXp, leveledUp;
      if key in users {
        var row := users[key];
        var oldLevel := row.level;
        newXp := row.xp + amount;
        newLevel := CalculateLevel(newXp);
        leveledUp := newLevel > oldLevel;
        users := users[key := UserLevel(username, newXp, newLevel, row.totalMessages + 1, now)];
      } else {
        newXp := amount;
        newLevel := CalculateLevel(newXp);
        leveledUp := newLevel > 1;
        users := users[key := UserLevel(username, newXp, newLevel, 1, now)];
      }
      award := XpAward(newLevel, newXp, leveledUp);
      assert users == spec.0 && award == spec.1;
    }

    /** A key of `candidates` with the most experience. */
    method HighestXp(candidates: set<UserKey>) returns (best: UserKey)
      requires candidates != {} && candidates <= users.Keys
      ensures best in candidates
      ensures forall k :: k in candidates ==> users[k].xp <= users[best].xp
    {
      best :| best in candidates;
      var rest := candidates - {best};
      while rest != {}
        invariant rest <= candidates && best in candidates
        invariant forall k :: k in candidates && k !in rest ==> users[k].xp <= users[best].xp
        decreases rest
      {
        var k :| k in rest;
        if users[k].xp > users[best].xp {
          best := k;
        }
        rest := rest - {k};
      }
    }

    /** `get_leaderboard`: the guild's rows by descending experience, at most `limit` of them. */
    method GetLeaderboard(guild: string, limit: int) returns (board: seq<(string, UserLevel)>)
      ensures IsLeaderboard(users, guild, limit, board)
    {
      var remaining := GuildKeys(users, guild);
      ghost var taken: set<UserKey> := {};
      board := [];
      while remaining != {} && (limit < 0 || |board| < limit)
        invariant BoardSoFar(users, guild, board, taken, remaining)
        invariant limit >= 0 ==> |board| <= limit
        decreases remaining
      {
        var k := HighestXp(remaining);
        BoardStep(users, guild, board, taken, remaining, k);
        board := board + [(k.1, users[k])];
        taken := taken + {k};
        remaining := remaining - {k};
      }
      BoardDone(users, guild, limit, board, taken, remaining);
    }

    /** `get_user_rank`: always a rank, never `None`. */
    function GetUserRank(guild: string, user: string): (r: Option<int>)
      reads this
      ensures r == Some(RankOf(users, guild, user))
      ensures r.Some? && r.value >= 1
      ensures (guild, user) !in users ==> r == Some(1)
    {
      Some(RankOf(users, guild, user))
    }

    /** `add_level_reward`: insert, or on conflict on (guild, level) replace role id and name. */
    method AddLevelReward(guild: string, level: int, roleId: string, roleName: string)
      requires Valid()
      modifies this
      ensures Valid()
      ensures rewards == old(rewards)[(guild, level) := LevelReward(roleId, roleName)]
      ensures users == old(users) && settings == old(settings)
    {
      rewards := rewards[(guild, level) := LevelReward(roleId, roleName)];
    }

    /** `get_level_reward`: the reward configured for exactly this level, if any. */
    function GetLevelReward(guild: string, level: int): (r: Option<LevelReward>)
      reads this
      ensures r.Some? <==> (guild, level) in rewards
      ensures r.Some? ==> r.value == rewards[(guild, level)]
    {
      if (guild, level) in rewards then Some(rewards[(guild, level)]) else None
    }

    /** `get_all_level_rewards`: all of the guild's rewards, by ascending level. */
    method GetAllLevelRewards(guild: string) returns (list: seq<(int, LevelReward)>)
      ensures forall i :: 0 <= i < |list| ==> (guild, list[i].0) in rewards && rewards[(guild, list[i].0)] == list[i].1
      ensures forall i, j :: 0 <= i < j < |list| ==> list[i].0 < list[j].0
      ensures LevelsOf(list) == set k | k in rewards && k.0 == guild :: k.1
    {
      var all := set k | k in rewards && k.0 == guild;
      var remaining := all;
      list := [];
      while remaining != {}
        invariant RewardsSoFar(rewards, guild, all, remaining, list)
        decreases remaining
      {
        var low := LowestLevel(remaining);
        RewardsStep(rewards, guild, all, remaining, list, low);
        list := list + [(low.1, rewards[low])];
        remaining := remaining - {low};
      }
      forall level | level in LevelsOf(list)
        ensures level in set k | k in rewards && k.0 == guild :: k.1
      {
        var i :| 0 <= i < |list| && list[i].0 == level;
        assert (guild, level) in rewards;
      }
    }

    /** `remove_level_reward`: delete the (guild, level) row; report whether one existed. */
    method RemoveLevelReward(guild: string, level: int) returns (deleted: bool)
      requires Valid()
      modifies this
      ensures Valid()
      ensures deleted <==> (guild, level) in old(rewards)
      ensures rewards == old(rewards) - {(guild, level)}
      ensures users == old(users) && settings == old(settings)
    {
      deleted := (guild, level) in rewards;
      rewards := rewards - {(guild, level)};
    }

    /** `get_guild_settings`: the guild's row, created with the defaults when missing. */
    method GetGuildSettings(guild: string) returns (row: SettingsRow)
      requires Valid()
      modifies this
      ensures Valid()
      ensures settings == EnsureSettings(old(settings), guild)
      ensures row == settings[guild] && WellFormedSettings(row)
      ensures users == old(users) && rewards == old(rewards)
    {
      if guild !in settings {
        DefaultSettingsWellFormed();
        settings := settings[guild := DefaultSettings];
      }
      row := settings[guild];
    }

    /**
      `update_guild_settings(guild, **kwargs)`: nothing at all without keywords;
      otherwise the row is made to exist and the allowed keywords are written.
    */
    method UpdateGuildSettings(guild: string, kwargs: seq<(string, SettingValue)>)
      requires Valid()
      requires DistinctNames(kwargs)
      requires forall i :: 0 <= i < |kwargs| ==> FitsColumn(kwargs[i].0, kwargs[i].1)
      modifies this
      ensures Valid()
      ensures kwargs == [] ==> settings == old(settings)
      ensures kwargs != [] ==>
        var ensured := EnsureSettings(old(settings), guild);
        settings == ensured[guild := ApplyAssignments(ensured[guild], AllowedOnly(kwargs))]
      ensures users == old(users) && rewards == old(rewards)
    {
      if kwargs == [] {
        return;
      }
      var row := GetGuildSettings(guild);
      ghost var ensured := settings;
      var assignments: seq<(string, SettingValue)> := [];
      for i := 0 to |kwargs|
        invariant assignments == AllowedOnly(kwargs[..i])
        invariant forall k :: 0 <= k < |assignments| ==>
                    assignments[k].0 in AllowedFields && FitsColumn(assignments[k].0, assignments[k].1)
      {
        assert kwargs[..i + 1][..i] == kwargs[..i];
        if kwargs[i].0 in AllowedFields {
          assignments := assignments + [kwargs[i]];
        }
      }
      assert kwargs[..|kwargs|] == kwargs;
      AssignmentsKeepWellFormed(row, assignments);
      if assignments != [] {
        settings := settings[guild := ApplyAssignments(row, assignments)];
      } else {
        assert ApplyAssignments(row, assignments) == row;
        assert ensured[guild := row] == ensured;
      }
    }
  }
}
