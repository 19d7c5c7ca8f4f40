# Stock bot leveling and symbol resolution, modelled in Dafny

This project models the logic core of a Discord stock-quote bot in Dafny 4.11.

- **Leveling.** Each guild keeps its own experience (XP) table. A level is derived from XP by
  `level = 1 + floor(sqrt(xp / 100))`. Level rewards map a (guild, level) pair to a role.
  Guild settings are a lazily created row of seven columns.
  The leveling cog awards a random 15–25 XP (by default) per message, with a per-(guild, user)
  cooldown kept in memory. On a level-up it announces the new level and grants the reward role.
- **Symbol resolution.** What a user types is turned into a market symbol by an ordered cascade:
  a Taiwan code, an already suffixed code, the name map, a ticker-like word, an online search,
  and finally the upper-cased input. Taiwan listings also get a Chinese-name lookup.

Files:

- `LevelFormula.dfy` (module `LevelFormula`): `calculate_level` and `xp_for_level` over an exact
  integer square root, with their monotonicity and threshold properties.
- `Database.dfy` (module `Database`): the three tables as maps in class `LevelStore`. Each
  database function is a method or function on the store, proved against pure specification
  functions (`AddXpTo`, `RankOf`, `IsLeaderboard`, `EnsureSettings`, `ApplyAssignments`).
- `Leveling.dfy` (module `Leveling`): class `Leveling` with the cooldown map, the message
  listener, level-up handling, the level card and the administrator commands.
- `StockSymbols.dfy` (module `StockSymbols`): `resolve_stock_symbol`, the Chinese-name lookup,
  the start-up merge of the Taiwan name table into the name map, and the `compare`/`history`
  argument bounds.
- `Wrappers.dfy`: `Option`, standing in for Python's `None`.

The platform is reduced to values: the message author, guild and channel, the roles the author
holds, the roles that exist in the guild, and the channels the bot can resolve. The clock is an
integer number of seconds passed in by the caller. The random draw is a nondeterministic choice
within its bounds. The online search is a function parameter `search`. The name tables are
parameters, because their contents are data.

## Model

| member | source | states |
|---|---|---|
| LevelFormula.Root | database.py:91-103 | the integer square root: `r*r <= n < (r+1)*(r+1)` |
| LevelFormula.CalculateLevel | database.py:91-103 | the level is at least 1; negative XP is level 1; otherwise `100*(level-1)^2 <= xp < 100*level^2` |
| LevelFormula.XpForLevel | database.py:106-110 | the threshold is non-negative, and zero exactly for levels 1 and below |
| LevelFormula.LevelMonotone | database.py:91-103 | more XP never gives a lower level |
| LevelFormula.LevelOfThreshold | database.py:91-110 | `calculate_level(xp_for_level(L)) == L` for every level `L >= 1` |
| LevelFormula.ThresholdBracket | database.py:91-110 | every XP `>= 0` lies between its level's threshold and the next level's |
| LevelFormula.ThresholdIncreasing | database.py:106-110 | thresholds grow strictly; consecutive thresholds differ by `(2L-1)*100` |
| LevelFormula.ThresholdMonotone | database.py:106-110 | thresholds are monotone in the level |
| LevelFormula.LevelExceededIff | database.py:91-110 | XP exceeds level L exactly when it reaches the threshold of L+1 |
| LevelFormula.DocumentedThresholds | database.py:91-110 | levels 2, 3, 5 and 10 start at 100, 400, 1600 and 8100 XP; 99 XP is level 1 |
| Database.DefaultSettingsWellFormed | database.py:61-71 | a new settings row has NULL text columns, 15 XP per message and a 60 s cooldown |
| Database.AddXpTo | database.py:130-170 | only the user's row changes; its XP grows by the amount; its level is recomputed; its name and time are replaced; its message count grows by 1; a new row starts at 0 XP and count 0; the reply is (level, XP, level rose above the stored level, or above 1 for a new row) |
| Database.AddXpKeepsLevelsConsistent | database.py:130-170 | every stored level equals `calculate_level` of its XP before and after `add_xp` |
| Database.LevelUpIffNextThreshold | database.py:147-166 | the level-up flag is set exactly when the new XP reaches the next level's threshold |
| Database.LevelNeverDrops | database.py:147-157 | a non-negative award never lowers the level |
| Database.TwoAwardsExample | database.py:130-170 | 50 XP gives (1, 50, no level-up); 60 more gives (2, 110, level-up) |
| Database.RankOf | database.py:186-200 | the rank is at least 1; a user with no row gets rank 1 |
| Database.RankOrder | database.py:186-200 | equal XP gives equal rank; more XP gives a strictly smaller rank |
| Database.RankAtMostGuildSize | database.py:186-200 | a stored user's rank never exceeds the number of users in the guild |
| Database.RankExample | database.py:186-200 | XP 300, 100, 100 rank as 1, 2, 2 |
| Database.IsLeaderboard | database.py:173-183 | a leaderboard has at most the guild's row count and, for a non-negative limit, at most `limit` rows |
| Database.LeaderboardTopIsMax | database.py:173-183 | the first row of a non-empty leaderboard has the most XP in the guild |
| Database.LeaderboardAgreesWithRank | database.py:173-200 | the user at position i of a leaderboard has rank at most i+1 |
| Database.EnsureSettings | database.py:262-279 | a missing guild gets the default row; every other row is unchanged |
| Database.EnsureSettingsIdempotent | database.py:262-279 | a second `get_guild_settings` creates nothing |
| Database.AllowedOnly | database.py:293-303 | the kept assignments name allowed columns only and come from the keyword arguments |
| Database.AllowedOnlyKeepsAllowed | database.py:293-303 | keyword arguments that all name allowed columns are kept whole and in order |
| Database.UpdateWritesAllowed | database.py:293-311 | each allowed keyword's value is written to its column |
| Database.ApplyAssignmentsKeys | database.py:305-308 | the UPDATE keeps every column of the row and adds exactly the assigned ones |
| Database.UpdateKeepsOthers | database.py:293-311 | a column no allowed keyword names, unknown keywords included, keeps its value |
| Database.AssignmentsKeepWellFormed | database.py:282-311 | writing well-typed values to allowed columns keeps the row well formed |
| Database.LowestLevel | database.py:233-243 | picks a reward key of the lowest level among those left |
| Database.LevelStore.constructor | database.py:26-71 | all three tables start empty |
| Database.LevelStore.GetUserLevel | database.py:115-127 | present exactly when the (guild, user) row exists, and then it is that row |
| Database.LevelStore.AddXp | database.py:130-170 | the user table and reply are `AddXpTo` of the old table; rewards and settings are unchanged |
| Database.LevelStore.HighestXp | database.py:173-183 | picks a candidate row with maximal XP |
| Database.LevelStore.GetLeaderboard | database.py:173-183 | rows of the guild, distinct users, XP non-increasing, `min(limit, size)` rows (all rows for a negative limit), every omitted row at or below every listed XP |
| Database.LevelStore.GetUserRank | database.py:186-200 | the rank is `RankOf` of the users table (so `RankOrder` and `RankAtMostGuildSize` apply to it): always `>= 1`, and 1 for an unknown user |
| Database.LevelStore.AddLevelReward | database.py:205-215 | inserts or replaces the (guild, level) reward; nothing else changes |
| Database.LevelStore.GetLevelReward | database.py:218-230 | present exactly when a reward exists for (guild, level), and then it is that reward |
| Database.LevelStore.GetAllLevelRewards | database.py:233-243 | exactly the guild's rewards, each with its stored role, in strictly ascending level order |
| Database.LevelStore.RemoveLevelReward | database.py:246-257 | reports true exactly when the reward existed; afterwards it is gone; nothing else changes |
| Database.LevelStore.GetGuildSettings | database.py:262-279 | creates the default row if missing; returns the guild's well-formed row |
| Database.LevelStore.UpdateGuildSettings | database.py:282-311 | no keywords change nothing; otherwise the row is created if missing and the allowed keywords are assigned, in order |
| Leveling.CooldownPasses | cogs/leveling.py:52-55 | a key with no recorded award passes; a recorded key passes exactly from its last award time plus the cooldown on |
| Leveling.AtMostOneAwardPerWindow | cogs/leveling.py:51-58 | after an award at t, no message earns XP before t + cooldown, and one at t + cooldown may |
| Leveling.CooldownExample | cogs/leveling.py:51-58 | with a 60 s cooldown: first message passes, t+30 is refused, t+61 passes |
| Leveling.SettingsFor | database.py:262-279 | the row `get_guild_settings` returns is well formed: the stored row or the defaults |
| Leveling.NotificationChannel | cogs/leveling.py:82-90 | an unset or empty level-up channel means the message's channel; a set one is used only if the bot resolves it |
| Leveling.PlanLevelUp | cogs/leveling.py:68-107 | announces the arrival level; grants a role exactly when that level has a reward whose role exists in the guild and the author lacks it |
| Leveling.LevelProgress | cogs/leveling.py:132-136 | the span of level L is `(2L-1)*100 > 0`; with a consistent level, progress lies in `[0, span)` |
| Leveling.CheckSetXp | cogs/leveling.py:295-306 | the amount outside [1, 100] is refused first; a given cooldown outside [0, 600] is refused next; an accepted call writes the amount and the cooldown if given |
| Leveling.SetXpWrites | cogs/leveling.py:295-308 | an accepted `setxp` sets the amount, and the cooldown only when one is given |
| Leveling.Leveling.constructor | cogs/leveling.py:25-28 | the cooldown map starts empty |
| Leveling.Leveling.OnMessage | cogs/leveling.py:33-66 | bots and direct messages change nothing; otherwise the settings row is created; inside the cooldown only that happens; otherwise the time is recorded, the amount is in [base, base+10], exactly one `add_xp` updates the users, and a level-up yields the planned notification and role |
| Leveling.Leveling.HandleLevelUp | cogs/leveling.py:68-107 | the plan is `PlanLevelUp` of the guild's row and the arrival level's reward; no table changes |
| Leveling.Leveling.LevelCommand | cogs/leveling.py:117-137 | nothing exactly when the user has no row; otherwise the stored level, XP and message count, the rank `RankOf` gives, the progress figures `LevelProgress` gives (within the level's span), and the next threshold, which lies above the XP |
| Leveling.Leveling.SetLevelReward | cogs/leveling.py:209-219 | a level below 1 is refused and nothing is written; otherwise the reward is stored |
| Leveling.Leveling.SetXp | cogs/leveling.py:290-308 | refused arguments change nothing; accepted ones ensure the guild's row, write the amount and, if given, the cooldown (else the old cooldown stays), and leave every other column and every other guild's row unchanged |
| Leveling.Leveling.SetLevelChannel | cogs/leveling.py:273-279 | the guild's row is ensured and its level-up channel becomes the given one; its other columns and every other guild's row keep their values |
| StockSymbols.Strip | bot.py:449 | the result is the contiguous part of the input after its leading whitespace, with no whitespace at either end, and only whitespace follows it |
| StockSymbols.StripUnchanged | bot.py:449 | an input with no whitespace at either end is unchanged by stripping |
| StockSymbols.IsSuffixedCode | bot.py:458 | a match has at least three characters, contains a dot, and ends in an upper-case letter |
| StockSymbols.RuleFor | bot.py:452-469 | the first cascade step whose pattern matches decides; the search only when no pattern matches |
| StockSymbols.SuffixedCodeIffLastDot | bot.py:458 | the suffix pattern matches exactly when all characters are `[\w.-]`, the last dot is not first, and a listed suffix follows it |
| StockSymbols.ResolveStockSymbol | bot.py:440-478 | the explanation component is always absent; a Taiwan code gets `.TW` appended; a suffixed code is upper-cased; otherwise a name-map key gives its symbol; otherwise a ticker is upper-cased; when the search decides, a non-empty answer is the symbol, and no answer or an empty one falls back to the upper-cased input |
| StockSymbols.SearchIsLastResort | bot.py:449-475 | the search answer matters only when none of the four local rules applies |
| StockSymbols.ResolveIgnoresCase | bot.py:449-478 | inputs equal up to case and surrounding blanks resolve alike, when the search answers them alike |
| StockSymbols.MixedCaseKeyUnreachable | bot.py:200-204 | a name-map key with an upper-case letter (such as `'nVidia'`) never takes part: removing it changes no resolution |
| StockSymbols.LocalResolutionIsFixedPoint | bot.py:449-469 | a symbol from the Taiwan-code, suffix or ticker rule resolves to itself again |
| StockSymbols.TaiwanCodeExample | bot.py:453-455 | `" 2330 "` resolves to `2330.TW` |
| StockSymbols.NameMapExample | bot.py:462-465 | `NVIDIA` resolves through the lower-case key `nvidia` |
| StockSymbols.TickerExample | bot.py:468-469 | `aapl`, absent from the name map, resolves to `AAPL` |
| StockSymbols.RemoveAll | bot.py:403 | removal never lengthens the string |
| StockSymbols.RemoveAllUnchanged | bot.py:403 | a string without the pattern's first character is returned unchanged |
| StockSymbols.RemoveAllKeepsDotFreePrefix | bot.py:403 | removing a dot-led pattern leaves a dot-free code in front untouched |
| StockSymbols.ChineseName | bot.py:400-404 | as written: a found name is a value of the table, and a symbol without a dot is looked up as itself |
| StockSymbols.ChineseNameCorrected | bot.py:400-404 | corrected (`.TWO` removed first): a found name is a value of the table, and a symbol without a dot is looked up as itself |
| StockSymbols.ChineseNameOfListedCode | bot.py:400-404 | `<code>.TW` finds the name of `<code>` |
| StockSymbols.ChineseNameMissesTwo | bot.py:400-404 | `<code>.TWO` finds no name in a table of digit codes |
| StockSymbols.ChineseNameTwoCounterexample | bot.py:400-404 | `6488.TWO` finds nothing as written and its name once corrected |
| StockSymbols.ChineseNameCorrectedFindsCode | bot.py:400-404 | with `.TWO` removed first, both `<code>.TW` and `<code>.TWO` find the name of `<code>` |
| StockSymbols.MergeTaiwanNames | bot.py:374-375 | the merge loop's result is the in-order fold of `name -> code + ".TW"` over the Taiwan table |
| StockSymbols.MergeKeepsOthers | bot.py:374-375 | names not in the Taiwan table keep their entry, and no other key is added |
| StockSymbols.MergeLastWins | bot.py:374-375 | each Taiwan name maps to its code with `.TW`, overriding an earlier entry, unless a later entry repeats the name |
| StockSymbols.CompareSymbols | bot.py:748-769 | fewer than 2 or more than 5 queries are refused before any lookup; otherwise each query is resolved in order |
| StockSymbols.HistoryDays | bot.py:953-955 | more than 30 days becomes 30, with a warning; other counts are kept, without one |

## Left out

- The chat platform (embeds, mentions, avatars, sending messages, adding roles, permission errors) is out of scope. A level-up returns a `LevelUpPlan` instead.
- A permission error while adding the reward role is caught and only logged by the source. The model's `grantRole` is the request, and its failure is not modelled.
- The `rank` and `levelrewards` commands only format `GetLeaderboard`, `GetUserRank` and `GetAllLevelRewards` results, so they have no member of their own.
- The `removelevelreward` command only reports `RemoveLevelReward`'s result, so it has no member of its own.
- SQLite itself is out of scope: connections, commits, column type affinity, `AUTOINCREMENT` ids and the `created_at` column. The tables are maps keyed by their UNIQUE keys.
- Database.LevelStore.UpdateGuildSettings: requires each value to fit its column type (text or NULL for channel and message columns, integer for the two XP columns). SQLite would store any value there.
- Database.LevelStore.GetLeaderboard: does not fix the order among rows with equal XP, because SQLite leaves it unspecified.
- Concurrency is out of scope. Two `add_xp` calls that interleave their read and write could lose an update, and each method here runs atomically.
- Timestamps are integer seconds supplied by the caller. `datetime.now()`, ISO formatting and fractional seconds are out of scope.
- `random.randint` is a nondeterministic choice in `[base, base+10]`. No distribution is modelled.
- Leveling.LevelProgress: covers the progress figures only. The float percentage (100 when the span is 0) and the 20-character progress bar are presentation.
- Leveling.NotificationChannel: a configured channel id that is not a number would raise in `int(...)`. The model treats it as an id the bot cannot resolve, so it still plans the role grant; in the source the exception ends `_handle_level_up`, and the reward role is not granted either.
- LevelFormula.CalculateLevel: uses the exact integer root of `xp / 100`. The source divides and takes the square root in floating point, and rounding for very large XP is not modelled.
- StockSymbols.ResolveStockSymbol: character classes (`\d`, `\w`) and `upper`/`lower` are ASCII only. Python's Unicode digits, letters and case mappings (for example `'ß'.upper() == 'SS'`) are not modelled.
- `search_stock_by_name`, `get_stock_info` and yfinance are network I/O. The search is an oracle parameter. The retry in `compare` and `history` that searches again after a failed price fetch is not modelled.
- The contents of `TW_STOCK_NAMES` and `STOCK_NAME_MAP` are parameters, because they are data.
- `format_number`, `get_change_emoji` and the stock embeds are presentation.
- The welcome cog and `log_welcome` are out of scope.
- The keep-alive web server is out of scope.

## Findings

| source | as written | input that shows it | evidently intended | confidence | as-written member | corrected member |
|---|---|---|---|---|---|---|
| bot.py:400-404 | `.TW` is removed before `.TWO`, so `<code>.TWO` becomes `<code>O` | `6488.TWO` (6488 is in the Taiwan table) gives no name | both `.TW` and `.TWO` listings find the name of their code | not executed | StockSymbols.ChineseNameMissesTwo | StockSymbols.ChineseNameCorrectedFindsCode |
