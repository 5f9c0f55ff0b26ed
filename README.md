# Instagram follow/comment/DM bot: the bookkeeping, modelled in Dafny

The repository holds three Node.js scripts that drive Instagram through a
browser: `follow_comment_bot.js`, `backup.js` and `copy.js`. Under the
browser calls, each script keeps a small amount of state on disk in `./data`:

- `targets.csv`: the usernames to visit, one per line, optionally with a
  `username` header.
- `followed.csv`: an append-only log with one `user,timestamp` row per
  follow. `,true` is added to a row once a direct message (DM) has been
  sent to that user.
- `daily_stats.json`: kept by `follow_comment_bot.js` only. It holds the
  day's follow, comment and DM counters and the time the session started.

Each script runs two passes:

- **Primary pass.** Visits every target that is not blank and not already
  in `followed.csv`, follows it, comments on its latest post, and logs the
  follow.
- **DM phase.** Picks the rows of `followed.csv` that are a week old and not
  yet flagged, messages them, and flags each row it messaged.
  `follow_comment_bot.js` also enforces daily limits (40 follows,
  35 comments, 15 DMs) and a four-hour session cap.

This project models that bookkeeping and proves what it guarantees.

## Modules

| file | module | what it holds |
|---|---|---|
| `wrappers.dfy` | `Wrappers` | `Option` and `Result` |
| `text.dfy` | `Text` | the JavaScript string operations the scripts use: `trim` over the ECMAScript white-space set, `split` on one character, `toLowerCase`, `${n}`, `Number(s)` for integer literals, `indexOf`, `replace` with a string pattern |
| `followed_log.dfy` | `FollowedLog` | the file helpers (`readTargets`, `readAlreadyFollowed`, `logFollowed`), row parsing, the 7-day selection, and the flag rewrite |
| `quota.dfy` | `Quota` | `loadDailyStats`, `checkDailyLimit`, the counters |
| `store.dfy` | `Store` | the `./data` directory and the `stats` object, as classes whose fields the scripts update |
| `driver.dfy` | `Driver` | what the browser tells the scripts: one `Visit` per profile visit, one `DmAttempt` per DM |
| `follow_comment_bot.dfy` | `FollowCommentBot` | the quota-guarded run |
| `backup.dfy` | `BackupBot` | the run without quotas |
| `copy.dfy` | `CopyBot` | the single-clock DM phase |

### How the modules are built

- **File helpers.** The three helpers are identical in the three scripts:
  `backup.js:20-36` and `copy.js:20-35` repeat `follow_comment_bot.js:78-93`.
  `FollowedLog` models them once.
- **Primary pass of `copy.js`.** Its loop (`copy.js:65-168`) has the same
  text as `backup.js:66-169`, so `BackupBot.Primary` and
  `BackupBot.RunPrimaryPass` model both.
- **Each pass is written twice.**
  - As a specification function over a `RunState` value (`Primary`,
    `DmLoop`, `DmPhase`).
  - As a method on the `Store` objects. The methods update the counters
    and the files in place, with the same loops, `break`s and `continue`s
    as the script. Each method is proved equal to its function, for
    example: `Snapshot(stats, dir, processed) == Primary(old(...), targets, already, visits)`.
- **Lemmas.** They state the properties of the functions.
- **Browser, clock and coin-flips.** The browser's behaviour is an input
  sequence, one record per target or due row. So are the clock readings
  (`Date.now()`) and the result of the comment coin-flip.

## Model

| member | source | states |
|---|---|---|
| `Text.Trim` | follow_comment_bot.js:81 | the result has no white space at either end, and is the slice of the input left after removing only white space from both ends |
| `Text.TrimUnpadded` | follow_comment_bot.js:81 | trimming text with no white space at either end changes nothing, so trimming twice is trimming once |
| `Text.Split` | follow_comment_bot.js:81 | `split` always yields at least one piece, and the first piece is the text before the first separator |
| `Text.SplitPieces` | follow_comment_bot.js:81 | no piece of a split contains the separator |
| `Text.JoinSplit` | follow_comment_bot.js:81 | joining the pieces of a split with the separator gives back the input |
| `Text.SplitJoin` | follow_comment_bot.js:81 | splitting a join of separator-free pieces gives back the pieces |
| `Text.SplitAround` | follow_comment_bot.js:81 | splitting `a + c + b` on `c` is the split of `a` followed by the split of `b` |
| `Text.ToLowerAscii` | follow_comment_bot.js:82 | lowering keeps the length and lowers each ASCII capital |
| `Text.IntToString` | follow_comment_bot.js:92 | `${n}` is non-empty, and has no comma and no white space |
| `Text.ParseNumberDigits` | follow_comment_bot.js:334 | `Number(s)` of a non-empty run of decimal digits is its decimal value |
| `Text.ParseNumber` | follow_comment_bot.js:334 | an empty or all-white field reads as 0; a field that reads as a number ends in a digit, so one ending in anything else is NaN; a negative value needs a leading `-` |
| `Text.ParseIntToString` | follow_comment_bot.js:334 | `Number(`${n}`)` is `n`: a logged timestamp reads back exactly |
| `Text.IndexFrom` | follow_comment_bot.js:405 | the index found is a match at or after the start, with no match between the start and it; `None` means there is no match at all |
| `Text.ReplaceFirst` | follow_comment_bot.js:405-408 | only the first occurrence is replaced and the text around it is kept; without an occurrence the string is unchanged |
| `Text.ReplaceFirstExtends` | follow_comment_bot.js:405-408 | replacing a pattern with itself plus a suffix inserts the suffix right after the first match |
| `FollowedLog.TrimmedNonBlank` | follow_comment_bot.js:81 | every kept line is non-empty and has no surrounding white space |
| `FollowedLog.TrimmedNonBlankComplete` | follow_comment_bot.js:81 | every line that is not blank once trimmed is kept, trimmed |
| `FollowedLog.CleanLinesAround` | follow_comment_bot.js:80-81 | cleaning keeps file order: the text on each side of a newline cleans independently |
| `FollowedLog.TrimmedNonBlankFree` | follow_comment_bot.js:81 | trimming never introduces a character, so no target contains a newline |
| `FollowedLog.ReadTargets` | follow_comment_bot.js:78-83 | a missing file gives `TargetsNotFound`; a file with no non-blank line gives `NoTargets` (`data[0]` undefined); otherwise every entry is non-empty and trimmed |
| `FollowedLog.ReadTargetsLines` | follow_comment_bot.js:78-83 | the targets are the cleaned lines in order, minus the first exactly when it lowercases to `username` |
| `FollowedLog.FirstFields` | follow_comment_bot.js:88 | every name kept is non-empty and comma-free |
| `FollowedLog.FirstFieldsAppend` | follow_comment_bot.js:88 | names come out in file order |
| `FollowedLog.FirstFieldsComplete` | follow_comment_bot.js:88 | every line whose text before the first comma is non-empty contributes that text |
| `FollowedLog.ReadAlreadyFollowed` | follow_comment_bot.js:85-89 | a missing file gives `[]`; every name is non-empty and comma-free |
| `FollowedLog.Append` | follow_comment_bot.js:92 | `appendFileSync` creates an absent file holding just the text, and otherwise extends the file by the text |
| `FollowedLog.LogLine` | follow_comment_bot.js:92 | the line `logFollowed` appends is `user,ts` and a newline; for a user without a newline it is exactly one line, ending in its only newline |
| `FollowedLog.LogKeepsAligned` | follow_comment_bot.js:92 | after `logFollowed` the file ends in a newline |
| `FollowedLog.LogThenReadAlreadyFollowed` | follow_comment_bot.js:85-93 | after `logFollowed(u)` with a comma-free `u`, the next read of the followed list is the old list with `u` appended |
| `FollowedLog.ParseRow` | follow_comment_bot.js:332-335 | the user field of a parsed row never contains a comma |
| `FollowedLog.ParseRowUserOnly` | follow_comment_bot.js:332-334 | a line without a comma is that user, with timestamp 0 (a missing field defaults to 0) and no flag |
| `FollowedLog.ParseRowTwoFields` | follow_comment_bot.js:332-334 | `u,t` reads as user `u`, timestamp `Number(t)` (0 when `t` is empty) and no flag |
| `FollowedLog.ParseRowFields` | follow_comment_bot.js:332-334 | `u,t,g…` reads as user `u`, timestamp `Number(t)` (0 when `t` is empty), and is flagged exactly when the third field is `true` |
| `FollowedLog.ParseRows` | follow_comment_bot.js:328-335 | one row per line that is not blank once trimmed |
| `FollowedLog.RowsNoNewline` | follow_comment_bot.js:328-335 | no user read from followed.csv contains a newline |
| `FollowedLog.ParseAllAppend` | follow_comment_bot.js:335 | rows come out in line order |
| `FollowedLog.ParseRowsAround` | follow_comment_bot.js:328-335 | the rows on each side of a newline parse independently |
| `FollowedLog.ParseRowsAligned` | follow_comment_bot.js:328-335 | text appended to a newline-terminated file parses as rows after the file's own |
| `FollowedLog.ParseLoggedRow` | follow_comment_bot.js:332-334 | the line `logFollowed(u)` writes parses as `{user: u, ts: now, dmSent: false}` |
| `FollowedLog.LogThenParseRows` | follow_comment_bot.js:91-93 | logging a follow adds exactly that one row to what the DM phase parses |
| `FollowedLog.ParseRowsLineAfter` | follow_comment_bot.js:328-335 | a file of a newline-terminated prefix, one line, and a rest parses as the three parts in order |
| `FollowedLog.DueAt` | follow_comment_bot.js:337 | a flagged row and a row whose timestamp is NaN are never due |
| `FollowedLog.DueRowsAt` | follow_comment_bot.js:337 | every selected row is a row of the file, not flagged, and has a numeric timestamp |
| `FollowedLog.DueRowsAtAppend` | follow_comment_bot.js:337 | the selection keeps file order |
| `FollowedLog.DueRowsAtComplete` | follow_comment_bot.js:337 | every row that is due at its clock reading is selected |
| `FollowedLog.DueRowsAtSound` | follow_comment_bot.js:337 | every selected row is a row of the file that is due at that row's own clock reading |
| `FollowedLog.Pattern` | follow_comment_bot.js:405 | the search pattern is `user,ts`: the user's name, a comma, then the timestamp; for a user without a newline it has no newline |
| `FollowedLog.MarkSent` | follow_comment_bot.js:402-409 | `,true` is inserted right after the first occurrence of `user,ts`; without an occurrence the file is unchanged |
| `FollowedLog.ParseFlaggedRow` | follow_comment_bot.js:332-334 | a logged row followed by `,true` reads as sent |
| `FollowedLog.MarkSentText` | follow_comment_bot.js:402-409 | when the first match is the row's own line, the rewrite adds `,true` to that line only |
| `FollowedLog.MarkSentFlagsRow` | follow_comment_bot.js:402-409 | when the first match is the row's own line, that row becomes `dmSent = true` and every other row reads as before |
| `FollowedLog.MarkSentMissesRow` | follow_comment_bot.js:402-409 | when the pattern first occurs inside an earlier line, `,true` is inserted into that earlier line right after the match, and the messaged row still reads as not sent. With pattern `bob,12`, the line `xbob,123` becomes `xbob,12,true3`, which parses with ts 12 and unflagged |
| `FollowedLog.MarkSentHitsLongerName` | follow_comment_bot.js:402-409 | when a longer name ending in the user's name (`jimbob` before `bob`) was logged in the same millisecond, the two rows parse as logged, and after messaging the user the user's own row still reads as not sent |
| `FollowedLog.MarkSentKeepsUsers` | follow_comment_bot.js:402-409 | wherever the first match falls, the rewrite keeps every row of the file and every row's user, in order: `,true` goes in after the comma of one line and adds no line |
| `FollowedLog.OwnLineFlags` | follow_comment_bot.js:402-409 | when the first match is the row's own unflagged line, that row, at its place in the file, is the only one whose flag changes, and it becomes sent |
| `FollowedLog.ParseTwiceFlaggedRow` | follow_comment_bot.js:332-334 | a row rewritten twice (`user,ts,true,true`) still reads as sent |
| `Quota.Bump` | follow_comment_bot.js:223 | the action's own counter rises by exactly one; the other counters, the date and the session start do not change |
| `Quota.LoadDailyStats` | follow_comment_bot.js:109-121 | stored stats dated today are returned unchanged; otherwise the counters are zero, the date is today and the session starts now |
| `Quota.CheckDailyLimit` | follow_comment_bot.js:131-141 | allowed exactly when the action's counter is below its limit (40/35/15) and the session has run less than four hours |
| `Quota.SessionCapBlocksAll` | follow_comment_bot.js:137-138 | after four hours no action of any kind is allowed |
| `Quota.CheckReadsOwnCounter` | follow_comment_bot.js:131-141 | the check reads no counter except the action's own |
| `Quota.AllowedBumpWithinLimit` | follow_comment_bot.js:214-224 | an allowed action never takes its counter past the limit |
| `Store.DataDir.LogFollowed` | follow_comment_bot.js:91-93 | followed.csv gets the row appended; the other files are unchanged |
| `Store.DataDir.SaveStats` | follow_comment_bot.js:123-125 | daily_stats.json holds exactly the stats; the other files are unchanged |
| `Store.DataDir.WriteFollowed` | follow_comment_bot.js:403-409 | followed.csv is overwritten; the other files are unchanged |
| `Store.Stats.Load` | follow_comment_bot.js:165 | the stats object starts as `loadDailyStats()` returns |
| `Store.Stats.Record` | follow_comment_bot.js:223-224 | the counter is incremented and the whole object is saved at once |
| `FollowCommentBot.FollowStep` | follow_comment_bot.js:214-229 | `follows` rises by one exactly when the limit allows it and a follow button is there; the row is then appended and the stats saved; otherwise nothing changes; the counter never passes `max(start, 40)` |
| `FollowCommentBot.CommentStep` | follow_comment_bot.js:277-283 | `comments` rises by one exactly when a Post button is there, and the stats are then saved; followed.csv and the other counters do not change |
| `FollowCommentBot.Completes` | follow_comment_bot.js:235-316 | a visit counted as processed found a post and threw no exception, except while typing a comment it did not attempt; one that found a post and threw nothing is counted |
| `FollowCommentBot.VisitTarget` | follow_comment_bot.js:205-316 | `follows` rises by one exactly when the visit survives opening, a follow button is there, and the limit allows it; the row is then appended. `comments` rises exactly when the post is found, the coin-flip and limit allow it, typing succeeds, and a Post button is there. Neither counter passes its ceiling, any change is saved, and `processed` counts completed visits |
| `FollowCommentBot.Primary` | follow_comment_bot.js:190-317 | counters never decrease and never pass `max(start, limit)`; `dms`, the date and the session start do not change; any change is saved; if nothing was counted, the files are untouched |
| `FollowCommentBot.PrimaryLogsFollows` | follow_comment_bot.js:190-224 | the next run's followed list is this run's plus exactly one name per follow counted, each a target of this run that was not in the start-of-run list |
| `FollowCommentBot.VisitLogsName` | follow_comment_bot.js:205-224 | one visit adds the target's name to the next run's followed list exactly when it counts a follow; otherwise followed.csv and the follow counter are unchanged |
| `FollowCommentBot.VisitAppendsRow` | follow_comment_bot.js:214-224 | one visit adds `{user, ts, dmSent: false}` to the parsed rows exactly when it counts a follow, and nothing otherwise |
| `FollowCommentBot.PrimaryBlocked` | follow_comment_bot.js:191-203 | when the first target that is neither blank nor already followed meets a failing follow check or an expired session, the pass stops there and changes nothing |
| `FollowCommentBot.PrimaryAtFollowLimit` | follow_comment_bot.js:194-197 | at the follow limit the pass does nothing, whatever the clocks read |
| `FollowCommentBot.PrimaryContinuesAfterThrow` | follow_comment_bot.js:310-316 | an exception inside a target is caught; the pass goes on with the next target, and the failed visit is not counted as processed |
| `FollowCommentBot.DmLoop` | follow_comment_bot.js:345-417 | `dms` rises by at most one per due row and never passes `max(start, 15)`; follows and comments do not change; any change is saved; with no DM sent, nothing changes |
| `FollowCommentBot.DmPhase` | follow_comment_bot.js:324-418 | skipped when the DM check fails up front; a missing followed.csv is the uncaught error; otherwise the DM ceiling holds |
| `FollowCommentBot.DmAllFailed` | follow_comment_bot.js:413-416 | when every attempt fails, neither the counters nor the file change |
| `FollowCommentBot.DmAtLimit` | follow_comment_bot.js:347-350 | at the DM limit the loop does nothing |
| `FollowCommentBot.DmFailureLeavesState` | follow_comment_bot.js:413-416 | a failed attempt leaves the state as it was and the loop moves on |
| `FollowCommentBot.Messaged` | follow_comment_bot.js:399-409 | a sent DM counts once, is saved, leaves the other counters alone, and keeps every row of followed.csv and its user |
| `FollowCommentBot.DmLoopKeepsUsers` | follow_comment_bot.js:345-417 | over the whole loop followed.csv keeps its rows, in order, with their users |
| `FollowCommentBot.DmPhaseKeepsUsers` | follow_comment_bot.js:324-418 | the DM phase keeps every row of followed.csv and its user |
| `FollowCommentBot.MessagedRows` | follow_comment_bot.js:345-409 | the rows the loop messages are due rows, one per DM counted |
| `FollowCommentBot.DmLoopFlagsSent` | follow_comment_bot.js:345-417 | when every DM sent finds its own line first, the loop only turns flags on, and every row messaged reads as sent afterwards |
| `FollowCommentBot.DmSuccessFlagsRow` | follow_comment_bot.js:399-409 | a sent DM counts once, is saved, and flags the row when the row's own line is the first match; the other rows are unchanged |
| `FollowCommentBot.VisitProfile` | follow_comment_bot.js:207-316 | the in-place visit on `stats` and `./data` ends in the state `VisitTarget` describes |
| `FollowCommentBot.RunPrimaryPass` | follow_comment_bot.js:188-317 | the loop with `continue` and `break` ends in the state `Primary` describes |
| `FollowCommentBot.MessageDue` | follow_comment_bot.js:345-417 | the in-place DM loop ends in the state `DmLoop` describes |
| `FollowCommentBot.RunDmPhase` | follow_comment_bot.js:324-418 | the in-place DM phase matches `DmPhase`, including the error case, which changes nothing |
| `BackupBot.Follows` | backup.js:77-85 | the follow is logged exactly when a follow button is there and opening the profile did not throw |
| `BackupBot.Completes` | backup.js:92-155 | a visit reaching `userCount++` found a post and threw no exception; every such visit does |
| `BackupBot.VisitTarget` | backup.js:70-168 | a row is appended exactly when the visit survives opening and a follow button is there; `userCount` rises exactly when the visit reaches step 8 |
| `BackupBot.Primary` | backup.js:62-169 | `userCount` rises by at most one per target |
| `BackupBot.LoggedRows` | backup.js:77-88 | the rows a pass logs are not flagged, and each is a target of the run that was not already followed |
| `BackupBot.CompletedVisits` | backup.js:155 | at most one per target |
| `BackupBot.PrimaryCountsCompleted` | backup.js:93-155 | `userCount` counts exactly the visited targets that reach step 8; a missing post or a failed step skips the increment |
| `BackupBot.VisitAppendsRow` | backup.js:77-88 | one visit adds `{user, ts, dmSent: false}` to the parsed rows exactly when a follow button was found |
| `BackupBot.VisitLogsName` | backup.js:77-88 | one visit to a target not yet followed adds its name to the next run's followed list exactly when a follow button was found |
| `BackupBot.PrimaryAppendsText` | backup.js:62-88 | over the pass, followed.csv only grows, by the logged lines, and stays newline-terminated |
| `BackupBot.ParseLoggedText` | backup.js:175-182 | the logged lines read back as the logged rows |
| `BackupBot.PrimaryAppendsRows` | backup.js:62-88 | followed.csv gains exactly one `{user, ts, dmSent: false}` row per visited target with a follow button, in target order; blank and already-followed names are skipped |
| `BackupBot.PrimaryLogsFollows` | backup.js:62-88 | the next run's followed list is this run's plus the names followed now, in order |
| `BackupBot.DmLoop` | backup.js:192-261 | `userCount` does not change and the file stays present |
| `BackupBot.DmPhase` | backup.js:174-261 | a missing followed.csv is the uncaught error; otherwise the loop runs over the due rows |
| `BackupBot.DmAllFailed` | backup.js:257-260 | when every attempt fails, the file is untouched |
| `BackupBot.Flagged` | backup.js:245-252 | a sent DM leaves `userCount` alone and keeps every row of followed.csv and its user |
| `BackupBot.DmLoopKeepsUsers` | backup.js:192-261 | over the whole loop followed.csv keeps its rows, in order, with their users |
| `BackupBot.DmPhaseKeepsUsers` | backup.js:174-261 | the DM phase keeps every row of followed.csv and its user |
| `BackupBot.DmLoopFlagsSent` | backup.js:192-261 | when every DM sent finds its own line first, the loop only turns flags on, and every row messaged reads as sent afterwards |
| `BackupBot.DmSuccessFlagsRow` | backup.js:244-252 | a successful DM flags its row when the row's own line is the first match; the other rows are unchanged |
| `BackupBot.VisitProfile` | backup.js:70-168 | the in-place visit ends in the state `VisitTarget` describes |
| `BackupBot.RunPrimaryPass` | backup.js:65-169 | the in-place loop ends in the state `Primary` describes |
| `BackupBot.MessageDue` | backup.js:192-261 | the in-place DM loop ends in the state `DmLoop` describes |
| `BackupBot.RunDmPhase` | backup.js:174-261 | the in-place DM phase matches `DmPhase`, including the error case |
| `CopyBot.DueRows` | copy.js:173-186 | a row is selected exactly when it is in the file, not flagged, and a week old at the one `now` |
| `CopyBot.DueRowsAppend` | copy.js:186 | the selection keeps file order |
| `CopyBot.DueRowsOneClock` | copy.js:173-186 | the single-`now` selection is backup.js's per-row selection with the clock standing still |
| `CopyBot.CopyPattern` | copy.js:232 | the pattern is `user,ts` for an unflagged row and `user,ts,true` for a flagged one |
| `CopyBot.MarkSentCopy` | copy.js:228-235 | for an unflagged row the flag-dependent pattern is exactly `user,ts` and the rewrite is `MarkSent`; for a flagged row the file is unchanged |
| `CopyBot.ReplaceFirstSelf` | copy.js:231-234 | replacing the first match of a pattern by the pattern itself changes nothing |
| `CopyBot.DmLoop` | copy.js:195-242 | `userCount` does not change and the file stays present |
| `CopyBot.Flagged` | copy.js:228-235 | a sent DM leaves `userCount` alone and keeps every row of followed.csv and its user |
| `CopyBot.DmLoopFlagsSent` | copy.js:195-242 | over unflagged due rows, when every DM sent finds its own line first, the loop only turns flags on, and every row messaged reads as sent afterwards |
| `CopyBot.DmLoopAsBackup` | copy.js:195-242 | over rows that are not flagged yet, the loop does what backup.js's loop does |
| `CopyBot.DmPhase` | copy.js:170-243 | a missing followed.csv is the uncaught error; otherwise the loop runs over the rows due at `now` |
| `CopyBot.DmPhaseKeepsUsers` | copy.js:170-243 | the DM phase keeps every row of followed.csv and its user |
| `CopyBot.DmPhaseAsBackup` | copy.js:173-242 | the whole DM phase equals backup.js's DM phase with every row judged at the one clock reading |
| `CopyBot.MessageDue` | copy.js:195-242 | the in-place DM loop ends in the state `DmLoop` describes |
| `CopyBot.RunDmPhase` | copy.js:170-243 | the in-place DM phase matches `DmPhase`, including the error case |

## Left out

- The browser: selectors, hovering, clicking, typing, scrolling,
  timeouts, navigation and screenshots. Each visit or DM attempt is an
  input record (`Driver.Visit`, `Driver.DmAttempt`) saying which steps
  succeed and where an exception is thrown.
- A failing error screenshot inside a DM `catch` block
  (follow_comment_bot.js:415, backup.js:259, copy.js:240). It would end
  the script; the model assumes the screenshot succeeds.
- Random pacing is not modelled: delays, sleeps, the coffee-break
  modulus, and which comment or message text is chosen. These only affect
  timing and text. The one coin-flip that changes state, `Math.random() > 0.3`
  before commenting, is an input (`Visit.commentRoll`).
- `getTodayDate` is an opaque `today` string. The ISO formatting and the
  JSON reading and writing of daily_stats.json are not modelled: the file
  is held as a `DailyStats` record.
- Console output, the IP warning banner (follow_comment_bot.js:146-156),
  the check for session.json, and browser start-up and shutdown.
- main_login.js is not part of this model. It only captures a browser
  session.
- `Text.ToLowerAscii`: lowers ASCII letters only. JavaScript lowers all of
  Unicode, but no non-ASCII character lowers to one of the letters of
  `username`, so the header test comes out the same.
- `Text.ParseNumber`: reads white space, an optional sign and decimal
  digits, as exact integers. Hexadecimal, binary (`0b`), octal (`0o`),
  exponent and fractional literals and `Infinity` read as NaN here, where
  JavaScript reads a number. `Date.now()` writes 13 digits, well below
  2^53, so the timestamps the scripts log read back the same in both. A
  hand-edited timestamp above 2^53 is read exactly here, where JavaScript
  rounds it to the nearest double.
- `Text.ReplaceFirst`: the replacement text is inserted literally. The
  `$` patterns of `String.prototype.replace` are not interpreted; a
  username containing `$&` or `$'` would be rewritten differently.
- `Quota.SessionOver`: the session test
  `(now - sessionStart) / 3600000 >= 4` is computed on exact integers as
  `now - sessionStart >= 14400000`. For integer milliseconds in double
  range the two agree.
- `FollowCommentBot.PrimaryLogsFollows`: states over the whole
  quota-guarded pass which names are appended. The full parsed rows
  (timestamp, unflagged) are stated per visit only, by
  `FollowCommentBot.VisitAppendsRow`. `BackupBot.PrimaryAppendsRows`
  states them for a whole pass of backup.js and copy.js.
- `FollowedLog.MarkSentFlagsRow`, `FollowedLog.OwnLineFlags`, the
  `DmSuccessFlagsRow` lemmas and the `DmLoopFlagsSent` lemmas assume the
  first match is the row's own line. When it is not, `,true` goes into
  the wrong line; `FollowedLog.MarkSentMissesRow` and
  `FollowedLog.MarkSentHitsLongerName` state that outcome, and the
  `KeepsUsers` lemmas state what holds either way.
- Nothing outside the scripts touches ./data while they run. In
  particular, followed.csv is not deleted between the DM selection and
  the rewrite.
