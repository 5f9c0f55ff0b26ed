/**
 * The daily quota tracker of follow_comment_bot.js: three per-day counters,
 * the time the session started, the day-scoped reset, and the check that
 * guards every follow, comment and direct message.
 */
module Quota {
  import opened Wrappers

  /** The three kinds of counted action: `'follow'`, `'comment'`, `'dm'`. */
  datatype Action = Follow | Comment | Dm

  /** The object kept in daily_stats.json. */
  datatype DailyStats = DailyStats(date: string, follows: int, comments: int, dms: int, sessionStart: int)

  /** DAILY_LIMITS. */
  const FollowLimit: int := 40
  const CommentLimit: int := 35
  const DmLimit: int := 15
  const MaxSessionHours: int := 4

  /** `1000 * 60 * 60` milliseconds. */
  const HourMs: int := 1000 * 60 * 60

  function Limit(a: Action): int {
    match a
    case Follow => FollowLimit
    case Comment => CommentLimit
    case Dm => DmLimit
  }

  /** The counter an action is charged to. */
  function Count(s: DailyStats, a: Action): int {
    match a
    case Follow => s.follows
    case Comment => s.comments
    case Dm => s.dms
  }

  /** `stats.<counter>++` for the counter of `a`. */
  function Bump(s: DailyStats, a: Action): (t: DailyStats)
    ensures Count(t, a) == Count(s, a) + 1
    ensures forall b :: b != a ==> Count(t, b) == Count(s, b)
    ensures t.date == s.date && t.sessionStart == s.sessionStart
  {
    match a
    case Follow => s.(follows := s.follows + 1)
    case Comment => s.(comments := s.comments + 1)
    case Dm => s.(dms := s.dms + 1)
  }

  /** The record a new day (or a first run) starts from. */
  function FreshStats(today: string, now: int): DailyStats {
    DailyStats(today, 0, 0, 0, now)
  }

  /**
   * loadDailyStats(): the stored stats when they are dated today, otherwise
   * zero counters dated today with the session starting now.  `stored` is
   * daily_stats.json (None when absent), `today` what getTodayDate()
   * returns, `now` what Date.now() returns.
   */
  function LoadDailyStats(stored: Option<DailyStats>, today: string, now: int): (s: DailyStats)
    ensures s.date == today
    ensures stored.Some? && stored.value.date == today ==> s == stored.value
    ensures stored.None? || stored.value.date != today ==>
      s.follows == 0 && s.comments == 0 && s.dms == 0 && s.sessionStart == now
  {
    if stored.None? then FreshStats(today, now)
    else if stored.value.date != today then FreshStats(today, now)
    else stored.value
  }

  /** `(now - sessionStart) / (1000 * 60 * 60) >= maxSessionHours`, on exact integers. */
  predicate SessionOver(s: DailyStats, now: int) {
    now - s.sessionStart >= MaxSessionHours * HourMs
  }

  /**
   * checkDailyLimit(stats, action): false once the action's own counter
   * has reached its limit, false for every action once the session has run
   * four hours, true otherwise.  `now` is the Date.now() it reads.
   */
  function CheckDailyLimit(s: DailyStats, a: Action, now: int): (ok: bool)
    ensures ok <==> Count(s, a) < Limit(a) && now - s.sessionStart < 14400000
  {
    if a == Follow && s.follows >= FollowLimit then false
    else if a == Comment && s.comments >= CommentLimit then false
    else if a == Dm && s.dms >= DmLimit then false
    else if SessionOver(s, now) then false
    else true
  }

  /** After four hours no action of any kind is allowed. */
  lemma SessionCapBlocksAll(s: DailyStats, now: int)
    requires now - s.sessionStart >= 14400000
    ensures forall a :: !CheckDailyLimit(s, a, now)
  {
  }

  /** The check reads only the action's own counter and the session start. */
  lemma CheckReadsOwnCounter(s: DailyStats, t: DailyStats, a: Action, now: int)
    requires Count(s, a) == Count(t, a) && s.sessionStart == t.sessionStart
    ensures CheckDailyLimit(s, a, now) == CheckDailyLimit(t, a, now)
  {
  }

  /** Charging an allowed action never takes its counter past the limit. */
  lemma AllowedBumpWithinLimit(s: DailyStats, a: Action, now: int)
    requires CheckDailyLimit(s, a, now)
    ensures Count(Bump(s, a), a) <= Limit(a)
  {
  }
}
