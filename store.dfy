/**
 * The mutable state the scripts keep: the files under ./data, which they
 * append to and overwrite, and the in-memory `stats` object whose counters
 * follow_comment_bot.js increments and saves.
 */
module Store {
  import opened Wrappers
  import opened Text
  import opened FollowedLog
  import opened Quota

  /** The ./data directory: each file is its text, or None when it does not exist. */
  class DataDir {
    var targets: Option<string>
    var followed: Option<string>
    var stats: Option<DailyStats>

    constructor (targets: Option<string>, followed: Option<string>, stats: Option<DailyStats>)
      ensures this.targets == targets && this.followed == followed && this.stats == stats
    {
      this.targets := targets;
      this.followed := followed;
      this.stats := stats;
    }

    /** logFollowed(user): `fs.appendFileSync(FOLLOWED_PATH, `${user},${Date.now()}\n`)`. */
    method LogFollowed(user: string, now: int)
      modifies this
      ensures followed == Append(old(followed), LogLine(user, now))
      ensures targets == old(targets) && stats == old(stats)
    {
      followed := Append(followed, LogLine(user, now));
    }

    /** saveDailyStats(stats): daily_stats.json now holds exactly `s`. */
    method SaveStats(s: DailyStats)
      modifies this
      ensures stats == Some(s)
      ensures targets == old(targets) && followed == old(followed)
    {
      stats := Some(s);
    }

    /** `fs.writeFileSync(FOLLOWED_PATH, content)`. */
    method WriteFollowed(content: string)
      modifies this
      ensures followed == Some(content)
      ensures targets == old(targets) && stats == old(stats)
    {
      followed := Some(content);
    }
  }

  /** The `stats` object of follow_comment_bot.js. */
  class Stats {
    var date: string
    var follows: int
    var comments: int
    var dms: int
    var sessionStart: int

    function Value(): DailyStats
      reads this
    {
      DailyStats(date, follows, comments, dms, sessionStart)
    }

    /** `let stats = loadDailyStats()`. */
    constructor Load(stored: Option<DailyStats>, today: string, now: int)
      ensures Value() == LoadDailyStats(stored, today, now)
    {
      var s := LoadDailyStats(stored, today, now);
      date, follows, comments, dms, sessionStart := s.date, s.follows, s.comments, s.dms, s.sessionStart;
    }

    /** `stats.<counter>++; saveDailyStats(stats);` */
    method Record(a: Action, dir: DataDir)
      modifies this, dir
      ensures Value() == Bump(old(Value()), a)
      ensures dir.stats == Some(Value())
      ensures dir.targets == old(dir.targets) && dir.followed == old(dir.followed)
    {
      match a {
        case Follow => follows := follows + 1;
        case Comment => comments := comments + 1;
        case Dm => dms := dms + 1;
      }
      dir.SaveStats(Value());
    }
  }
}
