/**
 * What the browser tells the scripts, reduced to the outcomes their
 * bookkeeping depends on.  Each profile visit and each direct-message
 * attempt is one record, supplied as input in target order.
 */
module Driver {
  import opened Wrappers

  /** The parts of a profile visit an exception can cut short, in order. */
  datatype Stage =
    | Open      // page.goto, or hovering/clicking the follow button: before the follow is recorded
    | FindPost  // scrolling for and opening the latest post: after the follow step
    | Compose   // typing the comment and clicking Post: only reached when a comment is attempted
    | Close     // closing the post popup and the idle pauses: after the comment step

  /**
   * One profile visit.  The clock fields are the Date.now() readings the
   * visit makes: the follow-limit gate (follow_comment_bot.js:194), the
   * session-time check (199), the follow-limit check before following
   * (214), the timestamp logFollowed writes, and the comment-limit check
   * (257).  The scripts without quotas only use `loggedAt`.
   */
  datatype Visit = Visit(
    followButton: bool,       // one of the two follow selectors matched
    postFound: bool,          // a post appeared within the 4 scroll attempts
    commentRoll: bool,        // `Math.random() > 0.3` came out true
    postButton: bool,         // one of the three Post selectors matched
    throwsAt: Option<Stage>,  // the step at which an exception is thrown, if any
    gateAt: int,
    sessionAt: int,
    followAt: int,
    loggedAt: int,
    commentAt: int)

  /** The visit runs past `stage` without an exception there. */
  predicate Survives(v: Visit, stage: Stage) {
    v.throwsAt != Some(stage)
  }

  /**
   * One direct-message attempt: the Date.now() the DM-limit check reads
   * before it (follow_comment_bot.js only), and whether every browser step
   * up to the send click succeeded.
   */
  datatype DmAttempt = DmAttempt(clock: int, sent: bool)
}
