/**
 * follow_comment_bot.js: the quota-guarded run.  The primary pass visits
 * each new target, follows and comments within the daily limits and the
 * four-hour session cap; the DM phase then messages the followed accounts
 * whose row is a week old and flags their row.
 */
module FollowCommentBot {
  import opened Wrappers
  import opened Text
  import opened FollowedLog
  import opened Quota
  import opened Driver
  import opened Store

  /**
   * What a run changes: the stats object, followed.csv, daily_stats.json,
   * and processedThisSession.
   */
  datatype RunState = RunState(stats: DailyStats, followed: Option<string>, saved: Option<DailyStats>, processed: int)

  function Snapshot(stats: Stats, dir: DataDir, processed: int): RunState
    reads stats, dir
  {
    RunState(stats.Value(), dir.followed, dir.stats, processed)
  }

  function Max(a: int, b: int): int { if a < b then b else a }

  // ---------------------------------------------------------------------
  // one target of the primary pass (lines 205-316)
  // ---------------------------------------------------------------------

  /** Lines 214-229: the follow, when the limit allows it and a follow button is there. */
  function FollowStep(st: RunState, user: string, v: Visit): (t: RunState)
    ensures t.stats.follows == st.stats.follows + 1 <==> CheckDailyLimit(st.stats, Follow, v.followAt) && v.followButton
    ensures t.stats.follows != st.stats.follows + 1 ==> t == st
    ensures t.stats.follows == st.stats.follows + 1 ==>
      t.followed == Append(st.followed, LogLine(user, v.loggedAt)) && t.saved == Some(t.stats)
    ensures t.stats.follows <= Max(st.stats.follows, FollowLimit)
    ensures t.stats.comments == st.stats.comments && t.stats.dms == st.stats.dms
    ensures t.stats.date == st.stats.date && t.stats.sessionStart == st.stats.sessionStart
    ensures t.processed == st.processed
  {
    if CheckDailyLimit(st.stats, Follow, v.followAt) && v.followButton then
      var s := Bump(st.stats, Follow);
      st.(stats := s, followed := Append(st.followed, LogLine(user, v.loggedAt)), saved := Some(s))
    else st
  }

  /** Line 257: whether the comment block runs. */
  predicate Commenting(st: RunState, v: Visit) {
    v.commentRoll && CheckDailyLimit(st.stats, Comment, v.commentAt)
  }

  /** Lines 277-283: the comment is counted and saved when a Post button was found. */
  function CommentStep(st: RunState, v: Visit): (t: RunState)
    ensures t.stats.comments == st.stats.comments + (if v.postButton then 1 else 0)
    ensures !v.postButton ==> t == st
    ensures v.postButton ==> t.saved == Some(t.stats) && t.followed == st.followed
    ensures t.stats.follows == st.stats.follows && t.stats.dms == st.stats.dms
    ensures t.stats.date == st.stats.date && t.stats.sessionStart == st.stats.sessionStart
    ensures t.processed == st.processed
  {
    if v.postButton then
      var s := Bump(st.stats, Comment);
      st.(stats := s, saved := Some(s))
    else st
  }

  /** The visit gets through all of steps 1-8 and counts as processed. */
  predicate Completes(st: RunState, v: Visit)
    ensures Completes(st, v) ==>
      v.postFound && (v.throwsAt.None? || (v.throwsAt == Some(Compose) && !Commenting(st, v)))
    ensures v.throwsAt.None? && v.postFound ==> Completes(st, v)
  {
    assert v.throwsAt.Some? ==> v.throwsAt.value.Open? || v.throwsAt.value.FindPost? || v.throwsAt.value.Compose? || v.throwsAt.value.Close?;
    Survives(v, Open) && Survives(v, FindPost) && v.postFound
    && (Commenting(st, v) ==> Survives(v, Compose)) && Survives(v, Close)
  }

  /**
   * The body of the try block for one target, with its catch: an exception
   * at a step keeps what the earlier steps did and skips the rest.
   */
  function VisitTarget(st: RunState, user: string, v: Visit): (t: RunState)
    ensures t.stats.date == st.stats.date && t.stats.sessionStart == st.stats.sessionStart
    ensures t.stats.dms == st.stats.dms
    ensures t.stats.follows == st.stats.follows + 1 <==>
      Survives(v, Open) && v.followButton && CheckDailyLimit(st.stats, Follow, v.followAt)
    ensures t.stats.follows != st.stats.follows + 1 ==> t.stats.follows == st.stats.follows && t.followed == st.followed
    ensures t.stats.follows == st.stats.follows + 1 ==> t.followed == Append(st.followed, LogLine(user, v.loggedAt))
    ensures t.stats.comments == st.stats.comments + 1 <==>
      Survives(v, Open) && Survives(v, FindPost) && v.postFound && Commenting(st, v)
      && Survives(v, Compose) && v.postButton
    ensures t.stats.comments != st.stats.comments + 1 ==> t.stats.comments == st.stats.comments
    ensures t.stats.follows <= Max(st.stats.follows, FollowLimit)
    ensures t.stats.comments <= Max(st.stats.comments, CommentLimit)
    ensures t.stats != st.stats ==> t.saved == Some(t.stats)
    ensures t.stats == st.stats ==> t.saved == st.saved
    ensures t.processed == st.processed + (if Completes(st, v) then 1 else 0)
  {
    if !Survives(v, Open) then st
    else
      var s1 := FollowStep(st, user, v);
      if !Survives(v, FindPost) || !v.postFound then s1
      else
        assert Commenting(s1, v) == Commenting(st, v) by {
          CheckReadsOwnCounter(s1.stats, st.stats, Comment, v.commentAt);
        }
        if Commenting(s1, v) && !Survives(v, Compose) then s1
        else
          var s2 := if Commenting(s1, v) then CommentStep(s1, v) else s1;
          if !Survives(v, Close) then s2 else s2.(processed := s2.processed + 1)
  }

  // ---------------------------------------------------------------------
  // the primary pass (lines 185-317)
  // ---------------------------------------------------------------------

  /**
   * `for (const username of targets)`: skip blank and already-followed
   * names, stop at the follow limit or the session cap, else visit.
   * visits[k] is the browser's behaviour for targets[k].
   */
  function Primary(st: RunState, targets: seq<string>, already: seq<string>, visits: seq<Visit>): (r: RunState)
    requires |visits| == |targets|
    ensures r.stats.date == st.stats.date && r.stats.sessionStart == st.stats.sessionStart
    ensures r.stats.dms == st.stats.dms
    ensures st.stats.follows <= r.stats.follows <= Max(st.stats.follows, FollowLimit)
    ensures st.stats.comments <= r.stats.comments <= Max(st.stats.comments, CommentLimit)
    ensures r.stats != st.stats ==> r.saved == Some(r.stats)
    ensures r.stats == st.stats ==> r.saved == st.saved && r.followed == st.followed
    ensures st.processed <= r.processed <= st.processed + |targets|
    decreases |targets|
  {
    if targets == [] then st
    else if targets[0] == [] || targets[0] in already then Primary(st, targets[1..], already, visits[1..])
    else if !CheckDailyLimit(st.stats, Follow, visits[0].gateAt) then st
    else if SessionOver(st.stats, visits[0].sessionAt) then st
    else Primary(VisitTarget(st, targets[0], visits[0]), targets[1..], already, visits[1..])
  }

  /**
   * Every follow of the pass is one row appended to followed.csv: the next
   * run's already-followed list is this run's, followed by one name per
   * follow counted, each a target of this run that was not already
   * followed when the run started.
   */
  lemma {:induction false} PrimaryLogsFollows(st: RunState, targets: seq<string>, already: seq<string>, visits: seq<Visit>)
    requires |visits| == |targets| && LineAligned(st.followed)
    requires forall k :: 0 <= k < |targets| ==> ',' !in targets[k] && '\n' !in targets[k]
    ensures var r := Primary(st, targets, already, visits);
      LineAligned(r.followed)
      && AppendedNames(ReadAlreadyFollowed(st.followed), ReadAlreadyFollowed(r.followed),
                       r.stats.follows - st.stats.follows, targets, already)
    decreases |targets|
  {
    if targets == [] {
      AppendedNamesNone(ReadAlreadyFollowed(st.followed), targets, already);
    } else {
      var u, v := targets[0], visits[0];
      var rest, restVisits := targets[1..], visits[1..];
      assert forall k :: 0 <= k < |rest| ==> ',' !in rest[k] && '\n' !in rest[k] by {
        forall k | 0 <= k < |rest| ensures ',' !in rest[k] && '\n' !in rest[k] {
          assert rest[k] == targets[k + 1];
        }
      }
      if u == [] || u in already {
        var r := Primary(st, rest, already, restVisits);
        assert Primary(st, targets, already, visits) == r;
        PrimaryLogsFollows(st, rest, already, restVisits);
        AppendedNamesWiden(ReadAlreadyFollowed(st.followed), ReadAlreadyFollowed(r.followed),
                           r.stats.follows - st.stats.follows, targets, already);
      } else if !CheckDailyLimit(st.stats, Follow, v.gateAt) || SessionOver(st.stats, v.sessionAt) {
        assert Primary(st, targets, already, visits) == st;
        AppendedNamesNone(ReadAlreadyFollowed(st.followed), targets, already);
      } else {
        var s1 := VisitTarget(st, u, v);
        var r := Primary(s1, rest, already, restVisits);
        assert Primary(st, targets, already, visits) == r;
        VisitLogsName(st, u, already, v);
        PrimaryLogsFollows(s1, rest, already, restVisits);
        NamesAfterVisit(ReadAlreadyFollowed(st.followed), ReadAlreadyFollowed(s1.followed), ReadAlreadyFollowed(r.followed),
                        st.stats.follows, s1.stats.follows, r.stats.follows, targets, already);
      }
    }
  }

  /** The names one visit logs, then the names the rest of the pass logs. */
  lemma NamesAfterVisit(before: seq<string>, mid: seq<string>, after: seq<string>, n0: int, n1: int, n2: int,
                        targets: seq<string>, already: seq<string>)
    requires targets != [] && targets[0] !in already
    requires n1 == n0 + 1 ==> mid == before + [targets[0]]
    requires n1 != n0 + 1 ==> n1 == n0 && mid == before
    requires AppendedNames(mid, after, n2 - n1, targets[1..], already)
    ensures AppendedNames(before, after, n2 - n0, targets, already)
  {
    AppendedNamesWiden(mid, after, n2 - n1, targets, already);
    if n1 == n0 + 1 {
      AppendedNamesCons(before, targets[0], after, n2 - n1, targets, already);
    }
  }

  /** One step of the pass: a visit that counts a follow appends the target's name, and nothing else does. */
  lemma VisitLogsName(st: RunState, u: string, already: seq<string>, v: Visit)
    requires LineAligned(st.followed) && ',' !in u && '\n' !in u
    ensures var s1 := if u == [] || u in already then st else VisitTarget(st, u, v);
      && LineAligned(s1.followed)
      && (s1.stats.follows == st.stats.follows + 1 ==>
            u != [] && u !in already && ReadAlreadyFollowed(s1.followed) == ReadAlreadyFollowed(st.followed) + [u])
      && (s1.stats.follows != st.stats.follows + 1 ==>
            s1.stats.follows == st.stats.follows && s1.followed == st.followed)
  {
    if u != [] && u !in already {
      var s1 := VisitTarget(st, u, v);
      if s1.stats.follows == st.stats.follows + 1 {
        assert s1.followed == Append(st.followed, LogLine(u, v.loggedAt));
        LogThenReadAlreadyFollowed(st.followed, u, v.loggedAt);
      }
    }
  }

  /**
   * What the DM phase will parse after one visit: the rows already there,
   * plus `{user, ts: loggedAt, dmSent: false}` exactly when the visit
   * counted a follow.
   */
  lemma VisitAppendsRow(st: RunState, user: string, v: Visit)
    requires LineAligned(st.followed) && PlainName(user)
    ensures var t := VisitTarget(st, user, v);
      LineAligned(t.followed)
      && ParseRows(Contents(t.followed)) == ParseRows(Contents(st.followed))
         + (if t.stats.follows == st.stats.follows + 1 then [Row(user, Finite(v.loggedAt), false)] else [])
  {
    var t := VisitTarget(st, user, v);
    if t.stats.follows == st.stats.follows + 1 {
      LogThenParseRows(st.followed, user, v.loggedAt);
      LogKeepsAligned(st.followed, user, v.loggedAt);
    } else {
      ConcatUnit(ParseRows(Contents(st.followed)));
    }
  }

  /**
   * The pass stops at the first target it would visit (targets[k], after
   * k blank or already-followed names) when the follow check fails there
   * (the daily follow limit is reached) or the session has run four hours:
   * it then changes nothing.
   */
  lemma {:induction false} PrimaryBlocked(st: RunState, targets: seq<string>, already: seq<string>, visits: seq<Visit>, k: nat)
    requires |visits| == |targets| && k <= |targets|
    requires forall m :: 0 <= m < k ==> targets[m] == [] || targets[m] in already
    requires k < |targets| ==>
      && targets[k] != [] && targets[k] !in already
      && (!CheckDailyLimit(st.stats, Follow, visits[k].gateAt) || SessionOver(st.stats, visits[k].sessionAt))
    ensures Primary(st, targets, already, visits) == st
    decreases k
  {
    if k > 0 {
      assert targets[0] == [] || targets[0] in already;
      forall m | 0 <= m < k - 1 ensures targets[1..][m] == [] || targets[1..][m] in already {
        assert targets[1..][m] == targets[m + 1];
      }
      PrimaryBlocked(st, targets[1..], already, visits[1..], k - 1);
    }
  }

  /** With the follow counter at its limit the pass does nothing, whatever the clocks say. */
  lemma {:induction false} PrimaryAtFollowLimit(st: RunState, targets: seq<string>, already: seq<string>, visits: seq<Visit>)
    requires |visits| == |targets| && st.stats.follows >= FollowLimit
    ensures Primary(st, targets, already, visits) == st
    decreases |targets|
  {
    if targets != [] && (targets[0] == [] || targets[0] in already) {
      PrimaryAtFollowLimit(st, targets[1..], already, visits[1..]);
    }
  }

  /**
   * An exception inside a target's try block is caught: the pass goes on
   * with the next target from whatever state the failed visit left, and
   * the failed visit is not counted as processed.
   */
  lemma PrimaryContinuesAfterThrow(st: RunState, targets: seq<string>, already: seq<string>, visits: seq<Visit>)
    requires |visits| == |targets| && targets != []
    requires targets[0] != [] && targets[0] !in already
    requires CheckDailyLimit(st.stats, Follow, visits[0].gateAt) && !SessionOver(st.stats, visits[0].sessionAt)
    requires visits[0].throwsAt.Some? && visits[0].throwsAt != Some(Compose)
    ensures var t := VisitTarget(st, targets[0], visits[0]);
      Primary(st, targets, already, visits) == Primary(t, targets[1..], already, visits[1..])
      && t.processed == st.processed
  {
    var v := visits[0];
    assert !Completes(st, v) by {
      match v.throwsAt.value
      case Open => assert !Survives(v, Open);
      case FindPost => assert !Survives(v, FindPost);
      case Close => assert !Survives(v, Close);
    }
  }

  // ---------------------------------------------------------------------
  // the DM phase (lines 319-418)
  // ---------------------------------------------------------------------

  /** Lines 399-409: count the DM, save the stats, and flag the row in followed.csv. */
  function Messaged(st: RunState, t: Row): (m: RunState)
    ensures m.stats.dms == st.stats.dms + 1 && m.saved == Some(m.stats)
    ensures m.stats.follows == st.stats.follows && m.stats.comments == st.stats.comments
    ensures m.stats.date == st.stats.date && m.stats.sessionStart == st.stats.sessionStart
    ensures m.processed == st.processed && m.followed.Some?
    ensures '\n' !in t.user ==> Users(ParseRows(Contents(m.followed))) == Users(ParseRows(Contents(st.followed)))
  {
    var s := Bump(st.stats, Dm);
    var m := st.(stats := s, saved := Some(s), followed := Some(MarkSent(Contents(st.followed), t)));
    if '\n' in t.user then m else MarkSentKeepsUsers(Contents(st.followed), t); m
  }

  /**
   * `for (const t of dmTargets)`: stop once the DM check fails, otherwise
   * attempt the message; only a successful attempt changes anything.
   * attempts[k] is the browser's behaviour for due[k].
   */
  function DmLoop(st: RunState, due: seq<Row>, attempts: seq<DmAttempt>): (r: RunState)
    requires |attempts| == |due|
    ensures r.stats.date == st.stats.date && r.stats.sessionStart == st.stats.sessionStart
    ensures r.stats.follows == st.stats.follows && r.stats.comments == st.stats.comments
    ensures st.stats.dms <= r.stats.dms <= Max(st.stats.dms, DmLimit)
    ensures r.stats.dms <= st.stats.dms + |due|
    ensures r.stats != st.stats ==> r.saved == Some(r.stats)
    ensures r.stats == st.stats ==> r == st
    ensures r.processed == st.processed
    ensures st.followed.Some? ==> r.followed.Some?
    decreases |due|
  {
    if due == [] then st
    else if !CheckDailyLimit(st.stats, Dm, attempts[0].clock) then st
    else if !attempts[0].sent then DmLoop(st, due[1..], attempts[1..])
    else DmLoop(Messaged(st, due[0]), due[1..], attempts[1..])
  }

  /** The rows of followed.csv due for a DM, each judged at its own clock reading. */
  predicate DmInputs(file: Option<string>, clocks: seq<int>, attempts: seq<DmAttempt>) {
    file.Some? ==>
      |clocks| == |ParseRows(file.value)| && |attempts| == |DueRowsAt(ParseRows(file.value), clocks)|
  }

  /**
   * Lines 324-418: skipped when the DM check fails up front (followed.csv
   * is then not read); otherwise followed.csv must exist, its due rows are
   * selected and messaged.  A failure is the uncaught error of
   * `readFileSync` on a missing file.
   */
  function DmPhase(st: RunState, gateClock: int, clocks: seq<int>, attempts: seq<DmAttempt>): (r: Result<RunState, ReadError>)
    requires DmInputs(st.followed, clocks, attempts)
    ensures !CheckDailyLimit(st.stats, Dm, gateClock) ==> r == Success(st)
    ensures r.Failure? <==> CheckDailyLimit(st.stats, Dm, gateClock) && st.followed.None?
    ensures r.Failure? ==> r.error == FollowedNotFound
    ensures r.Success? ==>
      (r.value.stats.dms <= Max(st.stats.dms, DmLimit)
       && r.value.stats.follows == st.stats.follows && r.value.stats.comments == st.stats.comments)
  {
    if !CheckDailyLimit(st.stats, Dm, gateClock) then Success(st)
    else if st.followed.None? then Failure(FollowedNotFound)
    else Success(DmLoop(st, DueRowsAt(ParseRows(st.followed.value), clocks), attempts))
  }

  /** When every attempt fails, neither the counters nor followed.csv change. */
  lemma {:induction false} DmAllFailed(st: RunState, due: seq<Row>, attempts: seq<DmAttempt>)
    requires |attempts| == |due|
    requires forall k :: 0 <= k < |attempts| ==> !attempts[k].sent
    ensures DmLoop(st, due, attempts) == st
    decreases |due|
  {
    if due != [] && CheckDailyLimit(st.stats, Dm, attempts[0].clock) {
      DmAllFailed(st, due[1..], attempts[1..]);
    }
  }

  /** With the DM counter at its limit nothing is messaged. */
  lemma DmAtLimit(st: RunState, due: seq<Row>, attempts: seq<DmAttempt>)
    requires |attempts| == |due| && st.stats.dms >= DmLimit
    ensures DmLoop(st, due, attempts) == st
  {
  }

  /**
   * A failed attempt leaves followed.csv and the counters as they were:
   * the next due row is attempted from the same state.
   */
  lemma DmFailureLeavesState(st: RunState, due: seq<Row>, attempts: seq<DmAttempt>)
    requires |attempts| == |due| && due != [] && !attempts[0].sent
    ensures DmLoop(st, due, attempts) ==
      if CheckDailyLimit(st.stats, Dm, attempts[0].clock) then DmLoop(st, due[1..], attempts[1..]) else st
  {
  }

  /**
   * A successful attempt on a row that followed.csv holds as its own line,
   * with no earlier match of `user,ts`, turns exactly that row into
   * `dmSent = true`; the rows before and after parse as before.
   */
  lemma DmSuccessFlagsRow(st: RunState, pre: string, user: string, ts: int, post: string)
    requires st.followed == Some(pre + RowText(user, ts) + "\n" + post)
    requires pre == [] || pre[|pre| - 1] == '\n'
    requires PlainName(user)
    requires IndexOf(pre + RowText(user, ts) + "\n" + post, RowText(user, ts)) == Some(|pre|)
    ensures var m := Messaged(st, Row(user, Finite(ts), false));
      m.stats.dms == st.stats.dms + 1 && m.saved == Some(m.stats)
      && ParseRows(Contents(m.followed)) == ParseRows(pre) + [Row(user, Finite(ts), true)] + ParseRows(post)
  {
    var content := pre + RowText(user, ts) + "\n" + post;
    var row := Row(user, Finite(ts), false);
    assert Messaged(st, row).followed == Some(MarkSent(content, row));
    MarkSentFlagsRow(pre, user, ts, post);
  }

  /**
   * Every DM sent rewrites followed.csv by inserting `,true` into one
   * line: the file keeps its rows, in order, with their users.
   */
  lemma {:induction false} DmLoopKeepsUsers(st: RunState, due: seq<Row>, attempts: seq<DmAttempt>)
    requires |attempts| == |due|
    requires forall k :: 0 <= k < |due| ==> '\n' !in due[k].user
    ensures Users(ParseRows(Contents(DmLoop(st, due, attempts).followed))) == Users(ParseRows(Contents(st.followed)))
    decreases |due|
  {
    if due != [] && CheckDailyLimit(st.stats, Dm, attempts[0].clock) {
      if attempts[0].sent {
        MarkSentKeepsUsers(Contents(st.followed), due[0]);
        DmLoopKeepsUsers(Messaged(st, due[0]), due[1..], attempts[1..]);
      } else {
        DmLoopKeepsUsers(st, due[1..], attempts[1..]);
      }
    }
  }

  /** The due rows are rows of the file, so the DM phase keeps every row and its user. */
  lemma DmPhaseKeepsUsers(st: RunState, gateClock: int, clocks: seq<int>, attempts: seq<DmAttempt>)
    requires DmInputs(st.followed, clocks, attempts)
    ensures var r := DmPhase(st, gateClock, clocks, attempts);
      r.Success? ==> Users(ParseRows(Contents(r.value.followed))) == Users(ParseRows(Contents(st.followed)))
  {
    if CheckDailyLimit(st.stats, Dm, gateClock) && st.followed.Some? {
      var rows := ParseRows(st.followed.value);
      var due := DueRowsAt(rows, clocks);
      RowsNoNewline(st.followed.value);
      forall k | 0 <= k < |due| ensures '\n' !in due[k].user {
        assert due[k] in rows;
      }
      DmLoopKeepsUsers(st, due, attempts);
    }
  }

  /** The rows the loop messages, in order: one per DM counted. */
  function MessagedRows(st: RunState, due: seq<Row>, attempts: seq<DmAttempt>): (rows: seq<Row>)
    requires |attempts| == |due|
    ensures |rows| == DmLoop(st, due, attempts).stats.dms - st.stats.dms
    ensures forall r :: r in rows ==> r in due
    decreases |due|
  {
    if due == [] || !CheckDailyLimit(st.stats, Dm, attempts[0].clock) then []
    else if !attempts[0].sent then MessagedRows(st, due[1..], attempts[1..])
    else [due[0]] + MessagedRows(Messaged(st, due[0]), due[1..], attempts[1..])
  }

  /**
   * at[k] is where the pattern of due[k] first occurs when it is messaged;
   * every DM sent finds its row's own, unflagged line first.
   */
  predicate OwnSteps(st: RunState, due: seq<Row>, attempts: seq<DmAttempt>, at: seq<nat>)
    requires |attempts| == |due| && |at| == |due|
    decreases |due|
  {
    due != [] && CheckDailyLimit(st.stats, Dm, attempts[0].clock) ==>
      && (attempts[0].sent ==> OwnLineAt(Contents(st.followed), due[0], at[0]))
      && OwnSteps(if attempts[0].sent then Messaged(st, due[0]) else st, due[1..], attempts[1..], at[1..])
  }

  /**
   * When every DM sent finds its own line first, the loop only turns flags
   * on, and every row messaged reads as sent afterwards.
   */
  lemma {:induction false} DmLoopFlagsSent(st: RunState, due: seq<Row>, attempts: seq<DmAttempt>, at: seq<nat>)
    requires |attempts| == |due| && |at| == |due|
    requires OwnSteps(st, due, attempts, at)
    ensures var before := ParseRows(Contents(st.followed));
      var after := ParseRows(Contents(DmLoop(st, due, attempts).followed));
      && OnlyFlagsSet(before, after)
      && forall r :: r in MessagedRows(st, due, attempts) ==> r.(dmSent := true) in after
    decreases |due|
  {
    var before := ParseRows(Contents(st.followed));
    if due != [] && CheckDailyLimit(st.stats, Dm, attempts[0].clock) {
      var sent := attempts[0].sent;
      var st1 := if sent then Messaged(st, due[0]) else st;
      var mid := ParseRows(Contents(st1.followed));
      var after := ParseRows(Contents(DmLoop(st, due, attempts).followed));
      assert OnlyFlagsSet(before, mid) && (sent ==> due[0].(dmSent := true) in mid) by {
        if sent {
          var content := Contents(st.followed);
          OwnLineFlags(content, due[0], at[0]);
          FlagOne(before, |ParseRows(content[..at[0]])|);
        }
      }
      DmLoopFlagsSent(st1, due[1..], attempts[1..], at[1..]);
      OnlyFlagsSetTrans(before, mid, after);
      if sent {
        OnlyFlagsSetKeepsSent(mid, after, due[0].(dmSent := true));
      }
    }
  }

  // ---------------------------------------------------------------------
  // the loops as the script runs them, on the stats object and ./data
  // ---------------------------------------------------------------------

  /** One target's try/catch block (lines 207-316), on the live objects. */
  method VisitProfile(user: string, v: Visit, stats: Stats, dir: DataDir, processed: int) returns (processedAfter: int)
    modifies stats, dir
    ensures Snapshot(stats, dir, processedAfter) == VisitTarget(old(Snapshot(stats, dir, processed)), user, v)
    ensures dir.targets == old(dir.targets)
  {
    processedAfter := processed;
    if !Survives(v, Open) {
      return;
    }
    if CheckDailyLimit(stats.Value(), Follow, v.followAt) && v.followButton {
      dir.LogFollowed(user, v.loggedAt);
      stats.Record(Follow, dir);
    }
    if !Survives(v, FindPost) || !v.postFound {
      return;
    }
    if v.commentRoll && CheckDailyLimit(stats.Value(), Comment, v.commentAt) {
      if !Survives(v, Compose) {
        return;
      }
      if v.postButton {
        stats.Record(Comment, dir);
      }
    }
    if !Survives(v, Close) {
      return;
    }
    processedAfter := processed + 1;
  }

  /** Lines 188-317: the primary pass; returns processedThisSession. */
  method RunPrimaryPass(targets: seq<string>, already: seq<string>, visits: seq<Visit>, stats: Stats, dir: DataDir)
    returns (processed: int)
    requires |visits| == |targets|
    modifies stats, dir
    ensures Snapshot(stats, dir, processed) == Primary(old(Snapshot(stats, dir, 0)), targets, already, visits)
    ensures dir.targets == old(dir.targets)
  {
    processed := 0;
    var i := 0;
    while i < |targets|
      invariant 0 <= i <= |targets|
      invariant Primary(old(Snapshot(stats, dir, 0)), targets, already, visits)
             == Primary(Snapshot(stats, dir, processed), targets[i..], already, visits[i..])
      invariant dir.targets == old(dir.targets)
    {
      assert targets[i..][1..] == targets[i + 1..] && visits[i..][1..] == visits[i + 1..];
      var user := targets[i];
      if user == [] || user in already {
        i := i + 1;
        continue;
      }
      if !CheckDailyLimit(stats.Value(), Follow, visits[i].gateAt) {
        break;
      }
      if SessionOver(stats.Value(), visits[i].sessionAt) {
        break;
      }
      processed := VisitProfile(user, visits[i], stats, dir, processed);
      i := i + 1;
    }
  }

  /** Lines 340-417: the `for (const t of dmTargets)` loop over the due rows. */
  method MessageDue(due: seq<Row>, attempts: seq<DmAttempt>, stats: Stats, dir: DataDir)
    requires |attempts| == |due|
    modifies stats, dir
    ensures Snapshot(stats, dir, 0) == DmLoop(old(Snapshot(stats, dir, 0)), due, attempts)
    ensures dir.targets == old(dir.targets)
  {
    var i := 0;
    while i < |due|
      invariant 0 <= i <= |due|
      invariant DmLoop(old(Snapshot(stats, dir, 0)), due, attempts)
             == DmLoop(Snapshot(stats, dir, 0), due[i..], attempts[i..])
      invariant dir.targets == old(dir.targets)
    {
      assert due[i..][1..] == due[i + 1..] && attempts[i..][1..] == attempts[i + 1..];
      if !CheckDailyLimit(stats.Value(), Dm, attempts[i].clock) {
        break;
      }
      if attempts[i].sent {
        stats.Record(Dm, dir);
        dir.WriteFollowed(MarkSent(Contents(dir.followed), due[i]));
      }
      i := i + 1;
    }
  }

  /** Lines 324-418: the DM phase; returns the error that ends the script, if any. */
  method RunDmPhase(gateClock: int, clocks: seq<int>, attempts: seq<DmAttempt>, stats: Stats, dir: DataDir)
    returns (error: Option<ReadError>)
    requires DmInputs(dir.followed, clocks, attempts)
    modifies stats, dir
    ensures var r := DmPhase(old(Snapshot(stats, dir, 0)), gateClock, clocks, attempts);
      if r.Success? then error == None && Snapshot(stats, dir, 0) == r.value
      else error == Some(r.error) && Snapshot(stats, dir, 0) == old(Snapshot(stats, dir, 0))
    ensures dir.targets == old(dir.targets)
  {
    error := None;
    if !CheckDailyLimit(stats.Value(), Dm, gateClock) {
      return;
    }
    if dir.followed.None? {
      error := Some(FollowedNotFound);
      return;
    }
    var due := DueRowsAt(ParseRows(dir.followed.value), clocks);
    MessageDue(due, attempts, stats, dir);
  }
}
