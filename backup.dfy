/**
 * backup.js: the run without quotas.  The primary pass follows and
 * comments on each new target and counts the visits that get through;
 * the DM phase then messages every followed account whose row is a week
 * old and flags its row.
 */
module BackupBot {
  import opened Wrappers
  import opened Text
  import opened FollowedLog
  import opened Driver
  import opened Store

  /** What a run changes: followed.csv and userCount. */
  datatype RunState = RunState(followed: Option<string>, userCount: int)

  function Snapshot(dir: DataDir, userCount: int): RunState
    reads dir
  {
    RunState(dir.followed, userCount)
  }

  // ---------------------------------------------------------------------
  // one target of the primary pass (lines 70-168)
  // ---------------------------------------------------------------------

  /** Lines 77-85: the follow is logged when a follow button was found. */
  predicate Follows(v: Visit)
    ensures Follows(v) <==> v.followButton && v.throwsAt != Some(Open)
  {
    Survives(v, Open) && v.followButton
  }

  /**
   * Lines 92-155: the visit reaches `userCount++`.  A missing post ends it
   * by `continue`; the comment is always typed, so an exception while
   * typing ends it too.  Whether a Post button was found does not matter.
   */
  predicate Completes(v: Visit)
    ensures Completes(v) ==> v.postFound && v.throwsAt.None?
    ensures v.throwsAt.None? && v.postFound ==> Completes(v)
  {
    assert v.throwsAt.Some? ==> v.throwsAt.value.Open? || v.throwsAt.value.FindPost? || v.throwsAt.value.Compose? || v.throwsAt.value.Close?;
    Survives(v, Open) && Survives(v, FindPost) && v.postFound && Survives(v, Compose) && Survives(v, Close)
  }

  /** The try block for one target, with its catch. */
  function VisitTarget(st: RunState, user: string, v: Visit): (t: RunState)
    ensures Follows(v) ==> t.followed == Append(st.followed, LogLine(user, v.loggedAt))
    ensures !Follows(v) ==> t.followed == st.followed
    ensures t.userCount == st.userCount + (if Completes(v) then 1 else 0)
  {
    if !Survives(v, Open) then st
    else
      var s1 := if v.followButton then st.(followed := Append(st.followed, LogLine(user, v.loggedAt))) else st;
      if !Survives(v, FindPost) || !v.postFound then s1
      else if !Survives(v, Compose) || !Survives(v, Close) then s1
      else s1.(userCount := s1.userCount + 1)
  }

  // ---------------------------------------------------------------------
  // the primary pass (lines 62-169)
  // ---------------------------------------------------------------------

  /** A target the pass visits: not blank and not in the start-of-run followed list. */
  predicate Visited(user: string, already: seq<string>) {
    user != [] && user !in already
  }

  /**
   * `for (const username of targets)`: skip blank and already-followed
   * names and visit every other one; nothing stops the loop early.
   * visits[k] is the browser's behaviour for targets[k].
   */
  function Primary(st: RunState, targets: seq<string>, already: seq<string>, visits: seq<Visit>): (r: RunState)
    requires |visits| == |targets|
    ensures st.userCount <= r.userCount <= st.userCount + |targets|
    decreases |targets|
  {
    if targets == [] then st
    else if !Visited(targets[0], already) then Primary(st, targets[1..], already, visits[1..])
    else Primary(VisitTarget(st, targets[0], visits[0]), targets[1..], already, visits[1..])
  }

  /** The rows the pass appends, in order: one per visited target whose follow button was found. */
  function LoggedRows(targets: seq<string>, already: seq<string>, visits: seq<Visit>): (rows: seq<Row>)
    requires |visits| == |targets|
    ensures |rows| <= |targets|
    ensures forall k :: 0 <= k < |rows| ==> !rows[k].dmSent && rows[k].user in targets && rows[k].user !in already
    decreases |targets|
  {
    if targets == [] then []
    else
      (if Visited(targets[0], already) && Follows(visits[0])
       then [Row(targets[0], Finite(visits[0].loggedAt), false)] else [])
      + LoggedRows(targets[1..], already, visits[1..])
  }

  /** How many visited targets get through to step 8. */
  function CompletedVisits(targets: seq<string>, already: seq<string>, visits: seq<Visit>): (n: nat)
    requires |visits| == |targets|
    ensures n <= |targets|
    decreases |targets|
  {
    if targets == [] then 0
    else
      (if Visited(targets[0], already) && Completes(visits[0]) then 1 else 0)
      + CompletedVisits(targets[1..], already, visits[1..])
  }

  /** userCount ends up counting exactly the visits that reached step 8. */
  lemma {:induction false} PrimaryCountsCompleted(st: RunState, targets: seq<string>, already: seq<string>, visits: seq<Visit>)
    requires |visits| == |targets|
    ensures Primary(st, targets, already, visits).userCount == st.userCount + CompletedVisits(targets, already, visits)
    decreases |targets|
  {
    if targets != [] {
      var s1 := if Visited(targets[0], already) then VisitTarget(st, targets[0], visits[0]) else st;
      PrimaryCountsCompleted(s1, targets[1..], already, visits[1..]);
    }
  }

  /** One visit appends `{user, ts: loggedAt, dmSent: false}` to the parsed rows exactly when it follows. */
  lemma VisitAppendsRow(st: RunState, user: string, v: Visit)
    requires LineAligned(st.followed) && PlainName(user)
    ensures var t := VisitTarget(st, user, v);
      LineAligned(t.followed)
      && ParseRows(Contents(t.followed)) == ParseRows(Contents(st.followed))
         + (if Follows(v) then [Row(user, Finite(v.loggedAt), false)] else [])
  {
    if Follows(v) {
      LogThenParseRows(st.followed, user, v.loggedAt);
      LogKeepsAligned(st.followed, user, v.loggedAt);
    } else {
      ConcatUnit(ParseRows(Contents(st.followed)));
    }
  }

  /** The text the pass appends: one logFollowed line per visited target whose follow button was found. */
  function LoggedText(targets: seq<string>, already: seq<string>, visits: seq<Visit>): string
    requires |visits| == |targets|
    decreases |targets|
  {
    if targets == [] then []
    else
      (if Visited(targets[0], already) && Follows(visits[0]) then LogLine(targets[0], visits[0].loggedAt) else [])
      + LoggedText(targets[1..], already, visits[1..])
  }

  /** followed.csv after the pass is followed.csv before it with the logged lines appended. */
  lemma {:induction false} PrimaryAppendsText(st: RunState, targets: seq<string>, already: seq<string>, visits: seq<Visit>)
    requires |visits| == |targets| && LineAligned(st.followed)
    ensures var r := Primary(st, targets, already, visits);
      LineAligned(r.followed) && Contents(r.followed) == Contents(st.followed) + LoggedText(targets, already, visits)
    decreases |targets|
  {
    if targets == [] {
      ConcatUnit(Contents(st.followed));
    } else {
      var u, v := targets[0], visits[0];
      var rest, restVisits := targets[1..], visits[1..];
      var head := if Visited(u, already) && Follows(v) then LogLine(u, v.loggedAt) else [];
      var logged := LoggedText(rest, already, restVisits);
      var s1 := if Visited(u, already) then VisitTarget(st, u, v) else st;
      assert Primary(st, targets, already, visits) == Primary(s1, rest, already, restVisits);
      assert LoggedText(targets, already, visits) == head + logged;
      assert LineAligned(s1.followed) && Contents(s1.followed) == Contents(st.followed) + head by {
        if Visited(u, already) && Follows(v) {
          LogKeepsAligned(st.followed, u, v.loggedAt);
        } else {
          ConcatUnit(Contents(st.followed));
        }
      }
      PrimaryAppendsText(s1, rest, already, restVisits);
      ConcatAssoc(Contents(st.followed), head, logged);
    }
  }

  /** The logged lines read back as the logged rows. */
  lemma {:induction false} ParseLoggedText(targets: seq<string>, already: seq<string>, visits: seq<Visit>)
    requires |visits| == |targets|
    requires forall k :: 0 <= k < |targets| ==> targets[k] == [] || PlainName(targets[k])
    ensures ParseRows(LoggedText(targets, already, visits)) == LoggedRows(targets, already, visits)
    decreases |targets|
  {
    if targets == [] {
      ParseRowsEmpty();
    } else {
      var u, v := targets[0], visits[0];
      var rest, restVisits := targets[1..], visits[1..];
      var text := LoggedText(rest, already, restVisits);
      var rows := LoggedRows(rest, already, restVisits);
      assert forall k :: 0 <= k < |rest| ==> rest[k] == [] || PlainName(rest[k]) by {
        forall k | 0 <= k < |rest| ensures rest[k] == [] || PlainName(rest[k]) {
          assert rest[k] == targets[k + 1];
        }
      }
      ParseLoggedText(rest, already, restVisits);
      if Visited(u, already) && Follows(v) {
        var line := RowText(u, v.loggedAt);
        assert LoggedText(targets, already, visits) == line + "\n" + text by {
          assert LogLine(u, v.loggedAt) == line + "\n";
        }
        assert LoggedRows(targets, already, visits) == [Row(u, Finite(v.loggedAt), false)] + rows;
        assert ParseRows(line + "\n" + text) == [ParseRow(line)] + ParseRows(text) by {
          RowTextFields(u, v.loggedAt);
          RowTextUnpadded(u, v.loggedAt);
          ParseRowsLineFirst(line, text);
        }
        ParseLoggedRow(u, v.loggedAt);
      } else {
        assert LoggedText(targets, already, visits) == text by {
          ConcatUnit(text);
        }
        assert LoggedRows(targets, already, visits) == rows by {
          ConcatUnit(rows);
        }
      }
    }
  }

  /**
   * Over the whole pass, followed.csv gains exactly the rows of the
   * visited targets whose follow button was found, in target order, each
   * with no DM sent yet; the rows already there read as before.
   */
  lemma PrimaryAppendsRows(st: RunState, targets: seq<string>, already: seq<string>, visits: seq<Visit>)
    requires |visits| == |targets| && LineAligned(st.followed)
    requires forall k :: 0 <= k < |targets| ==> targets[k] == [] || PlainName(targets[k])
    ensures var r := Primary(st, targets, already, visits);
      LineAligned(r.followed)
      && ParseRows(Contents(r.followed)) == ParseRows(Contents(st.followed)) + LoggedRows(targets, already, visits)
  {
    ParseRowsAligned(Contents(st.followed), LoggedText(targets, already, visits));
    PrimaryAppendsText(st, targets, already, visits);
    ParseLoggedText(targets, already, visits);
  }

  /** One step of the pass: a visited target whose follow button was found adds its name. */
  lemma VisitLogsName(st: RunState, u: string, already: seq<string>, v: Visit)
    requires LineAligned(st.followed) && ',' !in u && '\n' !in u
    ensures var s1 := if Visited(u, already) then VisitTarget(st, u, v) else st;
      var head := if Visited(u, already) && Follows(v) then [Row(u, Finite(v.loggedAt), false)] else [];
      LineAligned(s1.followed)
      && ReadAlreadyFollowed(s1.followed) == ReadAlreadyFollowed(st.followed) + Users(head)
  {
    var s1 := if Visited(u, already) then VisitTarget(st, u, v) else st;
    var before := ReadAlreadyFollowed(st.followed);
    if Visited(u, already) && Follows(v) {
      var logged := Append(st.followed, LogLine(u, v.loggedAt));
      assert s1.followed == logged;
      LogThenReadAlreadyFollowed(st.followed, u, v.loggedAt);
      assert Users([Row(u, Finite(v.loggedAt), false)]) == [u];
    } else {
      assert s1.followed == st.followed;
      assert Users([]) == [];
      ConcatUnit(before);
    }
  }

  /**
   * The next run's already-followed list is this run's followed by the
   * names of the targets followed now, in order.
   */
  lemma {:induction false} PrimaryLogsFollows(st: RunState, targets: seq<string>, already: seq<string>, visits: seq<Visit>)
    requires |visits| == |targets| && LineAligned(st.followed)
    requires forall k :: 0 <= k < |targets| ==> ',' !in targets[k] && '\n' !in targets[k]
    ensures var r := Primary(st, targets, already, visits);
      LineAligned(r.followed)
      && ReadAlreadyFollowed(r.followed) == ReadAlreadyFollowed(st.followed) + Users(LoggedRows(targets, already, visits))
    decreases |targets|
  {
    if targets == [] {
      ConcatUnit(ReadAlreadyFollowed(st.followed));
    } else {
      var u, v := targets[0], visits[0];
      var rest, restVisits := targets[1..], visits[1..];
      var head := if Visited(u, already) && Follows(v) then [Row(u, Finite(v.loggedAt), false)] else [];
      var logged := LoggedRows(rest, already, restVisits);
      var s1 := if Visited(u, already) then VisitTarget(st, u, v) else st;
      VisitLogsName(st, u, already, v);
      assert forall k :: 0 <= k < |rest| ==> ',' !in rest[k] && '\n' !in rest[k] by {
        forall k | 0 <= k < |rest| ensures ',' !in rest[k] && '\n' !in rest[k] {
          assert rest[k] == targets[k + 1];
        }
      }
      PrimaryLogsFollows(s1, rest, already, restVisits);
      UsersAppend(head, logged);
      ConcatAssoc(ReadAlreadyFollowed(st.followed), Users(head), Users(logged));
    }
  }

  // ---------------------------------------------------------------------
  // the DM phase (lines 171-261)
  // ---------------------------------------------------------------------

  /** Lines 245-252: a sent DM flags the row in followed.csv. */
  function Flagged(st: RunState, t: Row): (f: RunState)
    ensures f.userCount == st.userCount && f.followed.Some?
    ensures '\n' !in t.user ==> Users(ParseRows(Contents(f.followed))) == Users(ParseRows(Contents(st.followed)))
  {
    var f := st.(followed := Some(MarkSent(Contents(st.followed), t)));
    if '\n' in t.user then f else MarkSentKeepsUsers(Contents(st.followed), t); f
  }

  /**
   * `for (const t of dmTargets)`: every due row is attempted; only a
   * successful attempt rewrites the file.  sent[k] says whether the
   * attempt for due[k] got through the send click.
   */
  function DmLoop(st: RunState, due: seq<Row>, sent: seq<bool>): (r: RunState)
    requires |sent| == |due|
    ensures r.userCount == st.userCount
    ensures st.followed.Some? ==> r.followed.Some?
    decreases |due|
  {
    if due == [] then st
    else DmLoop(if sent[0] then Flagged(st, due[0]) else st, due[1..], sent[1..])
  }

  /** The due rows of followed.csv, each judged at its own clock reading. */
  predicate DmInputs(file: Option<string>, clocks: seq<int>, sent: seq<bool>) {
    file.Some? ==>
      |clocks| == |ParseRows(file.value)| && |sent| == |DueRowsAt(ParseRows(file.value), clocks)|
  }

  /**
   * Lines 174-261: followed.csv is read without checking that it exists;
   * when it is absent the read throws outside any try block and the
   * script ends there.
   */
  function DmPhase(st: RunState, clocks: seq<int>, sent: seq<bool>): (r: Result<RunState, ReadError>)
    requires DmInputs(st.followed, clocks, sent)
    ensures r.Failure? <==> st.followed.None?
    ensures r.Failure? ==> r.error == FollowedNotFound
    ensures r.Success? ==> r.value.userCount == st.userCount && r.value.followed.Some?
  {
    if st.followed.None? then Failure(FollowedNotFound)
    else Success(DmLoop(st, DueRowsAt(ParseRows(st.followed.value), clocks), sent))
  }

  /** When every attempt fails, followed.csv is left exactly as it was. */
  lemma {:induction false} DmAllFailed(st: RunState, due: seq<Row>, sent: seq<bool>)
    requires |sent| == |due|
    requires forall k :: 0 <= k < |sent| ==> !sent[k]
    ensures DmLoop(st, due, sent) == st
    decreases |due|
  {
    if due != [] {
      DmAllFailed(st, due[1..], sent[1..]);
    }
  }

  /**
   * A successful DM whose row is the first match of its pattern sets that
   * row's flag and leaves every other row as it was.
   */
  lemma DmSuccessFlagsRow(st: RunState, pre: string, user: string, ts: int, post: string)
    requires st.followed == Some(pre + RowText(user, ts) + "\n" + post)
    requires pre == [] || pre[|pre| - 1] == '\n'
    requires PlainName(user)
    requires IndexOf(pre + RowText(user, ts) + "\n" + post, RowText(user, ts)) == Some(|pre|)
    ensures var f := Flagged(st, Row(user, Finite(ts), false));
      && f.followed.Some? && f.userCount == st.userCount
      && ParseRows(Contents(st.followed)) == ParseRows(pre) + [Row(user, Finite(ts), false)] + ParseRows(post)
      && ParseRows(Contents(f.followed)) == ParseRows(pre) + [Row(user, Finite(ts), true)] + ParseRows(post)
  {
    var content := pre + RowText(user, ts) + "\n" + post;
    assert Flagged(st, Row(user, Finite(ts), false)).followed == Some(MarkSent(content, Row(user, Finite(ts), false)));
    MarkSentFlagsRow(pre, user, ts, post);
  }

  /**
   * Every DM that gets through rewrites followed.csv by inserting `,true`
   * into one line: the file keeps its rows, in order, with their users.
   */
  lemma {:induction false} DmLoopKeepsUsers(st: RunState, due: seq<Row>, sent: seq<bool>)
    requires |sent| == |due|
    requires forall k :: 0 <= k < |due| ==> '\n' !in due[k].user
    ensures Users(ParseRows(Contents(DmLoop(st, due, sent).followed))) == Users(ParseRows(Contents(st.followed)))
    decreases |due|
  {
    if due != [] {
      if sent[0] {
        MarkSentKeepsUsers(Contents(st.followed), due[0]);
      }
      DmLoopKeepsUsers(if sent[0] then Flagged(st, due[0]) else st, due[1..], sent[1..]);
    }
  }

  /** The due rows are rows of the file, so the DM phase keeps every row and its user. */
  lemma DmPhaseKeepsUsers(st: RunState, clocks: seq<int>, sent: seq<bool>)
    requires DmInputs(st.followed, clocks, sent)
    ensures var r := DmPhase(st, clocks, sent);
      r.Success? ==> Users(ParseRows(r.value.followed.value)) == Users(ParseRows(st.followed.value))
  {
    if st.followed.Some? {
      var rows := ParseRows(st.followed.value);
      var due := DueRowsAt(rows, clocks);
      RowsNoNewline(st.followed.value);
      forall k | 0 <= k < |due| ensures '\n' !in due[k].user {
        assert due[k] in rows;
      }
      DmLoopKeepsUsers(st, due, sent);
    }
  }

  /**
   * at[k] is where the pattern of due[k] first occurs when its DM gets
   * through; every such DM finds its row's own, unflagged line first.
   */
  predicate OwnSteps(st: RunState, due: seq<Row>, sent: seq<bool>, at: seq<nat>)
    requires |sent| == |due| && |at| == |due|
    decreases |due|
  {
    due != [] ==>
      && (sent[0] ==> OwnLineAt(Contents(st.followed), due[0], at[0]))
      && OwnSteps(if sent[0] then Flagged(st, due[0]) else st, due[1..], sent[1..], at[1..])
  }

  /**
   * When every DM that gets through finds its own line first, the loop
   * only turns flags on, and every row messaged reads as sent afterwards.
   */
  lemma {:induction false} DmLoopFlagsSent(st: RunState, due: seq<Row>, sent: seq<bool>, at: seq<nat>)
    requires |sent| == |due| && |at| == |due|
    requires OwnSteps(st, due, sent, at)
    ensures var before := ParseRows(Contents(st.followed));
      var after := ParseRows(Contents(DmLoop(st, due, sent).followed));
      && OnlyFlagsSet(before, after)
      && forall k :: 0 <= k < |due| && sent[k] ==> due[k].(dmSent := true) in after
    decreases |due|
  {
    var before := ParseRows(Contents(st.followed));
    if due != [] {
      var st1 := if sent[0] then Flagged(st, due[0]) else st;
      var mid := ParseRows(Contents(st1.followed));
      var after := ParseRows(Contents(DmLoop(st, due, sent).followed));
      assert OnlyFlagsSet(before, mid) && (sent[0] ==> due[0].(dmSent := true) in mid) by {
        if sent[0] {
          var content := Contents(st.followed);
          OwnLineFlags(content, due[0], at[0]);
          var j := |ParseRows(content[..at[0]])|;
          FlagOne(before, j);
        }
      }
      DmLoopFlagsSent(st1, due[1..], sent[1..], at[1..]);
      OnlyFlagsSetTrans(before, mid, after);
      forall k | 0 <= k < |due| && sent[k] ensures due[k].(dmSent := true) in after {
        if k == 0 {
          OnlyFlagsSetKeepsSent(mid, after, due[0].(dmSent := true));
        } else {
          assert due[1..][k - 1] == due[k] && sent[1..][k - 1];
        }
      }
    }
  }

  // ---------------------------------------------------------------------
  // the loops as the script runs them, on ./data
  // ---------------------------------------------------------------------

  /** One target's try/catch block (lines 70-168). */
  method VisitProfile(user: string, v: Visit, dir: DataDir, userCount: int) returns (userCountAfter: int)
    modifies dir
    ensures Snapshot(dir, userCountAfter) == VisitTarget(old(Snapshot(dir, userCount)), user, v)
    ensures dir.targets == old(dir.targets) && dir.stats == old(dir.stats)
  {
    userCountAfter := userCount;
    if !Survives(v, Open) {
      return;
    }
    if v.followButton {
      dir.LogFollowed(user, v.loggedAt);
    }
    if !Survives(v, FindPost) || !v.postFound {
      return;
    }
    if !Survives(v, Compose) || !Survives(v, Close) {
      return;
    }
    userCountAfter := userCount + 1;
  }

  /** Lines 65-169: the primary pass; returns userCount. */
  method RunPrimaryPass(targets: seq<string>, already: seq<string>, visits: seq<Visit>, dir: DataDir)
    returns (userCount: int)
    requires |visits| == |targets|
    modifies dir
    ensures Snapshot(dir, userCount) == Primary(old(Snapshot(dir, 0)), targets, already, visits)
    ensures dir.targets == old(dir.targets) && dir.stats == old(dir.stats)
  {
    userCount := 0;
    for i := 0 to |targets|
      invariant Primary(old(Snapshot(dir, 0)), targets, already, visits)
             == Primary(Snapshot(dir, userCount), targets[i..], already, visits[i..])
      invariant dir.targets == old(dir.targets) && dir.stats == old(dir.stats)
    {
      assert targets[i..][1..] == targets[i + 1..] && visits[i..][1..] == visits[i + 1..];
      var user := targets[i];
      if user == [] || user in already {
        continue;
      }
      userCount := VisitProfile(user, visits[i], dir, userCount);
    }
  }

  /** Lines 192-261: the loop over the due rows. */
  method MessageDue(due: seq<Row>, sent: seq<bool>, dir: DataDir)
    requires |sent| == |due|
    modifies dir
    ensures Snapshot(dir, 0) == DmLoop(old(Snapshot(dir, 0)), due, sent)
    ensures dir.targets == old(dir.targets) && dir.stats == old(dir.stats)
  {
    for i := 0 to |due|
      invariant DmLoop(old(Snapshot(dir, 0)), due, sent) == DmLoop(Snapshot(dir, 0), due[i..], sent[i..])
      invariant dir.targets == old(dir.targets) && dir.stats == old(dir.stats)
    {
      assert due[i..][1..] == due[i + 1..] && sent[i..][1..] == sent[i + 1..];
      if sent[i] {
        dir.WriteFollowed(MarkSent(Contents(dir.followed), due[i]));
      }
    }
  }

  /** Lines 174-261: the DM phase; returns the error that ends the script, if any. */
  method RunDmPhase(clocks: seq<int>, sent: seq<bool>, dir: DataDir) returns (error: Option<ReadError>)
    requires DmInputs(dir.followed, clocks, sent)
    modifies dir
    ensures var r := DmPhase(old(Snapshot(dir, 0)), clocks, sent);
      if r.Success? then error == None && Snapshot(dir, 0) == r.value
      else error == Some(r.error) && Snapshot(dir, 0) == old(Snapshot(dir, 0))
    ensures dir.targets == old(dir.targets) && dir.stats == old(dir.stats)
  {
    if dir.followed.None? {
      return Some(FollowedNotFound);
    }
    error := None;
    var due := DueRowsAt(ParseRows(dir.followed.value), clocks);
    MessageDue(due, sent, dir);
  }
}
