/**
 * copy.js: the same primary pass as backup.js (its loop at lines 65-168 is
 * the text of backup.js:66-169, so BackupBot.Primary models both), and a DM
 * phase that judges every row against one clock reading and builds its
 * rewrite pattern from the row's own flag.
 */
module CopyBot {
  import opened Wrappers
  import opened Text
  import opened FollowedLog
  import opened Store
  import BackupBot

  type RunState = BackupBot.RunState

  /** Lines 173-186: `followedRows.filter(r => !r.dmSent && (now - r.ts >= WEEK))`, one `now` for all rows. */
  function DueRows(rows: seq<Row>, now: int): (due: seq<Row>)
    ensures |due| <= |rows|
    ensures forall r :: r in due <==> r in rows && DueAt(r, now)
    decreases |rows|
  {
    if rows == [] then []
    else
      assert rows == [rows[0]] + rows[1..];
      (if DueAt(rows[0], now) then [rows[0]] else []) + DueRows(rows[1..], now)
  }

  /** The selection keeps file order: it distributes over concatenation. */
  lemma {:induction false} DueRowsAppend(a: seq<Row>, b: seq<Row>, now: int)
    ensures DueRows(a + b, now) == DueRows(a, now) + DueRows(b, now)
    decreases |a|
  {
    if a == [] {
      assert a + b == b;
    } else {
      assert (a + b)[1..] == a[1..] + b;
      DueRowsAppend(a[1..], b, now);
    }
  }

  /** The clock reading, the same for every row. */
  function Constant(n: nat, now: int): (clocks: seq<int>)
    ensures |clocks| == n && forall k :: 0 <= k < n ==> clocks[k] == now
  {
    seq(n, k => now)
  }

  /** The single-`now` selection is backup.js's per-row selection with the clock standing still. */
  lemma {:induction false} DueRowsOneClock(rows: seq<Row>, now: int)
    ensures DueRows(rows, now) == DueRowsAt(rows, Constant(|rows|, now))
    decreases |rows|
  {
    if rows != [] {
      assert Constant(|rows|, now)[1..] == Constant(|rows| - 1, now);
      DueRowsOneClock(rows[1..], now);
    }
  }

  /** Line 232: `${username},${t.ts}${t.dmSent ? ',true' : ''}`. */
  function CopyPattern(t: Row): (p: string)
    ensures !t.dmSent ==> p == Pattern(t)
    ensures t.dmSent ==> p == Pattern(t) + ",true"
    ensures t.ts.Finite? ==> p[..|RowText(t.user, t.ts.value)|] == RowText(t.user, t.ts.value)
  {
    Pattern(t) + (if t.dmSent then ",true" else "")
  }

  /**
   * Lines 228-235: the first occurrence of the pattern becomes
   * `${username},${t.ts},true`.  For a row not yet flagged this is exactly
   * the rewrite of the other scripts; for a flagged row the pattern is its
   * own replacement and the file is written back unchanged.
   */
  function MarkSentCopy(content: string, t: Row): (out: string)
    ensures !t.dmSent ==> out == MarkSent(content, t)
    ensures t.dmSent ==> out == content
  {
    var out := ReplaceFirst(content, CopyPattern(t), Pattern(t) + ",true");
    if t.dmSent then ReplaceFirstSelf(content, CopyPattern(t)); out
    else assert CopyPattern(t) == Pattern(t) by { ConcatUnit(Pattern(t)); } out
  }

  /** Replacing the first match of a pattern by the pattern itself changes nothing. */
  lemma ReplaceFirstSelf(s: string, pat: string)
    ensures ReplaceFirst(s, pat, pat) == s
  {
    if IndexOf(s, pat).Some? {
      var k := IndexOf(s, pat).value;
      assert s[..k] + pat + s[k + |pat|..] == s[..k] + s[k..k + |pat|] + s[k + |pat|..];
      assert s[..k] + s[k..k + |pat|] + s[k + |pat|..] == s;
    }
  }

  /** A sent DM rewrites followed.csv. */
  function Flagged(st: RunState, t: Row): (f: RunState)
    ensures f.userCount == st.userCount && f.followed.Some?
    ensures '\n' !in t.user ==> Users(ParseRows(Contents(f.followed))) == Users(ParseRows(Contents(st.followed)))
  {
    var f := st.(followed := Some(MarkSentCopy(Contents(st.followed), t)));
    if t.dmSent || '\n' in t.user then f else MarkSentKeepsUsers(Contents(st.followed), t); f
  }

  /** Lines 195-242: every due row is attempted; only a successful attempt rewrites the file. */
  function DmLoop(st: RunState, due: seq<Row>, sent: seq<bool>): (r: RunState)
    requires |sent| == |due|
    ensures r.userCount == st.userCount
    ensures st.followed.Some? ==> r.followed.Some?
    decreases |due|
  {
    if due == [] then st
    else DmLoop(if sent[0] then Flagged(st, due[0]) else st, due[1..], sent[1..])
  }

  /** Over rows that are not flagged yet, the loop does what backup.js's loop does. */
  lemma {:induction false} DmLoopAsBackup(st: RunState, due: seq<Row>, sent: seq<bool>)
    requires |sent| == |due|
    requires forall k :: 0 <= k < |due| ==> !due[k].dmSent
    ensures DmLoop(st, due, sent) == BackupBot.DmLoop(st, due, sent)
    decreases |due|
  {
    if due != [] {
      var s1 := if sent[0] then Flagged(st, due[0]) else st;
      assert s1 == (if sent[0] then BackupBot.Flagged(st, due[0]) else st);
      DmLoopAsBackup(s1, due[1..], sent[1..]);
    }
  }

  predicate DmInputs(file: Option<string>, now: int, sent: seq<bool>) {
    file.Some? ==> |sent| == |DueRows(ParseRows(file.value), now)|
  }

  /**
   * Lines 170-243: `now` is read once; followed.csv is read without
   * checking that it exists, so a missing file ends the script.
   */
  function DmPhase(st: RunState, now: int, sent: seq<bool>): (r: Result<RunState, ReadError>)
    requires DmInputs(st.followed, now, sent)
    ensures r.Failure? <==> st.followed.None?
    ensures r.Failure? ==> r.error == FollowedNotFound
    ensures r.Success? ==> r.value.userCount == st.userCount && r.value.followed.Some?
  {
    if st.followed.None? then Failure(FollowedNotFound)
    else Success(DmLoop(st, DueRows(ParseRows(st.followed.value), now), sent))
  }

  /**
   * The whole DM phase is backup.js's DM phase with every row judged at
   * the one clock reading: the flag-dependent pattern never matters,
   * because a due row is never flagged.
   */
  lemma DmPhaseAsBackup(st: RunState, now: int, sent: seq<bool>)
    requires DmInputs(st.followed, now, sent)
    ensures var clocks := Constant(|ParseRows(Contents(st.followed))|, now);
      BackupBot.DmInputs(st.followed, clocks, sent)
      && DmPhase(st, now, sent) == BackupBot.DmPhase(st, clocks, sent)
  {
    if st.followed.Some? {
      var rows := ParseRows(st.followed.value);
      var due := DueRows(rows, now);
      DueRowsOneClock(rows, now);
      assert forall k :: 0 <= k < |due| ==> !due[k].dmSent by {
        forall k | 0 <= k < |due|
          ensures !due[k].dmSent
        {
          assert due[k] in due;
        }
      }
      DmLoopAsBackup(st, due, sent);
    }
  }

  /** The DM phase keeps every row of followed.csv and its user. */
  lemma DmPhaseKeepsUsers(st: RunState, now: int, sent: seq<bool>)
    requires DmInputs(st.followed, now, sent)
    ensures var r := DmPhase(st, now, sent);
      r.Success? ==> Users(ParseRows(r.value.followed.value)) == Users(ParseRows(st.followed.value))
  {
    DmPhaseAsBackup(st, now, sent);
    BackupBot.DmPhaseKeepsUsers(st, Constant(|ParseRows(Contents(st.followed))|, now), sent);
  }

  /**
   * Over unflagged due rows, when every DM that gets through finds its own
   * line first, the loop only turns flags on and every row messaged reads
   * as sent afterwards.
   */
  lemma DmLoopFlagsSent(st: RunState, due: seq<Row>, sent: seq<bool>, at: seq<nat>)
    requires |sent| == |due| && |at| == |due|
    requires forall k :: 0 <= k < |due| ==> !due[k].dmSent
    requires BackupBot.OwnSteps(st, due, sent, at)
    ensures var before := ParseRows(Contents(st.followed));
      var after := ParseRows(Contents(DmLoop(st, due, sent).followed));
      && OnlyFlagsSet(before, after)
      && forall k :: 0 <= k < |due| && sent[k] ==> due[k].(dmSent := true) in after
  {
    DmLoopAsBackup(st, due, sent);
    BackupBot.DmLoopFlagsSent(st, due, sent, at);
  }

  // ---------------------------------------------------------------------
  // the DM loop as the script runs it, on ./data
  // ---------------------------------------------------------------------

  /** Lines 195-242: the loop over the due rows. */
  method MessageDue(due: seq<Row>, sent: seq<bool>, dir: DataDir)
    requires |sent| == |due|
    modifies dir
    ensures BackupBot.Snapshot(dir, 0) == DmLoop(old(BackupBot.Snapshot(dir, 0)), due, sent)
    ensures dir.targets == old(dir.targets) && dir.stats == old(dir.stats)
  {
    for i := 0 to |due|
      invariant DmLoop(old(BackupBot.Snapshot(dir, 0)), due, sent) == DmLoop(BackupBot.Snapshot(dir, 0), due[i..], sent[i..])
      invariant dir.targets == old(dir.targets) && dir.stats == old(dir.stats)
    {
      assert due[i..][1..] == due[i + 1..] && sent[i..][1..] == sent[i + 1..];
      if sent[i] {
        dir.WriteFollowed(MarkSentCopy(Contents(dir.followed), due[i]));
      }
    }
  }

  /** Lines 170-243: the DM phase; returns the error that ends the script, if any. */
  method RunDmPhase(now: int, sent: seq<bool>, dir: DataDir) returns (error: Option<ReadError>)
    requires DmInputs(dir.followed, now, sent)
    modifies dir
    ensures var r := DmPhase(old(BackupBot.Snapshot(dir, 0)), now, sent);
      if r.Success? then error == None && BackupBot.Snapshot(dir, 0) == r.value
      else error == Some(r.error) && BackupBot.Snapshot(dir, 0) == old(BackupBot.Snapshot(dir, 0))
    ensures dir.targets == old(dir.targets) && dir.stats == old(dir.stats)
  {
    if dir.followed.None? {
      return Some(FollowedNotFound);
    }
    error := None;
    var due := DueRows(ParseRows(dir.followed.value), now);
    MessageDue(due, sent, dir);
  }
}
