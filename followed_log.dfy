/**
 * The two CSV files the bot keeps in ./data: the target list (one username
 * per line, optional `username` header) and the followed log (one
 * `user,timestamp[,true]` row per line).  These helpers are textually the
 * same in follow_comment_bot.js, backup.js and copy.js.
 */
module FollowedLog {
  import opened Wrappers
  import opened Text

  /** What reading the files can throw. */
  datatype ReadError =
    | TargetsNotFound   // targets.csv is absent
    | NoTargets         // targets.csv has no non-blank line: `data[0]` is undefined
    | FollowedNotFound  // followed.csv is absent when the DM phase reads it

  function Contents(file: Option<string>): string {
    if file.None? then [] else file.value
  }

  // ---------------------------------------------------------------------
  // readTargets
  // ---------------------------------------------------------------------

  /** `lines.map(l => l.trim()).filter(Boolean)`. */
  function TrimmedNonBlank(lines: seq<string>): (r: seq<string>)
    ensures |r| <= |lines|
    ensures forall k :: 0 <= k < |r| ==> r[k] != [] && Unpadded(r[k])
  {
    if lines == [] then []
    else
      var t := Trim(lines[0]);
      (if t == [] then [] else [t]) + TrimmedNonBlank(lines[1..])
  }

  /** The non-blank lines of a file, trimmed, in file order. */
  function CleanLines(content: string): seq<string> {
    TrimmedNonBlank(Split(content, '\n'))
  }

  lemma {:induction false} TrimmedNonBlankAppend(a: seq<string>, b: seq<string>)
    ensures TrimmedNonBlank(a + b) == TrimmedNonBlank(a) + TrimmedNonBlank(b)
    decreases |a|
  {
    if a != [] {
      var t := Trim(a[0]);
      var front := if t == [] then [] else [t];
      assert (a + b)[0] == a[0] && (a + b)[1..] == a[1..] + b;
      assert TrimmedNonBlank(a + b) == front + TrimmedNonBlank(a[1..] + b);
      TrimmedNonBlankAppend(a[1..], b);
      ConcatAssoc(front, TrimmedNonBlank(a[1..]), TrimmedNonBlank(b));
    } else {
      assert a + b == b;
    }
  }

  /** Cleaning a file line by line keeps file order: the two sides of a newline clean independently. */
  lemma CleanLinesAround(a: string, b: string)
    ensures CleanLines(a + "\n" + b) == CleanLines(a) + CleanLines(b)
  {
    SplitAround(a, b, '\n');
    TrimmedNonBlankAppend(Split(a, '\n'), Split(b, '\n'));
  }

  /** Every line that is not blank once trimmed is kept. */
  lemma {:induction false} TrimmedNonBlankComplete(lines: seq<string>, k: nat)
    requires k < |lines| && Trim(lines[k]) != []
    ensures Trim(lines[k]) in TrimmedNonBlank(lines)
    decreases |lines|
  {
    if k > 0 {
      TrimmedNonBlankComplete(lines[1..], k - 1);
    }
  }

  /** A trimmed line holds no character its raw line did not. */
  lemma {:induction false} TrimmedNonBlankFree(lines: seq<string>, c: char)
    requires forall k :: 0 <= k < |lines| ==> c !in lines[k]
    ensures forall k :: 0 <= k < |TrimmedNonBlank(lines)| ==> c !in TrimmedNonBlank(lines)[k]
    decreases |lines|
  {
    if lines != [] {
      var head := Trim(lines[0]);
      var rest := TrimmedNonBlank(lines[1..]);
      assert forall k :: 0 <= k < |lines[1..]| ==> c !in lines[1..][k] by {
        forall k | 0 <= k < |lines[1..]| ensures c !in lines[1..][k] {
          assert lines[1..][k] == lines[k + 1];
        }
      }
      TrimmedNonBlankFree(lines[1..], c);
      TrimFree(lines[0], c);
      var front := if head == [] then [] else [head];
      assert TrimmedNonBlank(lines) == front + rest;
      forall k | 0 <= k < |front + rest| ensures c !in (front + rest)[k] {
        if k < |front| {
          assert (front + rest)[k] == head;
        } else {
          assert (front + rest)[k] == rest[k - |front|];
        }
      }
    }
  }

  /** `data[0].toLowerCase() === 'username'`. */
  predicate IsHeader(line: string) {
    ToLowerAscii(line) == "username"
  }

  /** readTargets(): the usernames to visit, or the error the script throws. */
  function ReadTargets(file: Option<string>): (r: Result<seq<string>, ReadError>)
    ensures file.None? <==> r == Failure(TargetsNotFound)
    ensures file.Some? ==> (r == Failure(NoTargets) <==> CleanLines(file.value) == [])
    ensures r.Success? ==> forall k :: 0 <= k < |r.value| ==> r.value[k] != [] && Unpadded(r.value[k])
  {
    if file.None? then Failure(TargetsNotFound)
    else
      var data := CleanLines(file.value);
      if data == [] then Failure(NoTargets)
      else if IsHeader(data[0]) then Success(data[1..])
      else Success(data)
  }

  /**
   * The targets are the file's cleaned lines, in order, less the first one
   * exactly when it is a `username` header; no target holds a newline.
   */
  lemma ReadTargetsLines(content: string)
    requires CleanLines(content) != []
    ensures var lines, r := CleanLines(content), ReadTargets(Some(content));
      && r.Success?
      && |lines| - 1 <= |r.value| <= |lines|
      && r.value == lines[|lines| - |r.value|..]
      && (|r.value| < |lines| <==> IsHeader(lines[0]))
      && forall k :: 0 <= k < |r.value| ==> '\n' !in r.value[k]
  {
    SplitPieces(content, '\n');
    TrimmedNonBlankFree(Split(content, '\n'), '\n');
  }

  // ---------------------------------------------------------------------
  // readAlreadyFollowed and logFollowed
  // ---------------------------------------------------------------------

  /** `lines.map(line => line.split(',')[0]).filter(Boolean)`. */
  function FirstFields(lines: seq<string>): (r: seq<string>)
    ensures |r| <= |lines|
    ensures forall k :: 0 <= k < |r| ==> r[k] != [] && ',' !in r[k]
  {
    if lines == [] then []
    else
      var f := Split(lines[0], ',')[0];
      (if f == [] then [] else [f]) + FirstFields(lines[1..])
  }

  lemma {:induction false} FirstFieldsAppend(a: seq<string>, b: seq<string>)
    ensures FirstFields(a + b) == FirstFields(a) + FirstFields(b)
    decreases |a|
  {
    if a != [] {
      var f := Split(a[0], ',')[0];
      var front := if f == [] then [] else [f];
      assert (a + b)[0] == a[0] && (a + b)[1..] == a[1..] + b;
      assert FirstFields(a + b) == front + FirstFields(a[1..] + b);
      FirstFieldsAppend(a[1..], b);
      ConcatAssoc(front, FirstFields(a[1..]), FirstFields(b));
    } else {
      assert a + b == b;
    }
  }

  /** Every line whose text before the first comma is non-empty contributes that text. */
  lemma {:induction false} FirstFieldsComplete(lines: seq<string>, k: nat)
    requires k < |lines| && Split(lines[k], ',')[0] != []
    ensures Split(lines[k], ',')[0] in FirstFields(lines)
    decreases |lines|
  {
    if k > 0 {
      FirstFieldsComplete(lines[1..], k - 1);
    }
  }

  /** readAlreadyFollowed(): the user field of every followed row, in file order. */
  function ReadAlreadyFollowed(file: Option<string>): (r: seq<string>)
    ensures file.None? ==> r == []
    ensures forall k :: 0 <= k < |r| ==> r[k] != [] && ',' !in r[k]
  {
    if file.None? then [] else FirstFields(Split(file.value, '\n'))
  }

  /** The row logFollowed(user) appends: `${user},${Date.now()}\n`. */
  function LogLine(user: string, now: int): (line: string)
    ensures line == RowText(user, now) + "\n"
    ensures '\n' !in user ==> line != [] && '\n' !in line[..|line| - 1] && line[|line| - 1] == '\n'
  {
    assert (RowText(user, now) + "\n")[..|RowText(user, now)|] == RowText(user, now);
    RowText(user, now) + "\n"
  }

  /** `fs.appendFileSync`: creates the file when it is absent. */
  function Append(file: Option<string>, text: string): (r: Option<string>)
    ensures r.Some? && r.value == Contents(file) + text
  {
    Some(Contents(file) + text)
  }

  /** A file to which a whole line can be appended: absent, empty or newline-terminated. */
  predicate LineAligned(file: Option<string>) {
    file.None? || file.value == [] || file.value[|file.value| - 1] == '\n'
  }

  /** What a username taken from targets.csv must be for its log row to read back as itself. */
  predicate PlainName(user: string) {
    user != [] && Unpadded(user) && ',' !in user && '\n' !in user
  }

  /** A row as logFollowed writes it, without its newline. */
  function RowText(user: string, now: int): string {
    user + "," + IntToString(now)
  }

  lemma RowTextFields(user: string, now: int)
    requires ',' !in user
    ensures Split(RowText(user, now), ',') == [user, IntToString(now)]
    ensures '\n' !in user ==> '\n' !in RowText(user, now)
  {
    SplitWithout(IntToString(now), ',');
    SplitAfterField(user, IntToString(now), ',');
    assert RowText(user, now) == user + [','] + IntToString(now);
  }

  lemma FollowedAround(a: string, b: string)
    ensures ReadAlreadyFollowed(Some(a + "\n" + b)) ==
            ReadAlreadyFollowed(Some(a)) + ReadAlreadyFollowed(Some(b))
  {
    SplitAround(a, b, '\n');
    FirstFieldsAppend(Split(a, '\n'), Split(b, '\n'));
  }

  lemma FollowedOfLine(line: string)
    requires '\n' !in line
    ensures ReadAlreadyFollowed(Some(line)) ==
            var f := FirstField(line, ','); if f == [] then [] else [f]
  {
    SplitWithout(line, '\n');
    assert FirstFields([line]) == (var f := FirstField(line, ','); if f == [] then [] else [f]) + FirstFields([]);
  }

  /** Appending a logged row leaves the file newline-terminated. */
  lemma LogKeepsAligned(file: Option<string>, user: string, now: int)
    ensures LineAligned(Append(file, LogLine(user, now)))
  {
    var t := Contents(file) + LogLine(user, now);
    assert t[|t| - 1] == '\n';
  }

  /** First fields of a file made of a line-aligned prefix, one line, and the rest. */
  lemma FollowedLineAfter(pre: string, line: string, post: string)
    requires pre == [] || pre[|pre| - 1] == '\n'
    requires '\n' !in line
    ensures ReadAlreadyFollowed(Some(pre + line + "\n" + post)) ==
            ReadAlreadyFollowed(Some(pre)) + ReadAlreadyFollowed(Some(line)) + ReadAlreadyFollowed(Some(post))
  {
    var rest := line + "\n" + post;
    var f, l, p := ReadAlreadyFollowed(Some(pre)), ReadAlreadyFollowed(Some(line)), ReadAlreadyFollowed(Some(post));
    FollowedAround(line, post);
    ConcatLine(pre, line, post);
    ConcatAssoc(f, l, p);
    FollowedOfLine([]);
    if pre == [] {
      ConcatUnit(rest);
      ConcatUnit(l + p);
    } else {
      var front := pre[..|pre| - 1];
      LastNewline(pre);
      FollowedAround(front, rest);
      ConcatUnit(pre);
      FollowedAround(front, []);
      ConcatUnit(ReadAlreadyFollowed(Some(front)));
    }
  }

  /**
   * Logging a follow makes the user show up, last, in the already-followed
   * list of the next run, and keeps the file line-aligned.
   */
  lemma LogThenReadAlreadyFollowed(file: Option<string>, user: string, now: int)
    requires LineAligned(file) && user != [] && ',' !in user && '\n' !in user
    ensures ReadAlreadyFollowed(Append(file, LogLine(user, now))) == ReadAlreadyFollowed(file) + [user]
    ensures LineAligned(Append(file, LogLine(user, now)))
  {
    var c := Contents(file);
    var line := RowText(user, now);
    var empty: string := [];
    assert ReadAlreadyFollowed(Some(line)) == [user] by {
      RowTextFields(user, now);
      FollowedOfLine(line);
    }
    assert ReadAlreadyFollowed(Some(empty)) == [] by {
      FollowedOfLine(empty);
    }
    assert ReadAlreadyFollowed(file) == ReadAlreadyFollowed(Some(c));
    assert Append(file, LogLine(user, now)) == Some(c + line + "\n" + empty) by {
      assert LogLine(user, now) == line + "\n";
      ConcatLine(c, line, empty);
      ConcatUnit(line + "\n");
      ConcatUnit(c + line + "\n");
    }
    assert ReadAlreadyFollowed(Some(c + line + "\n" + empty)) ==
           ReadAlreadyFollowed(Some(c)) + ReadAlreadyFollowed(Some(line)) + ReadAlreadyFollowed(Some(empty)) by {
      FollowedLineAfter(c, line, empty);
    }
    ConcatUnit(ReadAlreadyFollowed(Some(c)) + [user]);
    LogKeepsAligned(file, user, now);
  }

  /**
   * `after` is `before` followed by `n` more names, each taken from `pool`
   * and none of them in `excluded`.
   */
  predicate AppendedNames(before: seq<string>, after: seq<string>, n: int, pool: seq<string>, excluded: seq<string>) {
    n >= 0 && |after| == |before| + n && after[..|before|] == before
    && forall k :: |before| <= k < |after| ==> after[k] in pool && after[k] !in excluded
  }

  lemma AppendedNamesNone(names: seq<string>, pool: seq<string>, excluded: seq<string>)
    ensures AppendedNames(names, names, 0, pool, excluded)
  {
  }

  lemma AppendedNamesCons(before: seq<string>, u: string, after: seq<string>, n: int, pool: seq<string>, excluded: seq<string>)
    requires u in pool && u !in excluded
    requires AppendedNames(before + [u], after, n, pool, excluded)
    ensures AppendedNames(before, after, n + 1, pool, excluded)
  {
    assert after[..|before|] == (after[..|before| + 1])[..|before|];
  }

  lemma AppendedNamesWiden(before: seq<string>, after: seq<string>, n: int, pool: seq<string>, excluded: seq<string>)
    requires pool != [] && AppendedNames(before, after, n, pool[1..], excluded)
    ensures AppendedNames(before, after, n, pool, excluded)
  {
    forall k | |before| <= k < |after|
      ensures after[k] in pool
    {
      var j :| 0 <= j < |pool[1..]| && pool[1..][j] == after[k];
      assert pool[j + 1] == after[k];
    }
  }

  // ---------------------------------------------------------------------
  // rows of the followed log
  // ---------------------------------------------------------------------

  /** `{ user, ts: Number(ts || 0), dmSent: flag === 'true' }` */
  datatype Row = Row(user: string, ts: Num, dmSent: bool)

  /** `const [user, ts, flag] = l.split(',')` and the record built from it. */
  function ParseRow(line: string): (r: Row)
    ensures ',' !in r.user
  {
    var f := Split(line, ',');
    SplitPieces(line, ',');
    Row(f[0],
        if |f| < 2 || f[1] == [] then Finite(0) else ParseNumber(f[1]),
        |f| >= 3 && f[2] == "true")
  }

  /** A line without a comma is a user with `ts || 0`, that is 0, and no flag. */
  lemma ParseRowUserOnly(u: string)
    requires ',' !in u
    ensures ParseRow(u) == Row(u, Finite(0), false)
  {
    SplitWithout(u, ',');
  }

  /** A line `u,t`: ts is `Number(t || 0)` and there is no flag. */
  lemma ParseRowTwoFields(u: string, t: string)
    requires ',' !in u && ',' !in t
    ensures ParseRow(u + "," + t) == Row(u, if t == [] then Finite(0) else ParseNumber(t), false)
  {
    assert u + "," + t == u + [','] + t;
    SplitWithout(t, ',');
    SplitAfterField(u, t, ',');
  }

  /**
   * A line `u,t,g`: ts is `Number(t || 0)`, and the row is sent exactly
   * when the third field, the text of g before any further comma, is `true`.
   */
  lemma ParseRowFields(u: string, t: string, g: string)
    requires ',' !in u && ',' !in t
    ensures ParseRow(u + "," + t + "," + g)
      == Row(u, if t == [] then Finite(0) else ParseNumber(t), FirstField(g, ',') == "true")
  {
    assert u + "," + t + "," + g == u + [','] + (t + [','] + g);
    SplitAfterField(t, g, ',');
    SplitAfterField(u, t + [','] + g, ',');
  }

  /** A parsed user holds no character its line did not. */
  lemma ParseRowFree(line: string, c: char)
    requires c !in line
    ensures c !in ParseRow(line).user
  {
    var u := ParseRow(line).user;
    assert u == FirstField(line, ',');
    assert forall q :: 0 <= q < |u| ==> u[q] == line[q];
  }

  /** `.map(l => { ... })` over the cleaned lines. */
  function ParseAll(lines: seq<string>): (rows: seq<Row>)
    ensures |rows| == |lines|
  {
    if lines == [] then [] else [ParseRow(lines[0])] + ParseAll(lines[1..])
  }

  lemma {:induction false} ParseAllAppend(a: seq<string>, b: seq<string>)
    ensures ParseAll(a + b) == ParseAll(a) + ParseAll(b)
    decreases |a|
  {
    if a != [] {
      var front := [ParseRow(a[0])];
      assert (a + b)[0] == a[0] && (a + b)[1..] == a[1..] + b;
      assert ParseAll(a + b) == front + ParseAll(a[1..] + b);
      ParseAllAppend(a[1..], b);
      ConcatAssoc(front, ParseAll(a[1..]), ParseAll(b));
    } else {
      assert a + b == b;
    }
  }

  /** The rows of followed.csv: its cleaned lines, parsed. */
  function ParseRows(content: string): (rows: seq<Row>)
    ensures |rows| == |CleanLines(content)|
  {
    ParseAll(CleanLines(content))
  }

  lemma ParseRowsAround(a: string, b: string)
    ensures ParseRows(a + "\n" + b) == ParseRows(a) + ParseRows(b)
  {
    CleanLinesAround(a, b);
    ParseAllAppend(CleanLines(a), CleanLines(b));
  }

  /** An unpadded, newline-free, non-empty line is one row. */
  lemma ParseRowsOfLine(line: string)
    requires line != [] && Unpadded(line) && '\n' !in line
    ensures ParseRows(line) == [ParseRow(line)]
  {
    SplitWithout(line, '\n');
    TrimUnpadded(line);
    assert TrimmedNonBlank([line]) == [line] + TrimmedNonBlank([]);
  }

  /** A file that starts with such a line: that row, then the rest. */
  lemma ParseRowsLineFirst(line: string, post: string)
    requires line != [] && Unpadded(line) && '\n' !in line
    ensures ParseRows(line + "\n" + post) == [ParseRow(line)] + ParseRows(post)
  {
    ParseRowsOfLine(line);
    ParseRowsAround(line, post);
  }

  /** No parsed user contains a newline: each comes from one line of the file. */
  lemma RowsNoNewline(content: string)
    ensures forall k :: 0 <= k < |ParseRows(content)| ==> '\n' !in ParseRows(content)[k].user
  {
    SplitPieces(content, '\n');
    TrimmedNonBlankFree(Split(content, '\n'), '\n');
    ParseAllFree(CleanLines(content), '\n');
  }

  lemma {:induction false} ParseAllFree(lines: seq<string>, c: char)
    requires forall k :: 0 <= k < |lines| ==> c !in lines[k]
    ensures forall k :: 0 <= k < |ParseAll(lines)| ==> c !in ParseAll(lines)[k].user
    decreases |lines|
  {
    if lines != [] {
      var rest := lines[1..];
      assert forall k :: 0 <= k < |rest| ==> c !in rest[k] by {
        forall k | 0 <= k < |rest| ensures c !in rest[k] {
          assert rest[k] == lines[k + 1];
        }
      }
      ParseAllFree(rest, c);
      ParseRowFree(lines[0], c);
      var rows := ParseAll(lines);
      assert rows == [ParseRow(lines[0])] + ParseAll(rest);
      forall k | 0 <= k < |rows| ensures c !in rows[k].user {
        if k > 0 {
          assert rows[k] == ParseAll(rest)[k - 1];
        }
      }
    }
  }

  /** The user names of some rows, in order. */
  function Users(rows: seq<Row>): (names: seq<string>)
    ensures |names| == |rows| && forall k :: 0 <= k < |rows| ==> names[k] == rows[k].user
  {
    seq(|rows|, k requires 0 <= k < |rows| => rows[k].user)
  }

  lemma UsersAppend(a: seq<Row>, b: seq<Row>)
    ensures Users(a + b) == Users(a) + Users(b)
  {
  }

  lemma ParseRowsEmpty()
    ensures ParseRows([]) == []
  {
    assert Split([], '\n') == [[]];
  }

  /** A row written by logFollowed reads back as that user, that time and no DM yet. */
  lemma ParseLoggedRow(user: string, now: int)
    requires PlainName(user)
    ensures ParseRow(RowText(user, now)) == Row(user, Finite(now), false)
  {
    RowTextFields(user, now);
    ParseIntToString(now);
  }

  /**
   * Logging a follow appends exactly one row, `{user, ts: now, dmSent: false}`,
   * to what the DM phase will parse.
   */
  lemma LogThenParseRows(file: Option<string>, user: string, now: int)
    requires LineAligned(file) && PlainName(user)
    ensures ParseRows(Contents(Append(file, LogLine(user, now)))) ==
            ParseRows(Contents(file)) + [Row(user, Finite(now), false)]
  {
    var c := Contents(file);
    var line := RowText(user, now);
    RowTextFields(user, now);
    ParseLoggedRow(user, now);
    RowTextUnpadded(user, now);
    assert LogLine(user, now) == line + "\n";
    ConcatLine(c, line, []);
    ConcatUnit(line + "\n");
    ParseRowsLineAfter(c, line, []);
    ParseRowsEmpty();
    ConcatUnit(ParseRows(c) + [Row(user, Finite(now), false)]);
  }

  lemma RowTextUnpadded(user: string, now: int)
    requires PlainName(user)
    ensures Unpadded(RowText(user, now)) && RowText(user, now) != []
  {
    var line, d := RowText(user, now), IntToString(now);
    assert line[|line| - 1] == d[|d| - 1];
  }

  /** Rows of a file made of a line-aligned prefix, one line, and the rest. */
  lemma ParseRowsLineAfter(pre: string, line: string, post: string)
    requires pre == [] || pre[|pre| - 1] == '\n'
    requires line != [] && Unpadded(line) && '\n' !in line
    ensures ParseRows(pre + line + "\n" + post) == ParseRows(pre) + [ParseRow(line)] + ParseRows(post)
  {
    var rest := line + "\n" + post;
    ParseRowsOfLine(line);
    ParseRowsAround(line, post);
    ConcatLine(pre, line, post);
    ConcatAssoc(ParseRows(pre), [ParseRow(line)], ParseRows(post));
    ParseRowsEmpty();
    if pre == [] {
      ConcatUnit(rest);
      ConcatUnit(ParseRows(rest));
    } else {
      var front := pre[..|pre| - 1];
      LastNewline(pre);
      ParseRowsAround(front, rest);
      ConcatUnit(pre);
      ParseRowsAround(front, []);
      ConcatUnit(ParseRows(front));
    }
  }

  /** Text appended to a line-aligned file parses as rows after the file's own. */
  lemma ParseRowsAligned(pre: string, post: string)
    requires pre == [] || pre[|pre| - 1] == '\n'
    ensures ParseRows(pre + post) == ParseRows(pre) + ParseRows(post)
  {
    ParseRowsEmpty();
    if pre == [] {
      ConcatUnit(post);
      ConcatUnit(ParseRows(post));
    } else {
      var front := pre[..|pre| - 1];
      LastNewline(pre);
      ParseRowsAround(front, post);
      ParseRowsAround(front, []);
      ConcatUnit(pre);
      ConcatUnit(ParseRows(front));
      assert pre + post == front + "\n" + post;
    }
  }

  // ---------------------------------------------------------------------
  // the 7-day selection
  // ---------------------------------------------------------------------

  /** `7 * 24 * 60 * 60 * 1000` milliseconds. */
  const Week: int := 7 * 24 * 60 * 60 * 1000

  /** `!r.dmSent && (now - r.ts >= WEEK)`; a NaN timestamp compares false. */
  predicate DueAt(r: Row, now: int)
    ensures DueAt(r, now) ==> !r.dmSent && r.ts.Finite?
  {
    !r.dmSent && r.ts.Finite? && now - r.ts.value >= Week
  }

  /**
   * `followedRows.filter(r => !r.dmSent && (Date.now() - r.ts >= WEEK))`,
   * where clocks[k] is what `Date.now()` reads while row k is judged.
   */
  function DueRowsAt(rows: seq<Row>, clocks: seq<int>): (due: seq<Row>)
    requires |clocks| == |rows|
    ensures |due| <= |rows|
    ensures forall k :: 0 <= k < |due| ==> due[k] in rows && !due[k].dmSent && due[k].ts.Finite?
  {
    if rows == [] then []
    else (if DueAt(rows[0], clocks[0]) then [rows[0]] else []) + DueRowsAt(rows[1..], clocks[1..])
  }

  /** The selection keeps file order: it distributes over concatenation. */
  lemma {:induction false} DueRowsAtAppend(a: seq<Row>, ca: seq<int>, b: seq<Row>, cb: seq<int>)
    requires |ca| == |a| && |cb| == |b|
    ensures DueRowsAt(a + b, ca + cb) == DueRowsAt(a, ca) + DueRowsAt(b, cb)
    decreases |a|
  {
    if a != [] {
      var front := if DueAt(a[0], ca[0]) then [a[0]] else [];
      assert (a + b)[0] == a[0] && (a + b)[1..] == a[1..] + b;
      assert (ca + cb)[0] == ca[0] && (ca + cb)[1..] == ca[1..] + cb;
      assert DueRowsAt(a + b, ca + cb) == front + DueRowsAt(a[1..] + b, ca[1..] + cb);
      DueRowsAtAppend(a[1..], ca[1..], b, cb);
      ConcatAssoc(front, DueRowsAt(a[1..], ca[1..]), DueRowsAt(b, cb));
    } else {
      assert a + b == b && ca + cb == cb;
    }
  }

  /** `r` is a row of the file that was due when the clock was read for it. */
  predicate DueIn(rows: seq<Row>, clocks: seq<int>, r: Row)
    requires |clocks| == |rows|
  {
    exists j :: 0 <= j < |rows| && rows[j] == r && DueAt(r, clocks[j])
  }

  /** Every selected row is a row of the file that was due at its own clock reading. */
  lemma {:induction false} DueRowsAtSound(rows: seq<Row>, clocks: seq<int>)
    requires |clocks| == |rows|
    ensures forall k :: 0 <= k < |DueRowsAt(rows, clocks)| ==> DueIn(rows, clocks, DueRowsAt(rows, clocks)[k])
    decreases |rows|
  {
    if rows != [] {
      var due := DueRowsAt(rows, clocks);
      var front := if DueAt(rows[0], clocks[0]) then [rows[0]] else [];
      var rest := DueRowsAt(rows[1..], clocks[1..]);
      assert due == front + rest;
      DueRowsAtSound(rows[1..], clocks[1..]);
      forall k | 0 <= k < |due| ensures DueIn(rows, clocks, due[k]) {
        if k < |front| {
          assert due[k] == rows[0] && DueAt(rows[0], clocks[0]);
        } else {
          assert due[k] == rest[k - |front|];
          assert DueIn(rows[1..], clocks[1..], due[k]);
          var j :| 0 <= j < |rows[1..]| && rows[1..][j] == due[k] && DueAt(due[k], clocks[1..][j]);
          assert rows[j + 1] == due[k] && clocks[j + 1] == clocks[1..][j];
        }
      }
    }
  }

  /** Every row that is due at its own reading of the clock is selected. */
  lemma {:induction false} DueRowsAtComplete(rows: seq<Row>, clocks: seq<int>, k: nat)
    requires |clocks| == |rows| && k < |rows| && DueAt(rows[k], clocks[k])
    ensures rows[k] in DueRowsAt(rows, clocks)
    decreases |rows|
  {
    if k > 0 {
      DueRowsAtComplete(rows[1..], clocks[1..], k - 1);
    }
  }

  // ---------------------------------------------------------------------
  // marking a DM as sent
  // ---------------------------------------------------------------------

  /** `${username},${t.ts}`: the text the rewrite searches for. */
  function Pattern(r: Row): (p: string)
    ensures r.ts.Finite? ==> p == RowText(r.user, r.ts.value)
    ensures |r.user| < |p| && p[..|r.user|] == r.user && p[|r.user|] == ','
    ensures '\n' !in r.user ==> '\n' !in p
  {
    var n := NumToString(r.ts);
    assert '\n' !in n by {
      if r.ts.Finite? {
        assert IsWhite('\n');
      }
    }
    var p := r.user + "," + n;
    assert forall k :: |r.user| < k < |p| ==> p[k] == n[k - |r.user| - 1];
    p
  }

  /**
   * `oldContent.replace(`${username},${t.ts}`, `${username},${t.ts},true`)`:
   * the first occurrence of the pattern anywhere in the file gets `,true`
   * after it; a file without the pattern is written back unchanged.
   */
  function MarkSent(content: string, r: Row): (out: string)
    ensures IndexOf(content, Pattern(r)).None? ==> out == content
    ensures IndexOf(content, Pattern(r)).Some? ==>
      var k := IndexOf(content, Pattern(r)).value;
      out == content[..k + |Pattern(r)|] + ",true" + content[k + |Pattern(r)|..]
  {
    var p := Pattern(r);
    var out := ReplaceFirst(content, p, p + ",true");
    if IndexOf(content, p).Some? then ReplaceFirstExtends(content, p, ",true"); out else out
  }

  lemma FlaggedFields(user: string, d: string)
    requires ',' !in user && ',' !in d
    ensures Split(user + "," + d + ",true", ',') == [user, d, "true"]
  {
    assert user + "," + d + ",true" == user + [','] + (d + [','] + "true");
    SplitWithout("true", ',');
    SplitAfterField(d, "true", ',');
    SplitAfterField(user, d + [','] + "true", ',');
  }

  /** A logged row with `,true` after it reads back as sent. */
  lemma ParseFlaggedRow(user: string, ts: int)
    requires PlainName(user)
    ensures ParseRow(RowText(user, ts) + ",true") == Row(user, Finite(ts), true)
  {
    FlaggedFields(user, IntToString(ts));
    ParseIntToString(ts);
  }

  lemma FlagInsert(pre: string, line: string, post: string)
    ensures var c := pre + line + "\n" + post;
      c[..|pre| + |line|] + ",true" + c[|pre| + |line|..] == pre + (line + ",true") + "\n" + post
  {
    var c := pre + line + "\n" + post;
    assert c[..|pre| + |line|] == pre + line;
    assert c[|pre| + |line|..] == "\n" + post;
  }

  lemma FlaggedUnpadded(line: string)
    requires line != [] && Unpadded(line) && '\n' !in line
    ensures Unpadded(line + ",true") && '\n' !in line + ",true"
  {
    assert (line + ",true")[0] == line[0];
  }

  /** The rewrite puts `,true` right after the row's own text when that is the first match. */
  lemma MarkSentText(pre: string, user: string, ts: int, post: string)
    requires IndexOf(pre + RowText(user, ts) + "\n" + post, RowText(user, ts)) == Some(|pre|)
    ensures MarkSent(pre + RowText(user, ts) + "\n" + post, Row(user, Finite(ts), false)) ==
            pre + (RowText(user, ts) + ",true") + "\n" + post
  {
    assert Pattern(Row(user, Finite(ts), false)) == RowText(user, ts);
    FlagInsert(pre, RowText(user, ts), post);
  }

  /**
   * When the first occurrence of the pattern is the row's own line, exactly
   * that row becomes `dmSent = true` and every other row reads as before.
   */
  lemma MarkSentFlagsRow(pre: string, user: string, ts: int, post: string)
    requires pre == [] || pre[|pre| - 1] == '\n'
    requires PlainName(user)
    requires IndexOf(pre + RowText(user, ts) + "\n" + post, RowText(user, ts)) == Some(|pre|)
    ensures var content := pre + RowText(user, ts) + "\n" + post;
      && ParseRows(content) == ParseRows(pre) + [Row(user, Finite(ts), false)] + ParseRows(post)
      && ParseRows(MarkSent(content, Row(user, Finite(ts), false)))
         == ParseRows(pre) + [Row(user, Finite(ts), true)] + ParseRows(post)
  {
    var line := RowText(user, ts);
    var flagged := line + ",true";
    MarkSentText(pre, user, ts, post);
    RowTextFields(user, ts);
    RowTextUnpadded(user, ts);
    ParseLoggedRow(user, ts);
    ParseFlaggedRow(user, ts);
    FlaggedUnpadded(line);
    ParseRowsLineAfter(pre, line, post);
    ParseRowsLineAfter(pre, flagged, post);
  }

  /**
   * The rewrite is a substring search, not a lookup by row: when the
   * pattern first occurs inside an earlier line, `,true` is inserted into
   * that line right after the match, and the messaged row still reads as
   * not sent.
   */
  lemma MarkSentMissesRow(pre: string, user: string, ts: int, post: string, i: nat, flagged: string)
    requires pre != [] && pre[|pre| - 1] == '\n'
    requires PlainName(user)
    requires IndexOf(pre + RowText(user, ts) + "\n" + post, RowText(user, ts)) == Some(i)
    requires i + |RowText(user, ts)| < |pre|
    requires flagged == pre[..i + |RowText(user, ts)|] + ",true" + pre[i + |RowText(user, ts)|..]
    ensures ParseRows(MarkSent(pre + RowText(user, ts) + "\n" + post, Row(user, Finite(ts), false)))
        == ParseRows(flagged) + [Row(user, Finite(ts), false)] + ParseRows(post)
  {
    MarkSentInPrefix(pre, user, ts, post, i);
    FlagKeepsNewline(pre, i + |RowText(user, ts)|);
    ParseLoggedLineAfter(flagged, user, ts, post);
  }

  /** Inserting `,true` before the last character of a newline-terminated text keeps it newline-terminated. */
  lemma FlagKeepsNewline(pre: string, k: nat)
    requires k < |pre| && pre[|pre| - 1] == '\n'
    ensures var flagged := pre[..k] + ",true" + pre[k..];
      flagged != [] && flagged[|flagged| - 1] == '\n'
  {
    var flagged := pre[..k] + ",true" + pre[k..];
    assert flagged[|flagged| - 1] == pre[k..][|pre[k..]| - 1];
  }

  /** A first match that ends inside `pre` puts the flag there and leaves the rest of the text alone. */
  lemma MarkSentInPrefix(pre: string, user: string, ts: int, post: string, i: nat)
    requires IndexOf(pre + RowText(user, ts) + "\n" + post, RowText(user, ts)) == Some(i)
    requires i + |RowText(user, ts)| <= |pre|
    ensures var k := i + |RowText(user, ts)|;
      MarkSent(pre + RowText(user, ts) + "\n" + post, Row(user, Finite(ts), false))
        == pre[..k] + ",true" + pre[k..] + RowText(user, ts) + "\n" + post
  {
    var line := RowText(user, ts);
    var content := pre + line + "\n" + post;
    var k := i + |line|;
    var flagged := pre[..k] + ",true" + pre[k..];
    var rest := line + "\n" + post;
    assert content == pre + rest by {
      ConcatLine(pre, line, post);
    }
    assert MarkSent(content, Row(user, Finite(ts), false)) == content[..k] + ",true" + content[k..] by {
      assert Pattern(Row(user, Finite(ts), false)) == line;
    }
    assert content[..k] + ",true" + content[k..] == flagged + rest by {
      InsertInPrefix(pre, rest, k, ",true");
    }
    ConcatLine(flagged, line, post);
  }

  /** A logged row after a line-aligned prefix reads back as itself, between the prefix's rows and the rest. */
  lemma ParseLoggedLineAfter(pre: string, user: string, ts: int, post: string)
    requires pre == [] || pre[|pre| - 1] == '\n'
    requires PlainName(user)
    ensures ParseRows(pre + RowText(user, ts) + "\n" + post)
      == ParseRows(pre) + [Row(user, Finite(ts), false)] + ParseRows(post)
  {
    var line := RowText(user, ts);
    RowTextFields(user, ts);
    RowTextUnpadded(user, ts);
    ParseRowsLineAfter(pre, line, post);
    ParseLoggedRow(user, ts);
  }

  /**
   * The hazard is real: after logging `prefix + user` and then `user` in
   * the same millisecond (say `jimbob` and `bob`), messaging `user` puts
   * the flag on the first line, and the messaged row, the last one, still
   * reads as not sent.
   */
  lemma MarkSentHitsLongerName(prefix: string, user: string, ts: int)
    requires prefix != [] && PlainName(prefix + user) && PlainName(user)
    ensures var content := RowText(prefix + user, ts) + "\n" + RowText(user, ts) + "\n";
      var rows := ParseRows(MarkSent(content, Row(user, Finite(ts), false)));
      && ParseRows(content) == [Row(prefix + user, Finite(ts), false), Row(user, Finite(ts), false)]
      && rows != [] && rows[|rows| - 1] == Row(user, Finite(ts), false)
  {
    HazardRows(prefix, user, ts);
    HazardStillUnsent(prefix, user, ts);
  }

  /** The two logged lines read back as the two rows. */
  lemma HazardRows(prefix: string, user: string, ts: int)
    requires PlainName(prefix + user) && PlainName(user)
    ensures ParseRows(RowText(prefix + user, ts) + "\n" + RowText(user, ts) + "\n")
      == [Row(prefix + user, Finite(ts), false), Row(user, Finite(ts), false)]
  {
    var a, b := RowText(prefix + user, ts), RowText(user, ts);
    assert a + "\n" + b + "\n" == a + "\n" + b + "\n" + "" by {
      ConcatUnit(a + "\n" + b + "\n");
    }
    RowTextFields(prefix + user, ts);
    RowTextUnpadded(prefix + user, ts);
    RowTextFields(user, ts);
    RowTextUnpadded(user, ts);
    ParseTwoRows(a, b);
    ParseLoggedRow(prefix + user, ts);
    ParseLoggedRow(user, ts);
  }

  /** After messaging `user`, the last row, `user`'s own, still reads as not sent. */
  lemma HazardStillUnsent(prefix: string, user: string, ts: int)
    requires prefix != [] && PlainName(user)
    ensures var rows := ParseRows(MarkSent(RowText(prefix + user, ts) + "\n" + RowText(user, ts) + "\n", Row(user, Finite(ts), false)));
      rows != [] && rows[|rows| - 1] == Row(user, Finite(ts), false)
  {
    HazardStep(prefix, user, ts, RowText(prefix + user, ts) + "\n" + RowText(user, ts) + "\n");
  }

  lemma HazardStep(prefix: string, user: string, ts: int, text: string)
    requires prefix != [] && PlainName(user)
    requires text == RowText(prefix + user, ts) + "\n" + RowText(user, ts) + "\n"
    ensures var rows := ParseRows(MarkSent(text, Row(user, Finite(ts), false)));
      rows != [] && rows[|rows| - 1] == Row(user, Finite(ts), false)
  {
    var line := RowText(user, ts);
    var pre := RowText(prefix + user, ts) + "\n";
    var content := pre + line + "\n" + "";
    assert text == content by {
      ConcatUnit(pre + line + "\n");
    }
    HazardIndex(prefix, user, ts);
    var i := IndexOf(text, line).value;
    assert i + |line| < |pre| by {
      assert RowText(prefix + user, ts) == prefix + line;
    }
    var k := i + |line|;
    HazardLast(pre, user, ts, text, i, pre[..k] + ",true" + pre[k..]);
  }

  lemma HazardLast(pre: string, user: string, ts: int, content: string, i: nat, flagged: string)
    requires pre != [] && pre[|pre| - 1] == '\n'
    requires PlainName(user)
    requires content == pre + RowText(user, ts) + "\n" + ""
    requires IndexOf(content, RowText(user, ts)) == Some(i)
    requires i + |RowText(user, ts)| < |pre|
    requires flagged == pre[..i + |RowText(user, ts)|] + ",true" + pre[i + |RowText(user, ts)|..]
    ensures var rows := ParseRows(MarkSent(content, Row(user, Finite(ts), false)));
      rows != [] && rows[|rows| - 1] == Row(user, Finite(ts), false)
  {
    var row := Row(user, Finite(ts), false);
    var rows := ParseRows(MarkSent(content, row));
    assert rows == ParseRows(flagged) + [row] + ParseRows("") by {
      MarkSentMissesRow(pre, user, ts, "", i, flagged);
    }
    ParseRowsEmpty();
    assert rows == ParseRows(flagged) + [row];
  }

  /** The later row's text first occurs no later than inside the earlier row. */
  lemma HazardIndex(prefix: string, user: string, ts: int)
    ensures var line := RowText(user, ts);
      var content := RowText(prefix + user, ts) + "\n" + line + "\n" + "";
      IndexOf(content, line).Some? && IndexOf(content, line).value <= |prefix|
  {
    var line := RowText(user, ts);
    var content := RowText(prefix + user, ts) + "\n" + line + "\n" + "";
    assert RowText(prefix + user, ts) == prefix + line;
    assert content[|prefix|..|prefix| + |line|] == line;
    assert OccursAt(content, line, |prefix|);
  }

  /** A file of two such lines is their two rows. */
  lemma ParseTwoRows(a: string, b: string)
    requires a != [] && Unpadded(a) && '\n' !in a
    requires b != [] && Unpadded(b) && '\n' !in b
    ensures ParseRows(a + "\n" + b + "\n" + "") == [ParseRow(a), ParseRow(b)]
  {
    var rest := b + "\n" + "";
    ConcatAssoc(a + "\n", b + "\n", "");
    ConcatAssoc(a + "\n", b, "\n");
    ParseRowsLineFirst(a, rest);
    ParseRowsLineFirst(b, "");
    ParseRowsEmpty();
  }

  lemma TwiceFlaggedFields(user: string, d: string)
    requires ',' !in user && ',' !in d
    ensures Split(user + "," + d + ",true,true", ',') == [user, d, "true", "true"]
  {
    var tail := "true" + [','] + "true";
    assert user + "," + d + ",true,true" == user + [','] + (d + [','] + tail);
    SplitWithout("true", ',');
    SplitAfterField("true", "true", ',');
    SplitAfterField(d, tail, ',');
    SplitAfterField(user, d + [','] + tail, ',');
  }

  /** A row flagged twice, `user,ts,true,true`, still reads as sent. */
  lemma ParseTwiceFlaggedRow(user: string, ts: int)
    requires PlainName(user)
    ensures ParseRow(RowText(user, ts) + ",true,true") == Row(user, Finite(ts), true)
  {
    TwiceFlaggedFields(user, IntToString(ts));
    ParseIntToString(ts);
  }

  // ---------------------------------------------------------------------
  // what a rewrite does to the rows, whatever line the first match is in
  // ---------------------------------------------------------------------

  /** Text before a line break parses before the rows after it. */
  lemma ParseRowsBeforeBreak(x: string, post: string)
    requires post == [] || post[0] == '\n'
    ensures ParseRows(x + post) == ParseRows(x) + ParseRows(post)
  {
    if post == [] {
      ParseRowsEmpty();
      assert x + post == x;
    } else {
      assert post == "\n" + post[1..];
      ParseRowsBreakFirst(x, post[1..]);
    }
  }

  lemma ParseRowsBreakFirst(x: string, b: string)
    ensures ParseRows(x + ("\n" + b)) == ParseRows(x) + ParseRows("\n" + b)
  {
    var empty: string := [];
    assert ParseRows("\n" + b) == ParseRows(b) by {
      ConcatUnit("\n");
      ParseRowsAround(empty, b);
      ParseRowsEmpty();
    }
    assert ParseRows(x + ("\n" + b)) == ParseRows(x) + ParseRows(b) by {
      ConcatAssoc(x, "\n", b);
      ParseRowsAround(x, b);
    }
  }

  /** A stretch of text between line breaks parses on its own. */
  lemma ParseRowsSplice(pre: string, mid: string, post: string)
    requires pre == [] || pre[|pre| - 1] == '\n'
    requires post == [] || post[0] == '\n'
    ensures ParseRows(pre + mid + post) == ParseRows(pre) + ParseRows(mid) + ParseRows(post)
  {
    assert ParseRows(pre + mid + post) == ParseRows(pre) + ParseRows(mid + post) by {
      ParseRowsAligned(pre, mid + post);
      ConcatAssoc(pre, mid, post);
    }
    ParseRowsBeforeBreak(mid, post);
    ConcatAssoc(ParseRows(pre), ParseRows(mid), ParseRows(post));
  }

  /** One line that is not blank is one row, read from its trimmed text. */
  lemma OneLineRow(line: string)
    requires '\n' !in line && Trim(line) != []
    ensures ParseRows(line) == [ParseRow(Trim(line))]
  {
    SplitWithout(line, '\n');
    assert TrimmedNonBlank([line]) == [Trim(line)] + TrimmedNonBlank([]);
  }

  /** Replacing one row by another of the same user keeps the users. */
  lemma UsersReplace(a: seq<Row>, r1: Row, r2: Row, b: seq<Row>)
    requires r1.user == r2.user
    ensures Users(a + [r2] + b) == Users(a + [r1] + b)
  {
    assert Users([r2]) == Users([r1]);
    UsersAppend(a + [r1], b);
    UsersAppend(a, [r1]);
    UsersAppend(a + [r2], b);
    UsersAppend(a, [r2]);
  }

  /** The rows of a text whose middle is one line that is not blank. */
  lemma LineRowsSplice(pre: string, line: string, post: string)
    requires pre == [] || pre[|pre| - 1] == '\n'
    requires post == [] || post[0] == '\n'
    requires '\n' !in line && Trim(line) != []
    ensures ParseRows(pre + line + post) == ParseRows(pre) + [ParseRow(Trim(line))] + ParseRows(post)
  {
    OneLineRow(line);
    ParseRowsSplice(pre, line, post);
  }

  /** `,true` inserted after a comma of one line keeps every row and every user. */
  lemma SpliceKeepsUsers(pre: string, line: string, line2: string, post: string, c0: nat, m: nat)
    requires pre == [] || pre[|pre| - 1] == '\n'
    requires post == [] || post[0] == '\n'
    requires '\n' !in line && c0 < m <= |line| && line[c0] == ','
    requires line2 == line[..m] + ",true" + line[m..]
    ensures Users(ParseRows(pre + line2 + post)) == Users(ParseRows(pre + line + post))
  {
    InsertFree(line, m, ",true", '\n');
    InsertKeepsFirstField(line, c0, m, ",true");
    LineRowsSplice(pre, line, post);
    LineRowsSplice(pre, line2, post);
    UsersReplace(ParseRows(pre), ParseRow(Trim(line)), ParseRow(Trim(line2)), ParseRows(post));
  }

  /**
   * Whatever line the first match of the pattern falls in, the rewrite
   * adds no line and removes none, and every row keeps its user: the
   * pattern holds the user's comma, and `,true` goes in after it.
   */
  lemma MarkSentKeepsUsers(content: string, t: Row)
    requires '\n' !in t.user
    ensures Users(ParseRows(MarkSent(content, t))) == Users(ParseRows(content))
  {
    var p := Pattern(t);
    if IndexOf(content, p).Some? {
      var i := IndexOf(content, p).value;
      var k := i + |p|;
      assert MarkSent(content, t) == content[..k] + ",true" + content[k..];
      assert Users(ParseRows(content[..k] + ",true" + content[k..])) == Users(ParseRows(content)) by {
        OccursAtChars(content, p, i);
        var c := i + |t.user|;
        assert content[c] == p[|t.user|];
        InsertKeepsUsers(content, c, k);
      }
    } else {
      assert MarkSent(content, t) == content;
    }
  }

  /** `,true` inserted into a line after one of its commas keeps the users. */
  lemma InsertKeepsUsers(content: string, c: nat, k: nat)
    requires c < k <= |content| && content[c] == ','
    requires forall q :: c <= q < k ==> content[q] != '\n'
    ensures Users(ParseRows(content[..k] + ",true" + content[k..])) == Users(ParseRows(content))
  {
    var pre, line, post, c0, m := LineAround(content, c, k);
    assert m == k - |pre|;
    var line2 := line[..k - |pre|] + ",true" + line[k - |pre|..];
    InsertSplit(content, pre, line, post, k, ",true");
    SpliceKeepsUsers(pre, line, line2, post, c0, k - |pre|);
  }

  /**
   * The line around the newline-free stretch `[c, k)` of `content`, with
   * what is before and after it; `c0` and `m` are `c` and `k` within it.
   */
  lemma LineAround(content: string, c: nat, k: nat) returns (pre: string, line: string, post: string, c0: nat, m: nat)
    requires c < k <= |content| && content[c] == ','
    requires forall q :: c <= q < k ==> content[q] != '\n'
    ensures content == pre + line + post
    ensures pre == [] || pre[|pre| - 1] == '\n'
    ensures post == [] || post[0] == '\n'
    ensures '\n' !in line
    ensures c0 < m <= |line| && line[c0] == ',' && k == |pre| + m
  {
    var s, e := EnclosingLine(content, c, k);
    pre, line, post := content[..s], content[s..e], content[e..];
    c0, m := c - s, k - s;
    assert c0 < m <= |line| && line[c0] == ',' && k == |pre| + m by {
      assert |pre| == s && |line| == e - s;
    }
    CutAfterNewline(content, s);
    CutBeforeNewline(content, e);
    ThreeParts(content, s, e);
  }

  /** The line around the newline-free stretch `[c, k)` of `content`. */
  lemma EnclosingLine(content: string, c: nat, k: nat) returns (s: nat, e: nat)
    requires c < k <= |content|
    requires forall q :: c <= q < k ==> content[q] != '\n'
    ensures s <= c && k <= e <= |content|
    ensures s == 0 || content[s - 1] == '\n'
    ensures e == |content| || content[e] == '\n'
    ensures '\n' !in content[s..e] && content[s..e][c - s] == content[c]
  {
    s := LineStart(content, k);
    e := FieldEnd(content, '\n', k);
    assert s <= c;
    forall q | 0 <= q < e - s ensures content[s..e][q] != '\n' {
      assert content[s..e][q] == content[s + q];
    }
  }

  // ---------------------------------------------------------------------
  // what a rewrite does to the rows when it hits the row's own line
  // ---------------------------------------------------------------------

  /**
   * The first match of the row's pattern is its own, unflagged line: it
   * starts at p, at the start of a line, and a newline follows it.
   */
  predicate OwnLineAt(content: string, t: Row, p: nat) {
    && !t.dmSent && t.ts.Finite? && PlainName(t.user)
    && p + |Pattern(t)| < |content|
    && (p == 0 || content[p - 1] == '\n')
    && content[p + |Pattern(t)|] == '\n'
    && IndexOf(content, Pattern(t)) == Some(p)
  }

  /** Rows that differ from `before` at most by flags turned on. */
  predicate OnlyFlagsSet(before: seq<Row>, after: seq<Row>) {
    |after| == |before|
    && forall j :: 0 <= j < |before| ==> after[j] == before[j] || after[j] == before[j].(dmSent := true)
  }

  lemma OnlyFlagsSetTrans(a: seq<Row>, b: seq<Row>, c: seq<Row>)
    requires OnlyFlagsSet(a, b) && OnlyFlagsSet(b, c)
    ensures OnlyFlagsSet(a, c)
  {
  }

  /** Turning on one row's flag only sets a flag. */
  lemma FlagOne(rows: seq<Row>, j: nat)
    requires j < |rows|
    ensures OnlyFlagsSet(rows, rows[j := rows[j].(dmSent := true)])
  {
  }

  /** A row that reads as sent stays in the file when only flags are turned on. */
  lemma OnlyFlagsSetKeepsSent(a: seq<Row>, b: seq<Row>, x: Row)
    requires OnlyFlagsSet(a, b) && x in a && x.dmSent
    ensures x in b
  {
    var j :| 0 <= j < |a| && a[j] == x;
    assert b[j] == x;
  }

  /**
   * When the first match is the row's own line, the rewrite turns on that
   * row's flag, at its place in the file, and changes no other row.
   */
  lemma OwnLineFlags(content: string, t: Row, p: nat)
    requires OwnLineAt(content, t, p)
    ensures var rows := ParseRows(content);
      var j := |ParseRows(content[..p])|;
      j < |rows| && rows[j] == t && ParseRows(MarkSent(content, t)) == rows[j := t.(dmSent := true)]
  {
    var user, ts := t.user, t.ts.value;
    var line := RowText(user, ts);
    var pre := content[..p];
    var post := content[p + |line| + 1..];
    assert OccursAt(content, line, p);
    OccursBeforeNewline(content, line, p);
    FlagsRowAt(content, pre, user, ts, post);
  }

  /** The row whose line sits after `pre`, and the rewrite that flags it. */
  lemma FlagsRowAt(content: string, pre: string, user: string, ts: int, post: string)
    requires pre == [] || pre[|pre| - 1] == '\n'
    requires PlainName(user)
    requires content == pre + RowText(user, ts) + "\n" + post
    requires IndexOf(content, RowText(user, ts)) == Some(|pre|)
    ensures var rows := ParseRows(content);
      var t, j := Row(user, Finite(ts), false), |ParseRows(pre)|;
      j < |rows| && rows[j] == t && ParseRows(MarkSent(content, t)) == rows[j := t.(dmSent := true)]
  {
    var t := Row(user, Finite(ts), false);
    var a, b := ParseRows(pre), ParseRows(post);
    assert ParseRows(content) == a + [t] + b && ParseRows(MarkSent(content, t)) == a + [t.(dmSent := true)] + b by {
      MarkSentFlagsRow(pre, user, ts, post);
    }
    UpdateMiddle(a, t, t.(dmSent := true), b);
  }

  lemma UpdateMiddle(a: seq<Row>, x: Row, y: Row, b: seq<Row>)
    ensures (a + [x] + b)[|a| := y] == a + [y] + b
  {
    var u, v := (a + [x] + b)[|a| := y], a + [y] + b;
    assert |u| == |v|;
    forall i | 0 <= i < |u| ensures u[i] == v[i] {
      if i < |a| {
        assert u[i] == a[i];
      } else if i > |a| {
        assert u[i] == b[i - |a| - 1];
      }
    }
  }
}
