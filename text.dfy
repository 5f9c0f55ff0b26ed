/**
 * The JavaScript string operations the bot relies on: `trim`, `split` on a
 * single character, `toLowerCase` compared with an ASCII literal, `Number`
 * on a decimal field, number-to-string conversion in template literals, and
 * `replace` with a string pattern (first occurrence only).
 */
module Text {
  import opened Wrappers

  // ---------------------------------------------------------------------
  // concatenation laws, stated once so that proofs about parsed text can
  // use them by substitution rather than re-deriving them element-wise
  // ---------------------------------------------------------------------

  lemma ConcatAssoc<T>(a: seq<T>, b: seq<T>, c: seq<T>)
    ensures a + (b + c) == a + b + c
  {
  }

  lemma ConcatUnit<T>(a: seq<T>)
    ensures [] + a == a && a + [] == a
  {
  }

  /** `pre + line + "\n" + post`, regrouped around the line. */
  lemma ConcatLine(pre: string, line: string, post: string)
    ensures pre + line + "\n" + post == pre + (line + "\n" + post)
  {
  }

  /** A newline-terminated text is its front and that newline. */
  lemma LastNewline(pre: string)
    requires pre != [] && pre[|pre| - 1] == '\n'
    ensures pre == pre[..|pre| - 1] + "\n"
  {
  }

  /** An insertion before position k of `pre + rest` happens inside `pre`. */
  lemma InsertInPrefix(pre: string, rest: string, k: nat, ins: string)
    requires k <= |pre|
    ensures (pre + rest)[..k] + ins + (pre + rest)[k..] == pre[..k] + ins + pre[k..] + rest
  {
    assert (pre + rest)[..k] == pre[..k];
    assert (pre + rest)[k..] == pre[k..] + rest;
  }

  // ---------------------------------------------------------------------
  // trim
  // ---------------------------------------------------------------------

  /** ECMAScript WhiteSpace and LineTerminator code points: what `trim` removes. */
  predicate IsWhite(c: char) {
    c == '\t' || c == '\n' || c == '\U{B}' || c == '\U{C}' || c == '\r' || c == ' '
    || c == '\U{A0}' || c == '\U{1680}' || ('\U{2000}' <= c <= '\U{200A}')
    || c == '\U{2028}' || c == '\U{2029}' || c == '\U{202F}' || c == '\U{205F}'
    || c == '\U{3000}' || c == '\U{FEFF}'
  }

  /** A string that `trim` leaves alone: no white space at either end. */
  predicate Unpadded(s: string) {
    s == [] || (!IsWhite(s[0]) && !IsWhite(s[|s| - 1]))
  }

  /** The first index at or after `i` that is not white space (|s| when there is none). */
  function SkipWhite(s: string, i: nat): (j: nat)
    requires i <= |s|
    ensures i <= j <= |s|
    ensures forall k :: i <= k < j ==> IsWhite(s[k])
    ensures j < |s| ==> !IsWhite(s[j])
    decreases |s| - i
  {
    if i < |s| && IsWhite(s[i]) then SkipWhite(s, i + 1) else i
  }

  /** The end of s[lo..j] once the white space at its back is dropped. */
  function SkipWhiteBack(s: string, lo: nat, j: nat): (e: nat)
    requires lo <= j <= |s|
    ensures lo <= e <= j
    ensures forall k :: e <= k < j ==> IsWhite(s[k])
    ensures e > lo ==> !IsWhite(s[e - 1])
    decreases j
  {
    if j > lo && IsWhite(s[j - 1]) then SkipWhiteBack(s, lo, j - 1) else j
  }

  /** `s.trim()`: the slice left after removing the white space at both ends. */
  function Trim(s: string): (r: string)
    ensures Unpadded(r)
    ensures var i := SkipWhite(s, 0);
      i + |r| <= |s| && r == s[i..i + |r|]
      && (forall k :: 0 <= k < i ==> IsWhite(s[k]))
      && (forall k :: i + |r| <= k < |s| ==> IsWhite(s[k]))
  {
    var i := SkipWhite(s, 0);
    s[i..SkipWhiteBack(s, i, |s|)]
  }

  lemma TrimUnpadded(s: string)
    requires Unpadded(s)
    ensures Trim(s) == s
  {
    assert SkipWhite(s, 0) == 0;
    assert SkipWhiteBack(s, 0, |s|) == |s|;
    assert s[0..|s|] == s;
  }

  /** Trimming never introduces a character. */
  lemma TrimFree(s: string, c: char)
    requires c !in s
    ensures c !in Trim(s)
  {
    var t := Trim(s);
    var i := SkipWhite(s, 0);
    forall j | 0 <= j < |t| ensures t[j] != c {
      assert t[j] == s[i + j];
    }
  }

  // ---------------------------------------------------------------------
  // split on one character
  // ---------------------------------------------------------------------

  /** The index of the first `c` at or after `i` (|s| when there is none). */
  function FieldEnd(s: string, c: char, i: nat): (j: nat)
    requires i <= |s|
    ensures i <= j <= |s|
    ensures forall k :: i <= k < j ==> s[k] != c
    ensures j < |s| ==> s[j] == c
    decreases |s| - i
  {
    if i < |s| && s[i] != c then FieldEnd(s, c, i + 1) else i
  }

  /** The text before the first `c` in `s` (all of `s` when there is none). */
  function FirstField(s: string, c: char): (r: string)
    ensures c !in r
    ensures |r| <= |s| && r == s[..|r|]
    ensures |r| < |s| ==> s[|r|] == c
  {
    var r := s[..FieldEnd(s, c, 0)];
    assert forall k :: 0 <= k < |r| ==> r[k] != c;
    r
  }

  /** A separator-free prefix that ends where `s` ends or at a `c` is the first field. */
  lemma FirstFieldUnique(s: string, c: char, r: string)
    requires c !in r && |r| <= |s| && r == s[..|r|]
    requires |r| < |s| ==> s[|r|] == c
    ensures FirstField(s, c) == r
  {
    var f := FirstField(s, c);
    assert |f| == |r|;
  }

  /** The start of the line holding index i: just after the last newline before i, or 0. */
  function LineStart(s: string, i: nat): (b: nat)
    requires i <= |s|
    ensures b <= i && (b == 0 || s[b - 1] == '\n')
    ensures forall k :: b <= k < i ==> s[k] != '\n'
    decreases i
  {
    if i == 0 || s[i - 1] == '\n' then i else LineStart(s, i - 1)
  }

  /**
   * When a line's first non-white character is at j and its first comma at
   * c0, its trimmed text is non-empty and its first comma-field is `line[j..c0]`.
   */
  lemma TrimFirstField(line: string, j: nat, c0: nat)
    requires j <= c0 < |line| && line[c0] == ','
    requires forall k :: 0 <= k < c0 ==> line[k] != ','
    requires forall k :: 0 <= k < j ==> IsWhite(line[k])
    requires !IsWhite(line[j])
    ensures Trim(line) != [] && FirstField(Trim(line), ',') == line[j..c0]
  {
    var i0 := SkipWhite(line, 0);
    assert i0 == j;
    var r := Trim(line);
    assert c0 < i0 + |r|;
    var f := line[j..c0];
    assert f == r[..|f|];
    assert r[|f|] == line[c0];
    FirstFieldUnique(r, ',', f);
  }

  /**
   * Inserting text into a line after a comma leaves the first comma-field
   * of the trimmed line as it was.
   */
  lemma InsertKeepsFirstField(line: string, c0: nat, m: nat, ins: string)
    requires c0 < m <= |line| && line[c0] == ','
    ensures var line2 := line[..m] + ins + line[m..];
      Trim(line) != [] && Trim(line2) != []
      && FirstField(Trim(line2), ',') == FirstField(Trim(line), ',')
  {
    var line2 := line[..m] + ins + line[m..];
    assert line2[..c0 + 1] == line[..c0 + 1];
    SamePrefixFirstField(line, line2, c0);
  }

  /** Two lines that agree up to a comma agree on the first comma-field of their trimmed text. */
  lemma SamePrefixFirstField(line: string, line2: string, c0: nat)
    requires c0 < |line| && c0 < |line2| && line[c0] == ','
    requires line2[..c0 + 1] == line[..c0 + 1]
    ensures Trim(line) != [] && Trim(line2) != []
      && FirstField(Trim(line2), ',') == FirstField(Trim(line), ',')
  {
    var c1 := FieldEnd(line, ',', 0);
    var j := SkipWhite(line, 0);
    assert j <= c1 <= c0;
    TrimFirstField(line, j, c1);
    assert line2[j..c1] == line[j..c1] && line2[c1] == ',' by {
      assert line2[..c0 + 1][j..c1] == line[..c0 + 1][j..c1];
      assert line2[..c0 + 1][c1] == line[..c0 + 1][c1];
    }
    assert forall k :: 0 <= k < c1 ==> line2[k] != ',' by {
      forall k | 0 <= k < c1 ensures line2[k] != ',' {
        assert line2[..c0 + 1][k] == line[..c0 + 1][k];
      }
    }
    assert forall k :: 0 <= k < j ==> IsWhite(line2[k]) by {
      forall k | 0 <= k < j ensures IsWhite(line2[k]) {
        assert line2[..c0 + 1][k] == line[..c0 + 1][k];
      }
    }
    assert !IsWhite(line2[j]) by {
      assert line2[..c0 + 1][j] == line[..c0 + 1][j];
    }
    TrimFirstField(line2, j, c1);
  }

  /** Cutting `t` at `s` and `e` gives back `t` when the pieces are rejoined. */
  lemma ThreeParts(t: string, s: nat, e: nat)
    requires s <= e <= |t|
    ensures t == t[..s] + t[s..e] + t[e..]
  {
    assert t[..e] == t[..s] + t[s..e];
  }

  /** The text before a line start is empty or ends in a newline. */
  lemma CutAfterNewline(t: string, s: nat)
    requires s <= |t| && (s == 0 || t[s - 1] == '\n')
    ensures |t[..s]| == s && (t[..s] == [] || t[..s][|t[..s]| - 1] == '\n')
  {
  }

  /** The text from a line end on is empty or starts with a newline. */
  lemma CutBeforeNewline(t: string, e: nat)
    requires e <= |t| && (e == |t| || t[e] == '\n')
    ensures t[e..] == [] || t[e..][0] == '\n'
  {
  }

  /** Text inserted at `k` inside the `line` part of `t` lands inside `line`. */
  lemma InsertSplit(t: string, pre: string, line: string, post: string, k: nat, ins: string)
    requires t == pre + line + post && |pre| <= k <= |pre| + |line|
    ensures t[..k] + ins + t[k..] == pre + (line[..k - |pre|] + ins + line[k - |pre|..]) + post
  {
    assert t[..k] == pre + line[..k - |pre|];
    assert t[k..] == line[k - |pre|..] + post;
  }

  /** Inserting text without `c` into text without `c` gives text without `c`. */
  lemma InsertFree(s: string, m: nat, ins: string, c: char)
    requires m <= |s| && c !in s && c !in ins
    ensures c !in s[..m] + ins + s[m..]
  {
    var r := s[..m] + ins + s[m..];
    forall k | 0 <= k < |r| ensures r[k] != c {
      if k < m {
        assert r[k] == s[k];
      } else if k < m + |ins| {
        assert r[k] == ins[k - m];
      } else {
        assert r[k] == s[k - |ins|];
      }
    }
  }

  lemma FirstFieldAppend(u: string, v: string, c: char)
    ensures FirstField(u + v, c) ==
      if |FirstField(u, c)| < |u| then FirstField(u, c) else u + FirstField(v, c)
  {
    var f, g := FirstField(u, c), FirstField(v, c);
    if |f| < |u| {
      assert (u + v)[..|f|] == f && (u + v)[|f|] == u[|f|];
      FirstFieldUnique(u + v, c, f);
    } else {
      assert f == u;
      var r := u + g;
      assert c !in r by {
        forall k | 0 <= k < |r| ensures r[k] != c {
          if k >= |u| { assert r[k] == g[k - |u|]; }
        }
      }
      assert (u + v)[..|r|] == r;
      assert |r| < |u + v| ==> (u + v)[|r|] == v[|g|];
      FirstFieldUnique(u + v, c, r);
    }
  }

  /**
   * `s.split(c)` for a one-character separator: the pieces between
   * separators, always at least one ("" splits into [""], "a\n" into
   * ["a", ""]).
   */
  function Split(s: string, c: char): (r: seq<string>)
    ensures |r| >= 1 && r[0] == FirstField(s, c)
    decreases |s|
  {
    var f := FirstField(s, c);
    if |f| == |s| then [s] else [f] + Split(s[|f| + 1..], c)
  }

  /** No piece of a split contains the separator. */
  lemma {:induction false} SplitPieces(s: string, c: char)
    ensures forall k :: 0 <= k < |Split(s, c)| ==> c !in Split(s, c)[k]
    decreases |s|
  {
    var f := FirstField(s, c);
    if |f| < |s| {
      SplitPieces(s[|f| + 1..], c);
    }
  }

  /** `parts.join(c)`: the inverse of Split. */
  function Join(parts: seq<string>, c: char): string
    requires |parts| >= 1
  {
    if |parts| == 1 then parts[0] else parts[0] + [c] + Join(parts[1..], c)
  }

  lemma {:induction false} JoinSplit(s: string, c: char)
    ensures Join(Split(s, c), c) == s
    decreases |s|
  {
    var f := FirstField(s, c);
    if |f| < |s| {
      var rest := s[|f| + 1..];
      assert Split(s, c) == [f] + Split(rest, c);
      JoinSplit(rest, c);
      assert Join([f] + Split(rest, c), c) == f + [c] + Join(Split(rest, c), c);
      assert s == f + [c] + rest by {
        assert s[..|f|] == f && s[|f|] == c;
      }
    } else {
      assert Split(s, c) == [s];
    }
  }

  lemma SplitWithout(s: string, c: char)
    requires c !in s
    ensures Split(s, c) == [s]
  {
  }

  /** A separator-free prefix followed by a separator is exactly the first piece. */
  lemma SplitAfterField(a: string, b: string, c: char)
    requires c !in a
    ensures Split(a + [c] + b, c) == [a] + Split(b, c)
  {
    var x := a + [c] + b;
    FirstFieldAppend(a, [c] + b, c);
    assert x == a + ([c] + b);
    assert FirstField([c] + b, c) == [];
    assert x[|a| + 1..] == b;
  }

  lemma {:induction false} JoinAppend(p: seq<string>, q: seq<string>, c: char)
    requires |p| >= 1 && |q| >= 1
    ensures Join(p + q, c) == Join(p, c) + [c] + Join(q, c)
    decreases |p|
  {
    if |p| > 1 {
      assert (p + q)[1..] == p[1..] + q;
      JoinAppend(p[1..], q, c);
    } else {
      assert (p + q)[1..] == q;
    }
  }

  /** Split recovers any separator-free pieces from their join. */
  lemma {:induction false} SplitJoin(parts: seq<string>, c: char)
    requires |parts| >= 1
    requires forall k :: 0 <= k < |parts| ==> c !in parts[k]
    ensures Split(Join(parts, c), c) == parts
    decreases |parts|
  {
    if |parts| == 1 {
      SplitWithout(parts[0], c);
    } else {
      var rest := parts[1..];
      assert forall k :: 0 <= k < |rest| ==> c !in rest[k] by {
        forall k | 0 <= k < |rest| ensures c !in rest[k] {
          assert rest[k] == parts[k + 1];
        }
      }
      SplitJoin(rest, c);
      assert Join(parts, c) == parts[0] + [c] + Join(rest, c);
      SplitAfterField(parts[0], Join(rest, c), c);
      assert parts == [parts[0]] + rest;
    }
  }

  /** Splitting around one separator splits each side independently. */
  lemma SplitAround(a: string, b: string, c: char)
    ensures Split(a + [c] + b, c) == Split(a, c) + Split(b, c)
  {
    var p, q := Split(a, c), Split(b, c);
    SplitPieces(a, c);
    SplitPieces(b, c);
    JoinSplit(a, c);
    JoinSplit(b, c);
    JoinAppend(p, q, c);
    SplitJoin(p + q, c);
  }

  // ---------------------------------------------------------------------
  // lower case
  // ---------------------------------------------------------------------

  function LowerAscii(c: char): char {
    if 'A' <= c <= 'Z' then (c as int + 32) as char else c
  }

  /** `s.toLowerCase()` restricted to ASCII letters. */
  function ToLowerAscii(s: string): (r: string)
    ensures |r| == |s|
    ensures forall k :: 0 <= k < |s| ==> r[k] == LowerAscii(s[k])
  {
    seq(|s|, k requires 0 <= k < |s| => LowerAscii(s[k]))
  }

  // ---------------------------------------------------------------------
  // numbers
  // ---------------------------------------------------------------------

  /** A JavaScript number as this model needs it: an integer or NaN. */
  datatype Num = Finite(value: int) | NaN

  predicate IsDigit(c: char) { '0' <= c <= '9' }

  predicate AllDigits(s: string) { forall k :: 0 <= k < |s| ==> IsDigit(s[k]) }

  function DigitChar(d: nat): (c: char)
    requires d < 10
    ensures IsDigit(c)
  {
    (48 + d) as char
  }

  function DigitValue(c: char): (d: nat)
    requires IsDigit(c)
    ensures d < 10 && DigitChar(d) == c
  {
    c as int - 48
  }

  /** The decimal value of a string of digits. */
  function DecimalValue(s: string): nat
    requires AllDigits(s)
  {
    if s == [] then 0 else 10 * DecimalValue(s[..|s| - 1]) + DigitValue(s[|s| - 1])
  }

  /** The shortest decimal writing of n, as `${n}` produces it. */
  function NatToString(n: nat): (r: string)
    ensures |r| >= 1 && AllDigits(r)
  {
    if n < 10 then [DigitChar(n)] else NatToString(n / 10) + [DigitChar(n % 10)]
  }

  lemma {:induction false} DecimalOfNatToString(n: nat)
    ensures DecimalValue(NatToString(n)) == n
  {
    var r := NatToString(n);
    if n >= 10 {
      DecimalOfNatToString(n / 10);
      assert r[..|r| - 1] == NatToString(n / 10);
    }
  }

  /** `${n}` for an integer n. */
  function IntToString(n: int): (r: string)
    ensures |r| >= 1 && ',' !in r && (forall k :: 0 <= k < |r| ==> !IsWhite(r[k]))
  {
    var d := NatToString(if n < 0 then -n else n);
    assert forall k :: 0 <= k < |d| ==> IsDigit(d[k]);
    if n < 0 then "-" + d else d
  }

  /** `${x}` for a number: NaN is written "NaN". */
  function NumToString(x: Num): string {
    match x
    case Finite(v) => IntToString(v)
    case NaN => "NaN"
  }

  /**
   * `Number(s)` for the literals this model reads: surrounding white space
   * is ignored, an empty or all-white string is 0, an optionally signed run
   * of decimal digits is its value, anything else is NaN.
   */
  function ParseNumber(s: string): (n: Num)
    ensures Trim(s) == [] ==> n == Finite(0)
    ensures Trim(s) != [] && n.Finite? ==> IsDigit(Trim(s)[|Trim(s)| - 1])
    ensures Trim(s) != [] && !IsDigit(Trim(s)[|Trim(s)| - 1]) ==> n == NaN
    ensures n.Finite? && n.value < 0 ==> Trim(s)[0] == '-'
  {
    var t := Trim(s);
    if t == [] then Finite(0)
    else if AllDigits(t) then Finite(DecimalValue(t))
    else if |t| > 1 && t[0] == '-' && AllDigits(t[1..]) then Finite(0 - DecimalValue(t[1..]) as int)
    else if |t| > 1 && t[0] == '+' && AllDigits(t[1..]) then Finite(DecimalValue(t[1..]))
    else NaN
  }

  /** A non-empty run of decimal digits reads as its decimal value. */
  lemma ParseNumberDigits(s: string)
    requires AllDigits(s) && s != []
    ensures ParseNumber(s) == Finite(DecimalValue(s))
  {
    assert IsDigit(s[0]) && IsDigit(s[|s| - 1]);
    TrimUnpadded(s);
  }

  lemma ParseIntToString(n: int)
    ensures ParseNumber(IntToString(n)) == Finite(n)
  {
    var d := NatToString(if n < 0 then -n else n);
    DecimalOfNatToString(if n < 0 then -n else n);
    var r := IntToString(n);
    TrimUnpadded(r);
    if n < 0 {
      assert r[1..] == d;
      assert !IsDigit(r[0]);
    }
  }

  // ---------------------------------------------------------------------
  // indexOf and replace
  // ---------------------------------------------------------------------

  predicate OccursAt(s: string, pat: string, k: nat) {
    k + |pat| <= |s| && s[k..k + |pat|] == pat
  }

  lemma OccursAtChars(s: string, pat: string, k: nat)
    requires OccursAt(s, pat, k)
    ensures forall q :: k <= q < k + |pat| ==> s[q] == pat[q - k]
  {
    forall q | k <= q < k + |pat| ensures s[q] == pat[q - k] {
      assert s[q] == s[k..k + |pat|][q - k];
    }
  }

  /** An occurrence of `pat` followed by a newline splits `s` around them. */
  lemma OccursBeforeNewline(s: string, pat: string, p: nat)
    requires OccursAt(s, pat, p) && p + |pat| < |s| && s[p + |pat|] == '\n'
    ensures s == s[..p] + pat + "\n" + s[p + |pat| + 1..]
  {
    var q := p + |pat|;
    assert s == s[..p] + s[p..q] + s[q..q + 1] + s[q + 1..];
    assert s[q..q + 1] == "\n";
  }

  /** `s.indexOf(pat, from)`: the first position at or after `from` where `pat` occurs. */
  function IndexFrom(s: string, pat: string, from: nat): (r: Option<nat>)
    ensures r.Some? ==> from <= r.value && OccursAt(s, pat, r.value)
    ensures r.Some? ==> forall j :: from <= j < r.value ==> !OccursAt(s, pat, j)
    ensures r.None? ==> forall j :: from <= j ==> !OccursAt(s, pat, j)
    decreases |s| - from
  {
    if from + |pat| > |s| then None
    else if OccursAt(s, pat, from) then Some(from)
    else IndexFrom(s, pat, from + 1)
  }

  function IndexOf(s: string, pat: string): Option<nat> {
    IndexFrom(s, pat, 0)
  }

  /**
   * `s.replace(pat, rep)` with a string pattern: only the first occurrence
   * is replaced; without one the string is returned unchanged.
   */
  function ReplaceFirst(s: string, pat: string, rep: string): (r: string)
    ensures IndexOf(s, pat).None? ==> r == s
    ensures IndexOf(s, pat).Some? ==>
      var k := IndexOf(s, pat).value;
      k + |rep| <= |r| && r[..k] == s[..k] && r[k..k + |rep|] == rep && r[k + |rep|..] == s[k + |pat|..]
      && |r| == |s| - |pat| + |rep|
  {
    match IndexOf(s, pat)
    case None => s
    case Some(k) => s[..k] + rep + s[k + |pat|..]
  }

  /** Replacing the first match by itself plus a suffix inserts the suffix right after it. */
  lemma ReplaceFirstExtends(s: string, pat: string, suffix: string)
    requires IndexOf(s, pat).Some?
    ensures var k := IndexOf(s, pat).value;
      ReplaceFirst(s, pat, pat + suffix) == s[..k + |pat|] + suffix + s[k + |pat|..]
  {
    var k := IndexOf(s, pat).value;
    assert s[..k + |pat|] == s[..k] + pat;
  }
}
