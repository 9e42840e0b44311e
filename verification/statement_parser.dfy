/** SimpleStatementParser: turns the lines of a migration script into
    executable statements. The four regular expressions of the source are
    written out as scanning predicates that follow the steps of the JDK's
    backtracking matcher, index by index. */
module StatementParser {
  import opened Wrappers
  import opened Text

  const StatementTerminator: string := ";"

  // ---------------------------------------------------------------------
  // `.*` followed by `$`
  // ---------------------------------------------------------------------

  /** `.*$` matches from `p`. */
  predicate DotStarThenEnd(l: string, p: nat)
    requires p <= |l|
    decreases |l| - p
  {
    DollarAt(l, p) || (p < |l| && !IsLineTerminator(l[p]) && DotStarThenEnd(l, p + 1))
  }

  /** `.*\*\/$` matches from `p`. */
  predicate DotStarCloseThenEnd(l: string, p: nat)
    requires p <= |l|
    decreases |l| - p
  {
    || (p + 2 <= |l| && l[p] == '*' && l[p + 1] == '/' && DollarAt(l, p + 2))
    || (p < |l| && !IsLineTerminator(l[p]) && DotStarCloseThenEnd(l, p + 1))
  }

  // ---------------------------------------------------------------------
  // LINE_COMMENT = ^(//|\/\*.+?\*\/)
  // ---------------------------------------------------------------------

  /** `.+?\*\/` after the opening slash and star and one consumed
      character: a closing star and slash at `p` or later, with no line
      terminator before it. */
  predicate BlockClosesFrom(l: string, p: nat)
    requires p <= |l|
    decreases |l| - p
  {
    || (p + 2 <= |l| && l[p] == '*' && l[p + 1] == '/')
    || (p < |l| && !IsLineTerminator(l[p]) && BlockClosesFrom(l, p + 1))
  }

  /** The whole line is a comment and is skipped by the parser. */
  predicate IsLineComment(l: string)
  {
    || (|l| >= 2 && l[0] == '/' && l[1] == '/')
    || (|l| >= 3 && l[0] == '/' && l[1] == '*' && !IsLineTerminator(l[2]) && BlockClosesFrom(l, 3))
  }

  // ---------------------------------------------------------------------
  // STATEMENT = ^(.*?)(:?\s\/\/.*|\s\/\*.*\*\/)?$
  // ---------------------------------------------------------------------

  /** `\s\/\/.*$` matches from `j`. */
  predicate SlashCommentAt(l: string, j: nat)
    requires j <= |l|
  {
    j + 3 <= |l| && IsSpace(l[j]) && l[j + 1] == '/' && l[j + 2] == '/' && DotStarThenEnd(l, j + 3)
  }

  /** `\s\/\*.*\*\/$` matches from `j`. */
  predicate BlockCommentAt(l: string, j: nat)
    requires j <= |l|
  {
    j + 3 <= |l| && IsSpace(l[j]) && l[j + 1] == '/' && l[j + 2] == '*' && DotStarCloseThenEnd(l, j + 3)
  }

  /** The optional trailing group, then `$`, matches from `i`. The `(:?`
      of the source makes a colon right before the comment part of it. */
  predicate TailAt(l: string, i: nat)
    requires i <= |l|
  {
    || (i < |l| && l[i] == ':' && SlashCommentAt(l, i + 1))
    || SlashCommentAt(l, i)
    || BlockCommentAt(l, i)
    || DollarAt(l, i)
  }

  /** `k` is where the lazy `(.*?)` stops when it starts at `i`: the tail
      matches at `k` and at no earlier index, and `.` accepts every
      character it consumed on the way. */
  predicate StopsFrom(l: string, i: nat, k: nat)
  {
    && i <= k <= |l|
    && TailAt(l, k)
    && forall j :: i <= j < k ==> !TailAt(l, j) && !IsLineTerminator(l[j])
  }

  predicate StopsAt(l: string, k: nat)
  {
    StopsFrom(l, 0, k)
  }

  /** The lazy `(.*?)` having consumed `l[..i]`: stop at the first `i`
      where the tail matches, otherwise consume one more character, which
      `.` refuses when it is a line terminator. */
  function BodyFrom(l: string, i: nat): (r: Option<string>)
    requires i <= |l|
    ensures r.Some? ==> i <= |r.value| <= |l| && r.value == l[..|r.value|] && StopsFrom(l, i, |r.value|)
    ensures r.None? ==> forall k :: i <= k <= |l| ==> !StopsFrom(l, i, k)
    decreases |l| - i
  {
    if TailAt(l, i) then Some(l[..i])
    else if i < |l| && !IsLineTerminator(l[i]) then
      var r := BodyFrom(l, i + 1);
      assert forall k :: i + 1 <= k <= |l| && StopsFrom(l, i, k) ==> StopsFrom(l, i + 1, k);
      r
    else None
  }

  /** Group 1 of STATEMENT when `find()` succeeds: the prefix before the
      first index where the tail matches, provided no line terminator comes
      first; None when `find()` fails. */
  function Body(l: string): (r: Option<string>)
    ensures r.Some? ==> |r.value| <= |l| && r.value == l[..|r.value|] && StopsAt(l, |r.value|)
    ensures r.None? ==> forall k :: 0 <= k <= |l| ==> !StopsAt(l, k)
  {
    BodyFrom(l, 0)
  }

  // ---------------------------------------------------------------------
  // trim = RIGHT_TRIM(LEFT_TRIM(s)), both `replaceAll("")`
  // ---------------------------------------------------------------------

  /** End of the run of `\s` characters that starts at `p`. */
  function SpaceRunEnd(s: string, p: nat): (q: nat)
    requires p <= |s|
    ensures p <= q <= |s|
    ensures AllSpace(s[p..q])
    ensures q < |s| ==> !IsSpace(s[q])
    decreases |s| - p
  {
    if p < |s| && IsSpace(s[p]) then
      var q := SpaceRunEnd(s, p + 1);
      assert s[p..q] == [s[p]] + s[p + 1..q];
      q
    else p
  }

  /** LEFT_TRIM `^(\s|\t)+`: `^` only matches at index 0. */
  function LeftTrim(s: string): string
  {
    s[SpaceRunEnd(s, 0)..]
  }

  /** RIGHT_TRIM `(\s|\t)+$` searched from `p`: the first `\s` whose greedy
      run is followed by `$` is the start of the only match. */
  function RightTrimFrom(s: string, p: nat): (r: string)
    requires p <= |s|
    ensures |r| <= |s|
    decreases |s| - p
  {
    if p == |s| then s
    else if IsSpace(s[p]) && DollarAt(s, SpaceRunEnd(s, p)) then s[..p] + s[SpaceRunEnd(s, p)..]
    else RightTrimFrom(s, p + 1)
  }

  function RightTrim(s: string): string
  {
    RightTrimFrom(s, 0)
  }

  function Trim(s: string): (r: string)
    ensures |r| <= |s|
  {
    RightTrim(LeftTrim(s))
  }

  // ---------------------------------------------------------------------
  // What trim does
  // ---------------------------------------------------------------------

  /** Start of the maximal run of `\s` characters that ends the string. */
  function TrailingSpaceStart(u: string): (t: nat)
    ensures t <= |u|
    ensures AllSpace(u[t..])
    ensures t == 0 || !IsSpace(u[t - 1])
  {
    if |u| == 0 then 0
    else if IsSpace(u[|u| - 1]) then
      var t := TrailingSpaceStart(u[..|u| - 1]);
      assert u[t..] == u[..|u| - 1][t..] + [u[|u| - 1]];
      t
    else |u|
  }

  /** Without a terminator that `\s` misses, `$` can only follow a run of
      `\s` characters at the very end of the string. */
  lemma DollarAfterSpaceRun(u: string, p: nat)
    requires p <= |u|
    requires NoBareTerminators(u)
    ensures DollarAt(u, SpaceRunEnd(u, p)) <==> SpaceRunEnd(u, p) == |u|
  {
    var q := SpaceRunEnd(u, p);
    if q < |u| {
      assert !IsBareTerminator(u[q]);
    }
  }

  lemma AllSpaceSuffix(u: string, p: nat)
    requires p <= |u|
    requires AllSpace(u[p..])
    ensures forall k :: p <= k < |u| ==> IsSpace(u[k])
  {
    forall k | p <= k < |u| ensures IsSpace(u[k]) {
      assert u[k] == u[p..][k - p];
    }
  }

  lemma {:induction false} RightTrimFromDropsTrailingSpace(u: string, p: nat)
    requires NoBareTerminators(u)
    requires p <= TrailingSpaceStart(u)
    ensures RightTrimFrom(u, p) == u[..TrailingSpaceStart(u)]
    decreases |u| - p
  {
    var t := TrailingSpaceStart(u);
    AllSpaceSuffix(u, t);
    if p < |u| {
      DollarAfterSpaceRun(u, p);
      if IsSpace(u[p]) && DollarAt(u, SpaceRunEnd(u, p)) {
        AllSpaceSuffix(u, p);
      } else {
        RightTrimFromDropsTrailingSpace(u, p + 1);
      }
    }
  }

  /** trim removes the leading and the trailing run of `\s` characters and
      keeps everything in between, for any string without U+0085, U+2028
      or U+2029. */
  lemma TrimStripsOuterSpace(s: string)
    requires NoBareTerminators(s)
    ensures var a := SpaceRunEnd(s, 0);
            var r := Trim(s);
            && a + |r| <= |s|
            && r == s[a..a + |r|]
            && AllSpace(s[..a])
            && AllSpace(s[a + |r|..])
            && (r == [] || (!IsSpace(r[0]) && !IsSpace(r[|r| - 1])))
  {
    var a := SpaceRunEnd(s, 0);
    var u := s[a..];
    assert NoBareTerminators(u) by {
      forall k | 0 <= k < |u| ensures !IsBareTerminator(u[k]) {
        assert u[k] == s[a + k];
      }
    }
    var t := TrailingSpaceStart(u);
    RightTrimFromDropsTrailingSpace(u, 0);
    assert Trim(s) == u[..t];
    assert s[a + t..] == u[t..];
    if t > 0 {
      if a < |s| {
        assert u[0] == s[a];
      }
    }
  }

  /** A string that already has no outer whitespace is left as it is. */
  lemma TrimKeepsTrimmed(r: string)
    requires NoBareTerminators(r)
    requires r == [] || (!IsSpace(r[0]) && !IsSpace(r[|r| - 1]))
    ensures Trim(r) == r
  {
    assert SpaceRunEnd(r, 0) == 0;
    assert LeftTrim(r) == r;
    assert TrailingSpaceStart(r) == |r|;
    RightTrimFromDropsTrailingSpace(r, 0);
  }

  lemma TrimIdempotent(s: string)
    requires NoBareTerminators(s)
    ensures Trim(Trim(s)) == Trim(s)
  {
    TrimStripsOuterSpace(s);
    var r := Trim(s);
    var a := SpaceRunEnd(s, 0);
    assert NoBareTerminators(r) by {
      forall k | 0 <= k < |r| ensures !IsBareTerminator(r[k]) {
        assert r[k] == s[a + k];
      }
    }
    TrimKeepsTrimmed(r);
  }

  /** A string made only of `\s` characters trims to the empty string. */
  lemma TrimOfBlank(s: string)
    requires AllSpace(s)
    ensures Trim(s) == ""
  {
    assert SpaceRunEnd(s, 0) == |s|;
  }

  /** The JDK's `$` lets RIGHT_TRIM stop in front of a final U+2028, so
      trimming twice can remove more than trimming once. */
  lemma TrimBeforeLineSeparatorNotIdempotent()
    ensures Trim("a \U{2028} ") == "a \U{2028}"
    ensures Trim("a \U{2028}") == "a\U{2028}"
  {
    assert SpaceRunEnd("a \U{2028} ", 0) == 0;
    assert SpaceRunEnd("a \U{2028}", 0) == 0;
    assert SpaceRunEnd("a \U{2028} ", 1) == 2;
    assert SpaceRunEnd("a \U{2028}", 1) == 2;
    assert RightTrimFrom("a \U{2028} ", 3) == "a \U{2028}";
  }

  // ---------------------------------------------------------------------
  // Which lines are comments
  // ---------------------------------------------------------------------

  lemma {:induction false} BlockClosesFromShape(l: string, p: nat)
    requires p <= |l|
    ensures BlockClosesFrom(l, p) <==>
            exists k :: p <= k && OccursAt(l, "*/", k) && NoLineTerminators(l[p..k])
    decreases |l| - p
  {
    if BlockClosesFrom(l, p) {
      if p + 2 <= |l| && l[p] == '*' && l[p + 1] == '/' {
        assert OccursAt(l, "*/", p) && NoLineTerminators(l[p..p]);
      } else {
        BlockClosesFromShape(l, p + 1);
        var k :| p + 1 <= k && OccursAt(l, "*/", k) && NoLineTerminators(l[p + 1..k]);
        assert l[p..k] == [l[p]] + l[p + 1..k];
        assert OccursAt(l, "*/", k) && NoLineTerminators(l[p..k]);
      }
    }
    if exists k :: p <= k && OccursAt(l, "*/", k) && NoLineTerminators(l[p..k]) {
      var k :| p <= k && OccursAt(l, "*/", k) && NoLineTerminators(l[p..k]);
      if k > p {
        assert l[p] == l[p..k][0];
        assert l[p + 1..k] == l[p..k][1..];
        BlockClosesFromShape(l, p + 1);
      }
    }
  }

  /** A line is skipped as a comment exactly when it starts with `//`, or
      starts with the block opener and closes the block on the same line
      with at least one character in between. Leading whitespace is not
      skipped: an indented comment is not a comment line. */
  lemma LineCommentShape(l: string)
    ensures IsLineComment(l) <==>
            || StartsWith(l, "//")
            || (StartsWith(l, "/*") && exists k :: 3 <= k && OccursAt(l, "*/", k) && NoLineTerminators(l[2..k]))
  {
    if |l| >= 3 {
      BlockClosesFromShape(l, 3);
      forall k | 3 <= k <= |l|
        ensures NoLineTerminators(l[2..k]) <==> !IsLineTerminator(l[2]) && NoLineTerminators(l[3..k])
      {
        assert l[2..k] == [l[2]] + l[3..k];
      }
    }
    if StartsWith(l, "/*") && exists k :: 3 <= k && OccursAt(l, "*/", k) && NoLineTerminators(l[2..k]) {
      var k :| 3 <= k && OccursAt(l, "*/", k) && NoLineTerminators(l[2..k]);
      assert l[2..k][0] == l[2];
    }
  }

  // ---------------------------------------------------------------------
  // Where the statement regex cuts a line
  // ---------------------------------------------------------------------

  lemma {:induction false} DotStarReachesEnd(l: string, p: nat)
    requires p <= |l|
    requires forall j :: p <= j < |l| ==> !IsLineTerminator(l[j])
    ensures DotStarThenEnd(l, p)
    decreases |l| - p
  {
    if p < |l| {
      DotStarReachesEnd(l, p + 1);
    }
  }

  lemma {:induction false} DotStarReachesClose(l: string, p: nat)
    requires p + 2 <= |l|
    requires l[|l| - 2] == '*' && l[|l| - 1] == '/'
    requires forall j :: p <= j < |l| ==> !IsLineTerminator(l[j])
    ensures DotStarCloseThenEnd(l, p)
    decreases |l| - p
  {
    if p + 2 < |l| {
      DotStarReachesClose(l, p + 1);
    }
  }

  /** A trailing comment as the statement regex strips it: a whitespace
      character, then `//` and the rest of the line, or a block that is
      closed at the very end of the line. */
  predicate InlineComment(c: string)
  {
    && |c| >= 3
    && IsSpace(c[0])
    && NoLineTerminators(c)
    && c[1] == '/'
    && (c[2] == '/' || (c[2] == '*' && |c| >= 5 && c[|c| - 2] == '*' && c[|c| - 1] == '/'))
  }

  /** No whitespace in `a`, so no comment can start inside it. */
  predicate Unspaced(a: string)
  {
    forall j :: 0 <= j < |a| ==> !IsSpace(a[j]) && !IsLineTerminator(a[j])
  }

  lemma InlineCommentMatchesTail(a: string, c: string)
    requires InlineComment(c)
    ensures TailAt(a + c, |a|)
  {
    var l := a + c;
    forall j | |a| + 3 <= j < |l| ensures !IsLineTerminator(l[j]) {
      assert l[j] == c[j - |a|];
    }
    if c[2] == '/' {
      DotStarReachesEnd(l, |a| + 3);
      assert SlashCommentAt(l, |a|);
    } else {
      DotStarReachesClose(l, |a| + 3);
      assert BlockCommentAt(l, |a|);
    }
  }

  lemma NoTailInsideUnspaced(a: string, c: string, j: nat)
    requires Unspaced(a)
    requires |c| >= 3
    requires j < |a|
    requires j == |a| - 1 ==> a[j] != ':'
    ensures !TailAt(a + c, j)
  {
    var l := a + c;
    assert l[j] == a[j];
    if j + 1 < |a| {
      assert l[j + 1] == a[j + 1];
    }
  }

  /** A trailing comment preceded by whitespace is cut off, and what comes
      before it is kept. */
  lemma InlineCommentStripped(a: string, c: string)
    requires Unspaced(a)
    requires InlineComment(c)
    requires !EndsWith(a, ":")
    ensures Body(a + c) == Some(a)
  {
    var l := a + c;
    InlineCommentMatchesTail(a, c);
    forall j | 0 <= j < |a| ensures !TailAt(l, j) && !IsLineTerminator(l[j]) {
      if j == |a| - 1 {
        assert a[|a| - 1..] == [a[j]];
      }
      NoTailInsideUnspaced(a, c, j);
      assert l[j] == a[j];
    }
    assert l[..|a|] == a;
    assert StopsAt(l, |a|);
  }

  /** The `(:?` of the source: a colon right before ` //` is cut off along
      with the comment. */
  lemma ColonBeforeCommentDropped(a: string, c: string)
    requires Unspaced(a)
    requires InlineComment(c) && c[2] == '/'
    requires EndsWith(a, ":")
    ensures Body(a + c) == Some(a[..|a| - 1])
  {
    var l := a + c;
    var k := |a| - 1;
    assert a[k..] == [a[k]];
    forall j | |a| + 3 <= j < |l| ensures !IsLineTerminator(l[j]) {
      assert l[j] == c[j - |a|];
    }
    DotStarReachesEnd(l, |a| + 3);
    assert SlashCommentAt(l, k + 1);
    assert TailAt(l, k);
    forall j | 0 <= j < k ensures !TailAt(l, j) && !IsLineTerminator(l[j]) {
      NoTailInsideUnspaced(a, c, j);
      assert l[j] == a[j];
    }
    assert l[..k] == a[..k];
    assert StopsAt(l, k);
  }

  /** No whitespace character directly before a slash, so no trailing
      comment can start anywhere in `l`. */
  predicate NoSlashAfterSpace(l: string)
  {
    forall j :: 0 <= j < |l| - 1 && IsSpace(l[j]) ==> l[j + 1] != '/'
  }

  /** What may end a line handed to the parser: nothing, or a final `\r`,
      `\n` or `\r\n` left over from the way the file was split. */
  predicate LineEnding(t: string)
  {
    t == "" || t == "\r" || t == "\n" || t == "\r\n"
  }

  /** Without a whitespace character directly before a slash, nothing is
      taken for a comment: `https://` inside a statement is kept, and the
      statement regex stops only in front of the line ending. */
  lemma UncommentedLineKept(l: string, t: string)
    requires NoLineTerminators(l)
    requires NoSlashAfterSpace(l)
    requires LineEnding(t)
    ensures Body(l + t) == Some(l)
  {
    var s := l + t;
    forall j | 0 <= j < |l| ensures !TailAt(s, j) && !IsLineTerminator(s[j]) {
      assert s[j] == l[j];
      if j + 1 < |s| {
        if j + 1 < |l| {
          assert s[j + 1] == l[j + 1];
        }
        if j + 2 < |s| && j + 2 < |l| {
          assert s[j + 2] == l[j + 2];
        }
      }
    }
    if t != "" {
      assert s[|l|] == t[0];
      if |l| > 0 {
        assert s[|l| - 1] == l[|l| - 1];
      }
    }
    assert DollarAt(s, |l|);
    assert s[..|l|] == l;
    assert StopsAt(s, |l|);
  }

  lemma NoSlashAfterSpaceAppend(a: string, b: string)
    requires NoSlashAfterSpace(a) && NoSlashAfterSpace(b)
    requires |a| > 0 && |b| > 0 && IsSpace(a[|a| - 1]) ==> b[0] != '/'
    ensures NoSlashAfterSpace(a + b)
  {
    var s := a + b;
    forall j | 0 <= j < |s| - 1 && IsSpace(s[j]) ensures s[j + 1] != '/' {
      if j + 1 < |a| {
        assert s[j] == a[j] && s[j + 1] == a[j + 1];
      } else if j + 1 == |a| {
        assert s[j] == a[j] && s[j + 1] == b[0];
      } else {
        assert s[j] == b[j - |a|] && s[j + 1] == b[j + 1 - |a|];
      }
    }
  }

  /** A block comment that is alone on its line. */
  lemma BlockCommentLine(x: string)
    requires |x| >= 1 && NoLineTerminators(x)
    ensures IsLineComment("/*" + x + "*/")
  {
    var l := "/*" + x + "*/";
    LineCommentShape(l);
    assert StartsWith(l, "/*");
    assert OccursAt(l, "*/", |x| + 2);
    assert l[2..|x| + 2] == x;
  }

  // ---------------------------------------------------------------------
  // parse
  // ---------------------------------------------------------------------

  /** The loop of `parse` from line `i` on, with `current` the statement
      being built and `statements` those already emitted. */
  function ParseFrom(lines: seq<string>, i: nat, current: string, statements: seq<string>): (r: seq<string>)
    requires i <= |lines|
    ensures |statements| <= |r| && r[..|statements|] == statements
    ensures |r| <= |statements| + (|lines| - i) + (if |current| > 0 then 1 else 0)
    decreases |lines| - i
  {
    if i == |lines| then
      if |current| > 0 then statements + [current] else statements
    else if IsLineComment(lines[i]) then
      ParseFrom(lines, i + 1, current, statements)
    else
      match Body(lines[i])
      case None => ParseFrom(lines, i + 1, current, statements)
      case Some(b) =>
        var statement := Trim(b);
        if EndsWith(statement, StatementTerminator) then
          ParseFrom(lines, i + 1, "", statements + [current + statement])
        else
          ParseFrom(lines, i + 1, current + statement, statements)
  }

  /** `parse`: at most one statement per line. */
  function Parse(lines: seq<string>): (r: seq<string>)
    ensures |r| <= |lines|
  {
    ParseFrom(lines, 0, "", [])
  }

  // ---------------------------------------------------------------------
  // A reference description of parse: clean every line, then cut the
  // cleaned pieces after each piece that ends with the terminator.
  // ---------------------------------------------------------------------

  /** What one line adds to the statement being built: nothing for a
      comment line or a line the statement regex rejects, otherwise its
      group 1 trimmed. */
  function Piece(l: string): Option<string>
  {
    if IsLineComment(l) then None
    else match Body(l)
      case Some(b) => Some(Trim(b))
      case None => None
  }

  function Pieces(lines: seq<string>): (ps: seq<string>)
    ensures |ps| <= |lines|
  {
    if |lines| == 0 then []
    else (match Piece(lines[0]) case Some(p) => [p] case None => []) + Pieces(lines[1..])
  }

  predicate Terminated(p: string)
  {
    EndsWith(p, StatementTerminator)
  }

  /** Index of the first piece that ends with the terminator, |ps| if none. */
  function FirstTerminated(ps: seq<string>): (k: nat)
    ensures k <= |ps|
    ensures k < |ps| ==> Terminated(ps[k])
    ensures forall j :: 0 <= j < k ==> !Terminated(ps[j])
  {
    if |ps| == 0 then 0
    else if Terminated(ps[0]) then 0
    else 1 + FirstTerminated(ps[1..])
  }

  /** Statements formed from cleaned pieces: each closes with the first
      piece that ends with the terminator; an unterminated, non-empty
      remainder is a last statement of its own. */
  function Group(ps: seq<string>): seq<string>
    decreases |ps|
  {
    var k := FirstTerminated(ps);
    if k == |ps| then (if |Concat(ps)| > 0 then [Concat(ps)] else [])
    else [Concat(ps[..k + 1])] + Group(ps[k + 1..])
  }

  lemma TerminatedAppend(a: string, b: string)
    ensures Terminated(a + b) <==> (if |b| == 0 then Terminated(a) else Terminated(b))
  {
    if |b| == 0 {
      assert a + b == a;
    } else {
      assert (a + b)[|a + b| - 1] == b[|b| - 1];
    }
  }

  lemma PiecesOfSuffix(lines: seq<string>, i: nat)
    requires i < |lines|
    ensures Pieces(lines[i..]) ==
            (match Piece(lines[i]) case Some(p) => [p] case None => []) + Pieces(lines[i + 1..])
  {
    assert lines[i..][1..] == lines[i + 1..];
  }

  lemma ConcatCons(a: string, ps: seq<string>)
    ensures Concat([a] + ps) == a + Concat(ps)
  {
    assert ([a] + ps)[1..] == ps;
  }

  lemma FirstTerminatedCons(a: string, ps: seq<string>)
    requires !Terminated(a)
    ensures FirstTerminated([a] + ps) == 1 + FirstTerminated(ps)
  {
    assert ([a] + ps)[1..] == ps;
  }

  /** Group of a sequence whose head is not terminated. */
  lemma GroupUnterminatedHead(a: string, ps: seq<string>)
    requires !Terminated(a)
    ensures var k := FirstTerminated(ps);
            Group([a] + ps) ==
              if k == |ps| then (if |a + Concat(ps)| > 0 then [a + Concat(ps)] else [])
              else [a + Concat(ps[..k + 1])] + Group(ps[k + 1..])
  {
    var qs := [a] + ps;
    var k := FirstTerminated(ps);
    FirstTerminatedCons(a, ps);
    ConcatCons(a, ps);
    if k < |ps| {
      assert qs[..k + 2] == [a] + ps[..k + 1];
      assert qs[k + 2..] == ps[k + 1..];
      ConcatCons(a, ps[..k + 1]);
    }
  }

  lemma GroupDropsEmptyHead(ps: seq<string>)
    ensures Group([""] + ps) == Group(ps)
  {
    assert !Terminated("");
    GroupUnterminatedHead("", ps);
    var k := FirstTerminated(ps);
    if k < |ps| {
      GroupCut(ps);
      assert "" + Concat(ps[..k + 1]) == Concat(ps[..k + 1]);
    } else {
      assert "" + Concat(ps) == Concat(ps);
    }
  }

  lemma GroupMergesHead(a: string, b: string, ps: seq<string>)
    requires !Terminated(a)
    requires !Terminated(b)
    ensures Group([a, b] + ps) == Group([a + b] + ps)
  {
    TerminatedAppend(a, b);
    var qs := [b] + ps;
    assert [a, b] + ps == [a] + qs;
    if FirstTerminated(ps) < |ps| {
      GroupMergesHeadClosed(a, b, ps);
    } else {
      GroupMergesHeadOpen(a, b, ps);
    }
  }

  lemma GroupMergesHeadClosed(a: string, b: string, ps: seq<string>)
    requires !Terminated(a) && !Terminated(b) && !Terminated(a + b)
    requires FirstTerminated(ps) < |ps|
    ensures Group([a] + ([b] + ps)) == Group([a + b] + ps)
  {
    var qs := [b] + ps;
    var k := FirstTerminated(ps);
    var m := (a + b) + Concat(ps[..k + 1]);
    var tail := Group(ps[k + 1..]);
    FirstTerminatedCons(b, ps);
    MergedPrefix(b, ps, k);
    AppendAssoc(a, b, Concat(ps[..k + 1]));
    GroupClosedHeadIs(a, qs, m, tail);
    GroupClosedHeadIs(a + b, ps, m, tail);
  }

  lemma GroupClosedHeadIs(a: string, ps: seq<string>, m: string, tail: seq<string>)
    requires !Terminated(a)
    requires FirstTerminated(ps) < |ps|
    requires m == a + Concat(ps[..FirstTerminated(ps) + 1])
    requires tail == Group(ps[FirstTerminated(ps) + 1..])
    ensures Group([a] + ps) == [m] + tail
  {
    GroupClosedHead(a, ps);
  }

  lemma GroupMergesHeadOpen(a: string, b: string, ps: seq<string>)
    requires !Terminated(a) && !Terminated(b) && !Terminated(a + b)
    requires FirstTerminated(ps) == |ps|
    ensures Group([a] + ([b] + ps)) == Group([a + b] + ps)
  {
    var qs := [b] + ps;
    var m := (a + b) + Concat(ps);
    assert FirstTerminated(qs) == |qs| by { FirstTerminatedCons(b, ps); }
    assert a + Concat(qs) == m by {
      ConcatCons(b, ps);
      AppendAssoc(a, b, Concat(ps));
    }
    assert Group([a] + qs) == if |m| > 0 then [m] else [] by { GroupOpenHead(a, qs); }
    assert Group([a + b] + ps) == if |m| > 0 then [m] else [] by { GroupOpenHead(a + b, ps); }
  }

  lemma GroupOpenHead(a: string, ps: seq<string>)
    requires !Terminated(a)
    requires FirstTerminated(ps) == |ps|
    ensures Group([a] + ps) == if |a + Concat(ps)| > 0 then [a + Concat(ps)] else []
  {
    GroupUnterminatedHead(a, ps);
  }

  lemma GroupClosedHead(a: string, ps: seq<string>)
    requires !Terminated(a)
    requires FirstTerminated(ps) < |ps|
    ensures Group([a] + ps) == [a + Concat(ps[..FirstTerminated(ps) + 1])] + Group(ps[FirstTerminated(ps) + 1..])
  {
    GroupUnterminatedHead(a, ps);
  }

  lemma MergedPrefix(b: string, ps: seq<string>, k: nat)
    requires k < |ps|
    ensures ([b] + ps)[..k + 2] == [b] + ps[..k + 1]
    ensures ([b] + ps)[k + 2..] == ps[k + 1..]
    ensures Concat(([b] + ps)[..k + 2]) == b + Concat(ps[..k + 1])
  {
    assert ([b] + ps)[..k + 2] == [b] + ps[..k + 1];
    ConcatCons(b, ps[..k + 1]);
  }

  lemma GroupClosesHead(a: string, b: string, ps: seq<string>)
    requires !Terminated(a)
    requires Terminated(b)
    ensures Group([a, b] + ps) == [a + b] + Group(ps)
  {
    assert [a, b] + ps == [a] + ([b] + ps);
    GroupUnterminatedHead(a, [b] + ps);
    assert FirstTerminated([b] + ps) == 0;
    assert ([b] + ps)[..1] == [b];
    assert ([b] + ps)[1..] == ps;
    ConcatCons(b, []);
    assert [b] + [] == [b];
    assert Concat([b]) == b;
  }

  /** One step of the loop, seen through `Piece`. */
  lemma ParseFromStep(lines: seq<string>, i: nat, current: string, statements: seq<string>)
    requires i < |lines|
    ensures ParseFrom(lines, i, current, statements) ==
            match Piece(lines[i])
            case None => ParseFrom(lines, i + 1, current, statements)
            case Some(p) =>
              if Terminated(p) then ParseFrom(lines, i + 1, "", statements + [current + p])
              else ParseFrom(lines, i + 1, current + p, statements)
  {
  }

  lemma GroupWithPiece(current: string, p: string, rest: seq<string>, statements: seq<string>)
    requires !Terminated(current)
    ensures Terminated(p) ==>
              statements + [current + p] + Group([""] + rest) == statements + Group([current] + ([p] + rest))
    ensures !Terminated(p) ==>
              !Terminated(current + p) && Group([current + p] + rest) == Group([current] + ([p] + rest))
  {
    assert [current] + ([p] + rest) == [current, p] + rest;
    TerminatedAppend(current, p);
    if Terminated(p) {
      GroupDropsEmptyHead(rest);
      GroupClosesHead(current, p, rest);
    } else {
      GroupMergesHead(current, p, rest);
    }
  }

  lemma ParseFromAtEnd(lines: seq<string>, current: string, statements: seq<string>)
    requires !Terminated(current)
    ensures ParseFrom(lines, |lines|, current, statements) == statements + Group([current] + Pieces(lines[|lines|..]))
  {
    assert Pieces(lines[|lines|..]) == [];
    assert [current] + [] == [current];
    GroupUnterminatedHead(current, []);
    assert current + Concat([]) == current;
    if |current| == 0 {
      assert statements + [] == statements;
    }
  }

  lemma {:induction false} ParseFromGroups(lines: seq<string>, i: nat, current: string, statements: seq<string>)
    requires i <= |lines|
    requires !Terminated(current)
    ensures ParseFrom(lines, i, current, statements) == statements + Group([current] + Pieces(lines[i..]))
    decreases |lines| - i
  {
    if i == |lines| {
      ParseFromAtEnd(lines, current, statements);
    } else {
      PiecesOfSuffix(lines, i);
      ParseFromStep(lines, i, current, statements);
      var rest := Pieces(lines[i + 1..]);
      var piece := Piece(lines[i]);
      if piece.None? {
        assert Pieces(lines[i..]) == [] + rest == rest;
        ParseFromGroups(lines, i + 1, current, statements);
      } else {
        var p := piece.value;
        assert Pieces(lines[i..]) == [p] + rest;
        GroupWithPiece(current, p, rest, statements);
        assert !Terminated("");
        if Terminated(p) {
          ParseFromGroups(lines, i + 1, "", statements + [current + p]);
        } else {
          ParseFromGroups(lines, i + 1, current + p, statements);
        }
      }
    }
  }

  /** The accumulator loop of `parse` computes exactly the reference
      grouping of the cleaned lines. */
  lemma ParseIsGroupOfPieces(lines: seq<string>)
    ensures Parse(lines) == Group(Pieces(lines))
  {
    assert !Terminated("");
    ParseFromGroups(lines, 0, "", []);
    assert lines[0..] == lines;
    GroupDropsEmptyHead(Pieces(lines));
  }

  // ---------------------------------------------------------------------
  // Properties of the grouping
  // ---------------------------------------------------------------------

  lemma {:induction false} PiecesAppend(x: seq<string>, y: seq<string>)
    ensures Pieces(x + y) == Pieces(x) + Pieces(y)
    decreases |x|
  {
    if |x| == 0 {
      assert x + y == y;
    } else {
      var h := match Piece(x[0]) case Some(p) => [p] case None => [];
      assert (x + y)[0] == x[0];
      assert (x + y)[1..] == x[1..] + y;
      PiecesAppend(x[1..], y);
      AppendAssoc(h, Pieces(x[1..]), Pieces(y));
    }
  }

  /** Unfolds `Group` once when a terminated piece exists. */
  lemma {:induction false} GroupCut(ps: seq<string>)
    requires FirstTerminated(ps) < |ps|
    ensures Group(ps) == [Concat(ps[..FirstTerminated(ps) + 1])] + Group(ps[FirstTerminated(ps) + 1..])
  {
  }

  lemma ClosedStatementTerminated(ps: seq<string>, k: nat)
    requires k < |ps| && Terminated(ps[k])
    ensures Terminated(Concat(ps[..k + 1]))
  {
    assert ps[..k + 1] == ps[..k] + [ps[k]];
    ConcatAppend(ps[..k], [ps[k]]);
    ConcatSingle(ps[k]);
    TerminatedAppend(Concat(ps[..k]), ps[k]);
  }

  /** What the grouping produces: no empty statement, every statement but
      the last ends with the terminator, and together the statements hold
      exactly the text of the pieces, in order. */
  lemma {:induction false} GroupShape(ps: seq<string>)
    ensures var g := Group(ps);
            && (forall j :: 0 <= j < |g| ==> |g[j]| > 0)
            && (forall j :: 0 <= j < |g| - 1 ==> Terminated(g[j]))
            && Concat(g) == Concat(ps)
    decreases |ps|
  {
    var k := FirstTerminated(ps);
    var g := Group(ps);
    if k == |ps| {
      ConcatSingle(Concat(ps));
    } else {
      var head := Concat(ps[..k + 1]);
      var rest := Group(ps[k + 1..]);
      GroupCut(ps);
      assert g == [head] + rest;
      GroupShape(ps[k + 1..]);
      ClosedStatementTerminated(ps, k);
      ConcatCons(head, rest);
      assert ps[..k + 1] + ps[k + 1..] == ps;
      ConcatAppend(ps[..k + 1], ps[k + 1..]);
      forall j | 0 <= j < |g| ensures |g[j]| > 0 && (j < |g| - 1 ==> Terminated(g[j])) {
        if j > 0 {
          assert g[j] == rest[j - 1];
        }
      }
    }
  }

  lemma GroupEmptyIff(ps: seq<string>)
    ensures Group(ps) == [] <==> Concat(ps) == ""
  {
    GroupShape(ps);
    var g := Group(ps);
    if g != [] {
      assert g == [g[0]] + g[1..];
      ConcatCons(g[0], g[1..]);
    }
  }

  lemma {:induction false} FirstTerminatedPrefix(ps: seq<string>, qs: seq<string>)
    requires FirstTerminated(ps) < |ps|
    ensures FirstTerminated(ps + qs) == FirstTerminated(ps)
    decreases |ps|
  {
    assert (ps + qs)[0] == ps[0];
    if !Terminated(ps[0]) {
      assert (ps + qs)[1..] == ps[1..] + qs;
      FirstTerminatedPrefix(ps[1..], qs);
    }
  }

  lemma GroupCutAppend(ps: seq<string>, qs: seq<string>)
    requires FirstTerminated(ps) < |ps|
    ensures var k := FirstTerminated(ps);
            Group(ps + qs) == [Concat(ps[..k + 1])] + Group(ps[k + 1..] + qs)
  {
    var k := FirstTerminated(ps);
    FirstTerminatedPrefix(ps, qs);
    assert (ps + qs)[..k + 1] == ps[..k + 1];
    assert (ps + qs)[k + 1..] == ps[k + 1..] + qs;
    GroupCut(ps + qs);
  }

  /** Pieces up to and including a terminated one are grouped on their own:
      the grouping splits there. */
  lemma {:induction false} GroupSplit(ps: seq<string>, qs: seq<string>)
    requires |ps| > 0 && Terminated(ps[|ps| - 1])
    ensures Group(ps + qs) == Group(ps) + Group(qs)
    decreases |ps|
  {
    var k := FirstTerminated(ps);
    assert k < |ps|;
    if k + 1 == |ps| {
      GroupSplitAtFirst(ps, qs);
    } else {
      var head := [Concat(ps[..k + 1])];
      var ps' := ps[k + 1..];
      assert ps'[|ps'| - 1] == ps[|ps| - 1];
      GroupSplit(ps', qs);
      GroupSplitStep(ps, qs, head, ps');
    }
  }

  lemma GroupSplitAtFirst(ps: seq<string>, qs: seq<string>)
    requires FirstTerminated(ps) == |ps| - 1
    ensures Group(ps + qs) == Group(ps) + Group(qs)
  {
    var k := FirstTerminated(ps);
    GroupCutAppend(ps, qs);
    GroupCut(ps);
    assert ps[k + 1..] + qs == qs;
    assert Group(ps[k + 1..]) == [];
  }

  lemma GroupSplitStep(ps: seq<string>, qs: seq<string>, head: seq<string>, ps': seq<string>)
    requires FirstTerminated(ps) < |ps|
    requires head == [Concat(ps[..FirstTerminated(ps) + 1])]
    requires ps' == ps[FirstTerminated(ps) + 1..]
    requires Group(ps' + qs) == Group(ps') + Group(qs)
    ensures Group(ps + qs) == Group(ps) + Group(qs)
  {
    GroupCutAppend(ps, qs);
    GroupCut(ps);
    AppendAssoc(head, Group(ps'), Group(qs));
  }

  /** When every piece is terminated, each is a statement of its own. */
  lemma {:induction false} GroupOfTerminated(ps: seq<string>)
    requires forall j :: 0 <= j < |ps| ==> Terminated(ps[j])
    ensures Group(ps) == ps
    decreases |ps|
  {
    if |ps| > 0 {
      assert FirstTerminated(ps) == 0;
      GroupCut(ps);
      ConcatSingle(ps[0]);
      assert ps[..1] == [ps[0]];
      GroupOfTerminated(ps[1..]);
      assert ps == [ps[0]] + ps[1..];
    }
  }

  // ---------------------------------------------------------------------
  // Properties of parse
  // ---------------------------------------------------------------------

  /** parse never returns an empty statement; every statement but the last
      ends with `;`; and the statements are the cleaned lines' text, in
      order, with nothing added or lost. */
  lemma ParseShape(lines: seq<string>)
    ensures var r := Parse(lines);
            && (forall j :: 0 <= j < |r| ==> |r[j]| > 0)
            && (forall j :: 0 <= j < |r| - 1 ==> Terminated(r[j]))
            && Concat(r) == Concat(Pieces(lines))
  {
    ParseIsGroupOfPieces(lines);
    GroupShape(Pieces(lines));
  }

  /** parse returns no statement exactly when the cleaned lines hold no text. */
  lemma ParseEmptyIff(lines: seq<string>)
    ensures Parse(lines) == [] <==> Concat(Pieces(lines)) == ""
  {
    ParseIsGroupOfPieces(lines);
    GroupEmptyIff(Pieces(lines));
  }

  /** A block of lines whose last contributing line ends a statement is
      parsed independently of what follows it. */
  lemma ParseSplit(a: seq<string>, b: seq<string>)
    requires |Pieces(a)| > 0 && Terminated(Pieces(a)[|Pieces(a)| - 1])
    ensures Parse(a + b) == Parse(a) + Parse(b)
  {
    ParseIsGroupOfPieces(a + b);
    ParseIsGroupOfPieces(a);
    ParseIsGroupOfPieces(b);
    PiecesAppend(a, b);
    GroupSplit(Pieces(a), Pieces(b));
  }

  /** A comment line, or a line the statement regex rejects, can be removed
      without changing the result. */
  lemma SkippedLineIgnored(a: seq<string>, c: string, b: seq<string>)
    requires IsLineComment(c) || Body(c) == None
    ensures Parse(a + [c] + b) == Parse(a + b)
  {
    ParseIsGroupOfPieces(a + [c] + b);
    ParseIsGroupOfPieces(a + b);
    PiecesAppend(a + [c], b);
    PiecesAppend(a, [c]);
    PiecesAppend(a, b);
    assert Pieces([c]) == [];
    assert Pieces(a) + [] == Pieces(a);
  }

  /** Lines that each hold one complete, already clean statement come back
      one statement per line. */
  lemma StatementLinesKept(lines: seq<string>)
    requires forall j :: 0 <= j < |lines| ==> Piece(lines[j]) == Some(lines[j]) && Terminated(lines[j])
    ensures Parse(lines) == lines
  {
    ParseIsGroupOfPieces(lines);
    PiecesAreLines(lines);
    GroupOfTerminated(lines);
  }

  /** Parsing is not idempotent. An indented block comment followed by
      `;` is no comment line, since LINE_COMMENT is anchored at the first
      character, and the tail after it is not at the end of the line, so
      the whole line is a statement and trim removes the indentation.
      Parsing that statement again finds a comment line and drops it. */
  lemma ReparseDropsIndentedCommentStatement()
    ensures Parse(["\t/*a*/;"]) == ["/*a*/;"]
    ensures Parse(["/*a*/;"]) == []
  {
    IndentedCommentStatementPiece();
    OneLineOneStatement("\t/*a*/;");
    BlockCommentStatementSkipped();
    CommentsAndBlanksOnly(["/*a*/;"]);
  }

  lemma {:induction false} PiecesAreLines(lines: seq<string>)
    requires forall j :: 0 <= j < |lines| ==> Piece(lines[j]) == Some(lines[j])
    ensures Pieces(lines) == lines
    decreases |lines|
  {
    if |lines| > 0 {
      PiecesAreLines(lines[1..]);
      assert lines == [lines[0]] + lines[1..];
    }
  }

  /** A cleaned line never holds a line terminator: the statement regex
      stops in front of the first one and trim only removes text. */
  lemma PieceIsOneLine(l: string)
    requires Piece(l).Some?
    ensures NoLineTerminators(Piece(l).value)
  {
    var b := Body(l).value;
    assert forall j :: 0 <= j < |b| ==> b[j] == l[j];
    assert NoLineTerminators(b);
    TrimStripsOuterSpace(b);
    var a := SpaceRunEnd(b, 0);
    var r := Trim(b);
    assert forall j :: 0 <= j < |r| ==> r[j] == b[a + j];
  }

  predicate AllOneLine(ss: seq<string>)
  {
    forall j :: 0 <= j < |ss| ==> NoLineTerminators(ss[j])
  }

  lemma {:induction false} PiecesAreOneLine(lines: seq<string>)
    ensures AllOneLine(Pieces(lines))
    decreases |lines|
  {
    if |lines| > 0 {
      PiecesAreOneLine(lines[1..]);
      if Piece(lines[0]).Some? {
        PieceIsOneLine(lines[0]);
      }
    }
  }

  lemma {:induction false} ConcatOneLine(ps: seq<string>)
    requires AllOneLine(ps)
    ensures NoLineTerminators(Concat(ps))
    decreases |ps|
  {
    if |ps| > 0 {
      ConcatOneLine(ps[1..]);
      NoLineTerminatorsAppend(ps[0], Concat(ps[1..]));
    }
  }

  lemma AllOneLineSlices(ps: seq<string>, k: nat)
    requires AllOneLine(ps) && k <= |ps|
    ensures AllOneLine(ps[..k]) && AllOneLine(ps[k..])
  {
    forall j | 0 <= j < k ensures NoLineTerminators(ps[..k][j]) {
      assert ps[..k][j] == ps[j];
    }
    forall j | 0 <= j < |ps| - k ensures NoLineTerminators(ps[k..][j]) {
      assert ps[k..][j] == ps[k + j];
    }
  }

  lemma AllOneLineCons(x: string, rest: seq<string>)
    requires NoLineTerminators(x) && AllOneLine(rest)
    ensures AllOneLine([x] + rest)
  {
    forall j | 0 <= j < |[x] + rest| ensures NoLineTerminators(([x] + rest)[j]) {
      if j > 0 {
        assert ([x] + rest)[j] == rest[j - 1];
      }
    }
  }

  lemma {:induction false} GroupOneLine(ps: seq<string>)
    requires AllOneLine(ps)
    ensures AllOneLine(Group(ps))
    decreases |ps|
  {
    var k := FirstTerminated(ps);
    if k == |ps| {
      ConcatOneLine(ps);
    } else {
      GroupCut(ps);
      AllOneLineSlices(ps, k + 1);
      ConcatOneLine(ps[..k + 1]);
      GroupOneLine(ps[k + 1..]);
      AllOneLineCons(Concat(ps[..k + 1]), Group(ps[k + 1..]));
    }
  }

  /** Every statement parse returns fits on one line, whatever the input. */
  lemma ParsedStatementsAreOneLine(lines: seq<string>)
    ensures AllOneLine(Parse(lines))
  {
    ParseIsGroupOfPieces(lines);
    PiecesAreOneLine(lines);
    GroupOneLine(Pieces(lines));
  }

  /** One cleaned line is one statement, whether or not it ends with `;`,
      and a `;` inside it never splits it. */
  lemma OneLineOneStatement(l: string)
    requires Piece(l).Some? && |Piece(l).value| > 0
    ensures Parse([l]) == [Piece(l).value]
  {
    var p := Piece(l).value;
    ParseIsGroupOfPieces([l]);
    assert Pieces([l]) == [p];
    ConcatSingle(p);
    if Terminated(p) {
      GroupOfTerminated([p]);
    }
  }

  /** A blank line contributes an empty piece. */
  lemma BlankLineEmpty(l: string)
    requires AllSpace(l) && NoLineTerminators(l)
    ensures Piece(l) == Some("")
  {
    assert NoSlashAfterSpace(l);
    UncommentedLineKept(l, "");
    assert l + "" == l;
    TrimOfBlank(l);
  }

  /** Lines that are all comments or blank yield no statement. */
  lemma CommentsAndBlanksOnly(lines: seq<string>)
    requires forall j :: 0 <= j < |lines| ==>
               IsLineComment(lines[j]) || (AllSpace(lines[j]) && NoLineTerminators(lines[j]))
    ensures Parse(lines) == []
  {
    NoTextInPieces(lines);
    ParseEmptyIff(lines);
  }

  lemma {:induction false} NoTextInPieces(lines: seq<string>)
    requires forall j :: 0 <= j < |lines| ==>
               IsLineComment(lines[j]) || (AllSpace(lines[j]) && NoLineTerminators(lines[j]))
    ensures Concat(Pieces(lines)) == ""
    decreases |lines|
  {
    if |lines| > 0 {
      var rest := Pieces(lines[1..]);
      NoTextInPieces(lines[1..]);
      if IsLineComment(lines[0]) {
        assert Pieces(lines) == [] + rest == rest;
      } else {
        BlankLineEmpty(lines[0]);
        assert Pieces(lines) == [""] + rest;
        ConcatCons("", rest);
        assert "" + Concat(rest) == "";
      }
    }
  }

  // ---------------------------------------------------------------------
  // Lines as the parser sees them
  // ---------------------------------------------------------------------

  /** trim of a word between runs of whitespace is the word. */
  lemma TrimOfPadded(w: string, x: string, z: string)
    requires AllSpace(w) && AllSpace(z)
    requires NoBareTerminators(x)
    requires |x| > 0 && !IsSpace(x[0]) && !IsSpace(x[|x| - 1])
    ensures Trim(w + x + z) == x
  {
    var s := w + x + z;
    assert NoBareTerminators(s) by {
      forall k | 0 <= k < |s| ensures !IsBareTerminator(s[k]) {
        if k < |w| {
          assert s[k] == w[k];
        } else if k < |w| + |x| {
          assert s[k] == x[k - |w|];
        } else {
          assert s[k] == z[k - |w| - |x|];
        }
      }
    }
    TrimStripsOuterSpace(s);
    var a := SpaceRunEnd(s, 0);
    var r := Trim(s);
    assert !IsSpace(s[|w|]) && !IsSpace(s[|w| + |x| - 1]);
    assert forall k :: 0 <= k < |w| ==> IsSpace(s[k]);
    assert forall k :: |w| + |x| <= k < |s| ==> IsSpace(s[k]);
    assert forall k :: 0 <= k < a ==> IsSpace(s[k]);
    assert a == |w|;
    assert forall k :: a + |r| <= k < |s| ==> IsSpace(s[k]);
    assert |r| > 0 ==> r[|r| - 1] == s[a + |r| - 1];
    assert |r| == |x|;
    assert s[|w|..|w| + |x|] == x;
  }

  /** A line with a trailing inline comment contributes the text before
      the comment. */
  lemma PieceOfCommentedLine(a: string, c: string)
    requires |a| > 0 && a[0] != '/'
    requires Unspaced(a) && !EndsWith(a, ":")
    requires InlineComment(c)
    ensures Piece(a + c) == Some(a)
  {
    assert (a + c)[0] == a[0];
    InlineCommentStripped(a, c);
    TrimKeepsTrimmed(a);
  }

  /** An indented line without comments contributes its text without the
      indentation and the line ending. */
  lemma PieceOfPlainLine(w: string, a: string, t: string)
    requires AllSpace(w) && NoLineTerminators(w)
    requires |a| > 0 && !IsSpace(a[0]) && !IsSpace(a[|a| - 1]) && a[0] != '/'
    requires NoLineTerminators(a) && NoSlashAfterSpace(w + a)
    requires LineEnding(t)
    ensures Piece(w + a + t) == Some(a)
  {
    var l := w + a;
    NoLineTerminatorsAppend(w, a);
    assert l + t == w + a + t;
    assert (l + t)[0] == if |w| > 0 then w[0] else a[0];
    UncommentedLineKept(l, t);
    assert NoBareTerminators(a);
    TrimOfPadded(w, a, "");
    assert w + a + "" == l;
  }

  // ---------------------------------------------------------------------
  // The behaviour the parser's unit tests describe
  // ---------------------------------------------------------------------

  lemma TrimExamples()
    ensures Trim("    piglet    ") == "piglet"
    ensures Trim("\t\t    piglet    \t\t") == "piglet"
    ensures Trim("piglet    \t\t") == "piglet"
    ensures Trim("\t\t    piglet") == "piglet"
  {
    TrimSpacesExample();
    TrimTabsExample();
    TrimRightExample();
    TrimLeftExample();
  }

  /** Comment lines are skipped and an inline comment is cut off. */
  lemma IgnoreCommentsExample(lines: seq<string>)
    requires lines == ["// Line comment", "/* Single line block comment.*/", "statement() // With a comment"]
    ensures Parse(lines) == ["statement()"]
  {
    assert Pieces(lines) == ["statement()"] by {
      assert Piece(lines[0]) == None;
      BlockCommentExampleSkipped(lines[1]);
      CommentedStatementExample();
      PiecesOfThree(lines);
    }
    assert Group(["statement()"]) == ["statement()"] by {
      ConcatSingle("statement()");
    }
    ParseIsGroupOfPieces(lines);
  }

  /** Inline line and block comments are cut from every line of a
      statement spread over three lines. Here and below, a test line is
      written as the concatenation of its parts. */
  lemma IgnoreCommentsMultilineExample(lines: seq<string>)
    requires lines == ["step1()." + " // Inline comment",
                       "step2()." + " /* Inline block comment */",
                       "step3();" + " // Inline comment"]
    ensures Parse(lines) == ["step1().step2().step3();"]
  {
    PieceOfCommentedLine("step1().", " // Inline comment");
    BlockCommentCut();
    PieceOfCommentedLine("step3();", " // Inline comment");
    ThreeLineStatement(lines, "step1().", "step2().", "step3();");
    StepsJoined();
  }

  /** Indentation and carriage returns left on the lines are dropped. */
  lemma IgnoreFormattingCharsExample(lines: seq<string>)
    requires lines == ["step1()." + "\r", "\t" + "step2()." + "\r\n", "  " + "step3();"]
    ensures Parse(lines) == ["step1().step2().step3();"]
  {
    PieceOfPlainLine("", "step1().", "\r");
    assert "" + "step1()." + "\r" == "step1()." + "\r";
    PieceOfPlainLine("\t", "step2().", "\r\n");
    PieceOfPlainLine("  ", "step3();", "");
    assert "  " + "step3();" + "" == "  " + "step3();";
    ThreeLineStatement(lines, "step1().", "step2().", "step3();");
    StepsJoined();
  }

  /** A `//` inside a URL is not a comment: both statements come back
      unchanged. */
  lemma StatementsWithUrlsExample(lines: seq<string>)
    requires lines == ["graph.addVertex(" + "label,'aLabel'," + "'websiteUrl', " + "'https://www." + "google.com.au');",
                       "graph.addVertex(" + "label,'aLabel'," + "'websiteUrl', " + "'https://www." + "apple.com.');"]
    ensures Parse(lines) == lines
  {
    UrlLine(lines[0], "google.com.au');");
    UrlLine(lines[1], "apple.com.');");
    StatementLinesKept(lines);
  }

  // ---------------------------------------------------------------------
  // Proof steps for the examples above: each line is checked in short
  // pieces so that no single proof grows large
  // ---------------------------------------------------------------------

  lemma TrimSpacesExample()
    ensures Trim("    piglet    ") == "piglet"
  {
    TrimOfPadded("    ", "piglet", "    ");
    assert "    " + "piglet" + "    " == "    piglet    ";
  }

  lemma TrimTabsExample()
    ensures Trim("\t\t    piglet    \t\t") == "piglet"
  {
    TrimOfPadded("\t\t    ", "piglet", "    \t\t");
    assert "\t\t    " + "piglet" + "    \t\t" == "\t\t    piglet    \t\t";
  }

  lemma TrimRightExample()
    ensures Trim("piglet    \t\t") == "piglet"
  {
    TrimOfPadded("", "piglet", "    \t\t");
    assert "" + "piglet" + "    \t\t" == "piglet    \t\t";
  }

  lemma TrimLeftExample()
    ensures Trim("\t\t    piglet") == "piglet"
  {
    TrimOfPadded("\t\t    ", "piglet", "");
    assert "\t\t    " + "piglet" + "" == "\t\t    piglet";
  }

  lemma BlockCommentExampleSkipped(l: string)
    requires l == "/* Single line block comment.*/"
    ensures Piece(l) == None
  {
    var x := " Single line block comment.";
    assert IsLineComment("/*" + x + "*/") by {
      BlockCommentExampleOneLine();
      BlockCommentLine(x);
    }
    assert "/*" + x + "*/" == l;
  }

  lemma BlockCommentExampleOneLine()
    ensures NoLineTerminators(" Single line block comment.")
  {
    NoLineTerminatorsAppend(" Single line", " block comment.");
    assert " Single line" + " block comment." == " Single line block comment.";
  }

  lemma CommentedStatementExample()
    ensures Piece("statement() // With a comment") == Some("statement()")
  {
    PieceOfCommentedLine("statement()", " // With a comment");
    assert "statement()" + " // With a comment" == "statement() // With a comment";
  }

  lemma PiecesOfThree(lines: seq<string>)
    requires |lines| == 3
    ensures Pieces(lines) == Pieces([lines[0]]) + Pieces([lines[1]]) + Pieces([lines[2]])
  {
    assert lines == [lines[0]] + [lines[1]] + [lines[2]];
    PiecesAppend([lines[0]] + [lines[1]], [lines[2]]);
    PiecesAppend([lines[0]], [lines[1]]);
  }

  /** The pieces of one statement spread over three lines, the last one
      ending it, are joined. */
  lemma GroupOfThreeLinePieces(a: string, b: string, c: string)
    requires !Terminated(a) && !Terminated(b) && Terminated(c)
    ensures Group([a, b, c]) == [a + b + c]
  {
    GroupMergesHead(a, b, [c]);
    assert [a, b] + [c] == [a, b, c];
    TerminatedAppend(a, b);
    GroupClosesHead(a + b, c, []);
    assert [a + b] + [c] == [a + b, c];
    assert [a + b, c] + [] == [a + b, c];
    assert Group([]) == [];
  }

  lemma ThreeLineStatement(lines: seq<string>, a: string, b: string, c: string)
    requires |lines| == 3
    requires Piece(lines[0]) == Some(a) && Piece(lines[1]) == Some(b) && Piece(lines[2]) == Some(c)
    requires !Terminated(a) && !Terminated(b) && Terminated(c)
    ensures Parse(lines) == [a + b + c]
  {
    PiecesOfThree(lines);
    assert Pieces(lines) == [a, b, c];
    ParseIsGroupOfPieces(lines);
    GroupOfThreeLinePieces(a, b, c);
  }

  lemma BlockCommentCut()
    ensures Piece("step2()." + " /* Inline block comment */") == Some("step2().")
  {
    NoLineTerminatorsAppend(" /* Inline", " block comment */");
    assert " /* Inline" + " block comment */" == " /* Inline block comment */";
    PieceOfCommentedLine("step2().", " /* Inline block comment */");
  }

  lemma StepsJoined()
    ensures "step1()." + "step2()." + "step3();" == "step1().step2().step3();"
  {
  }

  /** Text the parser leaves alone: no line terminator and no whitespace
      directly before a slash. */
  predicate Clean(l: string)
  {
    NoLineTerminators(l) && NoSlashAfterSpace(l)
  }

  lemma CleanAppend(a: string, b: string)
    requires Clean(a) && Clean(b)
    requires |a| > 0 && |b| > 0 && IsSpace(a[|a| - 1]) ==> b[0] != '/'
    ensures Clean(a + b)
  {
    NoLineTerminatorsAppend(a, b);
    NoSlashAfterSpaceAppend(a, b);
  }

  /** A clean line holding one statement is a statement of its own. */
  lemma CleanStatementLine(l: string)
    requires Clean(l) && Terminated(l)
    requires !IsSpace(l[0]) && l[0] != '/'
    ensures Piece(l) == Some(l)
  {
    assert l[|l| - 1] == ';';
    PieceOfPlainLine("", l, "");
    assert "" + l + "" == l;
    assert "" + l == l;
  }

  /** A line of the URL test, written as the concatenation of its pieces
      so that each can be inspected on its own. */
  lemma UrlLine(l: string, host: string)
    requires host == "google.com.au');" || host == "apple.com.');"
    requires l == "graph.addVertex(" + "label,'aLabel'," + "'websiteUrl', " + "'https://www." + host
    ensures Piece(l) == Some(l) && Terminated(l)
  {
    var p1 := "graph.addVertex(";
    var p2 := "label,'aLabel',";
    var p3 := "'websiteUrl', ";
    var p4 := "'https://www.";
    assert Clean(p1);
    assert Clean(p2);
    assert Clean(p3);
    assert Clean(p4);
    assert Clean(host);
    CleanAppend(p1, p2);
    CleanAppend(p1 + p2, p3);
    CleanAppend(p1 + p2 + p3, p4);
    CleanAppend(p1 + p2 + p3 + p4, host);
    assert l[0] == 'g';
    assert l[|l| - 1] == host[|host| - 1] == ';';
    assert l[|l| - 1..] == ";";
    CleanStatementLine(l);
  }

  lemma IndentedCommentStatementPiece()
    ensures Piece("\t/*a*/;") == Some("/*a*/;")
  {
    var l := "\t/*a*/;";
    IndentedCommentStatementBody();
    TrimOfPadded("\t", "/*a*/;", "");
    assert "\t" + "/*a*/;" + "" == l;
  }

  lemma IndentedCommentStatementBody()
    ensures Body("\t/*a*/;") == Some("\t/*a*/;")
  {
    var l := "\t/*a*/;";
    assert !DotStarCloseThenEnd(l, 6);
    assert !DotStarCloseThenEnd(l, 5);
    assert !DotStarCloseThenEnd(l, 4);
    assert !DotStarCloseThenEnd(l, 3);
    assert forall j :: 0 <= j < 7 ==> !TailAt(l, j) && !IsLineTerminator(l[j]);
    assert StopsAt(l, 7);
    assert forall k :: StopsAt(l, k) ==> k == 7;
    assert l[..7] == l;
  }

  lemma BlockCommentStatementSkipped()
    ensures IsLineComment("/*a*/;")
  {
    BlockCommentLine("a");
    assert "/*" + "a" + "*/" + ";" == "/*a*/;";
    LineCommentShape("/*a*/;");
  }
}
