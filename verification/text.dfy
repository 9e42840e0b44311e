/** Characters and strings as the JDK's regular expressions and string
    methods see them. Strings are sequences of characters; Java's UTF-16
    code units are approximated by Dafny's Unicode scalar values. */
module Text {

  /** `\s` of java.util.regex without UNICODE_CHARACTER_CLASS: [ \t\n\x0B\f\r]. */
  predicate IsSpace(c: char) {
    c == ' ' || c == '\t' || c == '\n' || c == '\U{000B}' || c == '\U{000C}' || c == '\r'
  }

  /** The line terminators of java.util.regex when UNIX_LINES is off: `.`
      does not match them and `$` may stop in front of them. */
  predicate IsLineTerminator(c: char) {
    c == '\n' || c == '\r' || c == '\U{0085}' || c == '\U{2028}' || c == '\U{2029}'
  }

  /** A line terminator that `\s` does not match. */
  predicate IsBareTerminator(c: char) {
    IsLineTerminator(c) && !IsSpace(c)
  }

  /** Non-multiline `$` succeeds at `p`: at the end of the line, before one
      final line terminator (but never between `\r` and `\n`), or before a
      final `\r\n`. */
  predicate DollarAt(l: string, p: int)
  {
    || p == |l|
    || (0 <= p && p == |l| - 1 && IsLineTerminator(l[p]) && !(l[p] == '\n' && p > 0 && l[p - 1] == '\r'))
    || (0 <= p && p == |l| - 2 && l[p] == '\r' && l[p + 1] == '\n')
  }

  predicate NoLineTerminators(s: string) {
    forall k :: 0 <= k < |s| ==> !IsLineTerminator(s[k])
  }

  predicate NoBareTerminators(s: string) {
    forall k :: 0 <= k < |s| ==> !IsBareTerminator(s[k])
  }

  predicate AllSpace(s: string) {
    forall k :: 0 <= k < |s| ==> IsSpace(s[k])
  }

  predicate IsDigit(c: char) {
    '0' <= c <= '9'
  }

  predicate StartsWith(s: string, prefix: string) {
    |prefix| <= |s| && s[..|prefix|] == prefix
  }

  predicate EndsWith(s: string, suffix: string) {
    |suffix| <= |s| && s[|s| - |suffix|..] == suffix
  }

  /** `needle` occurs in `s` starting at index `at`. */
  predicate OccursAt(s: string, needle: string, at: int) {
    0 <= at && at + |needle| <= |s| && s[at..at + |needle|] == needle
  }

  predicate Contains(s: string, needle: string) {
    exists at :: 0 <= at <= |s| - |needle| && OccursAt(s, needle, at)
  }

  /** The concatenation of all parts with nothing between them. */
  function Concat(parts: seq<string>): string {
    if |parts| == 0 then "" else parts[0] + Concat(parts[1..])
  }

  /** `Collectors.joining(sep)`: the parts in order with `sep` between neighbours. */
  function Join(parts: seq<string>, sep: string): string {
    if |parts| == 0 then ""
    else if |parts| == 1 then parts[0]
    else parts[0] + sep + Join(parts[1..], sep)
  }

  lemma JoinTwo(a: string, b: string, sep: string)
    ensures Join([a, b], sep) == a + sep + b
  {
    assert [a, b][1..] == [b];
  }

  lemma JoinThree(a: string, b: string, c: string, sep: string)
    ensures Join([a, b, c], sep) == a + sep + b + sep + c
  {
    assert [a, b, c][1..] == [b, c];
    JoinTwo(b, c, sep);
  }

  lemma AppendAssoc<T>(a: seq<T>, b: seq<T>, c: seq<T>)
    ensures a + (b + c) == (a + b) + c
  {
  }

  lemma NoLineTerminatorsAppend(a: string, b: string)
    requires NoLineTerminators(a) && NoLineTerminators(b)
    ensures NoLineTerminators(a + b)
  {
    forall k | 0 <= k < |a + b| ensures !IsLineTerminator((a + b)[k]) {
      if k < |a| {
        assert (a + b)[k] == a[k];
      } else {
        assert (a + b)[k] == b[k - |a|];
      }
    }
  }

  lemma ConcatSingle(x: string)
    ensures Concat([x]) == x
  {
    assert [x][1..] == [];
  }

  lemma {:induction false} ConcatAppend(a: seq<string>, b: seq<string>)
    ensures Concat(a + b) == Concat(a) + Concat(b)
    decreases |a|
  {
    if |a| == 0 {
      assert a + b == b;
    } else {
      assert (a + b)[1..] == a[1..] + b;
      ConcatAppend(a[1..], b);
    }
  }

  // ---------------------------------------------------------------------
  // String.split with a literal separator and no limit
  // ---------------------------------------------------------------------

  /** First index at or after `i` where `sep` occurs, |s| when there is none. */
  function FindFrom(s: string, sep: string, i: nat): (k: nat)
    requires |sep| > 0 && i <= |s|
    ensures i <= k <= |s|
    ensures k < |s| ==> OccursAt(s, sep, k)
    ensures forall j :: i <= j < k ==> !OccursAt(s, sep, j)
    ensures k == |s| ==> forall j :: i <= j <= |s| ==> !OccursAt(s, sep, j)
    decreases |s| - i
  {
    if i == |s| then |s|
    else if OccursAt(s, sep, i) then i
    else FindFrom(s, sep, i + 1)
  }

  /** The pieces between leftmost, non-overlapping occurrences of `sep`,
      empty ones included. */
  function Fields(s: string, sep: string): (fs: seq<string>)
    requires |sep| > 0
    ensures |fs| > 0
    decreases |s|
  {
    var k := FindFrom(s, sep, 0);
    if k == |s| then [s] else [s[..k]] + Fields(s[k + |sep|..], sep)
  }

  function DropTrailingEmpty(fs: seq<string>): (r: seq<string>)
    ensures |r| <= |fs| && r == fs[..|r|]
    ensures r == [] || r[|r| - 1] != ""
    ensures forall j :: |r| <= j < |fs| ==> fs[j] == ""
  {
    if |fs| > 0 && fs[|fs| - 1] == "" then
      var r := DropTrailingEmpty(fs[..|fs| - 1]);
      assert fs[..|fs| - 1][..|r|] == fs[..|r|];
      r
    else fs
  }

  /** `s.split(sep)` for a separator without regex metacharacters: the
      whole string when `sep` does not occur, otherwise the fields with
      trailing empty fields removed. */
  function Split(s: string, sep: string): seq<string>
    requires |sep| > 0
  {
    if FindFrom(s, sep, 0) == |s| then [s] else DropTrailingEmpty(Fields(s, sep))
  }

  /** Joining the fields with the separator gives back the string. */
  lemma {:induction false} FieldsJoin(s: string, sep: string)
    requires |sep| > 0
    ensures Join(Fields(s, sep), sep) == s
    decreases |s|
  {
    var k := FindFrom(s, sep, 0);
    if k < |s| {
      var t := s[k + |sep|..];
      FieldsJoin(t, sep);
      var rest := Fields(t, sep);
      assert ([s[..k]] + rest)[1..] == rest;
      assert s[k..k + |sep|] == sep;
      assert s == s[..k] + sep + t;
    }
  }

  /** A separator that starts with a line terminator cannot occur in a
      string without line terminators. */
  lemma NoSeparatorInLine(s: string, sep: string)
    requires |sep| > 0 && IsLineTerminator(sep[0])
    requires NoLineTerminators(s)
    ensures FindFrom(s, sep, 0) == |s|
  {
    assert forall j :: 0 <= j <= |s| ==> !OccursAt(s, sep, j);
  }

  lemma {:induction false} FieldsOfJoin(ss: seq<string>, sep: string)
    requires |ss| > 0
    requires |sep| > 0 && IsLineTerminator(sep[0])
    requires forall j :: 0 <= j < |ss| ==> NoLineTerminators(ss[j])
    ensures Fields(Join(ss, sep), sep) == ss
    decreases |ss|
  {
    if |ss| == 1 {
      NoSeparatorInLine(ss[0], sep);
    } else {
      var a := ss[0];
      var rest := Join(ss[1..], sep);
      var s := a + sep + rest;
      assert Join(ss, sep) == s;
      forall j | 0 <= j < |a| ensures !OccursAt(s, sep, j) {
        assert s[j] == a[j];
      }
      assert s[|a|..|a| + |sep|] == sep;
      assert FindFrom(s, sep, 0) == |a| by {
        FindFromSkips(s, sep, |a|);
      }
      assert s[..|a|] == a;
      assert s[|a| + |sep|..] == rest;
      FieldsOfJoin(ss[1..], sep);
      assert ss == [a] + ss[1..];
    }
  }

  lemma FindFromSkips(s: string, sep: string, k: nat)
    requires |sep| > 0 && k < |s|
    requires OccursAt(s, sep, k)
    requires forall j :: 0 <= j < k ==> !OccursAt(s, sep, j)
    ensures FindFrom(s, sep, 0) == k
  {
  }

  /** Splitting the joined lines gives them back, provided no line holds
      a line terminator and the last line is not empty. */
  lemma SplitJoin(ss: seq<string>, sep: string)
    requires |ss| > 0
    requires |sep| > 0 && IsLineTerminator(sep[0])
    requires forall j :: 0 <= j < |ss| ==> NoLineTerminators(ss[j])
    requires |ss| == 1 || ss[|ss| - 1] != ""
    ensures Split(Join(ss, sep), sep) == ss
  {
    FieldsOfJoin(ss, sep);
    if |ss| == 1 {
      NoSeparatorInLine(ss[0], sep);
    } else {
      var s := Join(ss, sep);
      assert s == ss[0] + sep + Join(ss[1..], sep);
      assert OccursAt(s, sep, |ss[0]|) by {
        assert s[|ss[0]|..|ss[0]| + |sep|] == sep;
      }
    }
  }
}
