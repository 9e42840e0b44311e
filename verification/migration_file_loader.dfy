/** MigrationFileLoader: checks a script's file name against the version
    pattern `^v(\d{3})_.*.(gremlin|groovy)$` (case-insensitive), reads
    the version from it, checksums the bytes and parses the lines. */
module MigrationFileLoader {
  import opened Wrappers
  import opened Text
  import opened Migrations
  import StatementParser

  /** A file as the loader sees it. `contents` is None when reading it
      fails; the bytes feed the checksum and the lines feed the parser. */
  datatype MigrationFile = MigrationFile(name: string, present: bool, contents: Option<FileContents>)

  datatype FileContents = FileContents(bytes: seq<bv8>, lines: seq<string>)

  datatype LoadError =
    | NotFound(name: string)
    | InvalidName(name: string)
    | ReadFailed(name: string)

  // ---------------------------------------------------------------------
  // VERSION_FILE_PATTERN, matched with CASE_INSENSITIVE (ASCII only)
  // ---------------------------------------------------------------------

  function LowerAscii(c: char): char
  {
    if 'A' <= c <= 'Z' then (c as int + 32) as char else c
  }

  /** `w` (lower-case) occurs at `p`, ignoring ASCII case. */
  predicate WordAt(n: string, p: nat, w: string)
  {
    p + |w| <= |n| && forall i :: 0 <= i < |w| ==> LowerAscii(n[p + i]) == w[i]
  }

  /** `(gremlin|groovy)$` matches from `p`. */
  predicate ExtensionAt(n: string, p: nat)
  {
    || (WordAt(n, p, "gremlin") && DollarAt(n, p + 7))
    || (WordAt(n, p, "groovy") && DollarAt(n, p + 6))
  }

  /** `.*.(gremlin|groovy)$` matches from `p`: one or more characters other
      than line terminators, then the extension. The character at `p` is
      either the unescaped `.` right before the extension or part of `.*`. */
  predicate RestMatchesFrom(n: string, p: nat)
    decreases |n| - p
  {
    p < |n| && !IsLineTerminator(n[p]) && (ExtensionAt(n, p + 1) || RestMatchesFrom(n, p + 1))
  }

  /** `^v(\d{3})_` followed by the rest of the pattern. */
  predicate ValidName(n: string)
  {
    && |n| >= 5
    && LowerAscii(n[0]) == 'v'
    && IsDigit(n[1]) && IsDigit(n[2]) && IsDigit(n[3])
    && n[4] == '_'
    && RestMatchesFrom(n, 5)
  }

  function DigitValue(c: char): int
    requires IsDigit(c)
  {
    c as int - '0' as int
  }

  /** `Integer.valueOf(m.group(1))` for the three digits of a valid name. */
  function Version(n: string): (v: Int32)
    requires ValidName(n)
    ensures 0 <= v <= 999
  {
    100 * DigitValue(n[1]) + 10 * DigitValue(n[2]) + DigitValue(n[3])
  }

  /** `load`: a missing file is rejected first, then an invalid name, then
      a failed read; otherwise the migration carries the name, the version,
      the checksum of the bytes and the parsed statements. */
  function Load(file: MigrationFile, checkSum: seq<bv8> -> string): (r: Result<Migration, LoadError>)
    ensures !file.present ==> r == Failure(NotFound(file.name))
    ensures file.present && !ValidName(file.name) ==> r == Failure(InvalidName(file.name))
    ensures file.present && ValidName(file.name) && file.contents.None? ==> r == Failure(ReadFailed(file.name))
    ensures r.Success? <==> file.present && ValidName(file.name) && file.contents.Some?
    ensures r.Success? ==>
              && r.value.fileName == file.name
              && r.value.version == Version(file.name)
              && r.value.checkSum == Some(checkSum(file.contents.value.bytes))
              && r.value.statements == Some(StatementParser.Parse(file.contents.value.lines))
              && r.value.appliedAt == None
  {
    if !file.present then Failure(NotFound(file.name))
    else if !ValidName(file.name) then Failure(InvalidName(file.name))
    else match file.contents
      case None => Failure(ReadFailed(file.name))
      case Some(c) =>
        var m := SetVersion(Named(file.name), Version(file.name));
        var m := SetCheckSum(m, Some(checkSum(c.bytes)));
        Success(SetStatements(m, Some(StatementParser.Parse(c.lines))))
  }

  // ---------------------------------------------------------------------
  // What the pattern accepts
  // ---------------------------------------------------------------------

  lemma {:induction false} RestMatchesShape(n: string, p: nat)
    ensures RestMatchesFrom(n, p) <==>
            exists q :: p < q <= |n| && NoLineTerminators(n[p..q]) && ExtensionAt(n, q)
    decreases |n| - p
  {
    if p < |n| && !IsLineTerminator(n[p]) {
      RestMatchesShape(n, p + 1);
      if RestMatchesFrom(n, p) {
        if ExtensionAt(n, p + 1) {
          assert NoLineTerminators(n[p..p + 1]);
        } else {
          var q :| p + 1 < q <= |n| && NoLineTerminators(n[p + 1..q]) && ExtensionAt(n, q);
          assert n[p..q] == [n[p]] + n[p + 1..q];
        }
      }
      if exists q :: p < q <= |n| && NoLineTerminators(n[p..q]) && ExtensionAt(n, q) {
        var q :| p < q <= |n| && NoLineTerminators(n[p..q]) && ExtensionAt(n, q);
        if q > p + 1 {
          forall k | p + 1 <= k < q ensures !IsLineTerminator(n[k]) {
            assert n[k] == n[p..q][k - p];
          }
        }
      }
    } else if p < |n| {
      forall q | p < q <= |n| ensures !NoLineTerminators(n[p..q]) {
        assert n[p..q][0] == n[p];
      }
    }
  }

  /** `$` with no line terminator in the name: only at the very end. */
  lemma DollarOnlyAtEnd(n: string, p: nat)
    requires NoLineTerminators(n)
    ensures DollarAt(n, p) <==> p == |n|
  {
  }

  /** For a name without line breaks: accepted exactly when it is `v` or
      `V`, three digits, `_`, at least one more character, and then
      `gremlin` or `groovy` in any case at the very end. */
  lemma ValidNameShape(n: string)
    requires NoLineTerminators(n)
    ensures ValidName(n) <==>
            && |n| >= 5
            && LowerAscii(n[0]) == 'v'
            && IsDigit(n[1]) && IsDigit(n[2]) && IsDigit(n[3])
            && n[4] == '_'
            && ((|n| >= 13 && WordAt(n, |n| - 7, "gremlin")) || (|n| >= 12 && WordAt(n, |n| - 6, "groovy")))
  {
    if |n| >= 5 {
      RestMatchesShape(n, 5);
      forall q | 5 < q <= |n| ensures NoLineTerminators(n[5..q]) {
        assert forall k :: 0 <= k < q - 5 ==> n[5..q][k] == n[5 + k];
      }
      forall q | 5 < q <= |n|
        ensures ExtensionAt(n, q) <==> (q == |n| - 7 && WordAt(n, q, "gremlin")) || (q == |n| - 6 && WordAt(n, q, "groovy"))
      {
        DollarOnlyAtEnd(n, q + 7);
        DollarOnlyAtEnd(n, q + 6);
      }
      if |n| >= 13 && WordAt(n, |n| - 7, "gremlin") {
        assert ExtensionAt(n, |n| - 7);
      }
      if |n| >= 12 && WordAt(n, |n| - 6, "groovy") {
        assert ExtensionAt(n, |n| - 6);
      }
    }
  }

  /** The version is the value of the three digits: leading zeros and the
      case of the `v` make no difference. */
  lemma VersionOfDigits(n: string, m: string)
    requires ValidName(n) && ValidName(m)
    requires n[1..4] == m[1..4]
    ensures Version(n) == Version(m)
  {
    assert n[1] == n[1..4][0] && n[2] == n[1..4][1] && n[3] == n[1..4][2];
    assert m[1] == m[1..4][0] && m[2] == m[1..4][1] && m[3] == m[1..4][2];
  }

  /** Two versions differ exactly when their digits differ. */
  lemma VersionInjective(n: string, m: string)
    requires ValidName(n) && ValidName(m)
    ensures Version(n) == Version(m) <==> n[1..4] == m[1..4]
  {
    if n[1..4] == m[1..4] {
      VersionOfDigits(n, m);
    }
    if Version(n) == Version(m) {
      assert n[1] == m[1] && n[2] == m[2] && n[3] == m[3];
      assert n[1..4] == [n[1], n[2], n[3]];
      assert m[1..4] == [m[1], m[2], m[3]];
    }
  }

  // ---------------------------------------------------------------------
  // Names from the loader's error message and its callers
  // ---------------------------------------------------------------------

  /** A name built from its parts: `v` or `V`, three digits, `_`, a
      description without line breaks, and an extension. */
  lemma NameFromParts(v: char, d1: char, d2: char, d3: char, desc: string, ext: string)
    requires v == 'v' || v == 'V'
    requires IsDigit(d1) && IsDigit(d2) && IsDigit(d3)
    requires |desc| >= 1 && NoLineTerminators(desc)
    requires ext == "gremlin" || ext == "groovy" || ext == "GREMLIN" || ext == "Groovy"
    ensures ValidName([v, d1, d2, d3, '_'] + desc + ext)
    ensures Version([v, d1, d2, d3, '_'] + desc + ext) == 100 * DigitValue(d1) + 10 * DigitValue(d2) + DigitValue(d3)
  {
    var n := [v, d1, d2, d3, '_'] + desc + ext;
    forall k | 0 <= k < |n| ensures !IsLineTerminator(n[k]) {
      if 5 <= k < 5 + |desc| {
        assert n[k] == desc[k - 5];
      } else if k >= 5 + |desc| {
        assert n[k] == ext[k - 5 - |desc|];
      }
    }
    forall i | 0 <= i < |ext| ensures n[|n| - |ext| + i] == ext[i] {
    }
    assert |ext| == 7 ==> WordAt(n, |n| - 7, "gremlin");
    assert |ext| == 6 ==> WordAt(n, |n| - 6, "groovy");
    ValidNameShape(n);
  }

  /** The example name of the loader's error message is accepted, and so
      is a name whose "dot" is some other character, because the `.`
      before the extension is not escaped. The case of the `v` and of the
      extension does not matter. */
  lemma NameExamples()
    ensures ValidName("v001_" + "migration." + "gremlin") && Version("v001_" + "migration." + "gremlin") == 1
    ensures ValidName("V012_" + "add_index." + "Groovy") && Version("V012_" + "add_index." + "Groovy") == 12
    ensures ValidName("v001_" + "migrationX" + "gremlin")
  {
    NameFromParts('v', '0', '0', '1', "migration.", "gremlin");
    assert ['v', '0', '0', '1', '_'] == "v001_";
    NameFromParts('V', '0', '1', '2', "add_index.", "Groovy");
    assert ['V', '0', '1', '2', '_'] == "V012_";
    NameFromParts('v', '0', '0', '1', "migrationX", "gremlin");
  }

  /** Names the pattern rejects: a two-digit version, no character between
      the underscore and the extension, and another extension. */
  lemma RejectedNameExamples()
    ensures !ValidName("v01_" + "a.gremlin")
    ensures !ValidName("v001_" + "gremlin")
    ensures !ValidName("v001_" + "migration.sql")
  {
    var a := "v01_" + "a.gremlin";
    assert a[3] == '_';
    var b := "v001_" + "gremlin";
    assert NoLineTerminators(b);
    ValidNameShape(b);
    assert |b| == 12 && LowerAscii(b[6]) == 'r' && "groovy"[0] == 'g';
    var c := "v001_" + "migration.sql";
    assert NoLineTerminators(c);
    ValidNameShape(c);
    assert c[|c| - 7] == 'i' && c[|c| - 6] == 'o';
  }
}
