/** The migration record shared by the loader, the ledger and the
    orchestrator: a script's file name, its version, a checksum of its
    bytes, its statements and the time it was applied. Java's nullable
    fields are `Option`s; an `int` field is a 32-bit integer. */
module Migrations {
  import opened Wrappers
  import opened Text

  const MinInt32: int := -0x8000_0000
  const MaxInt32: int := 0x7fff_ffff

  type Int32 = x: int | MinInt32 <= x <= MaxInt32

  /** A point in time, as milliseconds since the epoch; only ever copied. */
  type Instant = int

  /** `System.lineSeparator()`: "\n" on Unix-like systems, "\r\n" on Windows. */
  type LineSeparator = s: string | s == "\n" || s == "\r\n" witness "\n"

  datatype Migration = Migration(
    fileName: string,
    version: Int32,
    checkSum: Option<string>,
    statements: Option<seq<string>>,
    appliedAt: Option<Instant>)

  /** `new Migration(fileName)`: every other field keeps its Java default. */
  function Named(fileName: string): (m: Migration)
    ensures m.fileName == fileName
    ensures m.version == 0 && m.checkSum == None && m.statements == None && m.appliedAt == None
  {
    Migration(fileName, 0, None, None, None)
  }

  /** `new Migration(fileName, checkSum)`: only the two fields are set. */
  function WithCheckSum(fileName: string, checkSum: string): (m: Migration)
    ensures m.fileName == fileName && m.checkSum == Some(checkSum)
    ensures m.version == 0 && m.statements == None && m.appliedAt == None
  {
    Migration(fileName, 0, Some(checkSum), None, None)
  }

  // Each setter replaces its own field and leaves the other four as they were.

  function SetVersion(m: Migration, version: Int32): (r: Migration)
    ensures r.version == version
    ensures r.fileName == m.fileName && r.checkSum == m.checkSum
    ensures r.statements == m.statements && r.appliedAt == m.appliedAt
  {
    m.(version := version)
  }

  function SetFileName(m: Migration, fileName: string): (r: Migration)
    ensures r.fileName == fileName
    ensures r.version == m.version && r.checkSum == m.checkSum
    ensures r.statements == m.statements && r.appliedAt == m.appliedAt
  {
    m.(fileName := fileName)
  }

  function SetCheckSum(m: Migration, checkSum: Option<string>): (r: Migration)
    ensures r.checkSum == checkSum
    ensures r.fileName == m.fileName && r.version == m.version
    ensures r.statements == m.statements && r.appliedAt == m.appliedAt
  {
    m.(checkSum := checkSum)
  }

  function SetStatements(m: Migration, statements: Option<seq<string>>): (r: Migration)
    ensures r.statements == statements
    ensures r.fileName == m.fileName && r.version == m.version
    ensures r.checkSum == m.checkSum && r.appliedAt == m.appliedAt
  {
    m.(statements := statements)
  }

  function SetAppliedAt(m: Migration, appliedAt: Option<Instant>): (r: Migration)
    ensures r.appliedAt == appliedAt
    ensures r.fileName == m.fileName && r.version == m.version
    ensures r.checkSum == m.checkSum && r.statements == m.statements
  {
    m.(appliedAt := appliedAt)
  }

  /** `getContents`: no contents when the statements were never set;
      otherwise the statements in order with the line separator between
      neighbours. */
  function GetContents(m: Migration, sep: LineSeparator): (r: Option<string>)
    ensures r.None? <==> m.statements.None?
    ensures m.statements == Some([]) ==> r == Some("")
    ensures (m.statements.Some? && |m.statements.value| == 1) ==> r == Some(m.statements.value[0])
  {
    match m.statements
    case None => None
    case Some(ss) => Some(Join(ss, sep))
  }

  /** The contents hold each statement once, in order: splitting them at
      the separator gives the statements back, as long as no statement
      spans lines and the last one is not empty. */
  lemma ContentsSplitBack(m: Migration, sep: LineSeparator)
    requires m.statements.Some? && |m.statements.value| > 0
    requires forall j :: 0 <= j < |m.statements.value| ==> NoLineTerminators(m.statements.value[j])
    requires |m.statements.value| == 1 || m.statements.value[|m.statements.value| - 1] != ""
    ensures GetContents(m, sep).Some?
    ensures Split(GetContents(m, sep).value, sep) == m.statements.value
  {
    SplitJoin(m.statements.value, sep);
  }
}
