/** ExperimentHandler.cs: after the handshake the sequence checks the
    connection, and when it is up runs two blocks, each writing a local data
    file named "onlineVR_<subject>_<yyyy-MM-dd_HH-mm>_B<block>" and handing it
    to `UploadData`. The clock, the data directory and the platform's path
    conventions are inputs. */
module Experiment {
  import opened Base
  import opened Text
  import Utf8
  import opened Handshake

  // ---------------------------------------------------------------------
  // DateTime.Now.ToString("yyyy-MM-dd_HH-mm")
  // ---------------------------------------------------------------------

  datatype DateTime = DateTime(year: int, month: int, day: int, hour: int, minute: int)

  predicate IsLeapYear(y: int) {
    y % 4 == 0 && (y % 100 != 0 || y % 400 == 0)
  }

  function DaysInMonth(y: int, m: int): int
    requires 1 <= m <= 12
  {
    if m == 2 then (if IsLeapYear(y) then 29 else 28)
    else if m == 4 || m == 6 || m == 9 || m == 11 then 30
    else 31
  }

  /** The range of a .NET `DateTime`, to the minute. */
  predicate ValidDateTime(t: DateTime) {
    && 1 <= t.year <= 9999
    && 1 <= t.month <= 12
    && 1 <= t.day <= DaysInMonth(t.year, t.month)
    && 0 <= t.hour < 24
    && 0 <= t.minute < 60
  }

  type Moment = t: DateTime | ValidDateTime(t) witness DateTime(1, 1, 1, 0, 0)

  /** The last `width` decimal digits of `n`, most significant first. For the
      values a moment holds this is the custom format fields "yyyy", "MM",
      "dd", "HH" and "mm": the number zero-filled to the field's width. */
  function Field(n: nat, width: nat): (s: string)
    ensures |s| == width
    ensures All(s, IsDigit)
    decreases width
  {
    if width == 0 then [] else Field(n / 10, width - 1) + [DigitChar(n % 10)]
  }

  /** The 16-character stamp of the file name (the invariant culture is set at start-up). */
  function FormatStamp(t: Moment): (s: string)
    ensures |s| == 16
  {
    Field(t.year, 4) + "-" + Field(t.month, 2) + "-" + Field(t.day, 2)
    + "_" + Field(t.hour, 2) + "-" + Field(t.minute, 2)
  }

  /** Reads a stamp back: four digit groups of widths 4, 2, 2, 2, 2 between the
      separators '-', '-', '_', '-'. */
  function ParseStamp(s: string): Option<DateTime> {
    if |s| == 16 && s[4] == '-' && s[7] == '-' && s[10] == '_' && s[13] == '-'
       && All(s[..4], IsDigit) && All(s[5..7], IsDigit) && All(s[8..10], IsDigit)
       && All(s[11..13], IsDigit) && All(s[14..], IsDigit)
    then Some(DateTime(DecimalValue(s[..4]), DecimalValue(s[5..7]), DecimalValue(s[8..10]),
                       DecimalValue(s[11..13]), DecimalValue(s[14..])))
    else None
  }

  /** A field holds the number itself whenever it fits in the width. */
  lemma {:induction false} FieldValue(n: nat, width: nat)
    requires n < Pow10(width)
    ensures DecimalValue(Field(n, width)) == n
    decreases width
  {
    if width > 0 {
      var f := Field(n, width);
      assert f[..width - 1] == Field(n / 10, width - 1);
      FieldValue(n / 10, width - 1);
    }
  }

  /** A field is the shortest decimal spelling zero-filled to the width: the
      custom format's rule for a value with at most that many digits. */
  lemma FieldIsZeroPadded(n: nat, width: nat)
    requires width >= 1 && n < Pow10(width)
    ensures Field(n, width) == ZeroPad(Decimal(n), width)
  {
    DecimalLength(n, width);
    DecimalValueOfPadded(Decimal(n), width);
    DecimalRoundTrip(n);
    FieldValue(n, width);
    DecimalValueInjective(Field(n, width), ZeroPad(Decimal(n), width));
  }

  /** Where each of nine joined strings sits in the joined text. */
  lemma PiecesOfNine(a: string, b: string, c: string, d: string, e: string, f: string,
                     g: string, h: string, k: string)
    ensures var n := a + b + c + d + e + f + g + h + k;
      var i1 := |a|;
      var i2 := i1 + |b|;
      var i3 := i2 + |c|;
      var i4 := i3 + |d|;
      var i5 := i4 + |e|;
      var i6 := i5 + |f|;
      var i7 := i6 + |g|;
      var i8 := i7 + |h|;
      && |n| == i8 + |k|
      && n[..i1] == a && n[i1..i2] == b && n[i2..i3] == c && n[i3..i4] == d
      && n[i4..i5] == e && n[i5..i6] == f && n[i6..i7] == g && n[i7..i8] == h && n[i8..] == k
  {
  }

  /** Where the fields and separators of a stamp sit. */
  lemma StampLayout(t: Moment)
    ensures var s := FormatStamp(t);
      && s[..4] == Field(t.year, 4) && s[4] == '-'
      && s[5..7] == Field(t.month, 2) && s[7] == '-'
      && s[8..10] == Field(t.day, 2) && s[10] == '_'
      && s[11..13] == Field(t.hour, 2) && s[13] == '-'
      && s[14..] == Field(t.minute, 2)
  {
    PiecesOfNine(Field(t.year, 4), "-", Field(t.month, 2), "-", Field(t.day, 2), "_",
                 Field(t.hour, 2), "-", Field(t.minute, 2));
  }

  /** The stamp determines the moment: reading it back gives the same fields. */
  lemma StampRoundTrip(t: Moment)
    ensures ParseStamp(FormatStamp(t)) == Some(t)
  {
    StampLayout(t);
    FieldValue(t.year, 4);
    FieldValue(t.month, 2);
    FieldValue(t.day, 2);
    FieldValue(t.hour, 2);
    FieldValue(t.minute, 2);
  }

  // ---------------------------------------------------------------------
  // File name and path
  // ---------------------------------------------------------------------

  const NamePrefix := "onlineVR_"

  /** `String.Format("onlineVR_{0}_{1}_B{2}", SubjectNumber, stamp, block.ToString())`. */
  function FileName(subject: string, stamp: Moment, block: int): (n: string)
    ensures |n| == |subject| + |IntToDecimal(block)| + 28
    ensures n[..9] == NamePrefix
  {
    NamePrefix + subject + "_" + FormatStamp(stamp) + "_B" + IntToDecimal(block)
  }

  /** Where each of six joined strings sits in the joined text. */
  lemma PiecesOfSix(a: string, b: string, c: string, d: string, e: string, f: string)
    ensures var n, i, j, k, l, m := a + b + c + d + e + f, |a|, |a| + |b|, |a| + |b| + |c|,
                                  |a| + |b| + |c| + |d|, |a| + |b| + |c| + |d| + |e|;
      && |n| == m + |f|
      && n[..i] == a && n[i..j] == b && n[j..k] == c && n[k..l] == d && n[l..m] == e && n[m..] == f
  {
  }

  /** Where the parts of a file name sit, `k` being the subject's length. */
  lemma FileNameLayout(subject: string, stamp: Moment, block: int)
    ensures var n, k := FileName(subject, stamp, block), |subject|;
      && |n| == 9 + k + 1 + 16 + 2 + |IntToDecimal(block)|
      && n[..9] == NamePrefix
      && n[9..9 + k] == subject
      && n[9 + k] == '_'
      && n[10 + k..26 + k] == FormatStamp(stamp)
      && n[26 + k..28 + k] == "_B"
      && n[28 + k..] == IntToDecimal(block)
  {
    PiecesOfSix(NamePrefix, subject, "_", FormatStamp(stamp), "_B", IntToDecimal(block));
  }

  /** The name splits back into its parts at fixed offsets after the subject. */
  lemma FileNameFields(subject: string, stamp: Moment, block: int)
    ensures var n, k := FileName(subject, stamp, block), |subject|;
      && |n| == 9 + k + 1 + 16 + 2 + |IntToDecimal(block)|
      && n[..9] == NamePrefix
      && n[9..9 + k] == subject
      && n[9 + k] == '_'
      && ParseStamp(n[10 + k..26 + k]) == Some(stamp)
      && n[26 + k..28 + k] == "_B"
      && ParseInt(n[28 + k..]) == Some(block)
  {
    FileNameLayout(subject, stamp, block);
    StampRoundTrip(stamp);
    IntRoundTrip(block);
  }

  /** With a six-character subject and a one-digit block the name is exactly
      35 characters: 9 + 6 + 1 + 16 + 2 + 1. */
  lemma FileNameLength(subject: string, stamp: Moment, block: int)
    requires |subject| == 6 && 1 <= block <= 9
    ensures |FileName(subject, stamp, block)| == 35
  {
    FileNameFields(subject, stamp, block);
    DecimalLength(block, 1);
  }

  /** A stamp is plain ASCII: digits and the separators '-' and '_'. */
  lemma StampAscii(t: Moment)
    ensures All(FormatStamp(t), IsAscii)
  {
    var y, mo, d := Field(t.year, 4), Field(t.month, 2), Field(t.day, 2);
    var h, mi := Field(t.hour, 2), Field(t.minute, 2);
    DigitsAreAscii(y); DigitsAreAscii(mo); DigitsAreAscii(d);
    DigitsAreAscii(h); DigitsAreAscii(mi);
    AllConcat(y, "-", IsAscii);
    AllConcat(y + "-", mo, IsAscii);
    AllConcat(y + "-" + mo, "-", IsAscii);
    AllConcat(y + "-" + mo + "-", d, IsAscii);
    AllConcat(y + "-" + mo + "-" + d, "_", IsAscii);
    AllConcat(y + "-" + mo + "-" + d + "_", h, IsAscii);
    AllConcat(y + "-" + mo + "-" + d + "_" + h, "-", IsAscii);
    AllConcat(y + "-" + mo + "-" + d + "_" + h + "-", mi, IsAscii);
  }

  /** A name built on an ASCII subject is ASCII, so its UTF-8 encoding has
      one byte per character. */
  lemma FileNameAscii(subject: string, stamp: Moment, block: int)
    requires All(subject, IsAscii)
    ensures All(FileName(subject, stamp, block), IsAscii)
  {
    var b := IntToDecimal(block);
    assert All(b, IsAscii) by {
      if block < 0 {
        DigitsAreAscii(Decimal(-block));
        AllConcat("-", Decimal(-block), IsAscii);
      } else {
        DigitsAreAscii(Decimal(block));
      }
    }
    StampAscii(stamp);
    AllConcat(NamePrefix, subject, IsAscii);
    AllConcat(NamePrefix + subject, "_", IsAscii);
    AllConcat(NamePrefix + subject + "_", FormatStamp(stamp), IsAscii);
    AllConcat(NamePrefix + subject + "_" + FormatStamp(stamp), "_B", IsAscii);
    AllConcat(NamePrefix + subject + "_" + FormatStamp(stamp) + "_B", b, IsAscii);
  }

  /** Names of equal-length subjects are equal only when subject, stamp and
      block all are; in particular blocks 1 and 2 never share a name. */
  lemma FileNameInjective(s1: string, t1: Moment, b1: int, s2: string, t2: Moment, b2: int)
    requires |s1| == |s2|
    requires FileName(s1, t1, b1) == FileName(s2, t2, b2)
    ensures s1 == s2 && t1 == t2 && b1 == b2
  {
    FileNameFields(s1, t1, b1);
    FileNameFields(s2, t2, b2);
  }

  /** Blocks 1 and 2 never share a file name, whatever the clock says. */
  lemma BlocksGetDistinctNames(subject: string, t1: Moment, t2: Moment)
    ensures FileName(subject, t1, 1) != FileName(subject, t2, 2)
  {
    FileNameFields(subject, t1, 1);
    FileNameFields(subject, t2, 2);
  }

  /** The platform's path conventions. */
  datatype Platform = Unix | Windows

  function DirectorySeparator(p: Platform): char {
    if p == Windows then '\\' else '/'
  }

  predicate IsDirectorySeparator(p: Platform, c: char) {
    c == '/' || (p == Windows && c == '\\')
  }

  predicate IsDriveLetter(c: char) {
    ('A' <= c <= 'Z') || ('a' <= c <= 'z')
  }

  predicate IsPathRooted(p: Platform, path: string) {
    || (|path| >= 1 && IsDirectorySeparator(p, path[0]))
    || (p == Windows && |path| >= 2 && IsDriveLetter(path[0]) && path[1] == ':')
  }

  /** `Path.Combine(first, second)`: `second` alone when `first` is empty or
      `second` is rooted; otherwise the two joined by a separator unless one
      is already there. */
  function CombinePath(p: Platform, first: string, second: string): (r: string)
    // the result always ends with `second`, with at most `first` and a separator before it
    ensures |second| <= |r| <= |first| + |second| + 1
    ensures r[|r| - |second|..] == second
  {
    if first == [] then second
    else if second == [] then first
    else if IsPathRooted(p, second) then second
    else if IsDirectorySeparator(p, first[|first| - 1]) || IsDirectorySeparator(p, second[0]) then
      first + second
    else first + [DirectorySeparator(p)] + second
  }

  /** For a relative `second`, the combined path starts with `first`, ends with
      `second`, and has at most one character between them, a separator; that
      separator is there whenever `first` is non-empty and does not already end
      in one. */
  lemma CombinePathShape(p: Platform, first: string, second: string)
    requires second != [] && !IsPathRooted(p, second)
    ensures var r := CombinePath(p, first, second);
      && |first| + |second| <= |r| <= |first| + |second| + 1
      && r[..|first|] == first
      && r[|r| - |second|..] == second
      && (|r| > |first| + |second| ==> r[|first|] == DirectorySeparator(p))
      && (first != [] && !IsDirectorySeparator(p, first[|first| - 1]) && !IsDirectorySeparator(p, second[0])
          ==> |r| == |first| + |second| + 1)
  {
  }

  /** `Path.Combine(Application.persistentDataPath, fileName + ".csv")`. */
  function FilePath(p: Platform, dataDir: string, fileName: string): (path: string)
    ensures |fileName| + 4 <= |path| <= |dataDir| + |fileName| + 5
    ensures path[|path| - |fileName| - 4..] == fileName + ".csv"
  {
    CombinePath(p, dataDir, fileName + ".csv")
  }

  /** The data file lives in the data directory, under the name plus ".csv",
      with at most one separator in between. */
  lemma FilePathShape(p: Platform, dataDir: string, subject: string, stamp: Moment, block: int)
    ensures var name, path := FileName(subject, stamp, block), FilePath(p, dataDir, FileName(subject, stamp, block));
      && |dataDir| + |name| + 4 <= |path| <= |dataDir| + |name| + 5
      && path[..|dataDir|] == dataDir
      && path[|path| - |name| - 4..] == name + ".csv"
  {
    var name := FileName(subject, stamp, block);
    assert (name + ".csv")[0] == 'o';
    CombinePathShape(p, dataDir, name + ".csv");
  }

  /** The line each mock block writes. */
  const DataLine := "Well done, you have successfully decrypted this data file."

  function NewLine(p: Platform): string {
    if p == Windows then "\r\n" else "\n"
  }

  /** What `StreamWriter.WriteLine` leaves on disk: UTF-8 without a byte-order mark. */
  function DataFileBytes(p: Platform): Bytes {
    Utf8.Encode(DataLine + NewLine(p))
  }

  // ---------------------------------------------------------------------
  // ExperimentSequence
  // ---------------------------------------------------------------------

  /** One `UploadData(fileName, filePath)` call. */
  datatype UploadCall = UploadCall(fileName: string, filePath: string)

  /** The subject number as `String.Format` renders it: a null identity is empty. */
  function SubjectNumber(h: HandlerState): string {
    match GetSubjectNumber(h)
    case None => ""
    case Some(id) => id
  }

  /** The call block `block` makes: the name from the subject, the block's
      clock reading and the block number, the path from that name. */
  function BlockCall(subject: string, p: Platform, dataDir: string, stamp: Moment, block: int): UploadCall {
    var name := FileName(subject, stamp, block);
    UploadCall(name, FilePath(p, dataDir, name))
  }

  /** `[f(1), ..., f(n)]`: what a loop over 1..n that appends `f(i)` collects. */
  function Tabulate<T>(f: int -> T, n: nat): seq<T> {
    if n == 0 then [] else Tabulate(f, n - 1) + [f(n)]
  }

  /** Element `i` of the tabulation is `f(i + 1)`. */
  lemma {:induction false} TabulateShape<T>(f: int -> T, n: nat)
    ensures |Tabulate(f, n)| == n
    ensures forall i :: 0 <= i < n ==> Tabulate(f, n)[i] == f(i + 1)
  {
    if n > 0 {
      TabulateShape(f, n - 1);
    }
  }

  /** The paths the calls write to. */
  function Paths(calls: seq<UploadCall>): set<string> {
    set i | 0 <= i < |calls| :: calls[i].filePath
  }

  /** The disk after each call's file has been written with `data`, in order. */
  function Written(disk: map<string, Bytes>, calls: seq<UploadCall>, data: Bytes): map<string, Bytes>
  {
    if calls == [] then disk
    else Written(disk, calls[..|calls| - 1], data)[calls[|calls| - 1].filePath := data]
  }

  /** Writing one more file updates the disk at that file's path. */
  lemma WrittenSnoc(disk: map<string, Bytes>, calls: seq<UploadCall>, c: UploadCall, data: Bytes)
    ensures Written(disk, calls + [c], data) == Written(disk, calls, data)[c.filePath := data]
  {
    assert (calls + [c])[..|calls|] == calls;
  }

  /** Writing the files adds exactly their paths to the disk, each holding
      `data`, and leaves every other file as it was. */
  lemma {:induction false} WrittenShape(disk: map<string, Bytes>, calls: seq<UploadCall>, data: Bytes)
    ensures Written(disk, calls, data).Keys == disk.Keys + Paths(calls)
    ensures forall k :: k in Paths(calls) ==> Written(disk, calls, data)[k] == data
    ensures forall k :: k in disk && k !in Paths(calls) ==> Written(disk, calls, data)[k] == disk[k]
  {
    if calls != [] {
      var init := calls[..|calls| - 1];
      WrittenShape(disk, init, data);
      assert Paths(calls) == Paths(init) + {calls[|calls| - 1].filePath} by {
        forall k | k in Paths(calls) ensures k in Paths(init) + {calls[|calls| - 1].filePath} {
          var i :| 0 <= i < |calls| && calls[i].filePath == k;
          if i < |calls| - 1 { assert init[i] == calls[i]; }
        }
        forall k | k in Paths(init) ensures k in Paths(calls) {
          var i :| 0 <= i < |init| && init[i].filePath == k;
          assert calls[i] == init[i];
        }
      }
    }
  }

  /** The loop `for (block = 1; block <= blocks; block++)`: block `b` makes
      the call `blockCall(b)`, writing `data` to its file first. */
  method RunBlocks(blocks: nat, blockCall: int -> UploadCall, data: Bytes, disk: map<string, Bytes>)
    returns (calls: seq<UploadCall>, disk': map<string, Bytes>)
    ensures calls == Tabulate(blockCall, blocks)
    ensures disk' == Written(disk, calls, data)
  {
    calls, disk' := [], disk;
    var block := 1;
    while block <= blocks
      invariant 1 <= block <= blocks + 1
      invariant calls == Tabulate(blockCall, block - 1)
      invariant disk' == Written(disk, calls, data)
    {
      var call := blockCall(block);
      WrittenSnoc(disk, calls, call, data);
      disk' := disk'[call.filePath := data];
      calls := calls + [call];
      block := block + 1;
    }
  }

  /** `ExperimentSequence` from the connection check on. `h` is the handler's
      state when the first `testConnection` instance has finished (the caller
      waits for that instance only); `clock(b)` is `DateTime.Now` in block `b`.
      Returns the `UploadData` calls in order and the disk afterwards. */
  method ExperimentSequence(h: HandlerState, p: Platform, dataDir: string, clock: int -> Moment,
                            disk: map<string, Bytes>)
    returns (calls: seq<UploadCall>, disk': map<string, Bytes>)
    ensures !ConnectionCheck(h) ==> calls == [] && disk' == disk
    ensures ConnectionCheck(h) ==> |calls| == 2 && calls[0].fileName != calls[1].fileName
    ensures forall i :: 0 <= i < |calls| ==>
      calls[i] == BlockCall(SubjectNumber(h), p, dataDir, clock(i + 1), i + 1)
    ensures disk' == Written(disk, calls, DataFileBytes(p))
  {
    if !ConnectionCheck(h) {
      return [], disk;
    }
    calls, disk' := RunBlocks(2, b => BlockCall(SubjectNumber(h), p, dataDir, clock(b), b), DataFileBytes(p), disk);
    TabulateShape(b => BlockCall(SubjectNumber(h), p, dataDir, clock(b), b), 2);
    BlocksGetDistinctNames(SubjectNumber(h), clock(1), clock(2));
  }

  /** The connection check reads the state after the first GET only: when that
      GET fails and the retry succeeds, the handshake ends connected, yet the
      sequence has already seen `connectionCheck()` false and stopped. */
  lemma RetrySuccessComesTooLate(replies: seq<Reply>)
    requires |replies| >= 2
    requires IsRequestError(replies[0].result)
    requires !IsRequestError(replies[1].result) && ':' in replies[1].body
    ensures !ConnectionCheck(Step(Start, replies[0]))
    ensures ConnectionCheck(Run(Start, replies).final)
  {
    SucceedsAfterFailures(Start, 1, replies);
  }
}
