/**
 * The filename-date fixer. A file whose whole name matches
 * IMG-(\d{4})(\d{2})(\d{2})-WA\d+\.jpg gets the year, month and day of its
 * modification timestamp replaced by the ones in its name, keeping the time
 * of day, provided they form a real calendar date.
 */
module FixPhotoByName {
  import opened Wrappers
  import opened Text
  import opened Calendar
  import opened DateTimes
  import opened Files

  const Prefix := "IMG-"
  const Infix := "-WA"
  const Suffix := ".jpg"

  /** The three capture groups of a full match, and the digits after "-WA". */
  datatype NameMatch = NameMatch(year: string, month: string, day: string, serial: string)
  {
    predicate WellFormed() {
      && |year| == 4 && |month| == 2 && |day| == 2 && |serial| >= 1
      && AllDigits(year) && AllDigits(month) && AllDigits(day) && AllDigits(serial)
    }
  }

  datatype Date = Date(year: int, month: int, day: int)

  /** The file name whose match yields `m`. */
  function Compose(m: NameMatch): string {
    Prefix + m.year + m.month + m.day + Infix + m.serial + Suffix
  }

  /** Pattern.matcher(name).matches() with its groups. */
  function Match(name: string): (r: Option<NameMatch>)
    ensures r.Some? ==> r.value.WellFormed() && Compose(r.value) == name
  {
    if && 20 <= |name| && name[..4] == Prefix
       && AllDigits(name[4..8]) && AllDigits(name[8..10]) && AllDigits(name[10..12])
       && name[12..15] == Infix && AllDigits(name[15..|name| - 4]) && name[|name| - 4..] == Suffix
    then
      var m := NameMatch(name[4..8], name[8..10], name[10..12], name[15..|name| - 4]);
      assert Compose(m) == name by {
        var n := |name|;
        assert name[..8] == name[..4] + name[4..8];
        assert name[..10] == name[..8] + name[8..10];
        assert name[..12] == name[..10] + name[10..12];
        assert name[..15] == name[..12] + name[12..15];
        assert name[..n - 4] == name[..15] + name[15..n - 4];
        assert name == name[..n - 4] + name[n - 4..];
      }
      Some(m)
    else None
  }

  /** Every name of the pattern's shape matches, with exactly its own groups. */
  lemma MatchCompose(m: NameMatch)
    requires m.WellFormed()
    ensures Match(Compose(m)) == Some(m)
  {
    var name := Compose(m);
    var n := |m.serial|;
    assert |name| == 19 + n;
    assert name[..4] == Prefix;
    assert name[4..8] == m.year && name[8..10] == m.month && name[10..12] == m.day;
    assert name[12..15] == Infix;
    assert name[15..|name| - 4] == m.serial;
    assert name[|name| - 4..] == Suffix;
  }

  /** Integer.parseInt of the three groups. */
  function ParsedDate(m: NameMatch): (d: Date)
    requires m.WellFormed()
    ensures 0 <= d.year < 10000 && 0 <= d.month < 100 && 0 <= d.day < 100
  {
    assert Pow10(2) == 100 && Pow10(4) == 10000;
    Date(DecimalValue(m.year), DecimalValue(m.month), DecimalValue(m.day))
  }

  /** The name `IMG-yyyyMMdd-WA<serial>.jpg` for a date given as numbers. */
  function NameFor(d: Date, serial: string): string
    requires 0 <= d.year < 10000 && 0 <= d.month < 100 && 0 <= d.day < 100
  {
    assert Pow10(2) == 100 && Pow10(4) == 10000;
    Compose(NameMatch(PadDecimal(d.year, 4), PadDecimal(d.month, 2), PadDecimal(d.day, 2), serial))
  }

  /** Parsing recovers the numbers a name was made from. */
  lemma ParseNameFor(d: Date, serial: string)
    requires 0 <= d.year < 10000 && 0 <= d.month < 100 && 0 <= d.day < 100
    requires |serial| >= 1 && AllDigits(serial)
    ensures Match(NameFor(d, serial)).Some? && ParsedDate(Match(NameFor(d, serial)).value) == d
  {
    assert Pow10(2) == 100 && Pow10(4) == 10000;
    MatchCompose(NameMatch(PadDecimal(d.year, 4), PadDecimal(d.month, 2), PadDecimal(d.day, 2), serial));
  }

  /** What processFiles decides for one file, given its current timestamp. */
  datatype Verdict = NoMatch | InvalidDate(date: Date) | Fix(stamp: DateTime)

  function Evaluate(name: string, t: DateTime): (v: Verdict)
    ensures v.NoMatch? <==> Match(name).None?
    ensures Match(name).Some? ==>
      var d := ParsedDate(Match(name).value);
      && (v.InvalidDate? <==> !IsValidDate(d.year, d.month, d.day))
      && (v.InvalidDate? ==> v.date == d)
      && (v.Fix? ==> v.stamp == t.(year := d.year, month := d.month, day := d.day))
  {
    match Match(name)
    case None => NoMatch
    case Some(m) =>
      var d := ParsedDate(m);
      if IsInvalidDay(d.month, d.day, d.year) then InvalidDate(d)
      else
        InvalidDayExactly(d.month, d.day, d.year);
        ReplaceDateExact(t, d.year, d.month, d.day);
        Fix(ReplaceDate(t, d.year, d.month, d.day).value)
  }

  /** Fixing an already fixed timestamp changes nothing, and the verdict's kind ignores the timestamp. */
  lemma EvaluateIdempotent(name: string, t: DateTime, t': DateTime)
    ensures Evaluate(name, t).Fix? ==> Evaluate(name, Evaluate(name, t).stamp) == Evaluate(name, t)
    ensures Evaluate(name, t).Fix? == Evaluate(name, t').Fix?
    ensures !Evaluate(name, t).Fix? ==> Evaluate(name, t) == Evaluate(name, t')
  {
  }

  /** A fixed timestamp is again a LocalDateTime, with the old time of day. */
  lemma EvaluateValid(name: string, t: DateTime)
    requires t.Valid() && Evaluate(name, t).Fix?
    ensures Evaluate(name, t).stamp.Valid() && Evaluate(name, t).stamp.SameTimeOfDay(t)
  {
  }

  /** A name of the pattern's shape gets the verdict its parsed date calls for. */
  lemma EvaluateComposed(m: NameMatch, t: DateTime)
    requires m.WellFormed()
    ensures var d := ParsedDate(m);
      Evaluate(Compose(m), t) ==
        if IsValidDate(d.year, d.month, d.day) then Fix(t.(year := d.year, month := d.month, day := d.day))
        else InvalidDate(d)
  {
    MatchCompose(m);
  }

  /** A well-formed match is what its own name matches to, and parses digit by digit. */
  lemma NameParses(m: NameMatch, name: string)
    requires m.WellFormed() && Compose(m) == name
    ensures Match(name) == Some(m)
    ensures ParsedDate(m) == Date(
      1000 * DigitValue(m.year[0]) + 100 * DigitValue(m.year[1]) + 10 * DigitValue(m.year[2]) + DigitValue(m.year[3]),
      10 * DigitValue(m.month[0]) + DigitValue(m.month[1]),
      10 * DigitValue(m.day[0]) + DigitValue(m.day[1]))
  {
    MatchCompose(m);
    DecimalValueFour(m.year);
    DecimalValueTwo(m.month);
    DecimalValueTwo(m.day);
  }

  /** A test-resource name gets its own date with the old time of day. */
  lemma TestNameExample(t: DateTime)
    ensures Evaluate("IMG-20220810-WA0001.jpg", t) == Fix(t.(year := 2022, month := 8, day := 10))
  {
    var m := NameMatch("2022", "08", "10", "0001");
    assert m.WellFormed() && Compose(m) == "IMG-20220810-WA0001.jpg";
    NameParses(m, "IMG-20220810-WA0001.jpg");
    assert ParsedDate(m) == Date(2022, 8, 10);
    EvaluateComposed(m, t);
  }

  /** 29 February is taken in a year divisible by 400. */
  lemma LeapDay2000Example(t: DateTime)
    ensures Evaluate("IMG-20000229-WA1.jpg", t) == Fix(t.(year := 2000, month := 2, day := 29))
  {
    var m := NameMatch("2000", "02", "29", "1");
    assert m.WellFormed() && Compose(m) == "IMG-20000229-WA1.jpg";
    NameParses(m, "IMG-20000229-WA1.jpg");
    assert ParsedDate(m) == Date(2000, 2, 29);
    EvaluateComposed(m, t);
  }

  /** 29 February is refused in a year divisible by 100 but not by 400. */
  lemma LeapDay1900Example(t: DateTime)
    ensures Evaluate("IMG-19000229-WA1.jpg", t) == InvalidDate(Date(1900, 2, 29))
  {
    var m := NameMatch("1900", "02", "29", "1");
    assert m.WellFormed() && Compose(m) == "IMG-19000229-WA1.jpg";
    NameParses(m, "IMG-19000229-WA1.jpg");
    assert ParsedDate(m) == Date(1900, 2, 29);
    EvaluateComposed(m, t);
  }

  /** 30 February is refused even in a leap year. */
  lemma February30Example(t: DateTime)
    ensures Evaluate("IMG-20240230-WA1.jpg", t) == InvalidDate(Date(2024, 2, 30))
  {
    var m := NameMatch("2024", "02", "30", "1");
    assert m.WellFormed() && Compose(m) == "IMG-20240230-WA1.jpg";
    NameParses(m, "IMG-20240230-WA1.jpg");
    assert ParsedDate(m) == Date(2024, 2, 30);
    EvaluateComposed(m, t);
  }

  /** The match is of the whole name, with a lower-case ".jpg" and at least one serial digit. */
  lemma NonMatchingNameExamples(t: DateTime)
    ensures Evaluate("20240621-IMG-20230621-WA0001.jpg", t) == NoMatch
    ensures Evaluate("IMG-20220810-WA0001.JPG", t) == NoMatch
    ensures Evaluate("IMG-20220810-WA.jpg", t) == NoMatch
    ensures Evaluate("IMG-2022081-WA0001.jpg", t) == NoMatch
  {
    assert "20240621-IMG-20230621-WA0001.jpg"[..4][0] == '2';
    assert "IMG-20220810-WA0001.JPG"[19..] != Suffix;
    assert |"IMG-20220810-WA.jpg"| < 20;
    assert !IsDigit("IMG-2022081-WA0001.jpg"[11]);
  }

  /**
   * What processFiles writes out for one file: "didn't match", nothing at all
   * (a month outside 1..12), the invalid-day warning, "Setting last modified"
   * alone, followed by the severe "Unable to modify" log, or followed by the
   * IllegalArgumentException that ends the batch.
   */
  datatype FileReport =
    | DidNotMatch
    | Skipped(date: Date)
    | InvalidDay(date: Date)
    | Updated(stamp: DateTime)
    | UpdateFailed(stamp: DateTime)
    | Aborted(stamp: DateTime)

  function ReportFor(name: string, t: DateTime, writable: bool): FileReport {
    match Evaluate(name, t)
    case NoMatch => DidNotMatch
    case InvalidDate(d) => if JANUARY <= d.month <= DECEMBER then InvalidDay(d) else Skipped(d)
    case Fix(t') =>
      if BeforeEpoch(t') then Aborted(t')
      else if writable then Updated(t') else UpdateFailed(t')
  }

  /**
   * Only a month outside 1..12 is skipped silently; a bad day in a real month
   * is warned about; a real date before the epoch throws; the rest is
   * written, successfully exactly when the file can be written.
   */
  lemma ReportForExact(name: string, t: DateTime, writable: bool)
    ensures ReportFor(name, t, writable).DidNotMatch? <==> Match(name).None?
    ensures Match(name).Some? ==>
      var r := ReportFor(name, t, writable);
      var d := ParsedDate(Match(name).value);
      var fixed := t.(year := d.year, month := d.month, day := d.day);
      && (r.Skipped? <==> d.month < JANUARY || DECEMBER < d.month)
      && (r.InvalidDay? <==> JANUARY <= d.month <= DECEMBER && !IsValidDate(d.year, d.month, d.day))
      && (r.Aborted? <==> IsValidDate(d.year, d.month, d.day) && BeforeEpoch(fixed))
      && (r.Updated? <==> IsValidDate(d.year, d.month, d.day) && !BeforeEpoch(fixed) && writable)
      && (r.Aborted? || r.Updated? || r.UpdateFailed? ==> r.stamp == fixed)
  {
  }

  /** Whether processing `name` with timestamp `t` throws: its fixed timestamp lies before the epoch. */
  predicate Throws(name: string, t: DateTime) {
    var v := Evaluate(name, t);
    v.Fix? && BeforeEpoch(v.stamp)
  }

  /** With a LocalDateTime timestamp, a file throws exactly when its name carries a real date before 1970. */
  lemma ThrowsExactly(name: string, t: DateTime)
    requires t.Valid()
    ensures Throws(name, t) <==>
      Match(name).Some? && var d := ParsedDate(Match(name).value); IsValidDate(d.year, d.month, d.day) && d.year < 1970
  {
    if Evaluate(name, t).Fix? {
      EvaluateValid(name, t);
      BeforeEpochYear(Evaluate(name, t).stamp);
    }
  }

  /** One iteration of processFiles' loop. */
  function Step(stamps: map<string, DateTime>, locked: set<string>, name: string): (map<string, DateTime>, FileReport) {
    var t := LastModifiedIn(stamps, name);
    var v := Evaluate(name, t);
    var writable := CanWriteIn(stamps, locked, name);
    (if v.Fix? && WriteOutcomeIn(stamps, locked, name, v.stamp).Written? then stamps[name := v.stamp] else stamps,
     ReportFor(name, t, writable))
  }

  /** A step whose write throws changes nothing and reports the exception. */
  lemma StepThrows(stamps: map<string, DateTime>, locked: set<string>, name: string)
    requires Throws(name, LastModifiedIn(stamps, name))
    ensures Step(stamps, locked, name) == (stamps, Aborted(Evaluate(name, LastModifiedIn(stamps, name)).stamp))
  {
  }

  /** A step whose write does not throw writes the fixed timestamp exactly when the file can be written. */
  lemma StepNoThrow(stamps: map<string, DateTime>, locked: set<string>, name: string)
    requires !Throws(name, LastModifiedIn(stamps, name))
    ensures !Step(stamps, locked, name).1.Aborted?
    ensures var v := Evaluate(name, LastModifiedIn(stamps, name));
      Step(stamps, locked, name).0 == if v.Fix? && CanWriteIn(stamps, locked, name) then stamps[name := v.stamp] else stamps
  {
  }

  /** The batch has ended with an exception. */
  predicate Stopped(reports: seq<FileReport>) {
    |reports| > 0 && reports[|reports| - 1].Aborted?
  }

  /**
   * processFiles over `files`, in order, up to the file whose write throws:
   * the timestamps afterwards and one report per file reached.
   */
  function ProcessAll(stamps: map<string, DateTime>, locked: set<string>, files: seq<string>): (r: (map<string, DateTime>, seq<FileReport>))
    ensures r.0.Keys == stamps.Keys && |r.1| <= |files|
  {
    if files == [] then (stamps, [])
    else
      var before := ProcessAll(stamps, locked, files[..|files| - 1]);
      if Stopped(before.1) then before
      else
        var after := Step(before.0, locked, files[|files| - 1]);
        (after.0, before.1 + [after.1])
  }

  /** The number of files before the first one that throws, judged on the original timestamps. */
  function FirstThrow(stamps: map<string, DateTime>, files: seq<string>): (n: nat)
    ensures n <= |files|
    ensures n < |files| ==> Throws(files[n], LastModifiedIn(stamps, files[n]))
  {
    if files == [] then 0
    else if Throws(files[0], LastModifiedIn(stamps, files[0])) then 0
    else 1 + FirstThrow(stamps, files[1..])
  }

  /** No file before FirstThrow throws. */
  lemma {:induction false} FirstThrowExact(stamps: map<string, DateTime>, files: seq<string>)
    ensures forall i :: 0 <= i < FirstThrow(stamps, files) ==> !Throws(files[i], LastModifiedIn(stamps, files[i]))
  {
    if files != [] && !Throws(files[0], LastModifiedIn(stamps, files[0])) {
      var rest := files[1..];
      FirstThrowExact(stamps, rest);
      var n := FirstThrow(stamps, rest);
      assert forall i :: 0 < i <= n ==> files[i] == rest[i - 1];
    }
  }

  /**
   * While no file throws, the batch runs to the end, and a file's final
   * timestamp depends only on its own name and old timestamp.
   */
  lemma {:induction false} ProcessAllNoThrow(stamps: map<string, DateTime>, locked: set<string>, files: seq<string>, name: string)
    requires forall i :: 0 <= i < |files| ==> !Throws(files[i], LastModifiedIn(stamps, files[i]))
    ensures !Stopped(ProcessAll(stamps, locked, files).1) && |ProcessAll(stamps, locked, files).1| == |files|
    ensures name in stamps ==>
      (ProcessAll(stamps, locked, files).0[name] ==
         if name in files && name !in locked && Evaluate(name, stamps[name]).Fix?
         then Evaluate(name, stamps[name]).stamp else stamps[name])
    decreases |files|, 1
  {
    if files != [] {
      var init := files[..|files| - 1];
      var last := files[|files| - 1];
      assert files == init + [last];
      assert forall i :: 0 <= i < |init| ==> init[i] == files[i];
      ProcessAllNoThrow(stamps, locked, init, name);
      EvaluateAfterNoThrow(stamps, locked, init, last);
      var before := ProcessAll(stamps, locked, init);
      StepNoThrow(before.0, locked, last);
      var after := Step(before.0, locked, last);
      assert ProcessAll(stamps, locked, files) == (after.0, before.1 + [after.1]);
      if name in stamps {
        EvaluateIdempotent(name, stamps[name], before.0[name]);
      }
    }
  }

  /** While no file throws, a file's verdict on its current timestamp is its verdict on the original one. */
  lemma EvaluateAfterNoThrow(stamps: map<string, DateTime>, locked: set<string>, files: seq<string>, name: string)
    requires forall i :: 0 <= i < |files| ==> !Throws(files[i], LastModifiedIn(stamps, files[i]))
    ensures Evaluate(name, LastModifiedIn(ProcessAll(stamps, locked, files).0, name)) == Evaluate(name, LastModifiedIn(stamps, name))
    decreases |files|, 2
  {
    ProcessAllNoThrow(stamps, locked, files, name);
    EvaluateIdempotent(name, LastModifiedIn(stamps, name), LastModifiedIn(ProcessAll(stamps, locked, files).0, name));
  }

  /** Once the batch has stopped, the remaining files change nothing. */
  lemma {:induction false} ProcessAllStops(stamps: map<string, DateTime>, locked: set<string>, files: seq<string>, k: nat)
    requires k <= |files| && Stopped(ProcessAll(stamps, locked, files[..k]).1)
    ensures ProcessAll(stamps, locked, files) == ProcessAll(stamps, locked, files[..k])
  {
    if k < |files| {
      var init := files[..|files| - 1];
      assert init[..k] == files[..k];
      ProcessAllStops(stamps, locked, init, k);
    } else {
      assert files[..k] == files;
    }
  }

  /**
   * The batch is the run over the files before the first throwing one,
   * followed, when there is one, by that file's Aborted report.
   */
  lemma ProcessAllThrowAt(stamps: map<string, DateTime>, locked: set<string>, files: seq<string>)
    ensures var n := FirstThrow(stamps, files);
      var before := ProcessAll(stamps, locked, files[..n]);
      ProcessAll(stamps, locked, files) ==
        if n < |files| then (before.0, before.1 + [Aborted(Evaluate(files[n], LastModifiedIn(stamps, files[n])).stamp)])
        else before
  {
    var n := FirstThrow(stamps, files);
    FirstThrowExact(stamps, files);
    if n < |files| {
      var pre := files[..n];
      assert forall i :: 0 <= i < |pre| ==> pre[i] == files[i];
      assert files[..n + 1] == pre + [files[n]];
      ProcessAllThrowStep(stamps, locked, pre, files[n]);
      ProcessAllStops(stamps, locked, files, n + 1);
    } else {
      assert files[..n] == files;
    }
  }

  /** After files none of which throws, a file that throws is reported as Aborted and writes nothing. */
  lemma ProcessAllThrowStep(stamps: map<string, DateTime>, locked: set<string>, pre: seq<string>, name: string)
    requires forall i :: 0 <= i < |pre| ==> !Throws(pre[i], LastModifiedIn(stamps, pre[i]))
    requires Throws(name, LastModifiedIn(stamps, name))
    ensures var before := ProcessAll(stamps, locked, pre);
      && Stopped(ProcessAll(stamps, locked, pre + [name]).1)
      && ProcessAll(stamps, locked, pre + [name]) ==
           (before.0, before.1 + [Aborted(Evaluate(name, LastModifiedIn(stamps, name)).stamp)])
  {
    var files := pre + [name];
    assert files[..|files| - 1] == pre;
    var before := ProcessAll(stamps, locked, pre);
    ProcessAllNoThrow(stamps, locked, pre, name);
    EvaluateAfterNoThrow(stamps, locked, pre, name);
    StepThrows(before.0, locked, name);
  }

  /**
   * A file's final timestamp depends only on its own name and old timestamp:
   * it is the fixed one when the name is listed before the first file that
   * throws, matches, carries a valid date and the file can be written, and
   * the old one otherwise.
   */
  lemma ProcessAllFile(stamps: map<string, DateTime>, locked: set<string>, files: seq<string>, name: string)
    requires name in stamps
    ensures ProcessAll(stamps, locked, files).0[name] ==
      if name in files[..FirstThrow(stamps, files)] && name !in locked && Evaluate(name, stamps[name]).Fix?
      then Evaluate(name, stamps[name]).stamp else stamps[name]
  {
    var pre := files[..FirstThrow(stamps, files)];
    FirstThrowExact(stamps, files);
    assert forall i :: 0 <= i < |pre| ==> pre[i] == files[i];
    ProcessAllThrowAt(stamps, locked, files);
    ProcessAllNoThrow(stamps, locked, pre, name);
  }

  /** While no file throws, the i-th report is the one for files[i] and its original timestamp. */
  lemma {:induction false} ProcessAllReportNoThrow(stamps: map<string, DateTime>, locked: set<string>, files: seq<string>, i: nat)
    requires forall j :: 0 <= j < |files| ==> !Throws(files[j], LastModifiedIn(stamps, files[j]))
    requires i < |files|
    ensures |ProcessAll(stamps, locked, files).1| == |files|
    ensures ProcessAll(stamps, locked, files).1[i] ==
      ReportFor(files[i], LastModifiedIn(stamps, files[i]), CanWriteIn(stamps, locked, files[i]))
  {
    ProcessAllNoThrow(stamps, locked, files, "");
    var init := files[..|files| - 1];
    assert forall j :: 0 <= j < |init| ==> init[j] == files[j];
    ProcessAllNoThrow(stamps, locked, init, files[i]);
    if i < |files| - 1 {
      ProcessAllReportNoThrow(stamps, locked, init, i);
    } else {
      EvaluateAfterNoThrow(stamps, locked, init, files[i]);
    }
  }

  /** One report per file up to and including the first that throws. */
  lemma ProcessAllLength(stamps: map<string, DateTime>, locked: set<string>, files: seq<string>)
    ensures var n := FirstThrow(stamps, files);
      |ProcessAll(stamps, locked, files).1| == if n < |files| then n + 1 else |files|
  {
    var n := FirstThrow(stamps, files);
    FirstThrowExact(stamps, files);
    var pre := files[..n];
    assert forall j :: 0 <= j < |pre| ==> pre[j] == files[j];
    ProcessAllThrowAt(stamps, locked, files);
    ProcessAllNoThrow(stamps, locked, pre, "");
  }

  /**
   * One report per file up to and including the first that throws, and the
   * i-th report is the one for files[i] and its original timestamp.
   */
  lemma ProcessAllReport(stamps: map<string, DateTime>, locked: set<string>, files: seq<string>, i: nat)
    ensures var n := FirstThrow(stamps, files);
      |ProcessAll(stamps, locked, files).1| == if n < |files| then n + 1 else |files|
    ensures i < |ProcessAll(stamps, locked, files).1| ==>
      ProcessAll(stamps, locked, files).1[i] ==
        ReportFor(files[i], LastModifiedIn(stamps, files[i]), CanWriteIn(stamps, locked, files[i]))
  {
    ProcessAllLength(stamps, locked, files);
    var n := FirstThrow(stamps, files);
    if i < n {
      ProcessAllReportBefore(stamps, locked, files, i);
    } else if i == n < |files| {
      ProcessAllThrowAt(stamps, locked, files);
      ReportForThrows(files[n], LastModifiedIn(stamps, files[n]), CanWriteIn(stamps, locked, files[n]));
    }
  }

  /** A report before the first file that throws is the one for its file and original timestamp. */
  lemma ProcessAllReportBefore(stamps: map<string, DateTime>, locked: set<string>, files: seq<string>, i: nat)
    requires i < FirstThrow(stamps, files)
    ensures i < |ProcessAll(stamps, locked, files).1|
    ensures ProcessAll(stamps, locked, files).1[i] ==
      ReportFor(files[i], LastModifiedIn(stamps, files[i]), CanWriteIn(stamps, locked, files[i]))
  {
    var n := FirstThrow(stamps, files);
    FirstThrowExact(stamps, files);
    var pre := files[..n];
    assert forall j :: 0 <= j < |pre| ==> pre[j] == files[j];
    ProcessAllLength(stamps, locked, files);
    ProcessAllThrowAt(stamps, locked, files);
    ProcessAllReportNoThrow(stamps, locked, pre, i);
    assert ProcessAll(stamps, locked, files).1[i] == ProcessAll(stamps, locked, pre).1[i];
  }

  /** A file that throws is reported as Aborted with the timestamp it was to receive. */
  lemma ReportForThrows(name: string, t: DateTime, writable: bool)
    requires Throws(name, t)
    ensures ReportFor(name, t, writable) == Aborted(Evaluate(name, t).stamp)
  {
  }

  /** A name dated before 1970 makes setLastModified throw, whatever the old timestamp. */
  lemma PreEpochNameThrows(t: DateTime, writable: bool)
    ensures Throws("IMG-19600101-WA1.jpg", t)
    ensures ReportFor("IMG-19600101-WA1.jpg", t, writable) == Aborted(t.(year := 1960, month := 1, day := 1))
  {
    var m := NameMatch("1960", "01", "01", "1");
    assert m.WellFormed() && Compose(m) == "IMG-19600101-WA1.jpg";
    NameParses(m, "IMG-19600101-WA1.jpg");
    assert ParsedDate(m) == Date(1960, 1, 1);
  }

  /** The file IMG-19600101-WA1.jpg ends the batch: it keeps its timestamp and the next file is never reached. */
  lemma PreEpochNameStopsBatch(t: DateTime, later: string, locked: set<string>)
    ensures var name := "IMG-19600101-WA1.jpg";
      ProcessAll(map[name := t], locked, [name, later]) == (map[name := t], [Aborted(t.(year := 1960, month := 1, day := 1))])
  {
    var name := "IMG-19600101-WA1.jpg";
    var files := [name, later];
    NameParses(NameMatch("1960", "01", "01", "1"), "IMG-19600101-WA1.jpg");
    PreEpochNameThrows(t, true);
    assert LastModifiedIn(map[name := t], name) == t;
    assert FirstThrow(map[name := t], files) == 0;
    assert files[..0] == [];
    assert ProcessAll(map[name := t], locked, files[..0]) == (map[name := t], []);
    ProcessAllThrowAt(map[name := t], locked, files);
    var aborted := Aborted(t.(year := 1960, month := 1, day := 1));
    assert Evaluate(name, t).stamp == aborted.stamp;
    assert [] + [aborted] == [aborted];
  }

  /** A month outside 1..12 is skipped without the invalid-day warning. */
  lemma MonthThirteenIsSkipped(t: DateTime, writable: bool)
    ensures ReportFor("IMG-20221310-WA1.jpg", t, writable) == Skipped(Date(2022, 13, 10))
  {
    var m := NameMatch("2022", "13", "10", "1");
    assert m.WellFormed() && Compose(m) == "IMG-20221310-WA1.jpg";
    NameParses(m, "IMG-20221310-WA1.jpg");
    assert ParsedDate(m) == Date(2022, 13, 10);
  }

  /** Every timestamp stays a LocalDateTime. */
  lemma ProcessAllValid(stamps: map<string, DateTime>, locked: set<string>, files: seq<string>)
    requires AllValid(stamps)
    ensures AllValid(ProcessAll(stamps, locked, files).0)
  {
    var after := ProcessAll(stamps, locked, files).0;
    forall name | name in after
      ensures after[name].Valid()
    {
      ProcessAllFile(stamps, locked, files, name);
      if Evaluate(name, stamps[name]).Fix? {
        EvaluateValid(name, stamps[name]);
      }
    }
  }

  /** One pass of processFiles' loop body, for the file `name`. */
  method ProcessFile(folder: Folder, name: string) returns (report: FileReport)
    modifies folder
    ensures (folder.stamps, report) == Step(old(folder.stamps), folder.locked, name)
  {
    var matcher := Match(name);
    if matcher.None? {
      return DidNotMatch;
    }
    var lastModified := folder.LastModified(name);
    var year := DecimalValue(matcher.value.year);
    var month := DecimalValue(matcher.value.month);
    var day := DecimalValue(matcher.value.day);
    if IsInvalidDay(month, day, year) {
      var date := Date(year, month, day);
      return if month < JANUARY || month > DECEMBER then Skipped(date) else InvalidDay(date);
    }
    InvalidDayExactly(month, day, year);
    ReplaceDateExact(lastModified, year, month, day);
    var updated := ReplaceDate(lastModified, year, month, day).value;
    var outcome := folder.SetLastModified(name, updated);
    match outcome
    case NegativeTime =>
      report := Aborted(updated);
    case Written =>
      report := Updated(updated);
    case NotWritten =>
      report := UpdateFailed(updated);
  }

  /**
   * processFiles: walks `files` in order and rewrites the timestamps in place;
   * a write that throws ends the walk, its report being the last.
   */
  method ProcessFiles(folder: Folder, files: seq<string>) returns (reports: seq<FileReport>)
    modifies folder
    ensures (folder.stamps, reports) == ProcessAll(old(folder.stamps), folder.locked, files)
  {
    reports := [];
    for i := 0 to |files|
      invariant (folder.stamps, reports) == ProcessAll(old(folder.stamps), folder.locked, files[..i])
      invariant !Stopped(reports)
    {
      assert files[..i + 1][..i] == files[..i];
      var report := ProcessFile(folder, files[i]);
      reports := reports + [report];
      if report.Aborted? {
        ProcessAllStops(old(folder.stamps), folder.locked, files, i + 1);
        return;
      }
    }
    assert files[..|files|] == files;
  }

  /** The listFiles filter of processDir: names ending in ".jpg", case-sensitively. */
  function JpgFilter(names: seq<string>): (r: seq<string>)
    ensures forall n :: n in r <==> n in names && EndsWith(n, Suffix)
    ensures |r| <= |names|
  {
    if names == [] then []
    else (if EndsWith(names[0], Suffix) then [names[0]] else []) + JpgFilter(names[1..])
  }

  /** The filter keeps the listing's order and its repetitions: it works piece by piece. */
  lemma {:induction false} JpgFilterAppend(a: seq<string>, b: seq<string>)
    ensures JpgFilter(a + b) == JpgFilter(a) + JpgFilter(b)
  {
    if a != [] {
      assert (a + b)[1..] == a[1..] + b;
      JpgFilterAppend(a[1..], b);
    } else {
      assert a + b == b;
    }
  }

  /** The filter drops only names the pattern rejects anyway, so it changes no timestamp and stops the batch at the same file. */
  lemma {:induction false} FilterChangesNoStamp(stamps: map<string, DateTime>, locked: set<string>, names: seq<string>)
    ensures SameOutcome(ProcessAll(stamps, locked, JpgFilter(names)), ProcessAll(stamps, locked, names))
  {
    if names != [] {
      var init := names[..|names| - 1];
      var last := names[|names| - 1];
      assert names == init + [last];
      FilterChangesNoStamp(stamps, locked, init);
      JpgFilterAppend(init, [last]);
      assert JpgFilter([last]) == if EndsWith(last, Suffix) then [last] else [];
      if EndsWith(last, Suffix) {
        ProcessAllSameOutcome(stamps, locked, JpgFilter(init), init, last);
      } else {
        assert JpgFilter(names) == JpgFilter(init);
        ProcessAllNoMatch(stamps, locked, init, last);
      }
    }
  }

  /** Two batches end with the same timestamps, and stop alike, with the same Aborted report. */
  predicate SameOutcome(a: (map<string, DateTime>, seq<FileReport>), b: (map<string, DateTime>, seq<FileReport>)) {
    && a.0 == b.0
    && Stopped(a.1) == Stopped(b.1)
    && (Stopped(b.1) ==> a.1[|a.1| - 1] == b.1[|b.1| - 1])
  }

  /** One more file, processed after two batches with the same outcome, keeps their outcomes the same. */
  lemma ProcessAllSameOutcome(stamps: map<string, DateTime>, locked: set<string>, a: seq<string>, b: seq<string>, name: string)
    requires SameOutcome(ProcessAll(stamps, locked, a), ProcessAll(stamps, locked, b))
    ensures SameOutcome(ProcessAll(stamps, locked, a + [name]), ProcessAll(stamps, locked, b + [name]))
  {
    assert (a + [name])[..|a|] == a;
    assert (b + [name])[..|b|] == b;
  }

  /** A name the pattern rejects changes nothing and ends no batch. */
  lemma ProcessAllNoMatch(stamps: map<string, DateTime>, locked: set<string>, files: seq<string>, name: string)
    requires Match(name).None?
    ensures SameOutcome(ProcessAll(stamps, locked, files), ProcessAll(stamps, locked, files + [name]))
  {
    assert (files + [name])[..|files|] == files;
  }

  /** processDir: a listing that fails (null) is reported and nothing changes. */
  method ProcessDir(folder: Folder, listing: Option<seq<string>>) returns (reports: Option<seq<FileReport>>)
    modifies folder
    ensures listing.None? ==> reports.None? && folder.stamps == old(folder.stamps)
    ensures listing.Some? ==> && reports.Some?
                              && (folder.stamps, reports.value) == ProcessAll(old(folder.stamps), folder.locked, JpgFilter(listing.value))
  {
    if listing.None? {
      return None;
    }
    var fileList := JpgFilter(listing.value);
    var r := ProcessFiles(folder, fileList);
    reports := Some(r);
  }
}
