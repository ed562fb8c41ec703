/**
 * The metadata-date fixer. It resolves a directory from the command line or
 * from a directory chooser, then gives every JPEG file in it the capture date
 * found in an EXIF IFD0 directory of its metadata. The metadata library, the
 * chooser and File.isDirectory are inputs to the model.
 */
module PhotoFixer {
  import opened Wrappers
  import opened Text
  import opened DateTimes
  import opened Files

  /** The tag-name prefix that makes the tag loop read the EXIF DateTime (tag 306). */
  const DateTimePrefix := "Date/Time"

  // File selection.

  function IsJpegExtension(name: string): bool {
    var lower := Lower(name);
    EndsWith(lower, ".jpg") || EndsWith(lower, ".jpeg")
  }

  /** `s` ends in `suffix` once each of its letters is lower-cased. */
  predicate EndsWithIgnoringCase(s: string, suffix: string) {
    |suffix| <= |s| && forall i :: 0 <= i < |suffix| ==> LowerChar(s[|s| - |suffix| + i]) == suffix[i]
  }

  lemma LowerEndsWith(s: string, suffix: string)
    ensures EndsWith(Lower(s), suffix) <==> EndsWithIgnoringCase(s, suffix)
  {
    if |suffix| <= |s| {
      var tail := Lower(s)[|s| - |suffix|..];
      assert forall i :: 0 <= i < |suffix| ==> tail[i] == LowerChar(s[|s| - |suffix| + i]);
    }
  }

  /** The extension test ignores the case of ASCII letters. */
  lemma JpegExtensionIgnoresCase(name: string)
    ensures IsJpegExtension(name) <==> EndsWithIgnoringCase(name, ".jpg") || EndsWithIgnoringCase(name, ".jpeg")
  {
    LowerEndsWith(name, ".jpg");
    LowerEndsWith(name, ".jpeg");
  }

  lemma UpperCaseJpegExamples()
    ensures IsJpegExtension("A.JPG") && IsJpegExtension("b.Jpeg")
  {
    var a := Lower("A.JPG");
    assert a[1] == '.' && a[2] == 'j' && a[3] == 'p' && a[4] == 'g';
    assert a[|a| - 4..] == ".jpg";
    var b := Lower("b.Jpeg");
    assert b[1] == '.' && b[2] == 'j' && b[3] == 'p' && b[4] == 'e' && b[5] == 'g';
    assert b[|b| - 5..] == ".jpeg";
  }

  lemma NonJpegExamples()
    ensures !IsJpegExtension("d.png") && !IsJpegExtension("e.jpgx")
  {
    JpegExtensionIgnoresCase("d.png");
    JpegExtensionIgnoresCase("e.jpgx");
    assert LowerChar("d.png"[2]) != ".jpg"[1] && LowerChar("d.png"[0]) != ".jpeg"[0];
    assert LowerChar("e.jpgx"[5]) != ".jpg"[3] && LowerChar("e.jpgx"[5]) != ".jpeg"[4];
  }

  /** The filename-date fixer's ".jpg" filter is case-sensitive, so it accepts strictly fewer names. */
  lemma CaseSensitiveFilterIsNarrower(name: string)
    ensures EndsWith(name, ".jpg") ==> IsJpegExtension(name)
    ensures IsJpegExtension("A.JPG") && !EndsWith("A.JPG", ".jpg")
  {
    JpegExtensionIgnoresCase(name);
    UpperCaseJpegExamples();
    if EndsWith(name, ".jpg") {
      assert forall i :: 0 <= i < 4 ==> name[|name| - 4 + i] == ".jpg"[i];
    }
    assert "A.JPG"[1..][1] == 'J';
  }

  // Directory resolution.

  /** processCmdLine: the argument when it names a directory, otherwise nothing. */
  function ProcessCmdLine(arg: Option<string>, directories: set<string>): (dir: Option<string>)
    ensures dir.Some? <==> arg.Some? && arg.value in directories
    ensures dir.Some? ==> dir == arg
  {
    if arg.Some? then (if arg.value in directories then arg else None)
    else None
  }

  /** A chooser result that ends the do-while: cancelled (null), or a directory. */
  predicate EndsPrompt(selection: Option<string>, directories: set<string>) {
    selection.None? || selection.value in directories
  }

  /** The first selection that ends the prompt loop, if the user ever gives one. */
  function PromptOutcome(selections: seq<Option<string>>, directories: set<string>): (r: Option<Option<string>>)
    ensures r.Some? <==> exists k :: 0 <= k < |selections| && EndsPrompt(selections[k], directories)
    ensures r.Some? ==> EndsPrompt(r.value, directories)
  {
    if selections == [] then None
    else if EndsPrompt(selections[0], directories) then Some(selections[0])
    else
      var r := PromptOutcome(selections[1..], directories);
      assert forall k :: 0 < k < |selections| ==> selections[k] == selections[1..][k - 1];
      r
  }

  lemma {:induction false} PromptOutcomeFirst(selections: seq<Option<string>>, directories: set<string>, k: nat)
    requires k < |selections| && EndsPrompt(selections[k], directories)
    requires forall j :: 0 <= j < k ==> !EndsPrompt(selections[j], directories)
    ensures PromptOutcome(selections, directories) == Some(selections[k])
  {
    if k > 0 {
      PromptOutcomeFirst(selections[1..], directories, k - 1);
    }
  }

  /** The directory askForInputDirectory returns; None when the user would be prompted forever. */
  function ChosenDirectory(arg: Option<string>, selections: seq<Option<string>>, directories: set<string>): Option<Option<string>> {
    var fromCmdLine := ProcessCmdLine(arg, directories);
    if fromCmdLine.Some? then Some(fromCmdLine) else PromptOutcome(selections, directories)
  }

  /** An argument that is not a directory is treated like no argument: the chooser is shown. */
  lemma BadArgumentFallsBackToPrompt(arg: Option<string>, selections: seq<Option<string>>, directories: set<string>)
    requires arg.None? || arg.value !in directories
    ensures ChosenDirectory(arg, selections, directories) == PromptOutcome(selections, directories)
    ensures ChosenDirectory(arg, selections, directories) == ChosenDirectory(None, selections, directories)
  {
  }

  /**
   * askForInputDirectory: the command-line directory if there is one, and
   * otherwise the first chooser result that is a cancellation or a directory.
   * `prompts` is the number of choosers shown.
   */
  method AskForInputDirectory(arg: Option<string>, selections: seq<Option<string>>, directories: set<string>)
      returns (dir: Option<string>, prompts: nat)
    requires ProcessCmdLine(arg, directories).Some?
             || exists k :: 0 <= k < |selections| && EndsPrompt(selections[k], directories)
    ensures ProcessCmdLine(arg, directories).Some? ==> dir == ProcessCmdLine(arg, directories) && prompts == 0
    ensures ProcessCmdLine(arg, directories).None? ==>
      && 0 < prompts <= |selections|
      && dir == selections[prompts - 1] && EndsPrompt(dir, directories)
      && forall j :: 0 <= j < prompts - 1 ==> !EndsPrompt(selections[j], directories)
    ensures dir.Some? ==> dir.value in directories
  {
    dir := ProcessCmdLine(arg, directories);
    prompts := 0;
    if dir.None? {
      var exit := false;
      while !exit
        invariant prompts <= |selections|
        invariant !exit ==> forall j :: 0 <= j < prompts ==> !EndsPrompt(selections[j], directories)
        invariant !exit ==> exists k :: prompts <= k < |selections| && EndsPrompt(selections[k], directories)
        invariant exit ==> 0 < prompts && dir == selections[prompts - 1] && EndsPrompt(dir, directories)
        invariant exit ==> forall j :: 0 <= j < prompts - 1 ==> !EndsPrompt(selections[j], directories)
        decreases |selections| - prompts
      {
        dir := selections[prompts];
        prompts := prompts + 1;
        if dir.None? {
          exit := true;
        } else if dir.value !in directories {
          exit := false;
        } else {
          exit := true;
        }
      }
    }
  }

  // Date search in the metadata.

  datatype DirectoryKind = ExifIfd0 | OtherDirectory

  /** One metadata directory: its tags' names and what getDate(306) returns. */
  datatype MetadataDirectory = MetadataDirectory(kind: DirectoryKind, tagNames: seq<string>, dateTimeTag: Option<DateTime>)

  /** A directory entry and the result of reading its metadata (None: the reader threw). */
  datatype Photo = Photo(name: string, metadata: Option<seq<MetadataDirectory>>)

  /** getDirectoriesOfType(ExifIFD0Directory.class), in order. */
  function OfTypeIfd0(ds: seq<MetadataDirectory>): (r: seq<MetadataDirectory>)
    ensures forall d :: d in r <==> d in ds && d.kind == ExifIfd0
    ensures |r| <= |ds|
  {
    if ds == [] then []
    else (if ds[0].kind == ExifIfd0 then [ds[0]] else []) + OfTypeIfd0(ds[1..])
  }

  /** The selection keeps the library's order and repetitions: it works piece by piece. */
  lemma {:induction false} OfTypeIfd0Append(a: seq<MetadataDirectory>, b: seq<MetadataDirectory>)
    ensures OfTypeIfd0(a + b) == OfTypeIfd0(a) + OfTypeIfd0(b)
  {
    if a != [] {
      assert (a + b)[1..] == a[1..] + b;
      OfTypeIfd0Append(a[1..], b);
    } else {
      assert a + b == b;
    }
  }

  /** Some tag name in `names` starts with "Date/Time". */
  predicate AnyDateTimeName(names: seq<string>) {
    |names| > 0 && (StartsWith(names[0], DateTimePrefix) || AnyDateTimeName(names[1..]))
  }

  lemma {:induction false} AnyDateTimeNameExists(names: seq<string>)
    ensures AnyDateTimeName(names) <==> exists j :: 0 <= j < |names| && StartsWith(names[j], DateTimePrefix)
  {
    if |names| > 0 {
      AnyDateTimeNameExists(names[1..]);
      assert forall j :: 0 < j < |names| ==> names[j] == names[1..][j - 1];
    }
  }

  predicate HasDateTimeTag(d: MetadataDirectory) {
    AnyDateTimeName(d.tagNames)
  }

  /** A directory whose tag loop reaches setLastModified. */
  predicate Qualifies(d: MetadataDirectory) {
    HasDateTimeTag(d) && d.dateTimeTag.Some?
  }

  /** The dates setLastModified is called with when no call throws: one per qualifying directory, in order. */
  function QualifyingDates(ds: seq<MetadataDirectory>): (r: seq<DateTime>)
    ensures |r| <= |ds|
  {
    if ds == [] then []
    else
      var last := ds[|ds| - 1];
      QualifyingDates(ds[..|ds| - 1]) + if Qualifies(last) then [last.dateTimeTag.value] else []
  }

  /** A single directory gives its date exactly when it qualifies. */
  lemma QualifyingDatesSingle(d: MetadataDirectory)
    ensures QualifyingDates([d]) == if Qualifies(d) then [d.dateTimeTag.value] else []
  {
    assert [d][..0] == [];
  }

  /** The dates of a run of directories are those of its parts, in order: with QualifyingDatesSingle, one date per qualifying directory. */
  lemma {:induction false} QualifyingDatesAppend(a: seq<MetadataDirectory>, b: seq<MetadataDirectory>)
    ensures QualifyingDates(a + b) == QualifyingDates(a) + QualifyingDates(b)
  {
    if b == [] {
      assert a + b == a;
    } else {
      var init := b[..|b| - 1];
      assert (a + b)[..|a + b| - 1] == a + init;
      QualifyingDatesAppend(a, init);
    }
  }

  /** The dates are exactly the qualifying directories' dates. */
  lemma {:induction false} QualifyingDatesMembers(ds: seq<MetadataDirectory>, t: DateTime)
    ensures t in QualifyingDates(ds) <==> exists i :: 0 <= i < |ds| && Qualifies(ds[i]) && ds[i].dateTimeTag.value == t
  {
    if ds != [] {
      var init := ds[..|ds| - 1];
      QualifyingDatesMembers(init, t);
      assert forall i :: 0 <= i < |init| ==> ds[i] == init[i];
    }
  }

  /** No date is written exactly when no directory qualifies. */
  lemma {:induction false} QualifyingDatesEmpty(ds: seq<MetadataDirectory>)
    ensures QualifyingDates(ds) == [] <==> forall i :: 0 <= i < |ds| ==> !Qualifies(ds[i])
  {
    if ds != [] {
      var init := ds[..|ds| - 1];
      QualifyingDatesEmpty(init);
      assert forall i :: 0 <= i < |init| ==> ds[i] == init[i];
    }
  }

  /** ds[i] is the last directory of `ds` that qualifies. */
  predicate LastQualifying(ds: seq<MetadataDirectory>, i: int) {
    && 0 <= i < |ds| && Qualifies(ds[i])
    && forall j :: i < j < |ds| ==> !Qualifies(ds[j])
  }

  /** The last date written is the last qualifying directory's. */
  lemma {:induction false} QualifyingDatesLast(ds: seq<MetadataDirectory>)
    requires QualifyingDates(ds) != []
    ensures var dates := QualifyingDates(ds);
      exists i :: LastQualifying(ds, i) && dates[|dates| - 1] == ds[i].dateTimeTag.value
  {
    var init := ds[..|ds| - 1];
    var last := ds[|ds| - 1];
    var dates := QualifyingDates(ds);
    if Qualifies(last) {
      assert LastQualifying(ds, |ds| - 1);
    } else {
      assert dates == QualifyingDates(init);
      QualifyingDatesLast(init);
      var i :| LastQualifying(init, i) && dates[|dates| - 1] == init[i].dateTimeTag.value;
      assert ds[i] == init[i];
      assert forall j :: i < j < |ds| ==> !Qualifies(ds[j]) by {
        forall j | i < j < |ds| ensures !Qualifies(ds[j]) {
          if j < |ds| - 1 {
            assert ds[j] == init[j];
          }
        }
      }
      assert LastQualifying(ds, i);
    }
  }

  /** The number of dates before the first one that lies before the epoch. */
  function FirstBeforeEpoch(dates: seq<DateTime>): (k: nat)
    ensures k <= |dates|
    ensures k < |dates| ==> BeforeEpoch(dates[k])
  {
    if dates == [] then 0
    else
      var k := FirstBeforeEpoch(dates[..|dates| - 1]);
      if k < |dates| - 1 then k
      else if BeforeEpoch(dates[|dates| - 1]) then |dates| - 1
      else |dates|
  }

  /** No date before FirstBeforeEpoch lies before the epoch. */
  lemma {:induction false} FirstBeforeEpochExact(dates: seq<DateTime>)
    ensures forall i :: 0 <= i < FirstBeforeEpoch(dates) ==> !BeforeEpoch(dates[i])
  {
    if dates != [] {
      FirstBeforeEpochExact(dates[..|dates| - 1]);
    }
  }

  /** The state of the directory loop: the date last applied, the dates passed to setLastModified, and whether one threw. */
  datatype MetadataScan = MetadataScan(applied: Option<DateTime>, written: seq<DateTime>, thrown: bool)

  /** The directory loop over `ds` as it runs: every qualifying directory writes its date, and a date before the epoch throws. */
  function ScanAll(ds: seq<MetadataDirectory>): MetadataScan {
    if ds == [] then MetadataScan(None, [], false)
    else
      var before := ScanAll(ds[..|ds| - 1]);
      var last := ds[|ds| - 1];
      if before.thrown || !Qualifies(last) then before
      else if BeforeEpoch(last.dateTimeTag.value) then MetadataScan(before.applied, before.written + [last.dateTimeTag.value], true)
      else MetadataScan(last.dateTimeTag, before.written + [last.dateTimeTag.value], false)
  }

  /** The directory loop seen through the dates it passes to setLastModified. */
  function ScanDates(dates: seq<DateTime>): MetadataScan {
    if dates == [] then MetadataScan(None, [], false)
    else
      var before := ScanDates(dates[..|dates| - 1]);
      var d := dates[|dates| - 1];
      if before.thrown then before
      else if BeforeEpoch(d) then MetadataScan(before.applied, before.written + [d], true)
      else MetadataScan(Some(d), before.written + [d], false)
  }

  /** Only the qualifying directories' dates matter to the loop. */
  lemma {:induction false} ScanAllDates(ds: seq<MetadataDirectory>)
    ensures ScanAll(ds) == ScanDates(QualifyingDates(ds))
  {
    if ds != [] {
      var init := ds[..|ds| - 1];
      var last := ds[|ds| - 1];
      ScanAllDates(init);
      var a := QualifyingDates(init);
      var dates := QualifyingDates(ds);
      if Qualifies(last) {
        assert dates == a + [last.dateTimeTag.value];
        assert dates[..|dates| - 1] == a;
      } else {
        assert dates == a;
      }
    }
  }

  /**
   * setLastModified is called with the dates up to and including the first
   * one before the epoch, and the loop throws exactly when there is such a date.
   */
  lemma {:induction false} ScanDatesWritten(dates: seq<DateTime>)
    ensures var k := FirstBeforeEpoch(dates);
      && (ScanDates(dates).thrown <==> k < |dates|)
      && ScanDates(dates).written == if k < |dates| then dates[..k + 1] else dates
  {
    if dates != [] {
      var init := dates[..|dates| - 1];
      ScanDatesWritten(init);
      var k := FirstBeforeEpoch(init);
      if k < |init| {
        assert dates[..k + 1] == init[..k + 1];
      } else {
        assert dates == init + [dates[|dates| - 1]];
      }
    }
  }

  /** The date applied last is the one just before the first date before the epoch. */
  lemma {:induction false} ScanDatesApplied(dates: seq<DateTime>)
    ensures var k := FirstBeforeEpoch(dates);
      ScanDates(dates).applied == if k == 0 then None else Some(dates[k - 1])
  {
    if dates != [] {
      var init := dates[..|dates| - 1];
      ScanDatesApplied(init);
      ScanDatesWritten(init);
      var k := FirstBeforeEpoch(init);
      assert k > 0 ==> dates[k - 1] == init[k - 1];
    }
  }

  /** The report and the applied date of a readable photo, read off the directory loop's state. */
  lemma ScanAllReport(p: Photo)
    requires p.metadata.Some?
    ensures var scan := ScanAll(OfTypeIfd0(p.metadata.value));
      && (scan.thrown ==> |scan.written| > 0 && ReportFor(p) == Aborted(scan.written[|scan.written| - 1]))
      && (!scan.thrown ==> ReportFor(p) == if scan.applied.Some? then Found(scan.applied.value) else DateNotFound)
      && Applied(p) == scan.applied
  {
    var ifd0 := OfTypeIfd0(p.metadata.value);
    var dates := QualifyingDates(ifd0);
    var k := FirstBeforeEpoch(dates);
    ScanAllDates(ifd0);
    var scan := ScanDates(dates);
    ScanDatesWritten(dates);
    ScanDatesApplied(dates);
    assert Applied(p) == if k == 0 then None else Some(dates[k - 1]);
    if k < |dates| {
      assert ReportFor(p) == Aborted(dates[k]);
      assert scan.written == dates[..k + 1];
      assert scan.written[|scan.written| - 1] == dates[k];
    } else {
      assert ReportFor(p) == if dates == [] then DateNotFound else Found(dates[|dates| - 1]);
    }
  }

  /** Once a write has thrown, the remaining directories are never reached. */
  lemma {:induction false} ScanAllStops(ds: seq<MetadataDirectory>, k: nat)
    requires k <= |ds| && ScanAll(ds[..k]).thrown
    ensures ScanAll(ds) == ScanAll(ds[..k])
  {
    if k < |ds| {
      var init := ds[..|ds| - 1];
      assert init[..k] == ds[..k];
      ScanAllStops(init, k);
    } else {
      assert ds[..k] == ds;
    }
  }

  /** A found date, the date that threw, or none: what run reports for a photo. */
  datatype PhotoReport = Found(date: DateTime) | DateNotFound | Unreadable | Aborted(date: DateTime)

  function ReportFor(p: Photo): PhotoReport {
    match p.metadata
    case None => Unreadable
    case Some(ds) =>
      var dates := QualifyingDates(OfTypeIfd0(ds));
      var k := FirstBeforeEpoch(dates);
      if k < |dates| then Aborted(dates[k])
      else if dates == [] then DateNotFound
      else Found(dates[|dates| - 1])
  }

  /** Unreadable exactly when the read fails; "didn't find date" exactly when no IFD0 directory qualifies. */
  lemma ReportForKinds(p: Photo)
    ensures ReportFor(p).Unreadable? <==> p.metadata.None?
    ensures ReportFor(p).DateNotFound? <==> p.metadata.Some? && forall d :: d in p.metadata.value && d.kind == ExifIfd0 ==> !Qualifies(d)
    ensures ReportFor(p).Aborted? ==> BeforeEpoch(ReportFor(p).date)
  {
    if p.metadata.Some? {
      var ifd0 := OfTypeIfd0(p.metadata.value);
      QualifyingDatesEmpty(ifd0);
      assert forall d :: d in ifd0 <==> d in p.metadata.value && d.kind == ExifIfd0;
    }
  }

  /** A run's date for a photo comes from the last qualifying IFD0 directory, and a date that throws is the first one before the epoch. */
  lemma ReportForDirectories(p: Photo)
    requires p.metadata.Some?
    ensures var ifd0 := OfTypeIfd0(p.metadata.value);
      && (ReportFor(p).Found? ==>
            && !SomeDateBeforeEpoch(ifd0)
            && exists i :: LastQualifying(ifd0, i) && ReportFor(p).date == ifd0[i].dateTimeTag.value)
      && (ReportFor(p).Aborted? <==> SomeDateBeforeEpoch(ifd0))
  {
    if ReportFor(p).Found? {
      ReportForFound(p);
    }
    ReportForAborted(p);
  }

  /** A found date is the last qualifying IFD0 directory's, and no qualifying date lies before the epoch. */
  lemma ReportForFound(p: Photo)
    requires p.metadata.Some? && ReportFor(p).Found?
    ensures var ifd0 := OfTypeIfd0(p.metadata.value);
      && !SomeDateBeforeEpoch(ifd0)
      && exists i :: LastQualifying(ifd0, i) && ReportFor(p).date == ifd0[i].dateTimeTag.value
  {
    var ifd0 := OfTypeIfd0(p.metadata.value);
    var dates := QualifyingDates(ifd0);
    DatesBeforeEpoch(ifd0);
    assert FirstBeforeEpoch(dates) == |dates| && dates != [] && ReportFor(p).date == dates[|dates| - 1];
    QualifyingDatesLast(ifd0);
  }

  /** A write throws exactly when some qualifying IFD0 directory's date lies before the epoch. */
  lemma ReportForAborted(p: Photo)
    requires p.metadata.Some?
    ensures ReportFor(p).Aborted? <==> SomeDateBeforeEpoch(OfTypeIfd0(p.metadata.value))
  {
    var ifd0 := OfTypeIfd0(p.metadata.value);
    var dates := QualifyingDates(ifd0);
    DatesBeforeEpoch(ifd0);
    assert ReportFor(p).Aborted? <==> FirstBeforeEpoch(dates) < |dates|;
  }

  /** Some qualifying directory carries a date before the epoch. */
  predicate SomeDateBeforeEpoch(ds: seq<MetadataDirectory>) {
    exists i :: 0 <= i < |ds| && Qualifies(ds[i]) && BeforeEpoch(ds[i].dateTimeTag.value)
  }

  /** Some qualifying directory's date lies before the epoch exactly when some written date does. */
  lemma DatesBeforeEpoch(ds: seq<MetadataDirectory>)
    ensures var dates := QualifyingDates(ds);
      FirstBeforeEpoch(dates) < |dates| <==> SomeDateBeforeEpoch(ds)
  {
    var dates := QualifyingDates(ds);
    var k := FirstBeforeEpoch(dates);
    FirstBeforeEpochExact(dates);
    forall i | 0 <= i < |ds| && Qualifies(ds[i])
      ensures ds[i].dateTimeTag.value in dates
    {
      QualifyingDatesMembers(ds, ds[i].dateTimeTag.value);
    }
    if k < |dates| {
      QualifyingDatesMembers(ds, dates[k]);
      assert dates[k] in dates;
      var i :| 0 <= i < |ds| && Qualifies(ds[i]) && ds[i].dateTimeTag.value == dates[k];
      assert BeforeEpoch(ds[i].dateTimeTag.value);
    } else {
      assert forall t :: t in dates ==> !BeforeEpoch(t);
    }
  }

  /** The date the photo's timestamp is left with: the last one written before any write throws. */
  function Applied(p: Photo): (d: Option<DateTime>)
    ensures d.Some? ==> !BeforeEpoch(d.value)
  {
    match p.metadata
    case None => None
    case Some(ds) =>
      var dates := QualifyingDates(OfTypeIfd0(ds));
      var k := FirstBeforeEpoch(dates);
      FirstBeforeEpochExact(dates);
      if k == 0 then None else Some(dates[k - 1])
  }

  /** Without a throw, the applied date is the reported one. */
  lemma AppliedIsReported(p: Photo)
    ensures ReportFor(p).Found? ==> Applied(p) == Some(ReportFor(p).date)
    ensures ReportFor(p).DateNotFound? || ReportFor(p).Unreadable? ==> Applied(p).None?
  {
  }

  /** The timestamps after setLastModified(name, date) for a date applied; a missing or locked file, or a date before the epoch, changes nothing. */
  function AfterWrite(stamps: map<string, DateTime>, locked: set<string>, name: string, date: Option<DateTime>): map<string, DateTime> {
    if date.Some? && WriteOutcomeIn(stamps, locked, name, date.value).Written? then stamps[name := date.value] else stamps
  }

  /** A second write to the same file replaces the first, unless it throws. */
  lemma AfterWriteTwice(stamps: map<string, DateTime>, locked: set<string>, name: string, first: Option<DateTime>, second: Option<DateTime>)
    ensures AfterWrite(AfterWrite(stamps, locked, name, first), locked, name, second)
            == AfterWrite(stamps, locked, name, if second.Some? && !BeforeEpoch(second.value) then second else first)
  {
  }

  /** A write of a LocalDateTime keeps every timestamp one. */
  lemma AfterWriteValid(stamps: map<string, DateTime>, locked: set<string>, name: string, date: Option<DateTime>)
    requires AllValid(stamps)
    requires date.Some? ==> date.value.Valid()
    ensures AllValid(AfterWrite(stamps, locked, name, date))
  {
  }

  /** One iteration of run's file loop. */
  function PhotoStep(stamps: map<string, DateTime>, locked: set<string>, p: Photo): map<string, DateTime> {
    AfterWrite(stamps, locked, p.name, Applied(p))
  }

  /** The run has ended with an exception. */
  predicate Stopped(reports: seq<PhotoReport>) {
    |reports| > 0 && reports[|reports| - 1].Aborted?
  }

  /** The file loop of run over `photos`, up to the photo whose write throws: the timestamps afterwards and one report per photo reached. */
  function ProcessPhotosSpec(stamps: map<string, DateTime>, locked: set<string>, photos: seq<Photo>): (r: (map<string, DateTime>, seq<PhotoReport>))
    ensures r.0.Keys == stamps.Keys && |r.1| <= |photos|
  {
    if photos == [] then (stamps, [])
    else
      var before := ProcessPhotosSpec(stamps, locked, photos[..|photos| - 1]);
      var last := photos[|photos| - 1];
      if Stopped(before.1) then before
      else (PhotoStep(before.0, locked, last), before.1 + [ReportFor(last)])
  }

  /** The number of photos before the first one whose write throws. */
  function FirstAborted(photos: seq<Photo>): (n: nat)
    ensures n <= |photos|
    ensures n < |photos| ==> ReportFor(photos[n]).Aborted?
  {
    if photos == [] then 0
    else
      var n := FirstAborted(photos[..|photos| - 1]);
      if n < |photos| - 1 then n
      else if ReportFor(photos[|photos| - 1]).Aborted? then |photos| - 1
      else |photos|
  }

  /** No photo before FirstAborted throws. */
  lemma {:induction false} FirstAbortedExact(photos: seq<Photo>)
    ensures forall i :: 0 <= i < FirstAborted(photos) ==> !ReportFor(photos[i]).Aborted?
  {
    if photos != [] {
      var init := photos[..|photos| - 1];
      FirstAbortedExact(init);
      forall i | 0 <= i < FirstAborted(photos) ensures !ReportFor(photos[i]).Aborted? {
        if i < |init| {
          assert photos[i] == init[i];
        }
      }
    }
  }

  /** One more photo adds one step and one report, unless the run has already stopped. */
  lemma ProcessPhotosSnoc(stamps: map<string, DateTime>, locked: set<string>, photos: seq<Photo>, p: Photo)
    ensures var before := ProcessPhotosSpec(stamps, locked, photos);
      ProcessPhotosSpec(stamps, locked, photos + [p]) ==
        if Stopped(before.1) then before else (PhotoStep(before.0, locked, p), before.1 + [ReportFor(p)])
  {
    assert (photos + [p])[..|photos|] == photos;
  }

  /** Once the run has stopped, the remaining photos change nothing. */
  lemma {:induction false} ProcessPhotosStops(stamps: map<string, DateTime>, locked: set<string>, photos: seq<Photo>, k: nat)
    requires k <= |photos| && Stopped(ProcessPhotosSpec(stamps, locked, photos[..k]).1)
    ensures ProcessPhotosSpec(stamps, locked, photos) == ProcessPhotosSpec(stamps, locked, photos[..k])
  {
    if k < |photos| {
      var init := photos[..|photos| - 1];
      assert init[..k] == photos[..k];
      ProcessPhotosStops(stamps, locked, init, k);
    } else {
      assert photos[..k] == photos;
    }
  }

  /** listFiles with the isJpegExtension filter, in listing order. */
  function JpegPhotos(listing: seq<Photo>): (r: seq<Photo>)
    ensures forall p :: p in r <==> p in listing && IsJpegExtension(p.name)
  {
    if listing == [] then []
    else (if IsJpegExtension(listing[0].name) then [listing[0]] else []) + JpegPhotos(listing[1..])
  }

  /** The filter keeps the listing's order and repetitions: it works piece by piece. */
  lemma {:induction false} JpegPhotosAppend(a: seq<Photo>, b: seq<Photo>)
    ensures JpegPhotos(a + b) == JpegPhotos(a) + JpegPhotos(b)
  {
    if a != [] {
      assert (a + b)[1..] == a[1..] + b;
      JpegPhotosAppend(a[1..], b);
    } else {
      assert a + b == b;
    }
  }

  predicate DistinctNames(photos: seq<Photo>) {
    forall i, j :: 0 <= i < j < |photos| ==> photos[i].name != photos[j].name
  }

  /** The run reaches every photo up to and including the first whose write throws, and stops exactly when one throws. */
  lemma {:induction false} ProcessPhotosLength(stamps: map<string, DateTime>, locked: set<string>, photos: seq<Photo>)
    ensures var n := FirstAborted(photos);
      |ProcessPhotosSpec(stamps, locked, photos).1| == if n < |photos| then n + 1 else |photos|
    ensures Stopped(ProcessPhotosSpec(stamps, locked, photos).1) <==> FirstAborted(photos) < |photos|
  {
    if photos != [] {
      var init := photos[..|photos| - 1];
      ProcessPhotosLength(stamps, locked, init);
    }
  }

  /** The i-th report depends on the i-th photo alone. */
  lemma {:induction false} ProcessPhotosReport(stamps: map<string, DateTime>, locked: set<string>, photos: seq<Photo>, i: nat)
    requires i < |ProcessPhotosSpec(stamps, locked, photos).1|
    ensures ProcessPhotosSpec(stamps, locked, photos).1[i] == ReportFor(photos[i])
  {
    var init := photos[..|photos| - 1];
    ProcessPhotosLength(stamps, locked, init);
    if i < |ProcessPhotosSpec(stamps, locked, init).1| {
      ProcessPhotosReport(stamps, locked, init, i);
    }
  }

  /** A file that is not among the photos keeps its timestamp. */
  lemma {:induction false} ProcessPhotosUntouched(stamps: map<string, DateTime>, locked: set<string>, photos: seq<Photo>, name: string)
    requires name in stamps
    requires forall i :: 0 <= i < |photos| ==> photos[i].name != name
    ensures ProcessPhotosSpec(stamps, locked, photos).0[name] == stamps[name]
  {
    if photos != [] {
      ProcessPhotosUntouched(stamps, locked, photos[..|photos| - 1], name);
    }
  }

  /** One photo's step changes at most that photo's own timestamp. */
  lemma PhotoStepFile(stamps: map<string, DateTime>, locked: set<string>, p: Photo, name: string)
    requires name in stamps
    ensures PhotoStep(stamps, locked, p)[name] ==
      if name == p.name && Applied(p).Some? && name !in locked then Applied(p).value else stamps[name]
  {
  }

  /**
   * With a directory's distinct names, a photo the run reaches ends with its
   * applied date when there is one and the file can be written; a photo that
   * is unreadable, has no date, is locked or is never reached keeps its old
   * timestamp.
   */
  lemma {:induction false} ProcessPhotosFile(stamps: map<string, DateTime>, locked: set<string>, photos: seq<Photo>, k: nat)
    requires DistinctNames(photos) && k < |photos| && photos[k].name in stamps
    ensures var p := photos[k];
      ProcessPhotosSpec(stamps, locked, photos).0[p.name] ==
        if k <= FirstAborted(photos) && Applied(p).Some? && p.name !in locked then Applied(p).value else stamps[p.name]
  {
    var init := photos[..|photos| - 1];
    var last := photos[|photos| - 1];
    var name := photos[k].name;
    assert photos == init + [last];
    ProcessPhotosSnoc(stamps, locked, init, last);
    ProcessPhotosLength(stamps, locked, init);
    var mid := ProcessPhotosSpec(stamps, locked, init);
    if k < |init| {
      assert DistinctNames(init);
      assert init[k] == photos[k];
      ProcessPhotosFile(stamps, locked, init, k);
    } else {
      assert forall j :: 0 <= j < |init| ==> init[j] == photos[j];
      ProcessPhotosUntouched(stamps, locked, init, name);
    }
    if !Stopped(mid.1) {
      PhotoStepFile(mid.0, locked, last, name);
    }
  }

  /** An applied date is one of the photo's directory dates, so it is valid when they are. */
  lemma AppliedDateValid(p: Photo)
    requires p.metadata.Some?
    requires forall d :: d in p.metadata.value && d.dateTimeTag.Some? ==> d.dateTimeTag.value.Valid()
    ensures Applied(p).Some? ==> Applied(p).value.Valid()
  {
    var ifd0 := OfTypeIfd0(p.metadata.value);
    if Applied(p).Some? {
      QualifyingDatesMembers(ifd0, Applied(p).value);
      var i :| 0 <= i < |ifd0| && Qualifies(ifd0[i]) && ifd0[i].dateTimeTag.value == Applied(p).value;
      assert ifd0[i] in p.metadata.value;
    }
  }

  /** Timestamps stay LocalDateTimes when the metadata dates are. */
  lemma {:induction false} ProcessPhotosValid(stamps: map<string, DateTime>, locked: set<string>, photos: seq<Photo>)
    requires AllValid(stamps)
    requires forall i, d :: 0 <= i < |photos| && photos[i].metadata.Some? && d in photos[i].metadata.value && d.dateTimeTag.Some?
               ==> d.dateTimeTag.value.Valid()
    ensures AllValid(ProcessPhotosSpec(stamps, locked, photos).0)
  {
    if photos != [] {
      var init := photos[..|photos| - 1];
      var last := photos[|photos| - 1];
      assert forall i, d :: 0 <= i < |init| && init[i].metadata.Some? && d in init[i].metadata.value && d.dateTimeTag.Some?
               ==> d.dateTimeTag.value.Valid() by {
        forall i | 0 <= i < |init| ensures init[i] == photos[i] { }
      }
      ProcessPhotosValid(stamps, locked, init);
      if last.metadata.Some? {
        AppliedDateValid(last);
      }
      AfterWriteValid(ProcessPhotosSpec(stamps, locked, init).0, locked, last.name, Applied(last));
    }
  }

  /**
   * The inner loop over one directory's tags: at the first "Date/Time" tag
   * with a non-null date, setLastModified is called once with that date and
   * the loop is left. `outcome` is that call's result, None when there is no call.
   */
  method ScanTags(folder: Folder, name: string, dir: MetadataDirectory) returns (realDate: Option<DateTime>, outcome: Option<WriteOutcome>)
    modifies folder
    ensures realDate == if Qualifies(dir) then dir.dateTimeTag else None
    ensures outcome.Some? <==> Qualifies(dir)
    ensures outcome.Some? ==> outcome.value == WriteOutcomeIn(old(folder.stamps), folder.locked, name, realDate.value)
    ensures folder.stamps == AfterWrite(old(folder.stamps), folder.locked, name, realDate)
  {
    AnyDateTimeNameExists(dir.tagNames);
    outcome := None;
    var j := 0;
    while j < |dir.tagNames|
      invariant 0 <= j <= |dir.tagNames|
      invariant dir.dateTimeTag.Some? ==> forall k :: 0 <= k < j ==> !StartsWith(dir.tagNames[k], DateTimePrefix)
      invariant folder.stamps == old(folder.stamps)
    {
      if StartsWith(dir.tagNames[j], DateTimePrefix) {
        realDate := dir.dateTimeTag;
        if realDate.Some? {
          var result := folder.SetLastModified(name, realDate.value);
          outcome := Some(result);
          return;
        }
      }
      j := j + 1;
    }
    realDate := None;
  }

  /**
   * The loop over one photo's IFD0 directories: every qualifying one writes
   * its date, and a write that throws leaves the loop. `written` lists the
   * dates passed to setLastModified, one per call.
   */
  method ProcessMetadata(folder: Folder, name: string, ds: seq<MetadataDirectory>)
      returns (applied: Option<DateTime>, written: seq<DateTime>, thrown: bool)
    modifies folder
    ensures MetadataScan(applied, written, thrown) == ScanAll(OfTypeIfd0(ds))
    ensures folder.stamps == AfterWrite(old(folder.stamps), folder.locked, name, applied)
  {
    var directories := OfTypeIfd0(ds);
    applied, written, thrown := None, [], false;
    for i := 0 to |directories|
      invariant MetadataScan(applied, written, false) == ScanAll(directories[..i])
      invariant folder.stamps == AfterWrite(old(folder.stamps), folder.locked, name, applied)
    {
      assert directories[..i + 1][..i] == directories[..i];
      var realDate, outcome := ScanTags(folder, name, directories[i]);
      AfterWriteTwice(old(folder.stamps), folder.locked, name, applied, realDate);
      if outcome.Some? {
        written := written + [realDate.value];
        if outcome.value.NegativeTime? {
          thrown := true;
          ScanAllStops(directories, i + 1);
          return;
        }
        applied := realDate;
      }
    }
    assert directories[..|directories|] == directories;
  }

  /** One pass of run's file loop: read the metadata, and on success walk its IFD0 directories. */
  method ProcessPhoto(folder: Folder, photo: Photo) returns (report: PhotoReport)
    modifies folder
    ensures report == ReportFor(photo)
    ensures folder.stamps == PhotoStep(old(folder.stamps), folder.locked, photo)
  {
    match photo.metadata
    case None =>
      report := Unreadable;
    case Some(ds) =>
      var applied, written, thrown := ProcessMetadata(folder, photo.name, ds);
      ScanAllReport(photo);
      if thrown {
        report := Aborted(written[|written| - 1]);
      } else if applied.Some? {
        report := Found(applied.value);
      } else {
        report := DateNotFound;
      }
  }

  /** The file loop of run; a photo whose metadata cannot be read is skipped, and a write that throws ends the run. */
  method ProcessPhotos(folder: Folder, listing: seq<Photo>) returns (reports: seq<PhotoReport>)
    modifies folder
    ensures (folder.stamps, reports) == ProcessPhotosSpec(old(folder.stamps), folder.locked, JpegPhotos(listing))
  {
    var photos := JpegPhotos(listing);
    reports := ProcessPhotoList(folder, photos);
  }

  /** The loop of run's file loop over the photos it has kept. */
  method ProcessPhotoList(folder: Folder, photos: seq<Photo>) returns (reports: seq<PhotoReport>)
    modifies folder
    ensures (folder.stamps, reports) == ProcessPhotosSpec(old(folder.stamps), folder.locked, photos)
  {
    reports := [];
    for i := 0 to |photos|
      invariant (folder.stamps, reports) == ProcessPhotosSpec(old(folder.stamps), folder.locked, photos[..i])
      invariant !Stopped(reports)
    {
      assert photos[..i + 1][..i] == photos[..i];
      var report := ProcessPhoto(folder, photos[i]);
      reports := reports + [report];
      if report.Aborted? {
        ProcessPhotosStops(old(folder.stamps), folder.locked, photos, i + 1);
        return;
      }
    }
    assert photos[..|photos|] == photos;
  }

  /**
   * run: resolve the directory, stop when there is none, and otherwise fix
   * every JPEG in `listing`, the chosen directory's entries.
   */
  method Run(arg: Option<string>, selections: seq<Option<string>>, directories: set<string>,
             folder: Folder, listing: seq<Photo>)
      returns (srcDir: Option<string>, reports: seq<PhotoReport>)
    requires ProcessCmdLine(arg, directories).Some?
             || exists k :: 0 <= k < |selections| && EndsPrompt(selections[k], directories)
    modifies folder
    ensures Some(srcDir) == ChosenDirectory(arg, selections, directories)
    ensures srcDir.None? ==> folder.stamps == old(folder.stamps) && reports == []
    ensures srcDir.Some? ==>
      (folder.stamps, reports) == ProcessPhotosSpec(old(folder.stamps), folder.locked, JpegPhotos(listing))
  {
    var prompts;
    srcDir, prompts := AskForInputDirectory(arg, selections, directories);
    if ProcessCmdLine(arg, directories).None? {
      PromptOutcomeFirst(selections, directories, prompts - 1);
    }
    if srcDir.None? {
      return srcDir, [];
    }
    reports := ProcessPhotos(folder, listing);
  }
}
