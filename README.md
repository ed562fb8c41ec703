# PhotoDateFixer in Dafny

A model of the two timestamp-repair tools of PhotoDateFixer, with proofs about them.

- **FixPhotoByName** repairs photos exported from WhatsApp.
  - A file whose whole name is `IMG-` + eight digits + `-WA` + one or more digits + `.jpg` encodes its date as `yyyyMMdd` in the eight digits.
  - The date is checked against the Gregorian calendar.
  - If it is valid, the year, month and day of the file's modification timestamp are replaced by the encoded ones. The time of day is kept.
  - A name that does not match is reported and skipped.
  - An invalid day in a month 1..12 is logged as a warning and the file is skipped. A month outside 1..12 is skipped with no message at all.
  - A failed write (`setLastModified` returning false) is logged and the batch goes on.
  - A fixed date before 1970-01-01 makes `setLastModified` throw `IllegalArgumentException`. Nothing catches it before `main`, so the batch ends at that file.
- **PhotoFixer** sets each JPEG's modification timestamp to the EXIF DateTime (tag 306) of its metadata.
  - The directory comes from the command line, or else from a directory chooser that is shown again until the user cancels or picks a directory.
  - A date is written from every EXIF IFD0 directory that has a tag whose name starts with `Date/Time` and also a non-null tag-306 date. So the last such directory decides the timestamp.
  - A file with no such directory is reported as "date not found". A file whose metadata cannot be read is skipped.
  - A date before 1970-01-01 makes `setLastModified` throw `IllegalArgumentException`. The loop's `catch` takes only `JpegProcessingException` and `IOException`, so the throw ends the whole run.

Modules:

- `Wrappers`: `Option`, which stands for Java's `null`.
- `Text`: ASCII digit strings, `Integer.parseInt` on them, prefix/suffix tests and lower-casing.
- `Calendar`: `IsLeap`, `IsInvalidDay` as written (switch fall-through included) and the month-length table.
- `DateTimes`: a `LocalDateTime` record and the `withYear`/`withMonth`/`withDayOfMonth` adjusters. Their day clamping is modelled. When one would throw `DateTimeException`, it returns `None`. `BeforeEpoch` says whether a timestamp lies before 1970-01-01T00:00.
- `Files`: the directory as a class `Folder`. Its field `stamps` maps each file name to its timestamp and is updated in place. `locked` is the set of files whose timestamp cannot be written. A write returns `Written`, `NotWritten` (the Java `false`) or `NegativeTime` (the Java exception).
- `FixPhotoByName`: the filename pattern, the per-file decision, the batch loop `ProcessFiles` and `ProcessDir`.
- `PhotoFixer`: the extension test, the directory resolution, the date search and the batch loop `ProcessPhotos`/`Run`.

Each batch loop is an imperative method. Its `ensures` ties the folder's new `stamps` and the reports to a specification fold over the file list (`ProcessAll`, `ProcessPhotosSpec`). The fold stops at the first report `Aborted`, the write that threw. Lemmas then prove per-file facts about that fold.

Inputs that come from outside the program are parameters:

- the directory listing;
- the set of paths that are directories (`File.isDirectory`);
- the chooser's successive selections;
- the metadata read for each file: `None` when the reader throws, else its directories.

Two facts about the code that the model follows exactly:

- The kept time of day includes the sub-second part (`LocalDateTime`'s nanoseconds), as well as hour, minute and second.
- A date is found when an IFD0 directory has a tag named `Date/Time…` and a non-null tag 306. When several directories qualify, each is written in turn and the last one wins.

## Model

| member | source | states |
|---|---|---|
| `Calendar.IsLeap` | src/main/java/org/jcmv/photo/FixPhotoByName.java:145-157 | isLeap as written, the cascade of remainder tests by 4, 100 and 400; LeapRule and LeapExamples state its rule |
| `Calendar.LeapRule` | src/main/java/org/jcmv/photo/FixPhotoByName.java:140-157 | a year is leap iff divisible by 4 and (not by 100 or by 400); the rule repeats every 400 years |
| `Calendar.LeapExamples` | src/main/java/org/jcmv/photo/FixPhotoByName.java:145-157 | 2000, 2024 and year 0 are leap years; 1900 and 2023 are not |
| `Calendar.LeapYearsInCount` | src/main/java/org/jcmv/photo/FixPhotoByName.java:145-157 | the number of leap years in any run of years is the count of multiples of 4, less those of 100, plus those of 400 |
| `Calendar.LeapYearsPerCycle` | src/main/java/org/jcmv/photo/FixPhotoByName.java:145-157 | any 400 consecutive years hold exactly 97 leap years, 146097 days |
| `Calendar.DaysInMonth` | src/main/java/org/jcmv/photo/FixPhotoByName.java:96-137 | the independent Gregorian month-length table (java.time `Month.length`): every month has 28 to 31 days and February has 29 iff the year is leap; InvalidDayExactly compares the switch with it |
| `Calendar.IsInvalidDay` | src/main/java/org/jcmv/photo/FixPhotoByName.java:96-137 | isInvalidDay as written, including the February case that falls through into the 30-day test; InvalidDayExactly proves it is the negation of IsValidDate over DaysInMonth |
| `Calendar.InvalidMonth` | src/main/java/org/jcmv/photo/FixPhotoByName.java:106-108 | a month outside 1..12 is invalid whatever the day |
| `Calendar.ThirtyOneDayMonths` | src/main/java/org/jcmv/photo/FixPhotoByName.java:110-122 | for months 1, 3, 5, 7, 8, 10, 12 the day is invalid iff outside 1..31 |
| `Calendar.ThirtyDayMonths` | src/main/java/org/jcmv/photo/FixPhotoByName.java:129-134 | for months 4, 6, 9, 11 the day is invalid iff outside 1..30 |
| `Calendar.FebruaryFallThrough` | src/main/java/org/jcmv/photo/FixPhotoByName.java:123-134 | for February the day is invalid iff outside 1..29 (leap) or 1..28; the fall-through into the 30-day test changes nothing |
| `Calendar.InvalidDayExactly` | src/main/java/org/jcmv/photo/FixPhotoByName.java:96-137 | isInvalidDay holds exactly when the triple is not a real calendar date (month 1..12, day 1..month length) |
| `Calendar.FebruaryExamples` | src/main/java/org/jcmv/photo/FixPhotoByName.java:123-128 | 29 Feb is valid in 2000 and 2024, invalid in 1900; 30 Feb 2024 is invalid |
| `Text.DecimalValue` | src/main/java/org/jcmv/photo/FixPhotoByName.java:63-65 | the parsed value of an n-digit group is below 10^n |
| `Text.PadDecimalOfValue` | src/main/java/org/jcmv/photo/FixPhotoByName.java:63-65 | a digit group is determined by its parsed value and its width (parse and zero-padded rendering are inverse) |
| `FixPhotoByName.Match` | src/main/java/org/jcmv/photo/FixPhotoByName.java:22 | a successful full match has 4+2+2 date digits and at least one serial digit, and re-assembling its groups gives back the name |
| `FixPhotoByName.MatchCompose` | src/main/java/org/jcmv/photo/FixPhotoByName.java:22 | every name of the form IMG-dddddddd-WAd+.jpg matches, yielding exactly its own groups |
| `FixPhotoByName.ParsedDate` | src/main/java/org/jcmv/photo/FixPhotoByName.java:63-65 | year, month and day parsed from the groups lie in 0..9999, 0..99, 0..99 |
| `FixPhotoByName.ParseNameFor` | src/main/java/org/jcmv/photo/FixPhotoByName.java:57-65 | the name written for a date parses back to that date |
| `DateTimes.WithYear` | src/main/java/org/jcmv/photo/FixPhotoByName.java:70 | withYear as written: a year outside the LocalDateTime range fails, and the day is clamped to the new month length; ReplaceDateExact proves the clamp never reaches the result |
| `DateTimes.WithMonth` | src/main/java/org/jcmv/photo/FixPhotoByName.java:71 | withMonth as written: a month outside 1..12 fails, and the day is clamped to the month length; ReplaceDateExact covers it |
| `DateTimes.WithDayOfMonth` | src/main/java/org/jcmv/photo/FixPhotoByName.java:72 | withDayOfMonth as written: fails unless the day is a real day of the month; ReplaceDateExact covers it |
| `DateTimes.ReplaceDate` | src/main/java/org/jcmv/photo/FixPhotoByName.java:69-72 | the chain withYear.withMonth.withDayOfMonth as written; ReplaceDateExact proves it succeeds exactly on a valid date, with that date and the old time of day |
| `DateTimes.ReplaceDateExact` | src/main/java/org/jcmv/photo/FixPhotoByName.java:69-72 | withYear.withMonth.withDayOfMonth succeeds exactly on a valid date and then has the new year, month, day and the old time; the intermediate clamping never shows |
| `DateTimes.ReplaceDateValid` | src/main/java/org/jcmv/photo/FixPhotoByName.java:69-72 | the adjusted timestamp is a valid LocalDateTime with the old time of day |
| `DateTimes.BeforeEpochYear` | src/main/java/org/jcmv/photo/FixPhotoByName.java:76 | a LocalDateTime has negative epoch milliseconds (read in UTC) iff its year is before 1970 |
| `FixPhotoByName.Evaluate` | src/main/java/org/jcmv/photo/FixPhotoByName.java:57-72 | no match iff the pattern fails; invalid date iff the parsed date is not a calendar date; otherwise the new timestamp is the old one with the parsed year, month, day |
| `FixPhotoByName.EvaluateIdempotent` | src/main/java/org/jcmv/photo/FixPhotoByName.java:59-72 | fixing a fixed timestamp changes nothing; whether a file is fixed does not depend on its timestamp |
| `FixPhotoByName.EvaluateValid` | src/main/java/org/jcmv/photo/FixPhotoByName.java:69-72 | a fixed timestamp is valid and keeps hour, minute, second and nano |
| `FixPhotoByName.EvaluateComposed` | src/main/java/org/jcmv/photo/FixPhotoByName.java:57-72 | a pattern-shaped name yields the fixed timestamp when its date is valid and an invalid-date verdict otherwise |
| `FixPhotoByName.TestNameExample` | src/test/java/org/jcmv/photo/FixPhotoByNameTest.java:31-45 | IMG-20220810-WA0001.jpg gets year 2022, August, day 10 and the old time of day |
| `FixPhotoByName.LeapDay2000Example` | src/main/java/org/jcmv/photo/FixPhotoByName.java:123-128 | a name dated 2000-02-29 is fixed to that date |
| `FixPhotoByName.LeapDay1900Example` | src/main/java/org/jcmv/photo/FixPhotoByName.java:123-128 | a name dated 1900-02-29 is refused as an invalid date |
| `FixPhotoByName.February30Example` | src/main/java/org/jcmv/photo/FixPhotoByName.java:123-128 | a name dated 2024-02-30 is refused as an invalid date |
| `FixPhotoByName.NonMatchingNameExamples` | src/main/java/org/jcmv/photo/FixPhotoByName.java:22 | the match is of the whole name: a leading date, an upper-case .JPG, an empty serial or seven date digits all fail |
| `FixPhotoByName.NameParses` | src/main/java/org/jcmv/photo/FixPhotoByName.java:57-65 | a pattern-shaped name matches to its own groups, which parse digit by digit |
| `FixPhotoByName.ReportFor` | src/main/java/org/jcmv/photo/FixPhotoByName.java:57-82 | the outcome of one file as written; ReportForExact states each outcome as an iff on the name, the date and the writability |
| `FixPhotoByName.ReportForExact` | src/main/java/org/jcmv/photo/FixPhotoByName.java:57-82 | one file's outcome: "didn't match" iff no match; silently skipped iff the month is outside 1..12; an invalid-day warning iff the month is real but the day is not; aborted iff the date is real and the fixed timestamp lies before the epoch; updated iff otherwise writable; each carrying the fixed timestamp |
| `FixPhotoByName.ReportForThrows` | src/main/java/org/jcmv/photo/FixPhotoByName.java:76 | a file whose write throws is reported as aborted with the timestamp it was to receive |
| `FixPhotoByName.ThrowsExactly` | src/main/java/org/jcmv/photo/FixPhotoByName.java:63-76 | setLastModified throws for a file iff its name matches with a real calendar date before 1970 |
| `FixPhotoByName.Step` | src/main/java/org/jcmv/photo/FixPhotoByName.java:57-82 | one pass of the loop as written: the report, and the fixed timestamp written only when setLastModified succeeds; StepThrows and StepNoThrow state its two cases |
| `FixPhotoByName.StepThrows` | src/main/java/org/jcmv/photo/FixPhotoByName.java:76 | a step whose write throws changes no timestamp |
| `FixPhotoByName.StepNoThrow` | src/main/java/org/jcmv/photo/FixPhotoByName.java:67-79 | a step that does not throw writes the fixed timestamp iff there is one and the file is writable, and is not reported as aborted |
| `FixPhotoByName.ProcessAll` | src/main/java/org/jcmv/photo/FixPhotoByName.java:54-85 | the batch keeps the set of files and yields at most one report per listed file |
| `FixPhotoByName.FirstThrow` | src/main/java/org/jcmv/photo/FixPhotoByName.java:76 | the position of the first file whose write throws, when there is one, is within the list and that file throws |
| `FixPhotoByName.FirstThrowExact` | src/main/java/org/jcmv/photo/FixPhotoByName.java:56-76 | no file before that position throws |
| `FixPhotoByName.ProcessAllNoThrow` | src/main/java/org/jcmv/photo/FixPhotoByName.java:54-85 | when no file throws the batch runs to the end with one report per file, and each file ends fixed iff listed, matching, valid and writable |
| `FixPhotoByName.EvaluateAfterNoThrow` | src/main/java/org/jcmv/photo/FixPhotoByName.java:59-72 | while no file throws, a file's verdict on its current timestamp equals its verdict on the original one |
| `FixPhotoByName.ProcessAllStops` | src/main/java/org/jcmv/photo/FixPhotoByName.java:76 | once a write has thrown, the remaining files change nothing |
| `FixPhotoByName.ProcessAllThrowStep` | src/main/java/org/jcmv/photo/FixPhotoByName.java:76 | after files none of which throws, a throwing file adds one aborted report and writes nothing |
| `FixPhotoByName.ProcessAllThrowAt` | src/main/java/org/jcmv/photo/FixPhotoByName.java:54-85 | the batch is the run over the files before the first throwing one, followed by that file's aborted report and nothing more |
| `FixPhotoByName.ProcessAllFile` | src/main/java/org/jcmv/photo/FixPhotoByName.java:54-85 | a file's final timestamp is the fixed one iff it is listed before the first throwing file, matches, carries a valid date and is writable; otherwise the old one |
| `FixPhotoByName.ProcessAllReportNoThrow` | src/main/java/org/jcmv/photo/FixPhotoByName.java:54-85 | while no file throws, the i-th report is the one for the i-th file and its original timestamp |
| `FixPhotoByName.ProcessAllLength` | src/main/java/org/jcmv/photo/FixPhotoByName.java:54-85 | one report per file up to and including the first that throws |
| `FixPhotoByName.ProcessAllReportBefore` | src/main/java/org/jcmv/photo/FixPhotoByName.java:54-85 | a report before the first throwing file is the one for its file and original timestamp |
| `FixPhotoByName.ProcessAllReport` | src/main/java/org/jcmv/photo/FixPhotoByName.java:54-85 | one report per file up to and including the first that throws, and the i-th report is the one for the i-th file and its original timestamp |
| `FixPhotoByName.PreEpochNameThrows` | src/main/java/org/jcmv/photo/FixPhotoByName.java:63-76 | IMG-19600101-WA1.jpg throws whatever its timestamp, and is reported as aborted with 1960-01-01 |
| `FixPhotoByName.PreEpochNameStopsBatch` | src/main/java/org/jcmv/photo/FixPhotoByName.java:54-85 | that file ends the batch: no timestamp changes and the next file is never reached |
| `FixPhotoByName.MonthThirteenIsSkipped` | src/main/java/org/jcmv/photo/FixPhotoByName.java:106-108 | IMG-20221310-WA1.jpg is skipped with no message |
| `FixPhotoByName.ProcessAllValid` | src/main/java/org/jcmv/photo/FixPhotoByName.java:69-76 | the batch keeps every timestamp a valid LocalDateTime |
| `FixPhotoByName.ProcessFile` | src/main/java/org/jcmv/photo/FixPhotoByName.java:57-82 | one pass of the loop body changes the folder and reports exactly as one step of the batch specification |
| `FixPhotoByName.ProcessFiles` | src/main/java/org/jcmv/photo/FixPhotoByName.java:54-85 | the loop leaves the folder's timestamps and its reports exactly as the batch specification says, stopping at a write that throws |
| `FixPhotoByName.JpgFilter` | src/main/java/org/jcmv/photo/FixPhotoByName.java:46 | keeps exactly the listed names ending in ".jpg" (case-sensitive) |
| `FixPhotoByName.JpgFilterAppend` | src/main/java/org/jcmv/photo/FixPhotoByName.java:46 | the filter keeps the listing's order: filtering a concatenation concatenates the filtered parts |
| `FixPhotoByName.FilterChangesNoStamp` | src/main/java/org/jcmv/photo/FixPhotoByName.java:46 | filtering before the batch changes no timestamp, and the filtered batch stops iff the unfiltered one does, with the same aborted report (the same first throwing file), since every matching name ends in ".jpg" |
| `FixPhotoByName.ProcessAllSameOutcome` | src/main/java/org/jcmv/photo/FixPhotoByName.java:54-85 | two batches that end alike still end alike after one more file |
| `FixPhotoByName.ProcessAllNoMatch` | src/main/java/org/jcmv/photo/FixPhotoByName.java:80-82 | a name the pattern rejects changes no timestamp and does not stop the batch |
| `FixPhotoByName.ProcessDir` | src/main/java/org/jcmv/photo/FixPhotoByName.java:45-52 | a failed listing changes nothing; otherwise the filtered listing is processed |
| `Files.Folder.LastModified` | src/main/java/org/jcmv/photo/FixPhotoByName.java:59-61 | the stored timestamp, or the epoch for a missing file |
| `Files.Folder.SetLastModified` | src/main/java/org/jcmv/photo/FixPhotoByName.java:76-79 | throws iff the time is before the epoch; otherwise succeeds iff the file exists and is writable, and then only its timestamp changes |
| `Text.Lower` | src/main/java/org/jcmv/photo/PhotoFixer.java:106 | toLowerCase restricted to ASCII letters, as written: the result has the same length, and LowerChar lower-cases each letter and keeps every other character |
| `PhotoFixer.IsJpegExtension` | src/main/java/org/jcmv/photo/PhotoFixer.java:105-108 | isJpegExtension as written; JpegExtensionIgnoresCase proves it is a case-insensitive suffix test for .jpg or .jpeg |
| `PhotoFixer.JpegExtensionIgnoresCase` | src/main/java/org/jcmv/photo/PhotoFixer.java:105-108 | the test holds iff the name ends in .jpg or .jpeg ignoring the case of ASCII letters |
| `PhotoFixer.UpperCaseJpegExamples` | src/main/java/org/jcmv/photo/PhotoFixer.java:105-108 | A.JPG and b.Jpeg are accepted |
| `PhotoFixer.NonJpegExamples` | src/main/java/org/jcmv/photo/PhotoFixer.java:105-108 | d.png and e.jpgx are refused |
| `PhotoFixer.CaseSensitiveFilterIsNarrower` | src/main/java/org/jcmv/photo/PhotoFixer.java:105-108 | every name the filename-date fixer's filter accepts is accepted here, but A.JPG only here |
| `PhotoFixer.ProcessCmdLine` | src/main/java/org/jcmv/photo/PhotoFixer.java:57-69 | the argument is returned iff one was given and it is a directory; otherwise nothing |
| `PhotoFixer.PromptOutcome` | src/main/java/org/jcmv/photo/PhotoFixer.java:34-51 | the prompt loop ends iff some selection is a cancellation or a directory, and then on such a selection |
| `PhotoFixer.PromptOutcomeFirst` | src/main/java/org/jcmv/photo/PhotoFixer.java:34-51 | the loop ends on the first selection that is a cancellation or a directory |
| `PhotoFixer.BadArgumentFallsBackToPrompt` | src/main/java/org/jcmv/photo/PhotoFixer.java:28-31 | a missing or non-directory argument leads to the chooser, as if no argument were given |
| `PhotoFixer.AskForInputDirectory` | src/main/java/org/jcmv/photo/PhotoFixer.java:28-55 | a directory argument is used without prompting; otherwise the first cancellation or directory among the selections is returned, every earlier one being a non-directory |
| `PhotoFixer.OfTypeIfd0` | src/main/java/org/jcmv/photo/PhotoFixer.java:82 | keeps exactly the EXIF IFD0 directories |
| `PhotoFixer.OfTypeIfd0Append` | src/main/java/org/jcmv/photo/PhotoFixer.java:82 | the selection keeps the library's order: selecting from a concatenation concatenates the selections |
| `PhotoFixer.AnyDateTimeNameExists` | src/main/java/org/jcmv/photo/PhotoFixer.java:83-84 | the tag-name test holds iff some tag name starts with "Date/Time" |
| `PhotoFixer.QualifyingDates` | src/main/java/org/jcmv/photo/PhotoFixer.java:82-93 | no more written dates than directories |
| `PhotoFixer.QualifyingDatesSingle` | src/main/java/org/jcmv/photo/PhotoFixer.java:82-93 | one directory gives its tag-306 date iff it qualifies, and nothing otherwise |
| `PhotoFixer.QualifyingDatesAppend` | src/main/java/org/jcmv/photo/PhotoFixer.java:82-93 | the dates of a run of directories are those of its parts in order; with QualifyingDatesSingle, exactly one date per qualifying directory, in directory order |
| `PhotoFixer.QualifyingDatesMembers` | src/main/java/org/jcmv/photo/PhotoFixer.java:82-93 | the written dates are exactly the qualifying directories' tag-306 dates |
| `PhotoFixer.QualifyingDatesEmpty` | src/main/java/org/jcmv/photo/PhotoFixer.java:82-96 | no date is written iff no directory qualifies |
| `PhotoFixer.QualifyingDatesLast` | src/main/java/org/jcmv/photo/PhotoFixer.java:82-95 | the last date written is that of the last qualifying directory |
| `PhotoFixer.FirstBeforeEpoch` | src/main/java/org/jcmv/photo/PhotoFixer.java:90 | the position of the first written date before the epoch, when there is one, is within the list and that date lies before the epoch |
| `PhotoFixer.FirstBeforeEpochExact` | src/main/java/org/jcmv/photo/PhotoFixer.java:90 | no date before that position lies before the epoch |
| `PhotoFixer.ScanAll` | src/main/java/org/jcmv/photo/PhotoFixer.java:82-95 | the directory loop as written: each qualifying directory writes its date, a pre-epoch date throws and ends the loop; ScanAllDates, ScanDatesWritten and ScanDatesApplied state what it yields |
| `PhotoFixer.ScanAllDates` | src/main/java/org/jcmv/photo/PhotoFixer.java:82-95 | the directory loop's state depends only on the qualifying directories' dates, in order |
| `PhotoFixer.ScanDatesWritten` | src/main/java/org/jcmv/photo/PhotoFixer.java:82-101 | setLastModified is called with the dates up to and including the first one before the epoch, and the loop throws iff there is such a date |
| `PhotoFixer.ScanDatesApplied` | src/main/java/org/jcmv/photo/PhotoFixer.java:82-101 | the date applied last is the one just before the first date before the epoch |
| `PhotoFixer.ScanAllReport` | src/main/java/org/jcmv/photo/PhotoFixer.java:79-101 | the photo's report and applied date are those the directory loop's state gives: aborted with the last written date on a throw, else found with the applied date or not found |
| `PhotoFixer.ScanAllStops` | src/main/java/org/jcmv/photo/PhotoFixer.java:90 | once a write has thrown, the remaining directories are never reached |
| `PhotoFixer.ReportFor` | src/main/java/org/jcmv/photo/PhotoFixer.java:79-101 | what one photo reports, as written; ReportForKinds, ReportForFound and ReportForAborted state each case |
| `PhotoFixer.ReportForKinds` | src/main/java/org/jcmv/photo/PhotoFixer.java:79-101 | unreadable iff the metadata read fails; "didn't find date" iff no IFD0 directory qualifies; an aborted date lies before the epoch |
| `PhotoFixer.ReportForFound` | src/main/java/org/jcmv/photo/PhotoFixer.java:82-96 | a found date is that of the last qualifying IFD0 directory, and no qualifying date lies before the epoch |
| `PhotoFixer.ReportForAborted` | src/main/java/org/jcmv/photo/PhotoFixer.java:90 | a photo aborts the run iff some qualifying IFD0 directory's date lies before the epoch |
| `PhotoFixer.ReportForDirectories` | src/main/java/org/jcmv/photo/PhotoFixer.java:82-101 | both of the above together |
| `PhotoFixer.DatesBeforeEpoch` | src/main/java/org/jcmv/photo/PhotoFixer.java:82-90 | some written date lies before the epoch iff some qualifying directory's date does |
| `PhotoFixer.Applied` | src/main/java/org/jcmv/photo/PhotoFixer.java:90 | the date a photo's timestamp is left with never lies before the epoch |
| `PhotoFixer.AppliedIsReported` | src/main/java/org/jcmv/photo/PhotoFixer.java:79-98 | without a throw, the applied date is the found one, and none when not found or unreadable |
| `PhotoFixer.AfterWriteTwice` | src/main/java/org/jcmv/photo/PhotoFixer.java:82-95 | a second write to the same file replaces the first, unless it throws |
| `PhotoFixer.AfterWriteValid` | src/main/java/org/jcmv/photo/PhotoFixer.java:90 | a write of a LocalDateTime keeps every timestamp one |
| `PhotoFixer.ProcessPhotosSpec` | src/main/java/org/jcmv/photo/PhotoFixer.java:77-102 | the batch keeps the set of files and reports at most once per JPEG |
| `PhotoFixer.FirstAborted` | src/main/java/org/jcmv/photo/PhotoFixer.java:90 | the position of the first photo whose write throws, when there is one, is within the list and that photo aborts |
| `PhotoFixer.FirstAbortedExact` | src/main/java/org/jcmv/photo/PhotoFixer.java:90 | no photo before that position aborts |
| `PhotoFixer.ProcessPhotosSnoc` | src/main/java/org/jcmv/photo/PhotoFixer.java:77-102 | one more photo adds one step and one report unless the run has stopped |
| `PhotoFixer.ProcessPhotosStops` | src/main/java/org/jcmv/photo/PhotoFixer.java:90 | once a write has thrown, the remaining photos change nothing |
| `PhotoFixer.ProcessPhotosLength` | src/main/java/org/jcmv/photo/PhotoFixer.java:77-102 | the run reports every photo up to and including the first that aborts, and stops iff one aborts |
| `PhotoFixer.ProcessPhotosReport` | src/main/java/org/jcmv/photo/PhotoFixer.java:77-102 | the i-th report depends on the i-th photo alone |
| `PhotoFixer.ProcessPhotosUntouched` | src/main/java/org/jcmv/photo/PhotoFixer.java:77-102 | a file not among the photos keeps its timestamp |
| `PhotoFixer.PhotoStep` | src/main/java/org/jcmv/photo/PhotoFixer.java:79-101 | one photo's write as written; PhotoStepFile states that it changes only that photo's timestamp, to its applied date when writable |
| `PhotoFixer.PhotoStepFile` | src/main/java/org/jcmv/photo/PhotoFixer.java:79-101 | one photo changes at most its own timestamp, to its applied date when writable |
| `PhotoFixer.ProcessPhotosFile` | src/main/java/org/jcmv/photo/PhotoFixer.java:77-102 | a photo the run reaches ends with its applied date when there is one and it is writable; one that is unreadable, has no date, is locked or is never reached keeps its old timestamp |
| `PhotoFixer.AppliedDateValid` | src/main/java/org/jcmv/photo/PhotoFixer.java:85-90 | an applied date is one of the photo's directory dates, so it is valid when they are |
| `PhotoFixer.ProcessPhotosValid` | src/main/java/org/jcmv/photo/PhotoFixer.java:90 | timestamps stay valid when the metadata dates are |
| `PhotoFixer.JpegPhotos` | src/main/java/org/jcmv/photo/PhotoFixer.java:77 | keeps exactly the listed entries with a JPEG extension |
| `PhotoFixer.JpegPhotosAppend` | src/main/java/org/jcmv/photo/PhotoFixer.java:77 | the filter keeps the listing's order: filtering a concatenation concatenates the filtered parts |
| `PhotoFixer.ScanTags` | src/main/java/org/jcmv/photo/PhotoFixer.java:83-94 | the tag loop writes the directory's date once iff the directory qualifies, and returns that call's outcome |
| `PhotoFixer.ProcessMetadata` | src/main/java/org/jcmv/photo/PhotoFixer.java:81-95 | the directory loop's applied date, the dates written (one per qualifying directory reached) and whether a write threw are those of the loop's specification |
| `PhotoFixer.ProcessPhoto` | src/main/java/org/jcmv/photo/PhotoFixer.java:79-101 | one photo is reported and changes the folder exactly as one step of the batch specification |
| `PhotoFixer.ProcessPhotoList` | src/main/java/org/jcmv/photo/PhotoFixer.java:77-102 | the loop leaves the timestamps and reports exactly as the batch specification says, stopping at a write that throws |
| `PhotoFixer.ProcessPhotos` | src/main/java/org/jcmv/photo/PhotoFixer.java:77-102 | the file loop over the JPEG entries of the listing |
| `PhotoFixer.Run` | src/main/java/org/jcmv/photo/PhotoFixer.java:71-103 | the run's directory is the resolved one; with none, nothing changes; otherwise the JPEGs of the listing are processed |

## Left out

- The y/N console confirmation of `FixPhotoByName.run`, `main`, and every `System.out`/logger line are I/O. Each console report or log message is modelled as a report value instead. `Skipped` stands for a file given up with no message. `Aborted` stands for the exception that `main` logs before the program ends.
- The conversion between epoch milliseconds and `LocalDateTime` through the host time zone is left out. It depends on the zone and its DST gaps, so timestamps are date-time records. For the same reason, `setLastModified` rounding to whole milliseconds is not modelled.
- `Files.Folder.LastModified`: a missing file reads as 0 ms. The model shows that instant in UTC (`Epoch`), since the zone is not modelled.
- `DateTimes.BeforeEpoch`: the negative-time test reads a timestamp in UTC. `FixPhotoByName` converts through the host zone before the test, so there the boundary can move by the zone offset, a few hours around 1970-01-01T00:00. For `PhotoFixer` the test is exact: it writes a `java.util.Date`, an instant, which the model records in UTC.
- The real filesystem is not modelled. `listFiles` is an input sequence and `isDirectory` is a set of paths. `FixPhotoByName`'s fixed directory `.` is not modelled.
- `Files.Folder.SetLastModified`: success is a fixed property of each file (it exists and is not in `locked`), not a fresh nondeterministic choice on every call. This is as general as per-call choice for `ProcessFiles`, which writes each listed file once. `PhotoFixer` may write the same file several times; there the model assumes those writes all succeed or all fail.
- `PhotoFixer.AskForInputDirectory`: the selections are finite. The method requires that one of them ends the loop. The source would prompt forever otherwise. `PhotoFixer.Run` has the same requirement, since it calls `AskForInputDirectory`.
- A `null` from `PhotoFixer`'s `listFiles` is not modelled. In the source it is a NullPointerException that `main` catches.
- `JFileChooser`, the metadata library, `formatDate` and `Config.java` are not part of this model. The chooser is a sequence of selections. The metadata is plain data: `None` for a thrown `JpegProcessingException`/`IOException`, else its directories with their tag names and tag-306 date.
- `Text.Lower`: only ASCII letters are lower-cased. No other character's Java lower-case form is one of `.`, `j`, `p`, `e`, `g`, so the JPEG extension test is unaffected.
- `DateTimes.WithDayOfMonth`: java.time's shortcut that returns the same object when the day is unchanged is not modelled. It gives the same value.
- `PhotoFixer.ProcessPhotosFile` assumes the listing's names are distinct, as a directory's are.
