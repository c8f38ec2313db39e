# Watermark adder — a Dafny model

`watermark_adder.py` is a small command-line tool. It walks one directory and, for each
JPEG or PNG file, reads the capture date from the file's EXIF metadata. It draws that
date as `YYYY-MM-DD` onto the image at one of seven anchor positions. The result is saved
under the same name in an output subdirectory `<dir>/<basename(dir)>_watermark` of that directory.

This project models the tool's logic once the imaging and metadata libraries are set
aside. The model has five modules:

- `Wrappers` holds the `Option` type.
- `ExifDate` models `get_exif_date`. It has a fixed-width parser and a formatter for the
  EXIF stamp `YYYY:MM:DD HH:MM:SS`, with a round trip between them. It also has the
  calendar check `datetime` performs and the reformatting to `YYYY-MM-DD`. Tags are
  searched in order, `DateTimeOriginal` then `DateTime`: the first present tag decides,
  and every failure becomes `None`.
- `Placement` models the anchor arithmetic in `add_watermark`. It has a margin of 10 and
  floor-halving for centred axes. An unknown anchor falls back to bottom-right, and the
  origin is never clamped.
- `Paths` models the eligibility filter: a case-insensitive suffix test against `.jpg`,
  `.jpeg` and `.png`. It also models POSIX `join`/`basename` and the naming of the output
  directory and files. An input directory written with a trailing `/` has an empty
  basename, so its output directory is `<dir>/_watermark`.
- `Batch` models `process_images_in_directory`. It is a method that loops over the
  directory listing in order and keeps a file-system value of directories and written
  files. Each eligible file produces one outcome: `Written`, `SkippedNoDate` or `Failed`.
  The libraries are oracles in an `Env` value:
  - `piexif.load` and the `piexif.ExifIFD` name-to-number table;
  - `Image.open`;
  - text measurement;
  - drawing-and-saving.

  A library call that raises is an oracle answer of `None` (or `false` for a save).

## Model

| member | source | states |
|---|---|---|
| ExifDate.Number | watermark_adder.py:33 | the value of a run of decimal digits is below 10 to the power of its length |
| ExifDate.Digits | watermark_adder.py:34 | zero-padded rendering to a fixed width is all digits, has that width, and reads back as the number |
| ExifDate.DigitsOfNumber | watermark_adder.py:33-34 | reading a digit run and re-rendering it at its own width gives back the same characters |
| ExifDate.DaysInMonth | watermark_adder.py:33 | a month has 28 to 31 days, and 29 exactly when it is February of a leap year |
| ExifDate.CalendarExamples | watermark_adder.py:33 | `datetime`'s Gregorian rules: 29 February exists in 2000 and 2024 but not in 1900 or 2023, April has no 31st, years run from 1 to 9999, months from 1 to 12 and days from 1 |
| ExifDate.FormatStamp | watermark_adder.py:33 | the EXIF text of a valid timestamp has the fixed `YYYY:MM:DD HH:MM:SS` layout and its fields read back as the timestamp |
| ExifDate.ShapedRoundTrip | watermark_adder.py:33 | the fields cut out of a fixed-shape stamp, formatted again, give the stamp back |
| ExifDate.ParseStamp | watermark_adder.py:33 | a stamp is accepted only if it denotes a valid date and time, and the accepted stamp is exactly the formatting of the parsed value |
| ExifDate.ParseFormat | watermark_adder.py:33-34 | every valid date and time, formatted, parses back to itself |
| ExifDate.FormatDate | watermark_adder.py:34 | the output is a well-formed ISO date whose year, month and day read back as the stamp's |
| ExifDate.DateIsLeadingText | watermark_adder.py:31-34 | for an accepted stamp the result is its first ten characters with `:` replaced by `-` |
| ExifDate.TimeOfDayDiscarded | watermark_adder.py:33-34 | two accepted stamps with the same date part give the same result, whatever their times |
| ExifDate.ForeignCharacterRejected | watermark_adder.py:33 | a stamp holding any printable ASCII character other than a digit, `:` or a space is rejected |
| ExifDate.OutOfRangeRejected | watermark_adder.py:33 | a stamp of the right shape with an impossible date (month, day in month, leap years) or time is rejected |
| ExifDate.TruncatedRejected | watermark_adder.py:33 | every prefix of at most 17 characters of an accepted stamp is rejected |
| ExifDate.WorkedExample | watermark_adder.py:31-34 | the stored value `2023:05:07 14:22:01` parses to 7 May 2023, 14:22:01 and yields the date `2023-05-07` |
| ExifDate.DateFromValue | watermark_adder.py:31-34 | a tag value yields, if anything, a well-formed ISO date |
| ExifDate.DateFromValueMeaning | watermark_adder.py:31-34 | a tag value yields a date exactly when it decodes as UTF-8 and parses, and the date is its leading ten characters with dashes |
| ExifDate.SearchTags | watermark_adder.py:29-34 | the tag search returns, if anything, a well-formed ISO date |
| ExifDate.SearchTagsReadsAValue | watermark_adder.py:29-34 | a date found by the tag search is the date of some value present in the section |
| ExifDate.GetExifDate | watermark_adder.py:21-37 | the function returns either `None` or a well-formed ISO date |
| ExifDate.NeverFabricated | watermark_adder.py:25-37 | a returned date comes from a parsable text value of the `Exif` section of loaded metadata |
| ExifDate.OriginalTakesPriority | watermark_adder.py:29-34 | when `DateTimeOriginal` is present, it alone decides the result, even when it fails to decode or parse |
| ExifDate.FallbackToDateTime | watermark_adder.py:29-34 | only when `DateTimeOriginal` is absent is `DateTime` consulted, and without either the result is `None` |
| ExifDate.FailedLookupGivesNone | watermark_adder.py:29-37 | a tag name the key table cannot resolve, reached before any present tag, ends the search with `None` |
| ExifDate.MissingMetadataGivesNone | watermark_adder.py:25-37 | unreadable metadata or a missing `Exif` section gives `None` |
| Placement.DrawOrigin | watermark_adder.py:63-78 | left and top anchors sit 10 from the edge; right and bottom anchors put the text's far edge 10 from the image's; centred axes use the floor of half the free room |
| Placement.UnknownAnchorIsBottomRight | watermark_adder.py:77-78 | any anchor other than the six named ones is placed exactly as `bottom_right` |
| Placement.OriginDeterminedByColumnAndRow | watermark_adder.py:65-78 | the origin depends on the anchor only through its column and row |
| Placement.FloorHalfUnique | watermark_adder.py:72 | the centred coordinate is the unique floor of half the free room |
| Placement.OversizedTextIsNotClamped | watermark_adder.py:65-78 | axis by axis: text wider than the image gets a negative x unless left-anchored, and text taller than the image a negative y unless top-anchored |
| Placement.Examples | watermark_adder.py:65-78 | a 40×10 text on a 200×100 image lands at (150,80) bottom-right, (80,45) centre, (10,10) top-left, (80,10) top-centre, (10,80) bottom-left, and an unknown anchor at (150,80) |
| Placement.CentringFloorsNegativeRoom | watermark_adder.py:71-72 | centring a 35×35 text on a 30×30 image floors −5/2 to −3 |
| Paths.LowerChar | watermark_adder.py:106 | lower-casing a character leaves no capital; a capital becomes the same letter in lower case and any other character is unchanged |
| Paths.Lower | watermark_adder.py:106 | lower-casing a name keeps its length |
| Paths.LowerOnlyFoldsCapitals | watermark_adder.py:106 | a lower-cased name holds no capital, and every character that was not a capital stays where it was |
| Paths.IsEligible | watermark_adder.py:106 | a name passes the filter only if it has at least four characters, the shortest supported extension |
| Paths.LowerAppend | watermark_adder.py:106 | lower-casing distributes over concatenation |
| Paths.EligibleIffSupportedExtension | watermark_adder.py:106 | a name is processed exactly when some suffix of it, lower-cased, is `.jpg`, `.jpeg` or `.png` |
| Paths.EligibleEndsInG | watermark_adder.py:97 | every processed name is non-empty and ends in `g` or `G` |
| Paths.ExtensionCaseIgnored | watermark_adder.py:106 | any name ending in a supported extension, in any letter case, is processed |
| Paths.Join | watermark_adder.py:100 | a joined path ends with its second part; a relative second part follows the first, with nothing between them or exactly one `/`; an absolute one replaces the first |
| Paths.Basename | watermark_adder.py:100 | a basename never contains the separator |
| Paths.BasenameIsLastComponent | watermark_adder.py:100 | the basename is a suffix of the path, preceded by a separator when it is not the whole path |
| Paths.JoinEntry | watermark_adder.py:107-108 | joining a directory with a plain name inserts a separator only when the directory is non-empty and lacks a trailing one |
| Paths.OutputDir | watermark_adder.py:100 | the output directory's own name is the input directory's basename followed by `_watermark` |
| Paths.InputPath | watermark_adder.py:107 | an input path ends with the file's name and, for a listed entry, starts with the input directory |
| Paths.OutputPath | watermark_adder.py:108 | an output path ends with the file's name and, for a listed entry, lies inside the output directory |
| Paths.OutputDirLayout | watermark_adder.py:100 | the output directory sits inside the input directory and is named after its basename plus `_watermark` |
| Paths.OutputPathLayout | watermark_adder.py:108 | each output file is the output directory, a separator and the input's own name, whose basename is that name |
| Paths.BasenameOfEntry | watermark_adder.py:100 | the basename of a directory prefix followed by a plain name is that name |
| Paths.OutputDirNeverEligible | watermark_adder.py:97-106 | the output directory's own entry never passes the filter |
| Paths.OutputNeverAnInput | watermark_adder.py:107-108 | no output path equals the path of any input file, so no input is overwritten |
| Paths.TrailingSeparatorGivesBareSuffix | watermark_adder.py:100 | for an input directory written with a trailing separator, the output directory is that directory followed by `_watermark` |
| Paths.TrailingSeparatorExample | watermark_adder.py:100 | for `photos/` the output directory is `photos/_watermark` |
| Batch.AddWatermark | watermark_adder.py:45-88 | a picture is produced exactly when open, measurement and save all succeed; it carries the input, text and style, with its origin given by the anchor arithmetic |
| Batch.FileOutcome | watermark_adder.py:107-117 | a file is skipped exactly when it has no date; a dated file is written exactly when its watermarking succeeds and fails otherwise; a written file goes to its output path, from its own input, in the batch's style, with its own date as a well-formed ISO date, and its picture is exactly the one `AddWatermark` drew, at the anchor arithmetic's origin |
| Batch.HandleFile | watermark_adder.py:107-117 | one pass of the loop body produces that file's outcome and adds its picture to the files exactly when it was written |
| Batch.ProcessImagesInDirectory | watermark_adder.py:96-117 | the loop yields one outcome per eligible name in listing order, creates the output directory, and leaves every written picture at its path, the last write winning |
| Batch.Eligible | watermark_adder.py:105-106 | the names handled are no more than the names listed |
| Batch.Outcomes | watermark_adder.py:105-117 | the batch has exactly one outcome per eligible name |
| Batch.Record | watermark_adder.py:84 | writing outputs never removes a file |
| Batch.DiskAfter | watermark_adder.py:99-117 | after a batch the output directory exists, earlier directories remain and no file is removed |
| Batch.OutcomesStep | watermark_adder.py:105-117 | one more listed name adds its own outcome when eligible, and nothing otherwise |
| Batch.RecordStep | watermark_adder.py:84 | one more outcome adds its write, if it made one, over the earlier writes |
| Batch.EligibleAppend | watermark_adder.py:105-106 | filtering a listing keeps its order and distributes over concatenation |
| Batch.EligibleMembers | watermark_adder.py:105-106 | the names handled are exactly the listed names that pass the filter |
| Batch.OutcomesFollowEligible | watermark_adder.py:105-117 | there is one outcome per eligible name, each produced by that name's own step |
| Batch.SameEligibleSameOutcomes | watermark_adder.py:105-106 | names failing the filter have no influence on the batch's outcomes |
| Batch.FileOutcomeLocal | watermark_adder.py:107-117 | a file's outcome depends only on its own metadata, its own image, text measurement and saves to its own output path |
| Batch.NoDateNothingRendered | watermark_adder.py:111-117 | a file without a date is skipped, whatever opening, measuring or saving would do |
| Batch.OutcomesAreIsolated | watermark_adder.py:105-117 | whatever fails for other files, the loop still yields one outcome per eligible name, and each file's outcome is unchanged when its own oracles are |
| Batch.WrittenFilesShareTheStyle | watermark_adder.py:113-115 | every written file carries the same font size, colour and anchor and its own date, is written from its own input to its own output path, and holds the picture `AddWatermark` drew for it |
| Batch.RecordAt | watermark_adder.py:84 | after the batch, a path holds the picture last written to it, or what it held before if nothing was written there |
| Batch.OnlyWrittenPathsChange | watermark_adder.py:84-88 | skipped and failed files leave every path untouched |
| Batch.NoWriteNoLastWrite | watermark_adder.py:84 | with no write to a path, no last write to it exists |
| Batch.RecordTwice | watermark_adder.py:84 | replaying the same writes over their own result changes nothing |
| Batch.RerunChangesNothing | watermark_adder.py:99-117 | re-running over unchanged inputs, with a listing that differs only by names failing the filter, gives the same outcomes and the same file system |
| Batch.IneligibleSingleton | watermark_adder.py:106 | a one-name listing whose name fails the filter has no eligible names |
| Batch.IneligibleNameIgnored | watermark_adder.py:105-106 | inserting a name that fails the filter anywhere in a listing leaves the eligible names unchanged |
| Batch.HealthyFilesWritten | watermark_adder.py:105-117 | every eligible file whose date, image, measurement and save are available is written to its own output path, at its own position, with its date drawn at `DrawOrigin` of its own image and text sizes, whatever happens to the others |
| Batch.NothingWrittenKeepsFiles | watermark_adder.py:84-88 | outcomes without a write leave the files as they were |
| Batch.OutputDirEntryIgnored | watermark_adder.py:100-106 | the output directory's entry, which every listing shows (the first run's included, since the directory is created before the listing is read), changes nothing that is processed, wherever it appears |
| ExifDate.SubscriptedTableNeverFindsADate | watermark_adder.py:30 | with a tag-name table that resolves no name, no file ever yields a date |
| ExifDate.TagNumbersReadTheCaptureDate | watermark_adder.py:29-34 | with the EXIF tag numbers, a present `DateTimeOriginal` decides the date: its leading text with dashes when it parses, `None` otherwise |
| Batch.UnresolvedTagsWriteNothing | watermark_adder.py:105-117 | with a tag-name table that resolves no name, every eligible file is skipped and no file is written |
| Batch.UnmeasurableTextWritesNothing | watermark_adder.py:60 | when text cannot be measured, no file is written and the files stay as they were |

## Left out

- Pixels and fonts are left out. Pillow's `Image.open`, `ImageDraw`, `draw.textsize`, `draw.text` and `image.save` are oracles of `Env` or fields of `Picture`. So are the `arial.ttf` font and its fallback to the default font (lines 47-60 and 81-84). A picture records its source, text, style and origin, not its pixels.
- `piexif.load` is left out. The metadata is a map from section names to tag tables whose values either decode as UTF-8 or do not.
- The `piexif.ExifIFD[tag]` lookup is the `keys` table, a parameter. A name missing from the table stands for a lookup that raises, which ends the search with `None`. The table the program actually reaches resolves no name at all; see Findings. The priority and fallback lemmas describe the behaviour with a table that resolves the names.
- Paths follow POSIX `os.path` (`posixpath`) only. On Windows `os.path` is `ntpath`, with two separators and drive letters; that variant is not modelled.
- `print` diagnostics are left out. So are `main`, `argparse`, the `isdir` check and `sys.exit` (lines 120-146).
- Colours are carried uninterpreted to the renderer.
- ExifDate.ParseStamp accepts only the fixed-width form with two-digit fields and a single space. `datetime.strptime` also accepts single-digit month, day, hour, minute or second fields, a space-padded field, other or repeated whitespace at the separator, and non-ASCII decimal digits. The rejection lemmas are stated only for inputs `strptime` also rejects.
- ExifDate.FormatDate always writes a four-digit zero-padded year. Whether `strftime('%Y')` pads years below 1000 depends on the platform's C library.
- Paths.LowerChar folds ASCII letters only. `str.lower` also folds other letters, but none of them folds to a character of `.jpg`, `.jpeg` or `.png`, so the filter is unaffected.
- Paths.Lower keeps a name's length, but `str.lower` can lengthen one: `'İ'.lower()` is `i` followed by the combining dot U+0307. The filter is still unaffected, because the extra character is never `g`.
- The directory listing is a given sequence. Its order is whatever `os.listdir` returns.
- A failure of `os.makedirs` is left out. It raises out of the whole batch before any file is handled.
- An entry that is a directory with an image-like name goes through the same step as a file. The metadata oracle decides first: a directory has no readable metadata, so in the program it is skipped for want of a date. `open` is consulted only for an entry that yielded a date.
- A save that fails part-way may leave a partial file in the program. In the model, a failed save leaves nothing behind.
- The oracles are functions, so the same call gives the same answer. Batch.RerunChangesNothing relies on this to mean "unchanged inputs".
- `add_watermark` returns nothing. The outcomes record which of its branches ran (saved, or the error caught at lines 87-88) and which branch of the loop's date test ran.

## Findings

| source | as written | input that shows it | evidently intended | confidence | as-written member | corrected member |
|---|---|---|---|---|---|---|
| watermark_adder.py:30 | `piexif.ExifIFD` is a class of tag-number attributes, not a mapping, so `piexif.ExifIFD[tag]` raises for both names; the except at lines 35-37 turns this into `None`, so every eligible file is skipped and nothing is written (and `DateTime` is an IFD0 tag, not an Exif-IFD one, so the fallback could not find it in the `Exif` section either) | any JPEG whose `Exif` section holds a well-formed `DateTimeOriginal` | look the tag number up as an attribute: `DateTimeOriginal` is 0x9003 | not executed; piexif is not part of this model, so its table is taken from its documentation | ExifDate.SubscriptedTableNeverFindsADate | ExifDate.TagNumbersReadTheCaptureDate |
| watermark_adder.py:60 | `ImageDraw.textsize` was removed in Pillow 10, so measuring raises; the except at lines 87-88 catches it, so no dated file is written | any dated image, with Pillow 10 or later installed | measure the text with `draw.textbbox` | not executed; depends on the installed Pillow version | Batch.UnmeasurableTextWritesNothing | Batch.HealthyFilesWritten |
