/**
  The batch (`process_images_in_directory` and the per-file body of `add_watermark`).

  The imaging and metadata libraries are oracles bundled in `Env`; the file system is
  the value `Disk`: the set of directories and the map from output paths to what was
  written there. The listing of the input directory is a given sequence of names.
*/
module Batch {
  import opened Wrappers
  import ExifDate
  import Placement
  import Paths

  /** A colour as given on the command line; it reaches the renderer uninterpreted. */
  datatype Color = Color(red: int, green: int, blue: int)

  /** The watermark settings shared by every file of a batch. */
  datatype Style = Style(fontSize: int, color: Color, position: string)

  datatype Size = Size(width: int, height: int)

  /** An output image: the image read from `source` with `text` drawn at (`x`, `y`) in `style`. */
  datatype Picture = Picture(source: string, text: string, style: Style, x: int, y: int)

  /**
    The libraries as oracles; `None` or `false` stands for a call that raises.
    - `metadata(path)`: the metadata block `piexif.load` reads from the file
    - `tagKeys`: `piexif.ExifIFD`, from tag name to tag number
    - `open(path)`: the size of the image `Image.open` reads
    - `measure(text, fontSize)`: `draw.textsize` with the font chosen for that size
    - `save(path, picture)`: drawing the text and `image.save` to `path`
  */
  datatype Env = Env(
    metadata: string -> Option<ExifDate.Ifds>,
    tagKeys: map<string, int>,
    open: string -> Option<Size>,
    measure: (string, int) -> Option<Size>,
    save: (string, Picture) -> bool)

  /** What became of one eligible file. */
  datatype Outcome = Written(path: string, picture: Picture) | SkippedNoDate | Failed

  /** The part of the file system the batch touches. */
  datatype Disk = Disk(dirs: set<string>, files: map<string, Picture>)

  // ---------------------------------------------------------------------------
  // One file
  // ---------------------------------------------------------------------------

  /**
    The body of `add_watermark`: open, measure, place, draw and save. Any step that
    raises is caught and gives `None`. A picture is produced only when every step
    succeeded, and its text sits where the anchor arithmetic puts it.
  */
  function AddWatermark(env: Env, inputPath: string, outputPath: string, text: string, style: Style): (r: Option<Picture>)
    ensures r.Some? ==> r.value.source == inputPath && r.value.text == text && r.value.style == style
    ensures r.Some? ==> env.open(inputPath).Some? && env.measure(text, style.fontSize).Some? && env.save(outputPath, r.value)
    ensures r.Some? ==>
      var image, box := env.open(inputPath).value, env.measure(text, style.fontSize).value;
      (r.value.x, r.value.y) == Placement.DrawOrigin(image.width, image.height, box.width, box.height, style.position)
    ensures env.open(inputPath).None? || env.measure(text, style.fontSize).None? ==> r.None?
    ensures env.open(inputPath).Some? && env.measure(text, style.fontSize).Some? ==>
      var image, box := env.open(inputPath).value, env.measure(text, style.fontSize).value;
      var origin := Placement.DrawOrigin(image.width, image.height, box.width, box.height, style.position);
      var picture := Picture(inputPath, text, style, origin.0, origin.1);
      r == if env.save(outputPath, picture) then Some(picture) else None
  {
    match env.open(inputPath)
    case None => None
    case Some(image) =>
      match env.measure(text, style.fontSize)
      case None => None
      case Some(box) =>
        var (x, y) := Placement.DrawOrigin(image.width, image.height, box.width, box.height, style.position);
        var picture := Picture(inputPath, text, style, x, y);
        if env.save(outputPath, picture) then Some(picture) else None
  }

  /** The date the batch reads for a file of the input directory. */
  function DateOf(env: Env, inputDir: string, name: string): Option<string>
  {
    ExifDate.GetExifDate(env.metadata(Paths.InputPath(inputDir, name)), env.tagKeys)
  }

  /**
    One iteration of the loop for an eligible `name`: read the date; with none, skip the
    file; with one, watermark it into the output directory under the same name.
  */
  function FileOutcome(env: Env, inputDir: string, name: string, style: Style): (o: Outcome)
    ensures o == SkippedNoDate <==> DateOf(env, inputDir, name).None?
    ensures o.Written? ==>
      && o.path == Paths.OutputPath(inputDir, name)
      && o.picture.source == Paths.InputPath(inputDir, name)
      && o.picture.style == style
      && Some(o.picture.text) == DateOf(env, inputDir, name)
      && ExifDate.IsIsoDate(o.picture.text)
    ensures o.Written? ==>
      Some(o.picture) == AddWatermark(env, Paths.InputPath(inputDir, name), Paths.OutputPath(inputDir, name),
                                      DateOf(env, inputDir, name).value, style)
    ensures DateOf(env, inputDir, name).Some? ==>
      var written := AddWatermark(env, Paths.InputPath(inputDir, name), Paths.OutputPath(inputDir, name),
                                  DateOf(env, inputDir, name).value, style);
      && (o.Written? <==> written.Some?)
      && (o.Failed? <==> written.None?)
  {
    var inputPath, outputPath := Paths.InputPath(inputDir, name), Paths.OutputPath(inputDir, name);
    var date := DateOf(env, inputDir, name);
    // `if watermark_text:` treats `None` and the empty string alike
    if date.None? || date.value == "" then SkippedNoDate
    else
      match AddWatermark(env, inputPath, outputPath, date.value, style)
      case Some(picture) => Written(outputPath, picture)
      case None => Failed
  }

  // ---------------------------------------------------------------------------
  // The batch, specified
  // ---------------------------------------------------------------------------

  /** The eligible names of a listing, in listing order: a sub-sequence of names that all pass the filter. */
  function Eligible(names: seq<string>): (r: seq<string>)
    ensures |r| <= |names|
  {
    if names == [] then []
    else
      var last := names[|names| - 1];
      Eligible(names[..|names| - 1]) + if Paths.IsEligible(last) then [last] else []
  }

  /** The outcomes of a batch over `names`, one per eligible name. */
  function Outcomes(env: Env, inputDir: string, names: seq<string>, style: Style): (r: seq<Outcome>)
    ensures |r| == |Eligible(names)|
  {
    if names == [] then []
    else
      var last := names[|names| - 1];
      Outcomes(env, inputDir, names[..|names| - 1], style)
        + if Paths.IsEligible(last) then [FileOutcome(env, inputDir, last, style)] else []
  }

  /** The files map after the writes of `outcomes`, in order, the last write to a path winning. */
  function Record(files: map<string, Picture>, outcomes: seq<Outcome>): (m: map<string, Picture>)
    ensures files.Keys <= m.Keys
    ensures forall k :: 0 <= k < |outcomes| && outcomes[k].Written? ==> outcomes[k].path in m
  {
    if outcomes == [] then files
    else
      var before := Record(files, outcomes[..|outcomes| - 1]);
      var last := outcomes[|outcomes| - 1];
      if last.Written? then before[last.path := last.picture] else before
  }

  /** The file system after a batch: the output directory exists, and the outputs are written. */
  function DiskAfter(disk: Disk, inputDir: string, outcomes: seq<Outcome>): (d: Disk)
    ensures disk.dirs <= d.dirs && Paths.OutputDir(inputDir) in d.dirs
    ensures disk.files.Keys <= d.files.Keys
  {
    Disk(disk.dirs + {Paths.OutputDir(inputDir)}, Record(disk.files, outcomes))
  }

  // ---------------------------------------------------------------------------
  // The batch, as the program runs it
  // ---------------------------------------------------------------------------

  /**
    The loop body for one eligible name: build both paths, read the date, and watermark
    the file when there is one. The new files map holds the picture when one was saved.
  */
  method HandleFile(env: Env, inputDir: string, name: string, style: Style, files: map<string, Picture>)
    returns (outcome: Outcome, after: map<string, Picture>)
    ensures outcome == FileOutcome(env, inputDir, name, style)
    ensures after == if outcome.Written? then files[outcome.path := outcome.picture] else files
  {
    var inputPath := Paths.InputPath(inputDir, name);
    var outputPath := Paths.OutputPath(inputDir, name);
    var text := ExifDate.GetExifDate(env.metadata(inputPath), env.tagKeys);
    assert text == DateOf(env, inputDir, name);
    after := files;
    if text.Some? && text.value != "" {
      var written := AddWatermark(env, inputPath, outputPath, text.value, style);
      if written.Some? {
        after := files[outputPath := written.value];
        outcome := Written(outputPath, written.value);
      } else {
        outcome := Failed;
      }
      assert FileOutcome(env, inputDir, name, style) == if written.Some? then Written(outputPath, written.value) else Failed;
    } else {
      outcome := SkippedNoDate;
    }
  }

  /**
    `process_images_in_directory`: create the output directory if it is missing, then
    handle the listing's names one at a time, in order, skipping ineligible ones.
    Failures are caught inside each file's step, so the loop always reaches the end.
  */
  method ProcessImagesInDirectory(env: Env, inputDir: string, listing: seq<string>, style: Style, disk: Disk)
    returns (outcomes: seq<Outcome>, after: Disk)
    ensures outcomes == Outcomes(env, inputDir, listing, style)
    ensures after == DiskAfter(disk, inputDir, outcomes)
  {
    var outputDir := Paths.OutputDir(inputDir);
    var dirs := disk.dirs;
    if outputDir !in dirs {
      dirs := dirs + {outputDir};
    }
    var files := disk.files;
    outcomes := [];
    for i := 0 to |listing|
      invariant outcomes == Outcomes(env, inputDir, listing[..i], style)
      invariant files == Record(disk.files, outcomes)
    {
      var name := listing[i];
      OutcomesStep(env, inputDir, listing, i, style);
      if Paths.IsEligible(name) {
        var outcome;
        outcome, files := HandleFile(env, inputDir, name, style, files);
        RecordStep(disk.files, outcomes, outcome);
        outcomes := outcomes + [outcome];
      }
    }
    assert listing[..|listing|] == listing;
    after := Disk(dirs, files);
  }

  /** One more name of the listing adds its own outcome when it is eligible, and nothing otherwise. */
  lemma OutcomesStep(env: Env, inputDir: string, listing: seq<string>, i: nat, style: Style)
    requires i < |listing|
    ensures Outcomes(env, inputDir, listing[..i + 1], style)
         == Outcomes(env, inputDir, listing[..i], style)
            + if Paths.IsEligible(listing[i]) then [FileOutcome(env, inputDir, listing[i], style)] else []
  {
    assert listing[..i + 1][..i] == listing[..i];
  }

  /** One more outcome adds its write, if it made one, on top of the earlier ones. */
  lemma RecordStep(files: map<string, Picture>, outcomes: seq<Outcome>, last: Outcome)
    ensures Record(files, outcomes + [last])
         == if last.Written? then Record(files, outcomes)[last.path := last.picture] else Record(files, outcomes)
  {
    assert (outcomes + [last])[..|outcomes|] == outcomes;
  }

  // ---------------------------------------------------------------------------
  // Properties of the batch
  // ---------------------------------------------------------------------------

  /** Filtering distributes over concatenation: the order of the listing is kept. */
  lemma {:induction false} EligibleAppend(a: seq<string>, b: seq<string>)
    ensures Eligible(a + b) == Eligible(a) + Eligible(b)
  {
    if b != [] {
      var init := b[..|b| - 1];
      EligibleAppend(a, init);
      assert (a + b)[..|a + b| - 1] == a + init;
    } else {
      assert a + b == a;
    }
  }

  /** The eligible names are exactly the names of the listing that pass the filter. */
  lemma {:induction false} EligibleMembers(names: seq<string>)
    ensures forall x :: x in Eligible(names) <==> x in names && Paths.IsEligible(x)
  {
    if names != [] {
      var init := names[..|names| - 1];
      EligibleMembers(init);
      assert names == init + [names[|names| - 1]];
    }
  }

  /** One outcome per eligible name, in listing order, each that name's own step. */
  lemma {:induction false} OutcomesFollowEligible(env: Env, inputDir: string, names: seq<string>, style: Style)
    ensures |Outcomes(env, inputDir, names, style)| == |Eligible(names)|
    ensures forall k :: 0 <= k < |Eligible(names)| ==>
      Outcomes(env, inputDir, names, style)[k] == FileOutcome(env, inputDir, Eligible(names)[k], style)
  {
    if names != [] {
      OutcomesFollowEligible(env, inputDir, names[..|names| - 1], style);
    }
  }

  /** Names that fail the filter are never looked at: listings with the same eligible names give the same outcomes. */
  lemma SameEligibleSameOutcomes(env: Env, inputDir: string, a: seq<string>, b: seq<string>, style: Style)
    requires Eligible(a) == Eligible(b)
    ensures Outcomes(env, inputDir, a, style) == Outcomes(env, inputDir, b, style)
  {
    OutcomesFollowEligible(env, inputDir, a, style);
    OutcomesFollowEligible(env, inputDir, b, style);
  }

  /** Two environments that agree on everything one file's step can observe. */
  ghost predicate SameFor(env1: Env, env2: Env, inputDir: string, name: string)
  {
    var inputPath, outputPath := Paths.InputPath(inputDir, name), Paths.OutputPath(inputDir, name);
    && env1.metadata(inputPath) == env2.metadata(inputPath)
    && env1.tagKeys == env2.tagKeys
    && env1.open(inputPath) == env2.open(inputPath)
    && (forall text, size :: env1.measure(text, size) == env2.measure(text, size))
    && (forall picture :: env1.save(outputPath, picture) == env2.save(outputPath, picture))
  }

  lemma FileOutcomeLocal(env1: Env, env2: Env, inputDir: string, name: string, style: Style)
    requires SameFor(env1, env2, inputDir, name)
    ensures FileOutcome(env1, inputDir, name, style) == FileOutcome(env2, inputDir, name, style)
  {
  }

  /** Without a date a file is skipped before any image is opened, measured or saved: those oracles cannot matter. */
  lemma NoDateNothingRendered(env1: Env, env2: Env, inputDir: string, name: string, style: Style)
    requires DateOf(env1, inputDir, name).None?
    requires env1.metadata == env2.metadata && env1.tagKeys == env2.tagKeys
    ensures FileOutcome(env1, inputDir, name, style) == FileOutcome(env2, inputDir, name, style) == SkippedNoDate
  {
  }

  /**
    Failure isolation: whatever happens to other files (a corrupt image, a failed save),
    the batch produces one outcome per eligible name, and each file's outcome depends
    only on what that file's own step observes.
  */
  lemma OutcomesAreIsolated(env1: Env, env2: Env, inputDir: string, names: seq<string>, style: Style)
    ensures |Outcomes(env1, inputDir, names, style)| == |Outcomes(env2, inputDir, names, style)| == |Eligible(names)|
    ensures forall k :: 0 <= k < |Eligible(names)| && SameFor(env1, env2, inputDir, Eligible(names)[k]) ==>
      Outcomes(env1, inputDir, names, style)[k] == Outcomes(env2, inputDir, names, style)[k]
  {
    OutcomesFollowEligible(env1, inputDir, names, style);
    OutcomesFollowEligible(env2, inputDir, names, style);
    forall k | 0 <= k < |Eligible(names)| && SameFor(env1, env2, inputDir, Eligible(names)[k])
      ensures Outcomes(env1, inputDir, names, style)[k] == Outcomes(env2, inputDir, names, style)[k]
    {
      FileOutcomeLocal(env1, env2, inputDir, Eligible(names)[k], style);
    }
  }

  /**
    Every written file carries the batch's font size, colour and anchor, a date read from
    its own source, and the picture `AddWatermark` drew for that file.
  */
  lemma WrittenFilesShareTheStyle(env: Env, inputDir: string, names: seq<string>, style: Style)
    ensures |Outcomes(env, inputDir, names, style)| == |Eligible(names)|
    ensures forall k :: 0 <= k < |Outcomes(env, inputDir, names, style)| && Outcomes(env, inputDir, names, style)[k].Written? ==>
      var o, name := Outcomes(env, inputDir, names, style)[k], Eligible(names)[k];
      && o.picture.style == style
      && o.path == Paths.OutputPath(inputDir, name)
      && o.picture.source == Paths.InputPath(inputDir, name)
      && Some(o.picture.text) == DateOf(env, inputDir, name)
      && Some(o.picture) == AddWatermark(env, Paths.InputPath(inputDir, name), Paths.OutputPath(inputDir, name),
                                         o.picture.text, style)
  {
    OutcomesFollowEligible(env, inputDir, names, style);
  }

  /** The picture last written to `path` by `outcomes`, if any. */
  function LastWrite(outcomes: seq<Outcome>, path: string): Option<Picture>
  {
    if outcomes == [] then None
    else
      var last := outcomes[|outcomes| - 1];
      if last.Written? && last.path == path then Some(last.picture)
      else LastWrite(outcomes[..|outcomes| - 1], path)
  }

  /** A path holds its last write if the batch wrote it, and what it held before otherwise. */
  lemma {:induction false} RecordAt(files: map<string, Picture>, outcomes: seq<Outcome>, path: string)
    ensures path in Record(files, outcomes) <==> path in files || LastWrite(outcomes, path).Some?
    ensures LastWrite(outcomes, path).Some? ==> Record(files, outcomes)[path] == LastWrite(outcomes, path).value
    ensures LastWrite(outcomes, path).None? && path in files ==> Record(files, outcomes)[path] == files[path]
  {
    if outcomes != [] {
      RecordAt(files, outcomes[..|outcomes| - 1], path);
    }
  }

  /** Skipped and failed files leave nothing behind: only the paths of `Written` outcomes are added. */
  lemma OnlyWrittenPathsChange(files: map<string, Picture>, outcomes: seq<Outcome>, path: string)
    requires forall k :: 0 <= k < |outcomes| && outcomes[k].Written? ==> outcomes[k].path != path
    ensures path in Record(files, outcomes) <==> path in files
    ensures path in files ==> Record(files, outcomes)[path] == files[path]
  {
    RecordAt(files, outcomes, path);
    NoWriteNoLastWrite(outcomes, path);
  }

  lemma {:induction false} NoWriteNoLastWrite(outcomes: seq<Outcome>, path: string)
    requires forall k :: 0 <= k < |outcomes| && outcomes[k].Written? ==> outcomes[k].path != path
    ensures LastWrite(outcomes, path).None?
  {
    if outcomes != [] {
      NoWriteNoLastWrite(outcomes[..|outcomes| - 1], path);
    }
  }

  /** Replaying the same writes over their own result changes nothing. */
  lemma RecordTwice(files: map<string, Picture>, outcomes: seq<Outcome>)
    ensures Record(Record(files, outcomes), outcomes) == Record(files, outcomes)
  {
    var once := Record(files, outcomes);
    var twice := Record(once, outcomes);
    forall path
      ensures path in twice <==> path in once
      ensures path in once ==> twice[path] == once[path]
    {
      RecordAt(files, outcomes, path);
      RecordAt(once, outcomes, path);
    }
  }

  /**
    Running the batch again over the same untouched inputs gives the same outcomes and
    leaves the file system as the first run left it. The second listing may differ from
    the first by ineligible names, such as files added later that the filter rejects.
  */
  lemma RerunChangesNothing(env: Env, inputDir: string, first: seq<string>, second: seq<string>, style: Style, disk: Disk)
    requires Eligible(second) == Eligible(first)
    ensures Outcomes(env, inputDir, second, style) == Outcomes(env, inputDir, first, style)
    ensures var outcomes := Outcomes(env, inputDir, first, style);
      DiskAfter(DiskAfter(disk, inputDir, outcomes), inputDir, outcomes) == DiskAfter(disk, inputDir, outcomes)
  {
    SameEligibleSameOutcomes(env, inputDir, first, second, style);
    RecordTwice(disk.files, Outcomes(env, inputDir, first, style));
  }

  lemma IneligibleSingleton(entry: string)
    requires !Paths.IsEligible(entry)
    ensures Eligible([entry]) == []
  {
    assert [entry][..0] == [];
  }

  /** A name that fails the filter, inserted anywhere in a listing, does not change the eligible names. */
  lemma IneligibleNameIgnored(before: seq<string>, entry: string, after: seq<string>)
    requires !Paths.IsEligible(entry)
    ensures Eligible(before + [entry] + after) == Eligible(before + after)
  {
    IneligibleSingleton(entry);
    EligibleAppend(before + [entry], after);
    EligibleAppend(before, [entry]);
    EligibleAppend(before, after);
  }

  /**
    The output directory is created before the listing is read, so every listing, the
    first run's included, shows its entry. Wherever it appears, that entry does not change
    the eligible names.
  */
  lemma OutputDirEntryIgnored(inputDir: string, before: seq<string>, after: seq<string>)
    ensures Eligible(before + [Paths.Basename(Paths.OutputDir(inputDir))] + after) == Eligible(before + after)
  {
    Paths.OutputDirNeverEligible(inputDir);
    IneligibleNameIgnored(before, Paths.Basename(Paths.OutputDir(inputDir)), after);
  }

  /** A file whose date, image, measurement and save are all available, so that nothing in its step fails. */
  ghost predicate Healthy(env: Env, inputDir: string, name: string, style: Style)
  {
    var inputPath, outputPath := Paths.InputPath(inputDir, name), Paths.OutputPath(inputDir, name);
    var date := DateOf(env, inputDir, name);
    && date.Some?
    && env.open(inputPath).Some?
    && env.measure(date.value, style.fontSize).Some?
    && var image, box := env.open(inputPath).value, env.measure(date.value, style.fontSize).value;
       var origin := Placement.DrawOrigin(image.width, image.height, box.width, box.height, style.position);
       env.save(outputPath, Picture(inputPath, date.value, style, origin.0, origin.1))
  }

  /**
    Every healthy eligible file is written, at its own position among the outcomes, to its
    own output path, with its date drawn where the anchor arithmetic puts it on its own
    image, whatever happens to the other files.
  */
  lemma HealthyFilesWritten(env: Env, inputDir: string, names: seq<string>, style: Style)
    ensures forall k :: 0 <= k < |Eligible(names)| && Healthy(env, inputDir, Eligible(names)[k], style) ==>
      var name, o := Eligible(names)[k], Outcomes(env, inputDir, names, style)[k];
      var inputPath, date := Paths.InputPath(inputDir, name), DateOf(env, inputDir, name).value;
      var image, box := env.open(inputPath).value, env.measure(date, style.fontSize).value;
      && o.Written?
      && o.path == Paths.OutputPath(inputDir, name)
      && o.picture == Picture(inputPath, date, style, Placement.DrawOrigin(image.width, image.height, box.width, box.height, style.position).0,
                              Placement.DrawOrigin(image.width, image.height, box.width, box.height, style.position).1)
  {
    OutcomesFollowEligible(env, inputDir, names, style);
  }

  /**
    When the tag-name table resolves no name, as with `ExifDate.SubscriptedTagTable`, every
    eligible file is skipped and the batch writes nothing.
  */
  lemma UnresolvedTagsWriteNothing(env: Env, inputDir: string, names: seq<string>, style: Style, disk: Disk)
    requires env.tagKeys == ExifDate.SubscriptedTagTable
    ensures forall k :: 0 <= k < |Outcomes(env, inputDir, names, style)| ==> Outcomes(env, inputDir, names, style)[k] == SkippedNoDate
    ensures DiskAfter(disk, inputDir, Outcomes(env, inputDir, names, style)).files == disk.files
  {
    var outcomes := Outcomes(env, inputDir, names, style);
    OutcomesFollowEligible(env, inputDir, names, style);
    forall k | 0 <= k < |outcomes| ensures outcomes[k] == SkippedNoDate {
      ExifDate.SubscriptedTableNeverFindsADate(env.metadata(Paths.InputPath(inputDir, Eligible(names)[k])));
    }
    NothingWrittenKeepsFiles(disk.files, outcomes);
  }

  /** When no text can be measured, no file is written and the batch leaves the files as they were. */
  lemma UnmeasurableTextWritesNothing(env: Env, inputDir: string, names: seq<string>, style: Style, disk: Disk)
    requires forall text, size :: env.measure(text, size).None?
    ensures forall k :: 0 <= k < |Outcomes(env, inputDir, names, style)| ==> !Outcomes(env, inputDir, names, style)[k].Written?
    ensures DiskAfter(disk, inputDir, Outcomes(env, inputDir, names, style)).files == disk.files
  {
    var outcomes := Outcomes(env, inputDir, names, style);
    OutcomesFollowEligible(env, inputDir, names, style);
    NothingWrittenKeepsFiles(disk.files, outcomes);
  }

  lemma {:induction false} NothingWrittenKeepsFiles(files: map<string, Picture>, outcomes: seq<Outcome>)
    requires forall k :: 0 <= k < |outcomes| ==> !outcomes[k].Written?
    ensures Record(files, outcomes) == files
  {
    if outcomes != [] {
      NothingWrittenKeepsFiles(files, outcomes[..|outcomes| - 1]);
    }
  }
}
