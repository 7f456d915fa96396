/** Loading an image volume from DICOM files: the metadata pass that filters
    the files and feeds the grouper, the assembler that fills the voxel
    buffer slice by slice, and the pipeline that ties them together.

    Each method is proved against a plan: a function giving, for the same
    inputs, the events reported, the files decoded and the result. The lemmas
    below the plans state what those plans promise. */
module Load {
  import opened DicomTypes
  import opened Reporting
  import opened Dicom
  import opened Group

  /* ------------------------------------------------------------------ */
  /* File names                                                          */
  /* ------------------------------------------------------------------ */

  /** `load_main_image_from_dicom_files` turns a lone string into a list:
      the files named stay the same, and only a `CoreFilename` stays single. */
  function WrapSingleName(filenames: Filenames): (wrapped: Filenames)
    ensures EntryList(wrapped) == EntryList(filenames)
    ensures wrapped.Single? ==> wrapped.entry.CoreFilename?
  {
    if filenames.Single? && filenames.entry.Name? then Many([filenames.entry]) else filenames
  }

  /** `load_metadata_from_dicom_files` turns a lone string or `CoreFilename`
      into a list. */
  function EntryList(filenames: Filenames): (entries: seq<FileEntry>)
    ensures filenames.Single? ==> entries == [filenames.entry]
    ensures filenames.Many? ==> entries == filenames.entries
  {
    match filenames
    case Single(entry) => [entry]
    case Many(entries) => entries
  }

  /** A lone string, and the one-element list holding it, name the same files
      once both normalisations have run. */
  lemma SingleNameActsAsList(entry: FileEntry)
    ensures EntryList(WrapSingleName(Single(entry))) == EntryList(WrapSingleName(Many([entry]))) == [entry]
  {
  }

  /** The path a file entry names: its own directory for a `CoreFilename`,
      the image directory otherwise. */
  function CombinedPath(imagePath: string, entry: FileEntry): FilePath
  {
    match entry
    case CoreFilename(filePath, fileName) => Join(filePath, fileName)
    case Name(name) => Join(imagePath, name)
  }

  function CombinedPaths(imagePath: string, entries: seq<FileEntry>): (paths: seq<FilePath>)
    ensures |paths| == |entries|
    ensures forall i :: 0 <= i < |entries| ==> paths[i] == CombinedPath(imagePath, entries[i])
  {
    seq(|entries|, i requires 0 <= i < |entries| => CombinedPath(imagePath, entries[i]))
  }

  /** The file names in the order `sort_filenames` puts them. */
  function SortedEntries(filenames: Filenames, sortFilenames: seq<FileEntry> -> seq<FileEntry>): seq<FileEntry>
  {
    sortFilenames(EntryList(filenames))
  }

  /** The paths the metadata pass visits, in that order. */
  function MetadataPaths(imagePath: string, filenames: Filenames,
                         sortFilenames: seq<FileEntry> -> seq<FileEntry>): seq<FilePath>
  {
    CombinedPaths(imagePath, SortedEntries(filenames, sortFilenames))
  }

  /* ------------------------------------------------------------------ */
  /* The metadata pass: plan                                             */
  /* ------------------------------------------------------------------ */

  /** What the metadata pass does with one file. */
  datatype Verdict = Accepted(item: Item) | Rejected | Failed(error: Error)

  /** A file passing `is_dicom` has its grouping metadata read and goes to
      the grouper; a file failing it is left out; a missing file or
      unreadable metadata raises. */
  function Examine(disk: Disk, path: FilePath): (v: Verdict)
    ensures v.Accepted? ==> v.item.path == path
    ensures v.Accepted? ==> path in disk.groupingMetadata && v.item.metadata == disk.groupingMetadata[path]
    ensures !v.Failed? ==> (v.Accepted? <==> IsDicom(disk, path) == Returned(true))
    ensures v.Rejected? <==> IsDicom(disk, path) == Returned(false)
    ensures v.Failed? <==>
              IsDicom(disk, path).Raised? || (IsDicom(disk, path) == Returned(true) && path !in disk.groupingMetadata)
    ensures v.Failed? ==>
              v.error == if path !in disk.contents then FileNotFound(path) else UnreadableMetadata(path)
  {
    match IsDicom(disk, path)
    case Raised(error) => Failed(error)
    case Returned(isDicom) =>
      if !isDicom then Rejected
      else match ReadGroupingMetadata(disk, path)
        case Returned(metadata) => Accepted(Item(path, metadata))
        case Raised(error) => Failed(error)
  }

  /** The index of the first file from `k` on that raises, or |paths|. */
  function FirstFailedFile(disk: Disk, paths: seq<FilePath>, k: nat): (j: nat)
    requires k <= |paths|
    ensures k <= j <= |paths|
    ensures forall i :: k <= i < j ==> !Examine(disk, paths[i]).Failed?
    ensures j < |paths| ==> Examine(disk, paths[j]).Failed?
    decreases |paths| - k
  {
    if k == |paths| || Examine(disk, paths[k]).Failed? then k
    else FirstFailedFile(disk, paths, k + 1)
  }

  /** The items the grouper receives from these files, in order. */
  function AcceptedItems(disk: Disk, paths: seq<FilePath>): seq<Item>
  {
    if paths == [] then []
    else AcceptedItems(disk, paths[..|paths| - 1])
         + (match Examine(disk, paths[|paths| - 1])
            case Accepted(item) => [item]
            case _ => [])
  }

  /** The paths of the files that fail `is_dicom`, in order. */
  function RejectedPaths(disk: Disk, paths: seq<FilePath>): seq<FilePath>
  {
    if paths == [] then []
    else RejectedPaths(disk, paths[..|paths| - 1])
         + (if Examine(disk, paths[|paths| - 1]).Rejected? then [paths[|paths| - 1]] else [])
  }

  /** The events for the file at index i of n: a warning if it is left out,
      then the progress after it. */
  function FileEvents(disk: Disk, path: FilePath, i: nat, n: nat): seq<Event>
    requires i < n
  {
    (if Examine(disk, path).Rejected? then [WarningShown(NotADicomFile, Some(path))] else [])
    + [ProgressUpdated(ProgressPercent(i, n))]
  }

  /** The events for the first |paths| files of a run of n. */
  function IntakeEvents(disk: Disk, paths: seq<FilePath>, n: nat): seq<Event>
    requires |paths| <= n
  {
    if paths == [] then []
    else IntakeEvents(disk, paths[..|paths| - 1], n)
         + FileEvents(disk, paths[|paths| - 1], |paths| - 1, n)
  }

  /** The events the metadata pass opens with. */
  const IntakeOpening: seq<Event> := [ProgressShown(ReadingImageMetadata), ProgressUpdated(0)]

  /** What the metadata pass reports and returns. */
  datatype IntakePlan = IntakePlan(events: seq<Event>, outcome: Outcome<seq<Item>>)

  /** The metadata pass opens its progress bar at 0; it returns exactly when
      no file raises, and then completes the bar and returns the accepted
      items. */
  function PlanIntake(disk: Disk, paths: seq<FilePath>): (plan: IntakePlan)
    ensures |plan.events| >= 2 && plan.events[..2] == IntakeOpening
    ensures plan.outcome.Returned? <==> forall i :: 0 <= i < |paths| ==> !Examine(disk, paths[i]).Failed?
    ensures plan.outcome.Returned? ==>
              plan.outcome.value == AcceptedItems(disk, paths) && plan.events[|plan.events| - 1] == ProgressCompleted
  {
    var j := FirstFailedFile(disk, paths, 0);
    var events := IntakeOpening + IntakeEvents(disk, paths[..j], |paths|);
    if j < |paths| then IntakePlan(events, Raised(Examine(disk, paths[j]).error))
    else IntakePlan(events + [ProgressCompleted], Returned(AcceptedItems(disk, paths)))
  }

  /* ------------------------------------------------------------------ */
  /* The metadata pass: properties                                       */
  /* ------------------------------------------------------------------ */

  /** When the pass raises, it raises the exception of the first file that
      raises, and no file before that one raises. */
  lemma IntakeRaisesFirstFailure(disk: Disk, paths: seq<FilePath>)
    ensures var plan := PlanIntake(disk, paths);
            plan.outcome.Raised? ==>
              exists i :: 0 <= i < |paths| && Examine(disk, paths[i]) == Failed(plan.outcome.error)
                          && forall k :: 0 <= k < i ==> !Examine(disk, paths[k]).Failed?
  {
    var j := FirstFailedFile(disk, paths, 0);
    if j < |paths| {
      assert Examine(disk, paths[j]) == Failed(PlanIntake(disk, paths).outcome.error);
    }
  }

  /** The grouper receives exactly the accepted files, in the order the
      sorted file names list them: `index` maps each item to its file. */
  lemma {:induction false} AcceptedItemsKeepFileOrder(disk: Disk, paths: seq<FilePath>)
    returns (index: seq<nat>)
    ensures |index| == |AcceptedItems(disk, paths)|
    ensures forall k :: 0 <= k < |index| ==>
              index[k] < |paths| && Examine(disk, paths[index[k]]) == Accepted(AcceptedItems(disk, paths)[k])
    ensures forall k, l :: 0 <= k < l < |index| ==> index[k] < index[l]
    ensures forall i :: 0 <= i < |paths| && Examine(disk, paths[i]).Accepted? ==> i in index
    decreases |paths|
  {
    if paths == [] {
      index := [];
    } else {
      var last := |paths| - 1;
      var init := paths[..last];
      var before := AcceptedItemsKeepFileOrder(disk, init);
      assert forall i :: 0 <= i < last ==> paths[i] == init[i];
      match Examine(disk, paths[last])
      case Accepted(item) =>
        index := before + [last];
      case _ =>
        index := before;
    }
  }

  /** The warnings of a log that name a file as not DICOM, in order. */
  function WarnedPaths(events: seq<Event>): seq<FilePath>
  {
    if events == [] then []
    else WarnedPaths(events[..|events| - 1])
         + (match events[|events| - 1]
            case WarningShown(identifier, Some(path)) =>
              if identifier == NotADicomFile then [path] else []
            case _ => [])
  }

  lemma {:induction false} WarnedPathsAppend(a: seq<Event>, b: seq<Event>)
    ensures WarnedPaths(a + b) == WarnedPaths(a) + WarnedPaths(b)
    decreases |b|
  {
    if b == [] {
      assert a + b == a;
    } else {
      assert (a + b)[..|a + b| - 1] == a + b[..|b| - 1];
      WarnedPathsAppend(a, b[..|b| - 1]);
    }
  }

  /** Each file left out gets exactly one NotADicomFile warning naming it,
      in file order, and no other file is warned about. */
  lemma {:induction false} EachRejectedFileWarnedOnce(disk: Disk, paths: seq<FilePath>, n: nat)
    requires |paths| <= n
    ensures WarnedPaths(IntakeEvents(disk, paths, n)) == RejectedPaths(disk, paths)
    decreases |paths|
  {
    if paths != [] {
      var last := |paths| - 1;
      EachRejectedFileWarnedOnce(disk, paths[..last], n);
      var warning := if Examine(disk, paths[last]).Rejected?
                     then [WarningShown(NotADicomFile, Some(paths[last]))] else [];
      WarnedPathsAppend(IntakeEvents(disk, paths[..last], n), FileEvents(disk, paths[last], last, n));
      WarnedPathsAppend(warning, [ProgressUpdated(ProgressPercent(last, n))]);
      assert WarnedPaths([ProgressUpdated(ProgressPercent(last, n))]) == [];
    }
  }

  /** The progress values of the per-file events are round(100*i/n) for
      i = 0, 1, ... in turn. */
  lemma {:induction false} IntakeEventsProgress(disk: Disk, paths: seq<FilePath>, n: nat)
    requires |paths| <= n
    ensures ProgressValues(IntakeEvents(disk, paths, n)) == ProgressRun(0, |paths|, n)
    decreases |paths|
  {
    if paths != [] {
      var last := |paths| - 1;
      IntakeEventsProgress(disk, paths[..last], n);
      FileEventsProgress(disk, paths[last], last, n);
      ProgressValuesAppend(IntakeEvents(disk, paths[..last], n), FileEvents(disk, paths[last], last, n));
      ProgressRunStep(0, last, n);
    }
  }

  /** A file's events carry the one progress value reported after it. */
  lemma FileEventsProgress(disk: Disk, path: FilePath, i: nat, n: nat)
    requires i < n
    ensures ProgressValues(FileEvents(disk, path, i, n)) == [ProgressPercent(i, n)]
  {
    var warning := if Examine(disk, path).Rejected? then [WarningShown(NotADicomFile, Some(path))] else [];
    ProgressValuesAppend(warning, [ProgressUpdated(ProgressPercent(i, n))]);
    assert ProgressValues(warning) == [] by {
      if warning != [] {
        assert ProgressValues(warning[..0]) == [];
      }
    }
  }

  /** The metadata pass reports 0, then round(100*i/n) after each file it
      gets through; every value is a percentage, they never decrease, and a
      pass that returns ends with the completion. */
  lemma IntakeProgressReports(disk: Disk, paths: seq<FilePath>)
    ensures var plan := PlanIntake(disk, paths);
            && ProgressValues(plan.events) == [0] + ProgressRun(0, FirstFailedFile(disk, paths, 0), |paths|)
            && IsProgressSequence(ProgressValues(plan.events))
            && (plan.outcome.Returned? ==> plan.events[|plan.events| - 1] == ProgressCompleted)
  {
    var j := FirstFailedFile(disk, paths, 0);
    var body := IntakeEvents(disk, paths[..j], |paths|);
    IntakeEventsProgress(disk, paths[..j], |paths|);
    OpeningReportsZero(ReadingImageMetadata);
    ProgressValuesAppend(IntakeOpening, body);
    if j == |paths| {
      ProgressValuesAppend(IntakeOpening + body, [ProgressCompleted]);
    }
    OpenedRunIsProgress(0, j, |paths|);
  }

  /** A successful pass hands the grouper every file that passes `is_dicom`
      and no other, and warns about every other file. */
  lemma SuccessfulIntakeSplitsTheFiles(disk: Disk, paths: seq<FilePath>, i: nat)
    requires i < |paths|
    requires PlanIntake(disk, paths).outcome.Returned?
    ensures IsDicom(disk, paths[i]).Returned?
    ensures IsDicom(disk, paths[i]) == Returned(true) <==> Examine(disk, paths[i]).Accepted?
    ensures IsDicom(disk, paths[i]) == Returned(false) <==> Examine(disk, paths[i]).Rejected?
  {
    assert !Examine(disk, paths[i]).Failed?;
  }

  /** The metadata pass tests files with `is_dicom` alone: a DICOMDIR file,
      which carries the DICM prefix, goes to the grouper like any image. */
  lemma DicomdirReachesTheGrouper(disk: Disk, directory: string)
    requires Join(directory, DicomdirName) in disk.contents
    requires HasDicomPrefix(disk.contents[Join(directory, DicomdirName)])
    requires Join(directory, DicomdirName) in disk.groupingMetadata
    ensures Examine(disk, Join(directory, DicomdirName)).Accepted?
    ensures IsDicomImageFile(disk, directory, DicomdirName) == Returned(false)
  {
  }

  /* ------------------------------------------------------------------ */
  /* The metadata pass                                                   */
  /* ------------------------------------------------------------------ */

  /** One more file extends the items and the events by that file's share. */
  lemma IntakeStep(disk: Disk, paths: seq<FilePath>, i: nat, n: nat)
    requires i < |paths| <= n
    ensures AcceptedItems(disk, paths[..i + 1])
            == AcceptedItems(disk, paths[..i])
               + (match Examine(disk, paths[i]) case Accepted(item) => [item] case _ => [])
    ensures IntakeEvents(disk, paths[..i + 1], n)
            == IntakeEvents(disk, paths[..i], n) + FileEvents(disk, paths[i], i, n)
  {
    assert paths[..i + 1][..i] == paths[..i];
  }

  /** Appending to a log, regrouped. Stated once here so that the methods
      building a log piece by piece call it instead of each searching for the
      regrouping of a sequence concatenation. */
  lemma LogGrows(start: seq<Event>, before: seq<Event>, step: seq<Event>)
    ensures start + before + step == start + (before + step)
  {
  }

  /** The same regrouping for a log that grows by three pieces at once. */
  lemma LogGrowsByThree(before: seq<Event>, a: seq<Event>, b: seq<Event>, c: seq<Event>)
    ensures before + (a + b + c) == before + a + b + c
  {
  }

  /** A file that does not raise lets the pass go on to the next one. */
  lemma IntakeContinues(disk: Disk, paths: seq<FilePath>, i: nat)
    requires i < |paths| && i <= FirstFailedFile(disk, paths, 0)
    requires !Examine(disk, paths[i]).Failed?
    ensures i + 1 <= FirstFailedFile(disk, paths, 0)
  {
  }

  /** A pass that got through the files before `i` and fails on file `i`
      raises that file's error. */
  lemma IntakeStopsAt(disk: Disk, paths: seq<FilePath>, i: nat)
    requires i < |paths| && i <= FirstFailedFile(disk, paths, 0)
    requires Examine(disk, paths[i]).Failed?
    ensures PlanIntake(disk, paths)
            == IntakePlan(IntakeOpening + IntakeEvents(disk, paths[..i], |paths|),
                          Raised(Examine(disk, paths[i]).error))
  {
  }

  /** A pass that got through every file returns the accepted ones. */
  lemma IntakeCompletes(disk: Disk, paths: seq<FilePath>)
    requires FirstFailedFile(disk, paths, 0) == |paths|
    ensures PlanIntake(disk, paths)
            == IntakePlan(IntakeOpening + IntakeEvents(disk, paths, |paths|) + [ProgressCompleted],
                          Returned(AcceptedItems(disk, paths)))
  {
    assert paths[..|paths|] == paths;
  }

  /** One pass of the loop of `load_metadata_from_dicom_files`: a file that
      passes `is_dicom` goes to the grouper with its grouping metadata, any
      other file is warned about, and the progress after the file is
      reported. A missing file or unreadable tags raise before anything is
      reported. */
  method IntakeFile(grouper: DicomGrouper, combinedFileName: FilePath, fileIndex: nat, numSlices: nat,
                    disk: Disk, reporting: Reporter)
    returns (error: Option<Error>)
    requires fileIndex < numSlices
    modifies grouper, reporting
    ensures var verdict := Examine(disk, combinedFileName);
            && (verdict.Failed? ==>
                  && error == Some(verdict.error)
                  && grouper.items == old(grouper.items) && reporting.log == old(reporting.log))
            && (!verdict.Failed? ==>
                  && error == None
                  && grouper.items == old(grouper.items) + (if verdict.Accepted? then [verdict.item] else [])
                  && reporting.log == old(reporting.log) + FileEvents(disk, combinedFileName, fileIndex, numSlices))
  {
    var isDicom := IsDicom(disk, combinedFileName);
    if isDicom.Raised? {
      return Some(isDicom.error);
    }
    if isDicom.value {
      var metadata := ReadGroupingMetadata(disk, combinedFileName);
      if metadata.Raised? {
        return Some(metadata.error);
      }
      grouper.AddItem(combinedFileName, metadata.value);
    } else {
      reporting.ShowWarning(NotADicomFile, Some(combinedFileName));
    }
    reporting.UpdateProgressValue(ProgressPercent(fileIndex, numSlices));
    return None;
  }

  /** The loop of `load_metadata_from_dicom_files`, after the progress
      dialog opened at 0: the files in sorted order, up to the first that
      raises. Without an error, only the completion of the progress is
      left to do. */
  method ReadEachFile(grouper: DicomGrouper, imagePath: string, sortedFilenames: seq<FileEntry>,
                      disk: Disk, reporting: Reporter, ghost before: seq<Event>)
    returns (error: Option<Error>)
    requires grouper.items == [] && reporting.log == before + IntakeOpening
    modifies grouper, reporting
    ensures var plan := PlanIntake(disk, CombinedPaths(imagePath, sortedFilenames));
            && (error.Some? ==> reporting.log == before + plan.events && plan.outcome == Raised(error.value))
            && (error.None? ==>
                  && reporting.log + [ProgressCompleted] == before + plan.events
                  && plan.outcome == Returned(grouper.items))
  {
    ghost var paths := CombinedPaths(imagePath, sortedFilenames);
    ghost var start := before + IntakeOpening;
    var numSlices := |sortedFilenames|;
    var fileIndex := 0;
    while fileIndex < |sortedFilenames|
      invariant fileIndex <= |paths| == numSlices
      invariant fileIndex <= FirstFailedFile(disk, paths, 0)
      invariant grouper.items == AcceptedItems(disk, paths[..fileIndex])
      invariant reporting.log == start + IntakeEvents(disk, paths[..fileIndex], numSlices)
    {
      var combinedFileName := CombinedPath(imagePath, sortedFilenames[fileIndex]);
      IntakeStep(disk, paths, fileIndex, numSlices);
      error := IntakeFile(grouper, combinedFileName, fileIndex, numSlices, disk, reporting);
      if error.Some? {
        IntakeStopsAt(disk, paths, fileIndex);
        LogGrows(before, IntakeOpening, IntakeEvents(disk, paths[..fileIndex], numSlices));
        return;
      }
      LogGrows(start, IntakeEvents(disk, paths[..fileIndex], numSlices),
               FileEvents(disk, combinedFileName, fileIndex, numSlices));
      IntakeContinues(disk, paths, fileIndex);
      fileIndex := fileIndex + 1;
    }
    IntakeCompletes(disk, paths);
    LogGrows(before, IntakeOpening, IntakeEvents(disk, paths, numSlices));
    LogGrows(before, IntakeOpening + IntakeEvents(disk, paths, numSlices), [ProgressCompleted]);
    assert paths[..fileIndex] == paths;
    return None;
  }

  /** `load_metadata_from_dicom_files`. */
  method LoadMetadataFromDicomFiles(imagePath: string, filenames: Filenames, disk: Disk,
                                    sortFilenames: seq<FileEntry> -> seq<FileEntry>,
                                    policy: GroupingPolicy, reporting: Reporter)
    returns (result: Outcome<DicomGrouper>)
    requires |SortedEntries(filenames, sortFilenames)| == |EntryList(filenames)|
    modifies reporting
    ensures var plan := PlanIntake(disk, MetadataPaths(imagePath, filenames, sortFilenames));
            && reporting.log == old(reporting.log) + plan.events
            && (plan.outcome.Raised? ==> result == Raised(plan.outcome.error))
            && (plan.outcome.Returned? ==>
                  && result.Returned? && fresh(result.value)
                  && result.value.policy == policy
                  && result.value.items == plan.outcome.value)
  {
    reporting.ShowProgress(ReadingImageMetadata);
    reporting.UpdateProgressValue(0);
    var sortedFilenames := SortedEntries(filenames, sortFilenames);
    var grouper := new DicomGrouper(policy);
    var error := ReadEachFile(grouper, imagePath, sortedFilenames, disk, reporting, old(reporting.log));
    if error.Some? {
      return Raised(error.value);
    }
    reporting.CompleteProgress();
    return Returned(grouper);
  }

  /* ------------------------------------------------------------------ */
  /* The volume assembler: data                                          */
  /* ------------------------------------------------------------------ */

  /** The voxel buffer: one plane of pixels per index along the slice axis. */
  class RawImage {
    const shape: seq<nat>
    const dataType: DataType
    const planes: array<seq<int>>

    /** `np.zeros(shape, data_type)`. */
    constructor Zeros(shape: seq<nat>, dataType: DataType, planeSize: nat)
      requires |shape| >= 3
      ensures this.shape == shape && this.dataType == dataType
      ensures fresh(planes) && planes.Length == shape[2]
      ensures forall k :: 0 <= k < planes.Length ==> planes[k] == seq(planeSize, _ => 0)
    {
      this.shape := shape;
      this.dataType := dataType;
      planes := new seq<int>[shape[2]](_ => seq(planeSize, _ => 0));
    }
  }

  /** `CoreWrapper`: holds the buffer once it is allocated. */
  class CoreWrapper {
    var rawImage: RawImage?

    constructor ()
      ensures rawImage == null
    {
      rawImage := null;
    }
  }

  /** The shape of one slice's place in the buffer. */
  function PlaneShape(metadata: Metadata): seq<nat>
  {
    if metadata.samplesPerPixel > 1 then [metadata.rows, metadata.columns, metadata.samplesPerPixel]
    else [metadata.rows, metadata.columns]
  }

  /** The buffer's shape: rows, columns, slices, and a trailing channel axis
      only when a pixel has more than one sample. */
  function VolumeShape(metadata: Metadata, numSlices: nat): (shape: seq<nat>)
    ensures |shape| >= 3
    ensures shape[..3] == [metadata.rows, metadata.columns, numSlices]
    ensures |shape| == 4 <==> metadata.samplesPerPixel > 1
    ensures |shape| == 4 ==> shape[3] == metadata.samplesPerPixel
  {
    if metadata.samplesPerPixel > 1
    then [metadata.rows, metadata.columns, numSlices, metadata.samplesPerPixel]
    else [metadata.rows, metadata.columns, numSlices]
  }

  function Product(shape: seq<nat>): nat
  {
    if shape == [] then 1 else shape[0] * Product(shape[1..])
  }

  /** The buffer holds exactly `numSlices` planes of one slice's size. */
  lemma VolumeHoldsSlicePlanes(metadata: Metadata, numSlices: nat)
    ensures Product(VolumeShape(metadata, numSlices)) == numSlices * Product(PlaneShape(metadata))
  {
    var r, c, n, s := metadata.rows, metadata.columns, numSlices, metadata.samplesPerPixel;
    if s > 1 {
      ChannelVolumeSize(r, c, n, s);
    } else {
      PlainVolumeSize(r, c, n);
    }
  }

  lemma ChannelVolumeSize(r: nat, c: nat, n: nat, s: nat)
    ensures Product([r, c, n, s]) == n * Product([r, c, s])
  {
    ProductUnfolds([r, c, n, s]);
    assert [r, c, n, s][1..] == [c, n, s];
    ProductUnfolds([c, n, s]);
    assert [c, n, s][1..] == [n, s];
    ProductUnfolds([n, s]);
    ProductUnfolds([r, c, s]);
    assert [r, c, s][1..] == [c, s];
    ProductUnfolds([c, s]);
    assert [c, s][1..] == [n, s][1..] == [s];
    ProductUnfolds([s]);
    MultiplySwap(c, n, s);
    MultiplySwap(r, n, c * s);
  }

  lemma PlainVolumeSize(r: nat, c: nat, n: nat)
    ensures Product([r, c, n]) == n * Product([r, c])
  {
    ProductUnfolds([r, c, n]);
    assert [r, c, n][1..] == [c, n];
    ProductUnfolds([c, n]);
    ProductUnfolds([r, c]);
    assert [c, n][1..] == [n];
    ProductUnfolds([n]);
    ProductUnfolds([c]);
    assert c * n == n * c;
    MultiplySwap(r, n, c);
  }

  /** Two factors in front of a third trade places. */
  lemma MultiplySwap(a: nat, b: nat, x: nat)
    ensures a * (b * x) == b * (a * x)
  {
  }

  /** One unfolding of `Product`. The size lemmas above call it once per
      shape they unfold, which keeps their nonlinear steps small enough to
      verify within the resource limit on every solver seed. */
  lemma ProductUnfolds(shape: seq<nat>)
    requires shape != []
    ensures Product(shape) == shape[0] * Product(shape[1..])
    ensures |shape| == 1 ==> Product(shape) == shape[0]
  {
  }

  /** The buffer's element type as the source compares it: `data_type ==
      np.char` sets a NumPy dtype against the module `numpy.char`, which no
      dtype equals. */
  datatype NumpyObject = DTypeObject(dataType: DataType) | ModuleObject(name: string)

  const NumpyChar: NumpyObject := ModuleObject("numpy.char")

  predicate IsCharDataTypeAsWritten(dataType: DataType)
  {
    DTypeObject(dataType) == NumpyChar
  }

  /** As written, a character slice is never recognised, so no coercion to
      int8 and no message ever happen. */
  lemma CharSliceMissedAsWritten()
    ensures forall d: DataType :: !IsCharDataTypeAsWritten(d)
  {
  }

  /** Which character test the assembler applies: the comparison as
      written, or the intended one, under which the slice's dtype is the
      character type. */
  datatype CharTest = AsWritten | Intended

  predicate DetectsChar(test: CharTest, dataType: DataType)
  {
    match test
    case AsWritten => IsCharDataTypeAsWritten(dataType)
    case Intended => dataType == Char
  }

  /** The buffer's element type: the first slice's, with the character type
      replaced by int8 once the test detects it. Under the intended test the
      buffer never holds characters; as written it always keeps the first
      slice's type. */
  function BufferDataType(test: CharTest, first: DataType): (dataType: DataType)
    ensures test == Intended ==> dataType != Char
    ensures test == Intended && first == Char ==> dataType == Int8
    ensures test == Intended && first != Char ==> dataType == first
    ensures test == AsWritten ==> dataType == first
  {
    if DetectsChar(test, first) then Int8 else first
  }

  /** A decoded slice can be written into its place in the buffer. Shapes
      must agree exactly. */
  predicate Fits(decoded: Decoded, metadata: Metadata)
  {
    && decoded.Pixels?
    && decoded.slice.shape == PlaneShape(metadata)
    && |decoded.slice.pixels| == Product(decoded.slice.shape)
  }

  /** The exception a slice that does not fit raises. */
  function SliceError(decoded: Decoded, path: FilePath): Error
  {
    match decoded
    case Unreadable => UnreadablePixels(path)
    case NoPixels => MissingPixels(path)
    case Pixels(_) => ShapeMismatch(path)
  }

  /** The index of the first slice from `k` on that does not fit, or |stack|. */
  function FirstUnfitSlice(stack: seq<Item>, pixelData: map<FilePath, Decoded>, metadata: Metadata, k: nat)
    : (j: nat)
    requires k <= |stack|
    ensures k <= j <= |stack|
    ensures forall i :: k <= i < j ==> Fits(DecodedAt(pixelData, stack[i].path), metadata)
    ensures j < |stack| ==> !Fits(DecodedAt(pixelData, stack[j].path), metadata)
    decreases |stack| - k
  {
    if k == |stack| || !Fits(DecodedAt(pixelData, stack[k].path), metadata) then k
    else FirstUnfitSlice(stack, pixelData, metadata, k + 1)
  }

  function PathsOf(stack: seq<Item>): (paths: seq<FilePath>)
    ensures |paths| == |stack|
    ensures forall k :: 0 <= k < |stack| ==> paths[k] == stack[k].path
  {
    seq(|stack|, k requires 0 <= k < |stack| => stack[k].path)
  }

  function PixelsOf(decoded: Decoded): seq<int>
  {
    if decoded.Pixels? then decoded.slice.pixels else []
  }

  /** The buffer the assembler leaves: none, a filled one, or an exception. */
  datatype PlannedVolume =
    | NoImage
    | Filled(shape: seq<nat>, dataType: DataType, planes: seq<seq<int>>)
    | Failure(error: Error)

  /** What the assembler decodes, reports and returns. */
  datatype AssemblyPlan = AssemblyPlan(requests: seq<FilePath>, events: seq<Event>, volume: PlannedVolume)

  /** The events the assembler opens with. */
  const AssemblyOpening: seq<Event> := [ProgressShown(ReadingPixelData), ProgressUpdated(0)]

  /** The message shown when the test finds characters in the first slice. */
  function Coercion(test: CharTest, first: DataType): seq<Event>
  {
    if DetectsChar(test, first) then [MessageShown(SettingDatatypeToInt8)] else []
  }

  /** The planes of a buffer filled from every slice of the stack. */
  function StackPlanes(stack: seq<Item>, pixelData: map<FilePath, Decoded>): (planes: seq<seq<int>>)
    ensures |planes| == |stack|
    ensures forall k :: 0 <= k < |stack| ==> planes[k] == PixelsOf(DecodedAt(pixelData, stack[k].path))
  {
    seq(|stack|, k requires 0 <= k < |stack| => PixelsOf(DecodedAt(pixelData, stack[k].path)))
  }

  /** How many files the assembler decodes when slice `j` is the first that
      does not fit (`j == n`: none): up to and including slice `j`. */
  function FilesDecoded(n: nat, j: nat): (count: nat)
    requires j <= n
    ensures count <= n && (j < n ==> count == j + 1) && (j == n ==> count == n)
  {
    if j == n then n else j + 1
  }

  /** One past the last index whose progress is reported when slice `j` is
      the first that does not fit: slice 0 reports nothing beyond the
      opening 0, and the failing slice reports nothing. */
  function ReportedUpTo(j: nat): (hi: nat)
    ensures 1 <= hi && (0 < j ==> hi == j)
  {
    if j == 0 then 1 else j
  }

  /** The assembler opens its progress bar at 0 and decodes a prefix of the
      stack in stack order, all of it when a buffer comes back; only an empty
      stack raises `EmptyStack`. */
  function PlanAssembly(test: CharTest, stack: seq<Item>, pixelData: map<FilePath, Decoded>): (plan: AssemblyPlan)
    ensures |plan.events| >= 2 && plan.events[..2] == AssemblyOpening
    ensures |plan.requests| <= |stack| && plan.requests == PathsOf(stack[..|plan.requests|])
    ensures stack == [] <==> plan.volume == Failure(EmptyStack)
    ensures plan.volume.Filled? ==> plan.requests == PathsOf(stack) && |plan.volume.planes| == |stack|
  {
    if |stack| == 0 then AssemblyPlan([], AssemblyOpening, Failure(EmptyStack))
    else
      var path := stack[0].path;
      match DecodedAt(pixelData, path)
      case Unreadable => AssemblyPlan([path], AssemblyOpening, Failure(UnreadablePixels(path)))
      case NoPixels => AssemblyPlan([path], AssemblyOpening, NoImage)
      case Pixels(first) =>
        var n := |stack|;
        var metadata := stack[0].metadata;
        var j := FirstUnfitSlice(stack, pixelData, metadata, 0);
        var requests := PathsOf(stack[..FilesDecoded(n, j)]);
        var events := AssemblyOpening + Coercion(test, first.dataType) + ProgressUpdates(1, ReportedUpTo(j), n);
        if j == n then
          AssemblyPlan(requests, events + [ProgressCompleted],
                       Filled(VolumeShape(metadata, n), BufferDataType(test, first.dataType), StackPlanes(stack, pixelData)))
        else
          AssemblyPlan(requests, events, Failure(SliceError(DecodedAt(pixelData, stack[j].path), stack[j].path)))
  }

  /** The wrapper holds what the plan says: no buffer, or this buffer. */
  ghost predicate Holds(wrapper: CoreWrapper, volume: PlannedVolume)
    reads wrapper, wrapper.rawImage
    reads if wrapper.rawImage == null then {} else {wrapper.rawImage.planes}
  {
    match volume
    case NoImage => wrapper.rawImage == null
    case Filled(shape, dataType, planes) =>
      && wrapper.rawImage != null
      && wrapper.rawImage.shape == shape
      && wrapper.rawImage.dataType == dataType
      && wrapper.rawImage.planes[..] == planes
    case Failure(_) => false
  }

  /* ------------------------------------------------------------------ */
  /* The volume assembler: properties                                    */
  /* ------------------------------------------------------------------ */

  /** When the first slice decodes to nothing, the result has no buffer,
      only the first file was decoded, and no progress beyond 0 is reported. */
  lemma NothingDecodedMeansNoImage(test: CharTest, stack: seq<Item>, pixelData: map<FilePath, Decoded>)
    requires |stack| > 0 && DecodedAt(pixelData, stack[0].path).NoPixels?
    ensures var plan := PlanAssembly(test, stack, pixelData);
            && plan.volume == NoImage
            && plan.requests == [stack[0].path]
            && ProgressValues(plan.events) == [0]
            && ProgressCompleted !in plan.events
  {
    OpeningReportsZero(ReadingPixelData);
  }

  /** The assembler returns the bare wrapper only when the first slice
      decodes to nothing. Otherwise, a stack with a slice that cannot be
      written raises the exception of the first such slice: the first slice
      unreadable, a later one unreadable or empty, or a shape that differs. */
  lemma AssemblyFailsAtFirstUnfitSlice(test: CharTest, stack: seq<Item>, pixelData: map<FilePath, Decoded>)
    ensures var plan := PlanAssembly(test, stack, pixelData);
            plan.volume == NoImage <==> |stack| > 0 && DecodedAt(pixelData, stack[0].path).NoPixels?
    ensures var plan := PlanAssembly(test, stack, pixelData);
            |stack| > 0 && !DecodedAt(pixelData, stack[0].path).NoPixels? ==>
              var j := FirstUnfitSlice(stack, pixelData, stack[0].metadata, 0);
              j < |stack| ==> plan.volume == Failure(SliceError(DecodedAt(pixelData, stack[j].path), stack[j].path))
  {
    if |stack| > 0 && DecodedAt(pixelData, stack[0].path).Unreadable? {
      assert !Fits(DecodedAt(pixelData, stack[0].path), stack[0].metadata);
    }
  }

  /** A buffer comes back exactly when every slice decodes and fits; it then
      has the shape of the first slice's metadata, the first slice's type
      (int8 for characters once the test detects them), and plane k holds slice k, every file having
      been decoded once, in stack order. */
  lemma FilledVolumeHoldsEverySlice(test: CharTest, stack: seq<Item>, pixelData: map<FilePath, Decoded>)
    ensures var plan := PlanAssembly(test, stack, pixelData);
            plan.volume.Filled? <==>
              |stack| > 0 && forall k :: 0 <= k < |stack| ==> Fits(DecodedAt(pixelData, stack[k].path), stack[0].metadata)
    ensures var plan := PlanAssembly(test, stack, pixelData);
            plan.volume.Filled? ==>
              && plan.volume.shape == VolumeShape(stack[0].metadata, |stack|)
              && plan.volume.dataType == BufferDataType(test, DecodedAt(pixelData, stack[0].path).slice.dataType)
              && |plan.volume.planes| == |stack|
              && (forall k :: 0 <= k < |stack| ==> plan.volume.planes[k] == DecodedAt(pixelData, stack[k].path).slice.pixels)
              && plan.requests == PathsOf(stack)
    ensures var plan := PlanAssembly(test, stack, pixelData);
            plan.volume.Filled? ==>
              && (forall k :: 0 <= k < |stack| ==> |plan.volume.planes[k]| == Product(PlaneShape(stack[0].metadata)))
              && Product(plan.volume.shape) == |plan.volume.planes| * Product(PlaneShape(stack[0].metadata))
  {
    if |stack| > 0 && DecodedAt(pixelData, stack[0].path).Pixels? {
      var j := FirstUnfitSlice(stack, pixelData, stack[0].metadata, 0);
      if j < |stack| {
        assert !Fits(DecodedAt(pixelData, stack[j].path), stack[0].metadata);
      } else {
        VolumeHoldsSlicePlanes(stack[0].metadata, |stack|);
      }
    } else if |stack| > 0 {
      assert !Fits(DecodedAt(pixelData, stack[0].path), stack[0].metadata);
    }
  }

  /** The progress values of an assembler log that got past the first
      slice: the opening 0, then the updates; the message and the
      completion carry none. */
  lemma OpenedUpdatesValues(coercion: seq<Event>, hi: nat, n: nat, closing: seq<Event>)
    requires 1 <= hi <= n
    requires coercion == [] || coercion == [MessageShown(SettingDatatypeToInt8)]
    requires closing == [] || closing == [ProgressCompleted]
    ensures ProgressValues(AssemblyOpening + coercion + ProgressUpdates(1, hi, n) + closing)
            == [0] + ProgressRun(1, hi, n)
  {
    var updates := ProgressUpdates(1, hi, n);
    OpeningReportsZero(ReadingPixelData);
    assert ProgressValues(coercion) == [] by {
      if coercion != [] {
        assert ProgressValues(coercion[..0]) == [];
      }
    }
    assert ProgressValues(closing) == [] by {
      if closing != [] {
        assert ProgressValues(closing[..0]) == [];
      }
    }
    ProgressValuesAppend(AssemblyOpening, coercion);
    assert ProgressValues(AssemblyOpening + coercion) == [0];
    ProgressValuesOfUpdates(1, hi, n);
    ProgressValuesAppend(AssemblyOpening + coercion, updates);
    assert ProgressValues(AssemblyOpening + coercion + updates) == [0] + ProgressRun(1, hi, n);
    ProgressValuesAppend(AssemblyOpening + coercion + updates, closing);
  }

  /** The assembler reports 0, then round(100*k/n) after each later slice
      it writes: every value a percentage, never decreasing, and a filled
      buffer ends the log with the completion. */
  lemma AssemblyProgressReports(test: CharTest, stack: seq<Item>, pixelData: map<FilePath, Decoded>)
    ensures var plan := PlanAssembly(test, stack, pixelData);
            && IsProgressSequence(ProgressValues(plan.events))
            && (plan.volume.Filled? ==> ProgressValues(plan.events) == [0] + ProgressRun(1, |stack|, |stack|))
            && (plan.volume.Filled? ==> plan.events[|plan.events| - 1] == ProgressCompleted)
  {
    AssemblyEventsAre(test, stack, pixelData);
    if |stack| > 0 && DecodedAt(pixelData, stack[0].path).Pixels? {
      var n := |stack|;
      var j := FirstUnfitSlice(stack, pixelData, stack[0].metadata, 0);
      var hi := ReportedUpTo(j);
      OpenedUpdatesValues(Coercion(test, DecodedAt(pixelData, stack[0].path).slice.dataType), hi, n,
                          if j == n then [ProgressCompleted] else []);
      OpenedRunIsProgress(1, hi, n);
    } else {
      OpeningReportsZero(ReadingPixelData);
      OpenedRunIsProgress(0, 0, 1);
      assert [0] + ProgressRun(0, 0, 1) == [0];
    }
  }

  /** The assembler's events, piece by piece: the opening, then, once the
      first slice is decoded, the coercion message, the updates and the
      completion when every slice fits. */
  lemma AssemblyEventsAre(test: CharTest, stack: seq<Item>, pixelData: map<FilePath, Decoded>)
    ensures var plan := PlanAssembly(test, stack, pixelData);
            !(|stack| > 0 && DecodedAt(pixelData, stack[0].path).Pixels?) ==>
              plan.events == AssemblyOpening && !plan.volume.Filled?
    ensures var plan := PlanAssembly(test, stack, pixelData);
            |stack| > 0 && DecodedAt(pixelData, stack[0].path).Pixels? ==>
              var n := |stack|;
              var j := FirstUnfitSlice(stack, pixelData, stack[0].metadata, 0);
              && plan.events == AssemblyOpening + Coercion(test, DecodedAt(pixelData, stack[0].path).slice.dataType)
                                + ProgressUpdates(1, ReportedUpTo(j), n)
                                + (if j == n then [ProgressCompleted] else [])
              && (plan.volume.Filled? <==> j == n)
  {
    if |stack| > 0 && DecodedAt(pixelData, stack[0].path).Pixels? {
      var j := FirstUnfitSlice(stack, pixelData, stack[0].metadata, 0);
      if j < |stack| {
        var events := AssemblyOpening + Coercion(test, DecodedAt(pixelData, stack[0].path).slice.dataType)
                      + ProgressUpdates(1, ReportedUpTo(j), |stack|);
        assert events + [] == events;
      }
    }
  }

  /** How many times an event occurs in a log. */
  function Occurrences(events: seq<Event>, e: Event): nat
  {
    if events == [] then 0
    else Occurrences(events[..|events| - 1], e) + (if events[|events| - 1] == e then 1 else 0)
  }

  lemma {:induction false} OccurrencesAppend(a: seq<Event>, b: seq<Event>, e: Event)
    ensures Occurrences(a + b, e) == Occurrences(a, e) + Occurrences(b, e)
    decreases |b|
  {
    if b == [] {
      assert a + b == a;
    } else {
      assert (a + b)[..|a + b| - 1] == a + b[..|b| - 1];
      OccurrencesAppend(a, b[..|b| - 1], e);
    }
  }

  lemma {:induction false} NoMessageAmongUpdates(lo: nat, hi: nat, n: nat, e: Event)
    requires lo <= hi <= n && e.MessageShown?
    ensures Occurrences(ProgressUpdates(lo, hi, n), e) == 0
    decreases hi
  {
    if lo < hi {
      assert ProgressUpdates(lo, hi, n)[..hi - 1 - lo] == ProgressUpdates(lo, hi - 1, n);
      NoMessageAmongUpdates(lo, hi - 1, n, e);
    }
  }

  /** The int8 message is shown exactly once when the test finds characters
      in the first decoded slice, and never otherwise. */
  lemma Int8MessageOnlyForCharacters(test: CharTest, stack: seq<Item>, pixelData: map<FilePath, Decoded>)
    ensures var plan := PlanAssembly(test, stack, pixelData);
            Occurrences(plan.events, MessageShown(SettingDatatypeToInt8)) ==
              if |stack| > 0 && DecodedAt(pixelData, stack[0].path).Pixels?
                 && DetectsChar(test, DecodedAt(pixelData, stack[0].path).slice.dataType)
              then 1 else 0
  {
    var e := MessageShown(SettingDatatypeToInt8);
    assert Occurrences(AssemblyOpening, e) == 0 by {
      assert AssemblyOpening[..1] == [ProgressShown(ReadingPixelData)];
      assert Occurrences([ProgressShown(ReadingPixelData)], e) == 0;
    }
    AssemblyEventsAre(test, stack, pixelData);
    if |stack| > 0 && DecodedAt(pixelData, stack[0].path).Pixels? {
      var n := |stack|;
      var first := DecodedAt(pixelData, stack[0].path).slice;
      var j := FirstUnfitSlice(stack, pixelData, stack[0].metadata, 0);
      var hi := ReportedUpTo(j);
      var coercion := Coercion(test, first.dataType);
      var updates := ProgressUpdates(1, hi, n);
      var closing := if j == n then [ProgressCompleted] else [];
      assert Occurrences(coercion, e) == if DetectsChar(test, first.dataType) then 1 else 0 by {
        if coercion != [] {
          assert coercion[..0] == [];
        }
      }
      assert Occurrences(closing, e) == 0 by {
        if closing != [] {
          assert closing[..0] == [];
        }
      }
      OccurrencesAppend(AssemblyOpening, coercion, e);
      NoMessageAmongUpdates(1, hi, n, e);
      OccurrencesAppend(AssemblyOpening + coercion, updates, e);
      OccurrencesAppend(AssemblyOpening + coercion + updates, closing, e);
    }
  }

  /** The assembler as written: the int8 message is never shown, and a
      returned buffer keeps the first slice's type, characters included. */
  lemma CharSliceKeptAsWritten(stack: seq<Item>, pixelData: map<FilePath, Decoded>)
    ensures var plan := PlanAssembly(AsWritten, stack, pixelData);
            && Occurrences(plan.events, MessageShown(SettingDatatypeToInt8)) == 0
            && (plan.volume.Filled? ==>
                  |stack| > 0 && DecodedAt(pixelData, stack[0].path).Pixels?
                  && plan.volume.dataType == DecodedAt(pixelData, stack[0].path).slice.dataType)
  {
    Int8MessageOnlyForCharacters(AsWritten, stack, pixelData);
    FilledVolumeHoldsEverySlice(AsWritten, stack, pixelData);
  }

  /** The two tests on one stack: a single file whose slice holds characters.
      As written the buffer keeps the character type and no message is shown;
      under the intended test the buffer is int8 and the message is shown once. */
  lemma OneCharacterSliceDiffers(item: Item, pixels: seq<int>)
    requires |pixels| == Product(PlaneShape(item.metadata))
    ensures var pixelData := map[item.path := Pixels(Slice(PlaneShape(item.metadata), Char, pixels))];
            var asWritten := PlanAssembly(AsWritten, [item], pixelData);
            var intended := PlanAssembly(Intended, [item], pixelData);
            && asWritten.volume == Filled(VolumeShape(item.metadata, 1), Char, [pixels])
            && intended.volume == Filled(VolumeShape(item.metadata, 1), Int8, [pixels])
            && Occurrences(asWritten.events, MessageShown(SettingDatatypeToInt8)) == 0
            && Occurrences(intended.events, MessageShown(SettingDatatypeToInt8)) == 1
  {
    var pixelData := map[item.path := Pixels(Slice(PlaneShape(item.metadata), Char, pixels))];
    FilledVolumeHoldsEverySlice(AsWritten, [item], pixelData);
    FilledVolumeHoldsEverySlice(Intended, [item], pixelData);
    Int8MessageOnlyForCharacters(AsWritten, [item], pixelData);
    Int8MessageOnlyForCharacters(Intended, [item], pixelData);
  }

  /* ------------------------------------------------------------------ */
  /* The volume assembler                                                */
  /* ------------------------------------------------------------------ */

  /** One more slice written: one more file decoded, one more update. */
  lemma AssemblyStep(stack: seq<Item>, i: nat)
    requires 1 <= i < |stack|
    ensures PathsOf(stack[..i + 1]) == PathsOf(stack[..i]) + [stack[i].path]
    ensures ProgressUpdates(1, i + 1, |stack|)
            == ProgressUpdates(1, i, |stack|) + [ProgressUpdated(ProgressPercent(i, |stack|))]
  {
    var paths, updates := PathsOf(stack[..i + 1]), ProgressUpdates(1, i + 1, |stack|);
    assert paths[..i] == PathsOf(stack[..i]);
    assert paths == paths[..i] + [paths[i]];
    assert updates[..i - 1] == ProgressUpdates(1, i, |stack|);
    assert updates == updates[..i - 1] + [updates[i - 1]];
  }

  /** The first slice that does not fit is `j`, given that the ones before it fit. */
  lemma FirstUnfitSliceIs(stack: seq<Item>, pixelData: map<FilePath, Decoded>, metadata: Metadata, j: nat)
    requires j <= |stack| && j <= FirstUnfitSlice(stack, pixelData, metadata, 0)
    requires j < |stack| ==> !Fits(DecodedAt(pixelData, stack[j].path), metadata)
    ensures FirstUnfitSlice(stack, pixelData, metadata, 0) == j
  {
  }

  /** One pass of the loop of `load_images_from_stack`: decode the file,
      write it into plane `fileIndex` and report the progress, or raise when
      it does not fit. */
  method WriteSlice(path: FilePath, fileIndex: nat, metadata: Metadata, planes: array<seq<int>>,
                    decoder: PixelReader, reporting: Reporter)
    returns (error: Option<Error>)
    requires fileIndex < planes.Length
    modifies planes, decoder, reporting
    ensures decoder.requests == old(decoder.requests) + [path]
    ensures var decoded := DecodedAt(decoder.pixelData, path);
            && (!Fits(decoded, metadata) ==>
                  && error == Some(SliceError(decoded, path))
                  && reporting.log == old(reporting.log)
                  && planes[..] == old(planes[..]))
            && (Fits(decoded, metadata) ==>
                  && error == None
                  && reporting.log == old(reporting.log) + [ProgressUpdated(ProgressPercent(fileIndex, planes.Length))]
                  && planes[..] == old(planes[..])[fileIndex := decoded.slice.pixels])
  {
    var nextSlice := decoder.ReadDicomImage(path);
    if !Fits(nextSlice, metadata) {
      return Some(SliceError(nextSlice, path));
    }
    planes[fileIndex] := nextSlice.slice.pixels;
    reporting.UpdateProgressValue(ProgressPercent(fileIndex, planes.Length));
    return None;
  }

  /** Writing the slices into the buffer, lines `raw_image[:, :, 0] = ...`
      and the loop over the remaining files of `load_images_from_stack`: the
      first slice is already decoded; each later one is decoded, written into
      its plane and reported. The first slice that does not fit stops the
      loop with its exception. */
  method WriteSlices(slices: seq<Item>, metadata: Metadata, first: Decoded, planes: array<seq<int>>,
                     decoder: PixelReader, reporting: Reporter, ghost requested: seq<FilePath>)
    returns (error: Option<Error>)
    requires 0 < |slices| == planes.Length
    requires first == DecodedAt(decoder.pixelData, slices[0].path) && first.Pixels?
    requires decoder.requests == requested + [slices[0].path]
    modifies planes, decoder, reporting
    ensures var j := FirstUnfitSlice(slices, decoder.pixelData, metadata, 0);
            && decoder.requests == requested + PathsOf(slices[..FilesDecoded(|slices|, j)])
            && reporting.log == old(reporting.log) + ProgressUpdates(1, ReportedUpTo(j), |slices|)
            && (j < |slices| ==> error == Some(SliceError(DecodedAt(decoder.pixelData, slices[j].path), slices[j].path)))
            && (j == |slices| ==> error == None && planes[..] == StackPlanes(slices, decoder.pixelData))
  {
    ghost var pixelData := decoder.pixelData;
    var numSlices := |slices|;
    assert slices[..1] == [slices[0]];
    if !Fits(first, metadata) {
      FirstUnfitSliceIs(slices, pixelData, metadata, 0);
      return Some(ShapeMismatch(slices[0].path));
    }
    planes[0] := first.slice.pixels;
    var fileIndex := 1;
    while fileIndex < numSlices
      invariant 1 <= fileIndex <= numSlices
      invariant fileIndex <= FirstUnfitSlice(slices, pixelData, metadata, 0)
      invariant decoder.requests == requested + PathsOf(slices[..fileIndex])
      invariant reporting.log == old(reporting.log) + ProgressUpdates(1, fileIndex, numSlices)
      invariant forall k :: 0 <= k < fileIndex ==> planes[k] == PixelsOf(DecodedAt(pixelData, slices[k].path))
    {
      var path := slices[fileIndex].path;
      AssemblyStep(slices, fileIndex);
      error := WriteSlice(path, fileIndex, metadata, planes, decoder, reporting);
      if error.Some? {
        FirstUnfitSliceIs(slices, pixelData, metadata, fileIndex);
        return;
      }
      fileIndex := fileIndex + 1;
    }
    FirstUnfitSliceIs(slices, pixelData, metadata, numSlices);
    assert slices[..numSlices] == slices;
    assert planes[..] == StackPlanes(slices, pixelData);
    return None;
  }

  /** The buffer's element type chosen from the first slice's, lines
      `data_type = ...` of `load_images_from_stack`: the message is shown
      exactly when the test replaces the type by int8. */
  method CoerceDataType(test: CharTest, first: DataType, reporting: Reporter) returns (dataType: DataType)
    modifies reporting
    ensures dataType == BufferDataType(test, first)
    ensures reporting.log == old(reporting.log) + Coercion(test, first)
  {
    dataType := first;
    if DetectsChar(test, dataType) {
      reporting.ShowMessage(SettingDatatypeToInt8);
      dataType := Int8;
    }
  }

  /** The rest of `load_images_from_stack` once the first slice is decoded:
      the int8 coercion and its message, the allocation of the buffer, the
      slices written into it, and the completion when every slice fits. */
  method FillBuffer(test: CharTest, slices: seq<Item>, first: Decoded, imageWrapper: CoreWrapper,
                    decoder: PixelReader, reporting: Reporter, ghost requested: seq<FilePath>)
    returns (error: Option<Error>)
    requires 0 < |slices| && first == DecodedAt(decoder.pixelData, slices[0].path) && first.Pixels?
    requires decoder.requests == requested + [slices[0].path]
    modifies imageWrapper, decoder, reporting
    ensures var n := |slices|;
            var j := FirstUnfitSlice(slices, decoder.pixelData, slices[0].metadata, 0);
            && decoder.requests == requested + PathsOf(slices[..FilesDecoded(n, j)])
            && reporting.log == old(reporting.log) + (Coercion(test, first.slice.dataType)
                                                      + ProgressUpdates(1, ReportedUpTo(j), n)
                                                      + (if j == n then [ProgressCompleted] else []))
            && (j < n ==> error == Some(SliceError(DecodedAt(decoder.pixelData, slices[j].path), slices[j].path)))
            && (j == n ==>
                  && error == None
                  && imageWrapper.rawImage != null
                  && fresh(imageWrapper.rawImage) && fresh(imageWrapper.rawImage.planes)
                  && Holds(imageWrapper, Filled(VolumeShape(slices[0].metadata, n),
                                                BufferDataType(test, first.slice.dataType),
                                                StackPlanes(slices, decoder.pixelData))))
  {
    var numSlices := |slices|;
    var metadata := slices[0].metadata;
    var dataType := CoerceDataType(test, first.slice.dataType, reporting);
    var rawImage := new RawImage.Zeros(VolumeShape(metadata, numSlices), dataType, Product(PlaneShape(metadata)));
    imageWrapper.rawImage := rawImage;
    error := WriteSlices(slices, metadata, first, rawImage.planes, decoder, reporting, requested);
    ghost var updates := ProgressUpdates(1, ReportedUpTo(FirstUnfitSlice(slices, decoder.pixelData, metadata, 0)), numSlices);
    LogGrows(old(reporting.log), Coercion(test, first.slice.dataType), updates);
    if error.Some? {
      assert Coercion(test, first.slice.dataType) + updates + [] == Coercion(test, first.slice.dataType) + updates;
      return;
    }
    reporting.CompleteProgress();
    LogGrows(old(reporting.log), Coercion(test, first.slice.dataType) + updates, [ProgressCompleted]);
  }

  /** `load_images_from_stack`. */
  method LoadImagesFromStack(test: CharTest, stack: DicomStack, decoder: PixelReader, reporting: Reporter)
    returns (result: Outcome<CoreWrapper>)
    modifies decoder, reporting
    ensures var plan := PlanAssembly(test, stack.slices, decoder.pixelData);
            && decoder.requests == old(decoder.requests) + plan.requests
            && reporting.log == old(reporting.log) + plan.events
            && (plan.volume.Failure? ==> result == Raised(plan.volume.error))
            && (!plan.volume.Failure? ==>
                  && result.Returned? && fresh(result.value)
                  && (result.value.rawImage != null ==> fresh(result.value.rawImage) && fresh(result.value.rawImage.planes))
                  && Holds(result.value, plan.volume))
  {
    reporting.ShowProgress(ReadingPixelData);
    reporting.UpdateProgressValue(0);
    var imageWrapper := new CoreWrapper();
    var numSlices := |stack.slices|;
    if numSlices == 0 {
      return Raised(EmptyStack);
    }
    var firstPath := stack.slices[0].path;
    var firstImageSlice := decoder.ReadDicomImage(firstPath);
    if firstImageSlice.Unreadable? {
      return Raised(UnreadablePixels(firstPath));
    }
    if firstImageSlice.NoPixels? {
      return Returned(imageWrapper);
    }
    ghost var opening := reporting.log;
    assert opening == old(reporting.log) + AssemblyOpening;
    var error := FillBuffer(test, stack.slices, firstImageSlice, imageWrapper, decoder, reporting, old(decoder.requests));
    ghost var j := FirstUnfitSlice(stack.slices, decoder.pixelData, stack.slices[0].metadata, 0);
    ghost var rest := Coercion(test, firstImageSlice.slice.dataType) + ProgressUpdates(1, ReportedUpTo(j), numSlices)
                      + (if j == numSlices then [ProgressCompleted] else []);
    AssemblyEventsAre(test, stack.slices, decoder.pixelData);
    LogGrows(old(reporting.log), AssemblyOpening, rest);
    LogGrowsByThree(AssemblyOpening, Coercion(test, firstImageSlice.slice.dataType),
                    ProgressUpdates(1, ReportedUpTo(j), numSlices), if j == numSlices then [ProgressCompleted] else []);
    if error.Some? {
      return Raised(error.value);
    }
    return Returned(imageWrapper);
  }

  /* ------------------------------------------------------------------ */
  /* The pipeline                                                        */
  /* ------------------------------------------------------------------ */

  /** What `load_main_image_from_dicom_files` returns. */
  datatype MainImage = MainImage(
    imageWrapper: CoreWrapper,
    representativeMetadata: Metadata,
    sliceThickness: real,
    globalOriginMm: seq<real>,
    sortedPositions: seq<seq<real>>)

  /** The warning shown when more than one group was formed. */
  function GroupingWarning(numberOfGroups: nat): (events: seq<Event>)
    ensures WarningShown(MultipleGroupings, None) in events <==> numberOfGroups > 1
    ensures |events| <= 1
    ensures ProgressValues(events) == []
  {
    if numberOfGroups > 1 then [WarningShown(MultipleGroupings, None)] else []
  }

  /** The middle of `load_main_image_from_dicom_files`: warn when more than
      one group formed, take the largest and sort it. */
  method SortLargestGroup(fileGrouper: DicomGrouper, reporting: Reporter)
    returns (mainGroup: DicomStack, sliceThickness: real, globalOriginMm: seq<real>, sortedPositions: seq<seq<real>>)
    modifies reporting
    ensures var sorted := fileGrouper.policy.sortGroup(fileGrouper.policy.largestGroup(fileGrouper.items));
            && fresh(mainGroup)
            && mainGroup.slices == sorted.slices
            && reporting.log == old(reporting.log)
                                + GroupingWarning(fileGrouper.policy.numberOfGroups(fileGrouper.items))
                                + sorted.events
            && sliceThickness == sorted.sliceThickness
            && globalOriginMm == sorted.globalOriginMm
            && sortedPositions == sorted.sortedPositions
  {
    var numberOfGroups := fileGrouper.NumberOfGroups();
    if numberOfGroups > 1 {
      reporting.ShowWarning(MultipleGroupings, None);
    }
    mainGroup := fileGrouper.LargestStack();
    sliceThickness, globalOriginMm, sortedPositions := mainGroup.SortAndGetParameters(reporting);
  }

  /** `load_main_image_from_dicom_files`: read the metadata, warn if more
      than one group formed, take the largest, sort it, keep its first
      file's metadata, and assemble its pixels. */
  method LoadMainImageFromDicomFiles(test: CharTest, imagePath: string, filenames: Filenames, disk: Disk,
                                     sortFilenames: seq<FileEntry> -> seq<FileEntry>,
                                     policy: GroupingPolicy, decoder: PixelReader, reporting: Reporter)
    returns (result: Outcome<MainImage>)
    requires |SortedEntries(WrapSingleName(filenames), sortFilenames)| == |EntryList(WrapSingleName(filenames))|
    modifies decoder, reporting
    ensures var intake := PlanIntake(disk, MetadataPaths(imagePath, WrapSingleName(filenames), sortFilenames));
            intake.outcome.Raised? ==>
              && result == Raised(intake.outcome.error)
              && reporting.log == old(reporting.log) + intake.events
              && decoder.requests == old(decoder.requests)
    ensures var intake := PlanIntake(disk, MetadataPaths(imagePath, WrapSingleName(filenames), sortFilenames));
            intake.outcome.Returned? ==>
              var items := intake.outcome.value;
              var sorted := policy.sortGroup(policy.largestGroup(items));
              var before := old(reporting.log) + intake.events
                            + GroupingWarning(policy.numberOfGroups(items)) + sorted.events;
              && (sorted.slices == [] ==>
                    && result == Raised(EmptyStack)
                    && reporting.log == before
                    && decoder.requests == old(decoder.requests))
              && (sorted.slices != [] ==>
                    var assembly := PlanAssembly(test, sorted.slices, decoder.pixelData);
                    && reporting.log == before + assembly.events
                    && decoder.requests == old(decoder.requests) + assembly.requests
                    && (assembly.volume.Failure? ==> result == Raised(assembly.volume.error))
                    && (!assembly.volume.Failure? ==>
                          && result.Returned?
                          && result.value.representativeMetadata == sorted.slices[0].metadata
                          && result.value.sliceThickness == sorted.sliceThickness
                          && result.value.globalOriginMm == sorted.globalOriginMm
                          && result.value.sortedPositions == sorted.sortedPositions
                          && Holds(result.value.imageWrapper, assembly.volume)))
  {
    var names := WrapSingleName(filenames);
    var loaded := LoadMetadataFromDicomFiles(imagePath, names, disk, sortFilenames, policy, reporting);
    if loaded.Raised? {
      return Raised(loaded.error);
    }
    var mainGroup, sliceThickness, globalOriginMm, sortedPositions := SortLargestGroup(loaded.value, reporting);
    if |mainGroup.slices| == 0 {
      return Raised(EmptyStack);
    }
    var representativeMetadata := mainGroup.slices[0].metadata;
    var image := LoadImagesFromStack(test, mainGroup, decoder, reporting);
    if image.Raised? {
      return Raised(image.error);
    }
    result := Returned(MainImage(image.value, representativeMetadata, sliceThickness, globalOriginMm, sortedPositions));
  }
}
