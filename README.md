# dicomity loader, modelled in Dafny

This project models the core of the dicomity DICOM loader:

- the DICOM signature test (`is_dicom`, `is_dicom_image_file`);
- the metadata pass (`load_metadata_from_dicom_files`). It walks the sorted
  file names, hands every file that passes the signature test to the grouper
  with its grouping metadata, warns about every other file, and reports
  progress after each file;
- the volume assembler (`load_images_from_stack`). It decodes the first
  slice, allocates a buffer shaped by that slice's metadata and typed by that
  slice's dtype, writes every slice into its plane and reports progress.
  The source means to switch a character dtype to int8, with a message, but
  its test `data_type == np.char` never succeeds (see Findings). The
  assembler therefore takes a `CharTest`: `AsWritten` is the comparison the
  source makes, under which the first slice's dtype is always kept and no
  message is shown; `Intended` is the switch the source means;
- the pipeline (`load_main_image_from_dicom_files`). It wires the two
  together with the multiple-groupings warning, the largest group and its
  sort.

Layout:

- `dicom_types.dfy` (module `DicomTypes`): paths, file contents, metadata,
  decoded slices, and the exceptions a load can raise. An exception is
  `Outcome.Raised`.
- `reporting.dfy` (module `Reporting`): the reporting object as a
  `Reporter` class whose log records every call. It also holds Python's
  `round(100 * i / n)` with its properties.
- `dicom.dfy` (module `Dicom`): the signature test over a file's bytes, and
  the two readers. Metadata reading is a table lookup. The pixel decoder is
  a class that records which files it was asked for.
- `group.dfy` (module `Group`): `DicomGrouper` and `DicomStack` as classes
  with the fields the loader touches. Grouping, choosing the largest group
  and sorting are given as a `GroupingPolicy`.
- `load.dfy` (module `Load`): the loader's methods. Each method is proved
  against a plan function (`PlanIntake`, `PlanAssembly`). A plan gives the
  events reported, the files decoded and the result. The lemmas state what
  the plans promise.

The loops are methods with loop invariants. Each loop body, and each loop,
is its own method (`IntakeFile` inside `ReadEachFile`, `WriteSlice` inside
`WriteSlices`), so that each proof stays small. The voxel buffer is an
`array` with one plane per slice, filled in place.

`load_metadata_from_dicom_files` tests files with `is_dicom` alone. Unlike
`is_dicom_image_file` (`src/dicomity/dicom.py:73-74`), it does not refuse a
file named DICOMDIR, so a DICOMDIR carrying the prefix reaches the grouper
like any image (`Load.DicomdirReachesTheGrouper`).

## Model

| member | source | states |
|---|---|---|
| Dicom.ReadAt | src/dicomity/dicom.py:58-59 | `seek(128); read(4)` gives at most 4 bytes; exactly bytes 128..131 when the file is long enough; fewer when it ends early |
| Dicom.HasDicomPrefix | src/dicomity/dicom.py:58-60 | the prefix test passes iff the file has at least 132 bytes and bytes 128..131 are `D`,`I`,`C`,`M` |
| Dicom.ShortFileIsNotDicom | src/dicomity/dicom.py:58-60 | a file shorter than 132 bytes, the empty file included, fails the test |
| Dicom.OtherBytesDoNotMatter | src/dicomity/dicom.py:58-60 | changing any byte outside 128..131 leaves the verdict unchanged |
| Dicom.IsDicom | src/dicomity/dicom.py:40-60 | raises `FileNotFound` iff the file is missing; returns true iff the file exists, has at least 132 bytes and bytes 128..131 are "DICM" |
| Dicom.IsDicomImageFile | src/dicomity/dicom.py:63-76 | returns false for the name `DICOMDIR` whatever the contents; for any other name, equals `is_dicom` of the joined path |
| Dicom.ReadGroupingMetadata | src/dicomity/dicom.py:33-37 | returns a file's metadata exactly when its tags can be read, and raises `UnreadableMetadata` for that file otherwise |
| Dicom.PixelReader.ReadDicomImage | src/dicomity/dicom.py:13-15 | returns the decoder's result for the file and records the request, in order |
| Reporting.ProgressPercent | src/dicomity/load.py:152 | `round(100*i/n)` is within one half of 100*i/n, and even on a tie |
| Reporting.ProgressPercentUnique | src/dicomity/load.py:152 | any integer nearest to 100*i/n, and even on a tie, equals `round(100*i/n)` |
| Reporting.ProgressPercentBounds | src/dicomity/load.py:219 | for 0 <= i <= n the percentage is in 0..100 |
| Reporting.ProgressPercentMonotone | src/dicomity/load.py:219 | a later index never reports a smaller percentage |
| Reporting.ProgressValuesAreUpdates | src/dicomity/load.py:219 | a value is among a log's progress values exactly when the log holds an `update_progress_value` call with it |
| Reporting.ProgressValuesOfUpdates | src/dicomity/load.py:213-219 | the updates for indices lo..hi-1 carry exactly `round(100*k/n)` for those k, in order |
| Reporting.ProgressRunWellFormed | src/dicomity/load.py:213-219 | every value of a run is in 0..100, and the values never decrease |
| Reporting.OpenedRunIsProgress | src/dicomity/load.py:180-181 | 0 followed by a run of reports is a progress sequence: percentages that never decrease |
| Reporting.OpeningReportsZero | src/dicomity/load.py:110-111 | opening a dialog and setting it to 0 reports the single value 0 |
| Group.DicomGrouper.AddItem | src/dicomity/load.py:141-143 | the grouper's items grow by exactly this file and its metadata |
| Group.DicomGrouper.NumberOfGroups | src/dicomity/load.py:56 | the number of groups is the policy's count for the items added |
| Group.DicomGrouper.LargestStack | src/dicomity/load.py:66 | a new stack holding the policy's largest group of the items |
| Group.DicomStack.SortAndGetParameters | src/dicomity/load.py:69-70 | the stack is replaced by its sorted order; the geometry and the events reported are the policy's |
| Load.WrapSingleName | src/dicomity/load.py:47-48 | wrapping a lone string names the same files; afterwards only a `CoreFilename` can still be single |
| Load.EntryList | src/dicomity/load.py:113-117 | a lone string or `CoreFilename` becomes the one-element list; a list is kept |
| Load.SingleNameActsAsList | src/dicomity/load.py:47-48 | a lone string names the same files as the one-element list holding it |
| Load.CombinedPaths | src/dicomity/load.py:131-139 | one path per entry, in order: a `CoreFilename`'s own directory, else the image directory |
| Load.Examine | src/dicomity/load.py:139-150 | a file is handed to the grouper iff `is_dicom` is true and its metadata can be read, with its own path and that metadata; it is warned about iff `is_dicom` is false; it raises iff `is_dicom` raises or its metadata cannot be read, with `FileNotFound` for a missing file and `UnreadableMetadata` otherwise |
| Load.FirstFailedFile | src/dicomity/load.py:131-154 | the pass stops at the first file that raises; every file before it goes through |
| Load.PlanIntake | src/dicomity/load.py:109-157 | the pass opens its progress bar at 0; it returns iff no file raises, and then ends with the completion and returns the accepted items |
| Load.IntakeRaisesFirstFailure | src/dicomity/load.py:131-154 | a pass that raises raises the exception of the first file that raises; no earlier file raises |
| Load.AcceptedItemsKeepFileOrder | src/dicomity/load.py:131-143 | the grouper receives exactly the files that pass `is_dicom`, each once, in sorted file-name order |
| Load.EachRejectedFileWarnedOnce | src/dicomity/load.py:144-150 | each file that fails `is_dicom` gets exactly one `NotADicomFile` warning naming it, in file order; no other file is warned about |
| Load.FileEventsProgress | src/dicomity/load.py:140-152 | a file's events carry exactly one progress value, `round(100*i/n)` |
| Load.IntakeEventsProgress | src/dicomity/load.py:152 | after files 0..k-1 the progress values are `round(100*i/n)` for i = 0..k-1, in order |
| Load.IntakeProgressReports | src/dicomity/load.py:109-156 | the pass reports 0, then `round(100*i/n)` for each file it gets through; every value is in 0..100 and never decreases; a pass that returns ends with the completion |
| Load.SuccessfulIntakeSplitsTheFiles | src/dicomity/load.py:139-150 | in a pass that returns, every file passes or fails `is_dicom`; grouped iff it passes, warned about iff it fails |
| Load.DicomdirReachesTheGrouper | src/dicomity/load.py:139-143 | a readable DICOMDIR with the DICM prefix is handed to the grouper, although `is_dicom_image_file` refuses it |
| Load.IntakeStopsAt | src/dicomity/load.py:139-143 | a file that raises ends the pass with its exception, after the events of the files before it |
| Load.IntakeCompletes | src/dicomity/load.py:156-157 | a pass through every file returns the accepted items after the completion |
| Load.IntakeFile | src/dicomity/load.py:139-152 | one file: grouped with its metadata, or warned about, then the progress is reported; a file that raises changes nothing |
| Load.ReadEachFile | src/dicomity/load.py:130-154 | the loop visits the files in sorted order and stops at the first that raises; the log and the items are the plan's |
| Load.LoadMetadataFromDicomFiles | src/dicomity/load.py:86-157 | the log grows by the plan's events; the pass raises the plan's exception or returns a new grouper holding exactly the accepted items |
| Load.RawImage.Zeros | src/dicomity/load.py:207 | a new buffer of the given shape and type, with one all-zero plane per slice |
| Load.VolumeShape | src/dicomity/load.py:205-206 | the shape is rows, columns, N, plus a trailing channel axis iff there is more than one sample per pixel, holding that count |
| Load.VolumeHoldsSlicePlanes | src/dicomity/load.py:193-207 | the element count of the volume shape is N times that of one slice's plane shape; `Load.FilledVolumeHoldsEverySlice` ties it to a filled buffer |
| Load.CharSliceMissedAsWritten | src/dicomity/load.py:200 | as written, the test `data_type == np.char` is false for every dtype, the character type included |
| Load.BufferDataType | src/dicomity/load.py:199-204 | as written, the buffer's type is the first slice's type; under the intended test it is never the character type, and it is the first slice's type unless that is the character type, which becomes int8 |
| Load.CoerceDataType | src/dicomity/load.py:199-204 | the buffer's type is chosen as above, and the int8 message is logged exactly when the test replaces the type |
| Load.FirstUnfitSlice | src/dicomity/load.py:208-218 | the first slice that cannot be written into its plane; every slice before it fits |
| Load.StackPlanes | src/dicomity/load.py:208-218 | plane k of a full buffer is slice k's pixels |
| Load.PlanAssembly | src/dicomity/load.py:180-221 | the assembler opens its progress bar at 0; it decodes a prefix of the stack in stack order, the whole stack when a buffer comes back, and that buffer has one plane per slice; only an empty stack raises `EmptyStack` |
| Load.AssemblyFailsAtFirstUnfitSlice | src/dicomity/load.py:186-218 | the bare wrapper comes back iff the first slice decodes to nothing; otherwise the first slice that cannot be written (unreadable, empty or misshapen) raises its own exception |
| Load.NothingDecodedMeansNoImage | src/dicomity/load.py:188-190 | when the first slice decodes to nothing, there is no buffer, only the first file is decoded, only 0 is reported and progress is not completed |
| Load.FilledVolumeHoldsEverySlice | src/dicomity/load.py:193-221 | a buffer comes back iff every slice decodes and fits; it then has the volume shape and the buffer type; plane k holds slice k, with one plane's element count; the buffer's element count is the number of planes times that count; every file is decoded once, in stack order |
| Load.AssemblyProgressReports | src/dicomity/load.py:180-221 | the assembler's progress values are in 0..100 and never decrease; a filled buffer reports 0 then `round(100*k/n)` for k = 1..n-1, and ends with the completion |
| Load.AssemblyEventsAre | src/dicomity/load.py:180-221 | the assembler's events are the opening, the int8 message, the updates up to the first unfit slice, and the completion exactly when a buffer is filled |
| Load.Int8MessageOnlyForCharacters | src/dicomity/load.py:199-204 | the int8 message is shown exactly once when the test finds characters in the first slice, and never otherwise |
| Load.CharSliceKeptAsWritten | src/dicomity/load.py:199-207 | as written, the int8 message is never shown and a returned buffer keeps the first slice's type, characters included |
| Load.OneCharacterSliceDiffers | src/dicomity/load.py:199-207 | on a one-file stack whose slice holds characters and as many pixels as its shape says, the code as written returns a character buffer with no message, while the intended test returns an int8 buffer with one message |
| Load.WriteSlice | src/dicomity/load.py:214-219 | one slice: decoded and written into its plane with the progress reported, or its exception with the buffer and the log unchanged |
| Load.WriteSlices | src/dicomity/load.py:208-219 | slices are decoded in stack order up to the first that does not fit; the updates for the slices written are reported; a full pass leaves plane k holding slice k |
| Load.FillBuffer | src/dicomity/load.py:199-222 | after the first slice: the type is chosen, a new buffer is allocated, the slices are written up to the first that does not fit, and a full pass completes the progress and leaves the planned buffer |
| Load.LoadImagesFromStack | src/dicomity/load.py:160-222 | under either test, the files decoded, the log and the result are the plan's; a returned wrapper holds no buffer or exactly the planned buffer |
| Load.GroupingWarning | src/dicomity/load.py:56-63 | the `MultipleGroupings` warning is shown iff more than one group formed, at most once, and it reports no progress |
| Load.SortLargestGroup | src/dicomity/load.py:56-70 | warns iff more than one group formed, then takes the policy's largest group and sorts it |
| Load.LoadMainImageFromDicomFiles | src/dicomity/load.py:16-83 | raises the metadata pass's exception; otherwise warns on several groups, sorts the largest, raises on an empty group, and returns the assembled buffer with the first sorted file's metadata and the sort's geometry |

## Left out

- File I/O is a `Disk` value. It holds each existing file's bytes and the
  grouping metadata of each file whose tags can be read.
  `read_grouping_metadata` (pydicom's `dcmread`) is a lookup in it, and a
  missing entry raises.
- `read_dicom_image` is a table from path to decoded slice (`PixelReader`).
  A path it does not hold raises. pydicom's decoding is not modelled.
- `os.path.join` is kept as the (directory, name) pair. Two different pairs
  never name the same file here, which ignores paths that normalise to the
  same file.
- `sort_filenames` (`dicomity.util`) is not part of this model. It is a
  parameter, and the only assumption is that it keeps the number of names.
- The grouping, largest-group and sorting algorithms of `group.py` are not
  part of this model. They are the functions of a `GroupingPolicy`. Slice
  thickness, origin and positions are opaque values of that policy.
- The reporting object's user interface and the message texts are left out.
  The log records the progress title, the value and the warning or message
  identifier. Creating a default reporter when none is given is not modelled.
- `Reporting.ProgressPercent`: computes on the exact fraction 100*i/n rather
  than on the float Python computes. The two agree while n is below 2^40.
- NumPy is not modelled. A decoded slice is a shape, a dtype and a flat
  sequence of pixels. A slice must have exactly its plane's shape and, as a
  NumPy array always does, as many pixels as that shape holds (`Load.Fits`).
  Broadcasting a smaller compatible array is left out, and any other shape
  raises `ShapeMismatch`; so does a slice value whose pixel count disagrees
  with its shape, which stands for no real array.
- A later slice that decodes to nothing raises `MissingPixels`. Assigning
  `None` into a float buffer would fill the plane with NaN instead; that
  case is not modelled.
- The buffer's element values are unbounded integers. NumPy's casting on
  assignment into the buffer's dtype is not modelled.
- `DicomDictionary.essential_dictionary_without_pixel_data()` is computed
  and never used by the metadata pass, so it is left out.

## Findings

| source | as written | input that shows it | evidently intended | confidence | as-written member | corrected member |
|---|---|---|---|---|---|---|
| src/dicomity/load.py:200 | `data_type == np.char` compares a dtype with the module `numpy.char`, which no dtype equals, so the int8 coercion and its message never happen | a stack whose first slice has a character dtype: it stays a character buffer and no `SettingDatatypeToInt8` message is shown | a character first slice gives an int8 buffer and exactly one `SettingDatatypeToInt8` message (`Load.Int8MessageOnlyForCharacters` and `Load.OneCharacterSliceDiffers` under the `Intended` test) | not executed | Load.CharSliceKeptAsWritten | Load.BufferDataType |
