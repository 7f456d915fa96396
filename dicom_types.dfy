/** The values the DICOM loader passes between its stages: paths, file contents,
    grouping metadata, decoded slices and the errors that abort a load. */
module DicomTypes {

  newtype byte = x: int | 0 <= x < 256

  type Bytes = seq<byte>

  datatype Option<T> = None | Some(value: T)

  /** The path `os.path.join(directory, name)`. It is kept as the pair it was
      built from, so two different pairs never name the same file. */
  datatype FilePath = Join(directory: string, name: string)

  /** One entry of the `filenames` argument: a bare file name, looked up in the
      image directory, or a `CoreFilename` that carries its own directory. */
  datatype FileEntry = Name(name: string) | CoreFilename(filePath: string, fileName: string)

  /** The `filenames` argument: a single entry, or a list of them. */
  datatype Filenames = Single(entry: FileEntry) | Many(entries: seq<FileEntry>)

  /** Element types a decoded slice can have; `Char` is NumPy's character type. */
  datatype DataType =
    | Bool | Int8 | UInt8 | Int16 | UInt16 | Int32 | UInt32 | Int64 | UInt64
    | Float32 | Float64 | Char

  /** The grouping metadata `read_grouping_metadata` gives for one file: the
      dimensions the loader uses, and everything the grouper compares. */
  datatype Metadata = Metadata(
    rows: nat,
    columns: nat,
    samplesPerPixel: nat,
    groupingTags: map<string, string>)

  /** One file handed to the grouper. */
  datatype Item = Item(path: FilePath, metadata: Metadata)

  /** A decoded 2D slice: its array shape, its element type and its pixels. */
  datatype Slice = Slice(shape: seq<nat>, dataType: DataType, pixels: seq<int>)

  /** What `read_dicom_image` gives for one file: a slice, nothing, or an
      exception from the decoder. */
  datatype Decoded = Pixels(slice: Slice) | NoPixels | Unreadable

  /** The exceptions that abort a load. */
  datatype Error =
    | FileNotFound(path: FilePath)          // `open` in `is_dicom` fails
    | UnreadableMetadata(path: FilePath)    // `read_grouping_metadata` raises
    | UnreadablePixels(path: FilePath)      // `read_dicom_image` raises
    | MissingPixels(path: FilePath)         // a later slice decodes to nothing
    | ShapeMismatch(path: FilePath)         // a slice does not fit its place in the buffer
    | EmptyStack                            // `stack[0]` or `metadata[0]` of an empty group

  /** A call that returns a value or raises. */
  datatype Outcome<T> = Returned(value: T) | Raised(error: Error)

  /** The files as the metadata pass sees them: the contents of each existing
      file, and the grouping metadata of each file whose tags can be read. */
  datatype Disk = Disk(contents: map<FilePath, Bytes>, groupingMetadata: map<FilePath, Metadata>)
}
