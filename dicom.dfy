/** The cheap format test of the DICOM reader: a DICOM Part 10 file carries
    the four bytes "DICM" right after its 128-byte preamble (DICOM PS3.10,
    section 7.1). Also the pixel decoder the volume assembler calls. */
module Dicom {
  import opened DicomTypes

  const PreambleLength: nat := 128

  /** The bytes of "DICM". */
  const DicmPrefix: Bytes := [0x44, 0x49, 0x43, 0x4D]

  /** The directory-index file, which carries the same prefix but no image. */
  const DicomdirName: string := "DICOMDIR"

  function Min(a: nat, b: nat): nat { if a <= b then a else b }

  /** `f.seek(offset); f.read(count)` on a file with these contents: at most
      `count` bytes, fewer (possibly none) when the file ends early. */
  function ReadAt(contents: Bytes, offset: nat, count: nat): (r: Bytes)
    ensures |r| <= count
    ensures offset + count <= |contents| ==> r == contents[offset..offset + count]
    ensures |contents| < offset + count && 0 < count ==> |r| < count
  {
    contents[Min(offset, |contents|)..Min(offset + count, |contents|)]
  }

  /** The comparison `is_dicom` makes on the bytes it reads: it passes exactly
      when the file holds at least 132 bytes and bytes 128..131 spell "DICM". */
  predicate HasDicomPrefix(contents: Bytes)
    ensures HasDicomPrefix(contents) <==>
              |contents| >= 132
              && contents[128] == 0x44 && contents[129] == 0x49
              && contents[130] == 0x43 && contents[131] == 0x4D
  {
    var read := ReadAt(contents, PreambleLength, |DicmPrefix|);
    assert |contents| >= 132 ==> read == [contents[128], contents[129], contents[130], contents[131]];
    read == DicmPrefix
  }

  /** A file shorter than 132 bytes, the empty file among them, fails the test. */
  lemma ShortFileIsNotDicom(contents: Bytes)
    requires |contents| < 132
    ensures !HasDicomPrefix(contents)
  {
    assert |ReadAt(contents, PreambleLength, 4)| < 4;
  }

  /** Only bytes 128..131 decide: changing any other byte keeps the verdict. */
  lemma OtherBytesDoNotMatter(contents: Bytes, i: nat, b: byte)
    requires i < |contents| && !(128 <= i < 132)
    ensures HasDicomPrefix(contents[i := b]) == HasDicomPrefix(contents)
  {
  }

  /** `is_dicom`: opening a file that is not there raises; otherwise the
      prefix test decides. */
  function IsDicom(disk: Disk, fileName: FilePath): (r: Outcome<bool>)
    ensures r.Raised? <==> fileName !in disk.contents
    ensures r.Raised? ==> r.error == FileNotFound(fileName)
    ensures r == Returned(true) <==>
              fileName in disk.contents && |disk.contents[fileName]| >= 132
              && disk.contents[fileName][128..132] == DicmPrefix
  {
    if fileName !in disk.contents then Raised(FileNotFound(fileName))
    else
      var contents := disk.contents[fileName];
      assert |contents| >= 132 ==>
               contents[128..132] == [contents[128], contents[129], contents[130], contents[131]];
      Returned(HasDicomPrefix(contents))
  }

  /** `is_dicom_image_file`: a file named DICOMDIR is refused without being
      opened; any other name is joined to its directory and tested. */
  function IsDicomImageFile(disk: Disk, filePath: string, fileName: string): (r: Outcome<bool>)
    ensures fileName == DicomdirName ==> r == Returned(false)
    ensures fileName != DicomdirName ==> r == IsDicom(disk, Join(filePath, fileName))
  {
    if fileName == DicomdirName then Returned(false)
    else IsDicom(disk, Join(filePath, fileName))
  }

  /** `read_grouping_metadata`: the file's grouping metadata, or an exception
      when its tags cannot be read. */
  function ReadGroupingMetadata(disk: Disk, fileName: FilePath): (r: Outcome<Metadata>)
    ensures r.Returned? <==> fileName in disk.groupingMetadata
    ensures r.Returned? ==> r.value == disk.groupingMetadata[fileName]
    ensures r.Raised? ==> r.error == UnreadableMetadata(fileName)
  {
    if fileName in disk.groupingMetadata then Returned(disk.groupingMetadata[fileName])
    else Raised(UnreadableMetadata(fileName))
  }

  /** What the decoder gives for a file: its entry in the table, and an
      exception for a file the table does not hold. */
  function DecodedAt(pixelData: map<FilePath, Decoded>, fileName: FilePath): (d: Decoded)
    ensures fileName !in pixelData ==> d == Unreadable
  {
    if fileName in pixelData then pixelData[fileName] else Unreadable
  }

  /** `read_dicom_image`, the pixel decoder: what it gives for each path is
      fixed by `pixelData`; `requests` records which files it was asked to
      decode, in order. */
  class PixelReader {
    const pixelData: map<FilePath, Decoded>
    var requests: seq<FilePath>

    constructor (pixelData: map<FilePath, Decoded>)
      ensures this.pixelData == pixelData && requests == []
    {
      this.pixelData := pixelData;
      requests := [];
    }

    method ReadDicomImage(fileName: FilePath) returns (d: Decoded)
      modifies this
      ensures d == DecodedAt(pixelData, fileName)
      ensures requests == old(requests) + [fileName]
    {
      d := DecodedAt(pixelData, fileName);
      requests := requests + [fileName];
    }
  }
}
