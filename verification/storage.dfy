/** What the loader sees of the SD card: the answers of the SPI driver and of
    the FAT library, given up front, since the loader cannot influence them. */
module Storage {
  import Words

  /** Bytes per sector and the same sector seen as 32-bit words. */
  const SectorSize: int := 512
  const SectorWords: int := 128

  /** The file size as the `int filesize` of the loader holds it. Sizes of
      2^31 bytes or more would turn negative there and are not modelled. */
  type FileSize = x: int | 0 <= x < 0x8000_0000

  /** The sector buffer read through an `int*`. */
  type Sector = s: seq<Words.int32> | |s| == SectorWords witness seq(128, _ => 0)

  /** The answer of one `FileRead` call. */
  datatype ReadResult = ReadOk(sector: Sector) | ReadFailed

  /** An opened file: the size `FileOpen` reports and the answers of successive
      `FileRead` calls, the k-th entry answering the read made with progress
      counter k; in `Boot()` the counter starts at 0, so that is the k-th call. */
  datatype FileImage = FileImage(size: FileSize, answers: seq<ReadResult>)

  /** The answer of `FileOpen` for the boot image name. */
  datatype Opened = NotFound | Found(file: FileImage)

  /** The answers of `spi_init`, `FindDrive`, `sd_ishc`, `IsFat32` and `FileOpen`. */
  datatype Card = Card(spiReady: bool, driveFound: bool, highCapacity: bool, fat32: bool, image: Opened)

  /** The answer of the k-th `FileRead` call; a call past the last answer supplied fails. */
  function ReadAt(answers: seq<ReadResult>, k: nat): (r: ReadResult)
    ensures k >= |answers| ==> r.ReadFailed?
    ensures k < |answers| ==> r == answers[k]
  {
    if k < |answers| then answers[k] else ReadFailed
  }

  /** Every `FileRead` call numbered `from` to `from + count - 1` succeeds. */
  predicate ReadsSucceed(answers: seq<ReadResult>, from: nat, count: nat) {
    forall k: nat :: from <= k < from + count ==> ReadAt(answers, k).ReadOk?
  }

  /** Number of sectors a file of `size` bytes occupies: the ceiling of size / 512. */
  function SectorCount(size: int): (n: nat)
    ensures size <= 0 ==> n == 0
    ensures size > 0 ==> SectorSize * (n - 1) < size <= SectorSize * n
  {
    if size <= 0 then 0 else (size + SectorSize - 1) / SectorSize
  }
}
