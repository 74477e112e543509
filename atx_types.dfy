/**
 * Shared vocabulary of the ATX reader: the C integer widths of the AVR target,
 * the on-disk records, the format constants that live in the header file of
 * the reader, and the offset-addressed read of the backing storage.
 */
module AtxTypes {

  type u8 = x: int | 0 <= x < 0x100
  type u16 = x: int | 0 <= x < 0x1_0000
  type u32 = x: int | 0 <= x < 0x1_0000_0000

  const M16: int := 0x1_0000
  const M32: int := 0x1_0000_0000

  datatype Option<T> = None | Some(value: T)

  /** An `int` on the AVR target is 16 bits: the value a u16 difference takes once stored in one. */
  function Int16(x: int): (r: int)
    ensures -0x8000 <= r < 0x8000
    ensures (r - x) % M16 == 0
  {
    var w := x % M16;
    if w < 0x8000 then w else w - M16
  }

  /** The 4-byte magic value "AT8X". */
  const SIG_A: u8 := 0x41
  const SIG_T: u8 := 0x54
  const SIG_8: u8 := 0x38
  const SIG_X: u8 := 0x58

  /** File-level header: signature, versions, density code, offset of the first track record. */
  datatype FileHeader = FileHeader(
    signature: (u8, u8, u8, u8),
    version: u16,
    minVersion: u16,
    density: u8,
    startData: u32)

  /** Per-track record header: total record size, 0-based track number, sector count, header size. */
  datatype TrackHeader = TrackHeader(size: u32, trackNumber: u8, sectorCount: u16, headerSize: u32)

  /** Preamble of the sector-header list; `next` is the extent of the list including padding. */
  datatype SectorListHeader = SectorListHeader(next: u32)

  /** One physical copy of a sector: number, status flags, angular timestamp, track-relative payload offset. */
  datatype SectorHeader = SectorHeader(number: u8, status: u8, timev: u16, data: u32)

  /** Extended per-sector record; `kind` is the record type (0x10 marks weak data). */
  datatype ExtendedSectorData = ExtendedSectorData(sectorIndex: u16, kind: u8, data: u16)

  /**
   * What the reader's header file fixes: the supported version, the size of each
   * record as read from storage, and how each record is decoded from the bytes
   * at the front of the staging buffer.
   */
  datatype Format = Format(
    version: u16,
    fileHeaderSize: nat,
    trackHeaderSize: nat,
    sectorListHeaderSize: nat,
    sectorHeaderSize: nat,
    extendedSize: nat,
    decodeFileHeader: seq<u8> -> FileHeader,
    decodeTrackHeader: seq<u8> -> TrackHeader,
    decodeSectorListHeader: seq<u8> -> SectorListHeader,
    decodeSectorHeader: seq<u8> -> SectorHeader,
    decodeExtended: seq<u8> -> ExtendedSectorData)
  {
    /** Every record is a non-empty struct that fits the 256-byte staging buffer. */
    predicate Valid() {
      && 1 <= fileHeaderSize <= 256
      && 1 <= trackHeaderSize <= 256
      && 1 <= sectorListHeaderSize <= 256
      && 1 <= sectorHeaderSize <= 256
      && 1 <= extendedSize <= 256
    }
  }

  /** Size of the staging buffer shared by every read. */
  const BUFFER_SIZE: nat := 256

  /** The storage read succeeds exactly when the requested bytes lie inside the image. */
  predicate CanRead(image: seq<u8>, off: int, len: nat) {
    0 <= off && off + len <= |image|
  }

  /** Outcome of one storage read: success flag and staging-buffer contents afterwards. */
  datatype Access = Access(ok: bool, buf: seq<u8>)

  /**
   * The offset-addressed storage read: on success the first `len` buffer bytes
   * become the image bytes at `off`, the rest of the buffer is kept; on failure
   * the buffer is left as it was.
   */
  function ReadAt(buf: seq<u8>, image: seq<u8>, off: int, len: nat): (a: Access)
    requires len <= |buf|
    ensures |a.buf| == |buf|
    ensures a.ok <==> CanRead(image, off, len)
    ensures a.ok ==> a.buf[..len] == image[off..off + len]
    ensures forall k :: (if a.ok then len else 0) <= k < |buf| ==> a.buf[k] == buf[k]
  {
    if CanRead(image, off, len) then Access(true, image[off..off + len] + buf[len..])
    else Access(false, buf)
  }
}
