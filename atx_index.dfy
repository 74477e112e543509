/**
 * Specification of the image indexer (`loadAtxFile`): header validation, the
 * geometry fixed by the density code, and the walk along the chain of
 * variable-length track records that fills one drive's track-offset row.
 */
module AtxIndex {
  import opened AtxTypes

  /** Capacity of a drive's track-offset row. */
  const TRACKS: nat := 40

  /** The signature is "AT8X" and both version fields equal the supported version. */
  predicate HeaderAccepted(fmt: Format, h: FileHeader) {
    && h.signature == (SIG_A, SIG_T, SIG_8, SIG_X)
    && h.version == fmt.version
    && h.minVersion == fmt.version
  }

  /** Density code 1 gives 26 sectors per track, every other code 18. */
  function SectorsPerTrack(density: u8): (spt: u8)
    ensures spt == 26 <==> density == 1
    ensures spt == 18 <==> density != 1
  {
    if density == 1 then 26 else 18
  }

  /** Density code 1 gives 256 bytes per sector, every other code 128. */
  function BytesPerSector(density: u8): (bps: u16)
    ensures bps == 256 <==> density == 1
    ensures bps == 128 <==> density != 1
  {
    if density == 1 then 256 else 128
  }

  /**
   * Why the track walk ended. `EndOfImage` is the normal end (a track header
   * could not be read). `TrackOutOfRange` is a header whose track number has no
   * slot in the 40-entry row. `NoProgress` is a header whose size does not move
   * the 32-bit cursor forward (a size of 0, or a wrap-around past 2^32).
   */
  datatype ScanStop = EndOfImage | TrackOutOfRange(at: u32, trackNumber: u8) | NoProgress(at: u32)

  /** One track header read during the walk, with the offset it was read at. */
  datatype Visit = Visit(at: u32, header: TrackHeader)

  /** The cursor after a track record: advanced by the record's declared size, in 32-bit arithmetic. */
  function NextCursor(c: u32, h: TrackHeader): u32 {
    (c + h.size) % M32
  }

  /** Track header decoded from the image at `c` (meaningful when the read succeeds). */
  function TrackHeaderAt(fmt: Format, image: seq<u8>, c: int): TrackHeader
    requires fmt.Valid() && CanRead(image, c, fmt.trackHeaderSize)
  {
    fmt.decodeTrackHeader(image[c..c + fmt.trackHeaderSize])
  }

  /** The track headers the walk indexes, in the order it reads them, starting at `c`. */
  function Chain(fmt: Format, image: seq<u8>, c: u32): (ch: seq<Visit>)
    requires fmt.Valid()
    ensures forall j :: 0 <= j < |ch| ==> ch[j].header.trackNumber < TRACKS && ch[j].at >= c
    decreases |image| - c
  {
    if !CanRead(image, c, fmt.trackHeaderSize) then []
    else
      var h := TrackHeaderAt(fmt, image, c);
      if h.trackNumber >= TRACKS as int then []
      else if NextCursor(c, h) <= c then [Visit(c, h)]
      else [Visit(c, h)] + Chain(fmt, image, NextCursor(c, h))
  }

  /** Writes the visits into a row in order: a later visit of a track overwrites an earlier one. */
  function Apply(row: seq<u32>, ch: seq<Visit>): (r: seq<u32>)
    requires |row| == TRACKS
    requires forall j :: 0 <= j < |ch| ==> ch[j].header.trackNumber < TRACKS
    ensures |r| == TRACKS
    decreases |ch|
  {
    if ch == [] then row
    else Apply(row[ch[0].header.trackNumber := ch[0].at], ch[1..])
  }

  /** Result of the track walk: the drive's row, why the walk stopped, and the staging buffer. */
  datatype IndexScan = IndexScan(row: seq<u32>, stop: ScanStop, buf: seq<u8>)

  /** The track walk as the load loop performs it, from cursor `c` with the row and buffer as they are. */
  function IndexFrom(fmt: Format, image: seq<u8>, c: u32, row: seq<u32>, buf: seq<u8>): (s: IndexScan)
    requires fmt.Valid() && |row| == TRACKS && |buf| == BUFFER_SIZE
    ensures |s.row| == TRACKS && |s.buf| == BUFFER_SIZE
    ensures !CanRead(image, c, fmt.trackHeaderSize) ==> s.row == row && s.stop == EndOfImage
    ensures s.stop.TrackOutOfRange? ==> s.stop.trackNumber >= TRACKS
    decreases |image| - c
  {
    var a := ReadAt(buf, image, c, fmt.trackHeaderSize);
    if !a.ok then IndexScan(row, EndOfImage, a.buf)
    else
      var h := fmt.decodeTrackHeader(a.buf[..fmt.trackHeaderSize]);
      if h.trackNumber >= TRACKS as int then IndexScan(row, TrackOutOfRange(c, h.trackNumber), a.buf)
      else
        var row' := row[h.trackNumber := c];
        var n := NextCursor(c, h);
        if n <= c then IndexScan(row', NoProgress(c), a.buf)
        else IndexFrom(fmt, image, n, row', a.buf)
  }

  /**
   * The row the walk leaves is the old row with the chain's visits written into it.
   */
  lemma {:induction false} IndexFromIsApply(fmt: Format, image: seq<u8>, c: u32, row: seq<u32>, buf: seq<u8>)
    requires fmt.Valid() && |row| == TRACKS && |buf| == BUFFER_SIZE
    ensures ChainWellFormed(fmt, image, Chain(fmt, image, c))
    ensures IndexFrom(fmt, image, c, row, buf).row == Apply(row, Chain(fmt, image, c))
    decreases |image| - c
  {
    ChainShape(fmt, image, c);
    var a := ReadAt(buf, image, c, fmt.trackHeaderSize);
    if a.ok {
      var h := fmt.decodeTrackHeader(a.buf[..fmt.trackHeaderSize]);
      assert h == TrackHeaderAt(fmt, image, c);
      if h.trackNumber < TRACKS as int {
        var n := NextCursor(c, h);
        var ch := Chain(fmt, image, c);
        assert ch[0] == Visit(c, h);
        if n > c {
          IndexFromIsApply(fmt, image, n, row[h.trackNumber := c], a.buf);
          assert ch[1..] == Chain(fmt, image, n);
        } else {
          assert ch[1..] == [];
        }
      }
    }
  }

  /** Every visit was read successfully, decodes to its header and names an indexable track. */
  ghost predicate ChainWellFormed(fmt: Format, image: seq<u8>, ch: seq<Visit>)
    requires fmt.Valid()
  {
    forall j :: 0 <= j < |ch| ==>
      && CanRead(image, ch[j].at, fmt.trackHeaderSize)
      && ch[j].header == TrackHeaderAt(fmt, image, ch[j].at)
      && ch[j].header.trackNumber < TRACKS
  }

  /**
   * The chain starts at the given cursor, each next visit sits exactly `size`
   * bytes after the previous one, and the walk ends at the first cursor whose
   * header cannot be read, names a track outside the row, or does not advance.
   */
  lemma {:induction false} ChainShape(fmt: Format, image: seq<u8>, c: u32)
    requires fmt.Valid()
    ensures var ch := Chain(fmt, image, c);
      && ChainWellFormed(fmt, image, ch)
      && (ch != [] ==> ch[0].at == c)
      && (forall j :: 0 <= j < |ch| - 1 ==> ch[j + 1].at == ch[j].at + ch[j].header.size)
      && (ch == [] <==>
            !CanRead(image, c, fmt.trackHeaderSize) || TrackHeaderAt(fmt, image, c).trackNumber >= TRACKS)
    decreases |image| - c
  {
    var ch := Chain(fmt, image, c);
    forall j | 0 <= j < |ch| - 1
      ensures ch[j + 1].at == ch[j].at + ch[j].header.size
    {
      ChainStride(fmt, image, c, j + 1);
    }
    if CanRead(image, c, fmt.trackHeaderSize) {
      var h := TrackHeaderAt(fmt, image, c);
      if h.trackNumber < TRACKS as int && NextCursor(c, h) > c {
        var n := NextCursor(c, h);
        ChainShape(fmt, image, n);
        var rest := Chain(fmt, image, n);
        assert ch == [Visit(c, h)] + rest;
        forall j | 0 <= j < |ch|
          ensures CanRead(image, ch[j].at, fmt.trackHeaderSize) && ch[j].header == TrackHeaderAt(fmt, image, ch[j].at)
        {
          if j > 0 {
            assert ch[j] == rest[j - 1];
          }
        }
      }
    }
  }

  /** The visit at position `j > 0` sits exactly `size` bytes after the one before it, with no 32-bit wrap in between. */
  lemma {:induction false} ChainStride(fmt: Format, image: seq<u8>, c: u32, j: nat)
    requires fmt.Valid()
    requires 0 < j < |Chain(fmt, image, c)|
    ensures var ch := Chain(fmt, image, c);
      ch[j].at == ch[j - 1].at + ch[j - 1].header.size
    decreases |image| - c
  {
    var ch := Chain(fmt, image, c);
    var h := TrackHeaderAt(fmt, image, c);
    var n := NextCursor(c, h);
    var rest := Chain(fmt, image, n);
    assert ch == [Visit(c, h)] + rest;
    if j == 1 {
      assert n == c + h.size;
      assert ch[1] == rest[0];
    } else {
      ChainStride(fmt, image, n, j - 1);
      assert ch[j] == rest[j - 1] && ch[j - 1] == rest[j - 2];
    }
  }

  /**
   * The walk does not stop early: after the last visit, the next cursor does
   * not advance, cannot be read, or names a track outside the row. Together
   * with `ChainShape` this says the chain is every header the loop reaches
   * before its first failed read or out-of-range track.
   */
  lemma {:induction false} ChainEnds(fmt: Format, image: seq<u8>, c: u32)
    requires fmt.Valid()
    ensures var ch := Chain(fmt, image, c);
      ch != [] ==>
        var l := ch[|ch| - 1];
        var n := NextCursor(l.at, l.header);
        n <= l.at || !CanRead(image, n, fmt.trackHeaderSize) || TrackHeaderAt(fmt, image, n).trackNumber >= TRACKS
    decreases |image| - c
  {
    var ch := Chain(fmt, image, c);
    if CanRead(image, c, fmt.trackHeaderSize) {
      var h := TrackHeaderAt(fmt, image, c);
      if h.trackNumber < TRACKS as int && NextCursor(c, h) > c {
        var n := NextCursor(c, h);
        ChainEnds(fmt, image, n);
        var rest := Chain(fmt, image, n);
        assert ch == [Visit(c, h)] + rest;
        if rest != [] {
          assert ch[|ch| - 1] == rest[|rest| - 1];
        } else {
          assert ch[|ch| - 1] == Visit(c, h);
        }
      } else if h.trackNumber < TRACKS as int {
        assert ch == [Visit(c, h)];
      }
    }
  }

  /**
   * Last write wins: a track the chain never visits keeps its old offset, and a
   * visited track holds the offset of its last visit.
   */
  lemma {:induction false} ApplyLastWins(row: seq<u32>, ch: seq<Visit>, t: nat)
    requires |row| == TRACKS && t < TRACKS
    requires forall j :: 0 <= j < |ch| ==> ch[j].header.trackNumber < TRACKS
    ensures (forall j :: 0 <= j < |ch| ==> ch[j].header.trackNumber != t) ==> Apply(row, ch)[t] == row[t]
    ensures forall j :: 0 <= j < |ch| && ch[j].header.trackNumber == t
                        && (forall k :: j < k < |ch| ==> ch[k].header.trackNumber != t)
                        ==> Apply(row, ch)[t] == ch[j].at
    decreases |ch|
  {
    if ch != [] {
      var row' := row[ch[0].header.trackNumber := ch[0].at];
      ApplyLastWins(row', ch[1..], t);
      forall j | 0 <= j < |ch| && ch[j].header.trackNumber == t
                 && (forall k :: j < k < |ch| ==> ch[k].header.trackNumber != t)
        ensures Apply(row, ch)[t] == ch[j].at
      {
        if j > 0 {
          assert ch[1..][j - 1] == ch[j];
          assert forall k :: j - 1 < k < |ch| - 1 ==> ch[1..][k].header.trackNumber != t by {
            forall k | j - 1 < k < |ch| - 1 ensures ch[1..][k].header.trackNumber != t {
              assert ch[1..][k] == ch[k + 1];
            }
          }
        } else {
          assert forall k :: 0 <= k < |ch| - 1 ==> ch[1..][k].header.trackNumber != t by {
            forall k | 0 <= k < |ch| - 1 ensures ch[1..][k].header.trackNumber != t {
              assert ch[1..][k] == ch[k + 1];
            }
          }
        }
      }
      if forall j :: 0 <= j < |ch| ==> ch[j].header.trackNumber != t {
        assert forall j :: 0 <= j < |ch| - 1 ==> ch[1..][j].header.trackNumber != t by {
          forall j | 0 <= j < |ch| - 1 ensures ch[1..][j].header.trackNumber != t {
            assert ch[1..][j] == ch[j + 1];
          }
        }
      }
    }
  }

  /** The whole load: what the globals, the drive's row and the buffer become, and the value returned. */
  datatype LoadResult = LoadResult(
    bytes: u16, spt: u8, bps: u16, row: seq<u32>, stop: Option<ScanStop>, buf: seq<u8>)

  /** The file header as decoded from the buffer after the (unchecked) read at offset 0. */
  function FileHeaderRead(fmt: Format, image: seq<u8>, buf: seq<u8>): FileHeader
    requires fmt.Valid() && |buf| == BUFFER_SIZE
  {
    fmt.decodeFileHeader(ReadAt(buf, image, 0, fmt.fileHeaderSize).buf[..fmt.fileHeaderSize])
  }

  /**
   * `loadAtxFile` on the values it reads and writes. A rejected header returns 0
   * and leaves geometry and row alone; an accepted one sets the geometry from
   * the density code, walks the track chain and returns the bytes per sector.
   */
  function LoadFile(fmt: Format, image: seq<u8>, spt: u8, bps: u16, row: seq<u32>, buf: seq<u8>): (r: LoadResult)
    requires fmt.Valid() && |row| == TRACKS && |buf| == BUFFER_SIZE
    ensures |r.row| == TRACKS && |r.buf| == BUFFER_SIZE
    ensures var h := FileHeaderRead(fmt, image, buf);
      && (r.bytes == 0 <==> !HeaderAccepted(fmt, h))
      && (r.bytes == 0 ==> r.spt == spt && r.bps == bps && r.row == row && r.stop == None)
      && (r.bytes != 0 ==>
            && r.bytes == r.bps
            && r.spt == SectorsPerTrack(h.density)
            && r.bps == BytesPerSector(h.density)
            && r.row == Apply(row, Chain(fmt, image, h.startData))
            && r.stop.Some?)
  {
    var a := ReadAt(buf, image, 0, fmt.fileHeaderSize);
    var h := fmt.decodeFileHeader(a.buf[..fmt.fileHeaderSize]);
    if !HeaderAccepted(fmt, h) then LoadResult(0, spt, bps, row, None, a.buf)
    else
      var s := IndexFrom(fmt, image, h.startData, row, a.buf);
      IndexFromIsApply(fmt, image, h.startData, row, a.buf);
      var b := BytesPerSector(h.density);
      LoadResult(b, SectorsPerTrack(h.density), b, s.row, Some(s.stop), s.buf)
  }

  /**
   * Indexing one drive: every track the chain from the header's start offset
   * visits holds the offset of its last visit, and every other track keeps its
   * old offset (so a track absent from the image keeps 0 on a fresh drive).
   */
  lemma LoadIndexesChain(fmt: Format, image: seq<u8>, spt: u8, bps: u16, row: seq<u32>, buf: seq<u8>, t: nat)
    requires fmt.Valid() && |row| == TRACKS && |buf| == BUFFER_SIZE && t < TRACKS
    requires HeaderAccepted(fmt, FileHeaderRead(fmt, image, buf))
    ensures var ch := Chain(fmt, image, FileHeaderRead(fmt, image, buf).startData);
      var r := LoadFile(fmt, image, spt, bps, row, buf);
      && ((forall j :: 0 <= j < |ch| ==> ch[j].header.trackNumber != t) ==> r.row[t] == row[t])
      && (forall j :: 0 <= j < |ch| && ch[j].header.trackNumber == t
                      && (forall k :: j < k < |ch| ==> ch[k].header.trackNumber != t)
                      ==> r.row[t] == ch[j].at)
  {
    var ch := Chain(fmt, image, FileHeaderRead(fmt, image, buf).startData);
    ChainShape(fmt, image, FileHeaderRead(fmt, image, buf).startData);
    ApplyLastWins(row, ch, t);
  }
}
