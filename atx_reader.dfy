/**
 * The reader's state and its two entry points, written as the C code runs
 * them: the globals of `atx.c` (geometry, the per-drive track-offset table,
 * the last angle and head track) and the shared 256-byte staging buffer are
 * fields of one object; `LoadAtxFile` and `LoadAtxSector` update them in place
 * and are proved against the specification functions of AtxIndex and
 * AtxSector.
 */
module AtxReader {
  import opened AtxTypes
  import opened AtxIndex
  import opened AtxSector

  /** Number of drive slots the track table serves. */
  const DRIVES: nat := 2

  class Reader {
    /** Sizes, version and record decoders of the format. */
    const fmt: Format
    /** gBytesPerSector */
    var bytesPerSector: u16
    /** gSectorsPerTrack */
    var sectorsPerTrack: u8
    /** gTrackInfo[drive][track].offset */
    const trackInfo: array2<u32>
    /** gLastAngle */
    var lastAngle: u16
    /** gCurrentHeadTrack */
    var currentHeadTrack: u8
    /** last_angle_returned, the display copy of the last angle */
    var lastAngleReturned: u16
    /** atari_sector_buffer, the staging buffer every storage read fills */
    const buffer: array<u8>

    ghost predicate Valid()
      reads this
    {
      && fmt.Valid()
      && trackInfo.Length0 == DRIVES && trackInfo.Length1 == TRACKS
      && buffer.Length == BUFFER_SIZE
      && bytesPerSector <= BUFFER_SIZE
    }

    /** The track-offset row of one drive. */
    function Row(drive: nat): (r: seq<u32>)
      requires drive < trackInfo.Length0 && trackInfo.Length1 == TRACKS
      reads trackInfo
      ensures |r| == TRACKS
    {
      seq(TRACKS, t requires 0 <= t < TRACKS reads trackInfo => trackInfo[drive, t])
    }

    /** Power-on state: every global zero. */
    constructor (fmt: Format)
      requires fmt.Valid()
      ensures Valid() && this.fmt == fmt
      ensures bytesPerSector == 0 && sectorsPerTrack == 0
      ensures lastAngle == 0 && currentHeadTrack == 0 && lastAngleReturned == 0
      ensures forall d :: 0 <= d < DRIVES ==> Row(d) == seq(TRACKS, _ => 0)
      ensures fresh(trackInfo) && fresh(buffer)
    {
      this.fmt := fmt;
      bytesPerSector, sectorsPerTrack := 0, 0;
      lastAngle, currentHeadTrack, lastAngleReturned := 0, 0, 0;
      trackInfo := new u32[DRIVES, TRACKS]((_, _) => 0);
      buffer := new u8[BUFFER_SIZE];
    }

    /**
     * The storage read (`faccess_offset` in read mode): copies `len` image
     * bytes at `off` into the front of the buffer when they exist.
     */
    method ReadStorage(image: seq<u8>, off: int, len: nat) returns (ok: bool)
      requires Valid() && len <= BUFFER_SIZE
      modifies buffer
      ensures Access(ok, buffer[..]) == ReadAt(old(buffer[..]), image, off, len)
    {
      ok := CanRead(image, off, len);
      if ok {
        var k := 0;
        while k < len
          invariant 0 <= k <= len
          invariant forall m :: 0 <= m < k ==> buffer[m] == image[off + m]
          invariant forall m :: k <= m < BUFFER_SIZE ==> buffer[m] == old(buffer[m])
        {
          buffer[k] := image[off + k];
          k := k + 1;
        }
        assert buffer[..] == image[off..off + len] + old(buffer[..])[len..];
      }
    }

    /**
     * `loadAtxFile`: validates the file header, sets the geometry and indexes
     * the track records of `drive`. Returns the bytes per sector, or 0 when the
     * header is refused; `stop` says why the track walk ended.
     */
    method LoadAtxFile(image: seq<u8>, drive: nat) returns (r: u16, stop: Option<ScanStop>)
      requires Valid() && drive < DRIVES
      modifies this, trackInfo, buffer
      ensures Valid()
      ensures var l := LoadFile(fmt, image, old(sectorsPerTrack), old(bytesPerSector), old(Row(drive)), old(buffer[..]));
        && r == l.bytes && stop == l.stop
        && sectorsPerTrack == l.spt && bytesPerSector == l.bps
        && Row(drive) == l.row && buffer[..] == l.buf
      ensures Row(1 - drive) == old(Row(1 - drive))
      ensures lastAngle == old(lastAngle) && currentHeadTrack == old(currentHeadTrack)
      ensures lastAngleReturned == old(lastAngleReturned)
    {
      ghost var bufIn := buffer[..];
      var ok := ReadStorage(image, 0, fmt.fileHeaderSize);
      var h := fmt.decodeFileHeader(buffer[..fmt.fileHeaderSize]);
      assert FileHeaderRead(fmt, image, bufIn) == h;
      if !HeaderAccepted(fmt, h) {
        return 0, None;
      }
      sectorsPerTrack := SectorsPerTrack(h.density);
      bytesPerSector := BytesPerSector(h.density);
      var end := IndexTracks(image, drive, h.startData);
      return bytesPerSector, Some(end);
    }

    /**
     * The track walk of `loadAtxFile`: from `start`, each readable track header
     * whose number fits the table records its offset in the drive's row and
     * the cursor moves on by the record's size.
     */
    method IndexTracks(image: seq<u8>, drive: nat, start: u32) returns (end: ScanStop)
      requires Valid() && drive < DRIVES
      modifies trackInfo, buffer
      ensures var x := IndexFrom(fmt, image, start, old(Row(drive)), old(buffer[..]));
        end == x.stop && Row(drive) == x.row && buffer[..] == x.buf
      ensures Row(1 - drive) == old(Row(1 - drive))
    {
      ghost var other := Row(1 - drive);
      var c: u32 := start;
      while true
        invariant IndexFrom(fmt, image, c, Row(drive), buffer[..]) == old(IndexFrom(fmt, image, start, Row(drive), buffer[..]))
        invariant Row(1 - drive) == other
        modifies trackInfo, buffer
        decreases |image| - c
      {
        ghost var pre := buffer[..];
        var ok := ReadStorage(image, c, fmt.trackHeaderSize);
        if !ok {
          end := EndOfImage;
          assert IndexFrom(fmt, image, c, Row(drive), pre).stop == end;
          break;
        }
        var th := fmt.decodeTrackHeader(buffer[..fmt.trackHeaderSize]);
        if th.trackNumber >= TRACKS {
          end := TrackOutOfRange(c, th.trackNumber);
          assert IndexFrom(fmt, image, c, Row(drive), pre).stop == end;
          break;
        }
        ghost var before := Row(drive);
        trackInfo[drive, th.trackNumber] := c;
        assert Row(drive) == before[th.trackNumber := c];
        var next := NextCursor(c, th);
        if next <= c {
          end := NoProgress(c);
          assert IndexFrom(fmt, image, c, before, pre).stop == end;
          break;
        }
        c := next;
      }
    }

    /**
     * One matching-or-not sector header of the scan, with the tie-break test
     * and the updates of `loadAtxSector` written out: the returned state is the
     * specification's step.
     */
    method ConsiderHeader(p: Pick, h: SectorHeader, i: u16, at: u32, sector: u8, headPosition: u16)
      returns (q: Pick)
      ensures q == Step(p, Slot(i, at, h), sector, headPosition)
    {
      q := p;
      if h.number == sector {
        var tt := Delta(h.timev, headPosition);
        var pTT := p.pTT;
        if pTT == 0 || (tt > 0 && pTT < 0) || (tt > 0 && pTT > 0 && tt < pTT) || (tt < 0 && pTT < 0 && tt < pTT) {
          q := q.(pTT := tt, angle := h.timev, status := 255 - h.status, index := i, offset := h.data);
          q := q.(maxOffset := if h.data > p.maxOffset then h.data else p.maxOffset);
          if h.status > 0 {
            q := q.(hasError := true);
          }
          if HasExtendedData(h.status) {
            q := q.(extCount := (p.extCount + 1) % 0x100);
          }
        }
      }
    }

    /**
     * The scan of a track's sector headers (the first loop of `loadAtxSector`):
     * the cursor advances only past headers that were read; the last angle is
     * written whenever a header is chosen.
     */
    method ScanSectorHeaders(image: seq<u8>, c0: u32, count: u16, sector: u8, headPosition: u16)
      returns (p: Pick)
      requires Valid()
      modifies this`lastAngle, buffer
      ensures Valid()
      ensures var s := SectorScan(fmt, image, c0, count, old(buffer[..]));
        && p == Select(s.read, sector, headPosition, InitialPick(old(lastAngle)))
        && buffer[..] == s.buf && lastAngle == p.angle
    {
      ghost var buf0 := buffer[..];
      p := InitialPick(lastAngle);
      ghost var p0 := p;
      var c := c0;
      var i: u16 := 0;
      while i < count
        invariant Valid() && i <= count
        invariant var s := SectorScan(fmt, image, c0, i, buf0);
          c == s.cursor && buffer[..] == s.buf && p == Select(s.read, sector, headPosition, p0)
        invariant lastAngle == p.angle
        modifies this`lastAngle, buffer
      {
        c, p := ScanOneHeader(image, c0, i, sector, headPosition, buf0, p0, c, p);
        i := i + 1;
      }
    }

    /** One iteration of the header loop: the state after `i` iterations becomes the state after `i + 1`. */
    method ScanOneHeader(image: seq<u8>, c0: u32, i: u16, sector: u8, headPosition: u16,
                         ghost buf0: seq<u8>, ghost p0: Pick, c: u32, p: Pick)
      returns (c': u32, p': Pick)
      requires Valid() && |buf0| == BUFFER_SIZE
      requires var s := SectorScan(fmt, image, c0, i, buf0);
        c == s.cursor && buffer[..] == s.buf && p == Select(s.read, sector, headPosition, p0)
      requires lastAngle == p.angle
      modifies this`lastAngle, buffer
      ensures Valid()
      ensures var s := SectorScan(fmt, image, c0, i as nat + 1, buf0);
        c' == s.cursor && buffer[..] == s.buf && p' == Select(s.read, sector, headPosition, p0)
      ensures lastAngle == p'.angle
    {
      ghost var prev := SectorScan(fmt, image, c0, i, buf0);
      SectorScanStep(fmt, image, c0, i, buf0);
      ghost var a := ReadAt(prev.buf, image, prev.cursor, fmt.sectorHeaderSize);
      ghost var next := SectorScan(fmt, image, c0, i as nat + 1, buf0);
      var ok := ReadStorage(image, c, fmt.sectorHeaderSize);
      assert ok == a.ok && buffer[..] == a.buf;
      c', p' := c, p;
      if ok {
        var h := fmt.decodeSectorHeader(buffer[..fmt.sectorHeaderSize]);
        SelectSnoc(prev.read, Slot(i, c, h), sector, headPosition, p0);
        p' := ConsiderHeader(p, h, i, c, sector, headPosition);
        lastAngle := p'.angle;
        c' := (c + fmt.sectorHeaderSize) % M32;
        assert next.cursor == c' && next.read == prev.read + [Slot(i, prev.cursor, h)];
      } else {
        assert next == prev;
      }
    }

    /**
     * The loop over the extended records (the second loop of `loadAtxSector`):
     * returns the weak offset recorded for the chosen index, -1 when none.
     */
    method ReadWeakOffset(image: seq<u8>, e0: u32, count: u8, tgtIndex: u16) returns (weak: int)
      requires Valid()
      modifies buffer
      ensures var x := ExtScan(fmt, image, e0, count, old(buffer[..]));
        weak == LastWeak(x.recs, tgtIndex) && buffer[..] == x.buf
    {
      ghost var buf0 := buffer[..];
      weak := -1;
      var e := e0;
      var j: u8 := 0;
      while j < count
        invariant Valid() && j <= count
        invariant var x := ExtScan(fmt, image, e0, j, buf0);
          e == x.cursor && buffer[..] == x.buf && weak == LastWeak(x.recs, tgtIndex)
        modifies buffer
      {
        e, weak := ReadOneRecord(image, e0, j, tgtIndex, buf0, e, weak);
        j := j + 1;
      }
    }

    /** One iteration of the extended-record loop: the state after `j` iterations becomes the state after `j + 1`. */
    method ReadOneRecord(image: seq<u8>, e0: u32, j: u8, tgtIndex: u16, ghost buf0: seq<u8>, e: u32, weak: int)
      returns (e': u32, weak': int)
      requires Valid() && |buf0| == BUFFER_SIZE
      requires var x := ExtScan(fmt, image, e0, j, buf0);
        e == x.cursor && buffer[..] == x.buf && weak == LastWeak(x.recs, tgtIndex)
      modifies buffer
      ensures var x := ExtScan(fmt, image, e0, j as nat + 1, buf0);
        e' == x.cursor && buffer[..] == x.buf && weak' == LastWeak(x.recs, tgtIndex)
    {
      ghost var prev := ExtScan(fmt, image, e0, j, buf0);
      ExtScanStep(fmt, image, e0, j, buf0);
      ghost var a := ReadAt(prev.buf, image, prev.cursor, fmt.extendedSize);
      var ok := ReadStorage(image, e, fmt.extendedSize);
      assert ok == a.ok && buffer[..] == a.buf;
      weak' := weak;
      if ok {
        var x := fmt.decodeExtended(buffer[..fmt.extendedSize]);
        LastWeakSnoc(prev.recs, x, tgtIndex);
        if x.sectorIndex == tgtIndex && x.kind == WEAK_RECORD {
          weak' := Int16(x.data);
        }
      }
      e' := (e + fmt.extendedSize) % M32;
    }

    /** Unstable flux: arbitrary bytes from the weak offset up to the end of the sector, nothing else touched. */
    method RandomizeWeakTail(weak: int)
      requires Valid() && 0 <= weak
      modifies buffer
      ensures forall m :: 0 <= m < BUFFER_SIZE && !(weak <= m < bytesPerSector) ==> buffer[m] == old(buffer[m])
    {
      var k := weak;
      while k < bytesPerSector
        invariant weak <= k && (k == weak || k <= bytesPerSector)
        invariant forall m :: 0 <= m < BUFFER_SIZE && !(weak <= m < k) ==> buffer[m] == old(buffer[m])
        modifies buffer
      {
        var noise :| 0 <= noise < 0x100;
        buffer[k] := noise;
        k := k + 1;
      }
    }

    /**
     * The end of `loadAtxSector` once the scan is done: the weak offset from the
     * extended records (read only when a chosen header flagged them), the
     * payload read, the byte count, and the weak tail overwritten.
     */
    method FinishRead(image: seq<u8>, trackOffset: u32, track: u8, p: Pick, headPosition: u16)
      returns (r: u16, weak: int)
      requires Valid()
      modifies buffer
      ensures var f := FinishSector(fmt, image, bytesPerSector, trackOffset, track, p, headPosition, old(buffer[..]));
        && r == f.bytes && weak == f.weak
        && forall k :: 0 <= k < BUFFER_SIZE && !(0 <= weak <= k < bytesPerSector) ==> buffer[k] == f.buf[k]
    {
      ghost var f := FinishSector(fmt, image, bytesPerSector, trackOffset, track, p, headPosition, buffer[..]);
      ghost var ext := ExtScan(fmt, image, (trackOffset + p.maxOffset + bytesPerSector) % M32, p.extCount, buffer[..]);
      ghost var a := Payload(image, bytesPerSector, trackOffset, p.offset, ext.buf);
      assert f.buf == a.buf && f.weak == LastWeak(ext.recs, p.index);
      assert f.bytes == if p.hasError || !a.ok then 0 else bytesPerSector;
      r, weak := FetchSector(image, trackOffset, track, p, headPosition);
      ghost var fetched := buffer[..];
      assert fetched == f.buf;
      if weak > -1 {
        RandomizeWeakTail(weak);
      }
      forall k | 0 <= k < BUFFER_SIZE && !(0 <= weak <= k < bytesPerSector)
        ensures buffer[k] == f.buf[k]
      {
        assert fetched[k] == f.buf[k];
      }
    }

    /** The weak offset from the extended records (read only when a chosen header flagged them), then the payload. */
    method FetchSector(image: seq<u8>, trackOffset: u32, track: u8, p: Pick, headPosition: u16)
      returns (r: u16, weak: int)
      requires Valid()
      modifies buffer
      ensures var ext := ExtScan(fmt, image, (trackOffset + p.maxOffset + bytesPerSector) % M32, p.extCount, old(buffer[..]));
        var a := Payload(image, bytesPerSector, trackOffset, p.offset, ext.buf);
        && weak == LastWeak(ext.recs, p.index) && buffer[..] == a.buf
        && r == if p.hasError || !a.ok then 0 else bytesPerSector
    {
      ghost var ext := ExtScan(fmt, image, (trackOffset + p.maxOffset + bytesPerSector) % M32, p.extCount, buffer[..]);
      weak := -1;
      if p.extCount > 0 {
        weak := ReadWeakOffset(image, (trackOffset + p.maxOffset + bytesPerSector) % M32, p.extCount, p.index);
      }
      assert buffer[..] == ext.buf && weak == LastWeak(ext.recs, p.index);
      var ok := ReadPayload(image, trackOffset, p.offset);
      r := if p.hasError || !ok then 0 else bytesPerSector;
    }

    /** The payload read into the buffer, skipped when the chosen offset is 0; `ok` reports a successful read. */
    method ReadPayload(image: seq<u8>, trackOffset: u32, offset: u32) returns (ok: bool)
      requires Valid()
      modifies buffer
      ensures Access(ok, buffer[..]) == Payload(image, bytesPerSector, trackOffset, offset, old(buffer[..]))
    {
      ok := false;
      if offset != 0 {
        ok := ReadStorage(image, (trackOffset + offset) % M32, bytesPerSector);
      }
    }

    /**
     * `loadAtxSector`: maps `num` to a track and sector, moves the head, picks
     * the copy of the sector the head meets next (the head's angular position
     * `headPosition` is sampled by the caller), reads the weak-sector records,
     * fetches the payload into the buffer and overwrites its weak tail with
     * arbitrary bytes. Returns the bytes read, the sector size (None when the
     * call leaves it unwritten), the status and the integer rotational distance.
     */
    method LoadAtxSector(image: seq<u8>, drive: nat, num: u16, headPosition: u16)
      returns (r: u16, sectorSize: Option<u16>, status: u8, rotation: Option<int>)
      requires Valid() && drive < DRIVES && sectorsPerTrack > 0
      requires TargetTrack(num, sectorsPerTrack) != 0
      modifies this, buffer
      ensures Valid()
      ensures var res := ResolveSector(fmt, image, old(sectorsPerTrack), old(bytesPerSector), old(Row(drive)),
                                       old(currentHeadTrack), old(lastAngle), num, headPosition, old(buffer[..]));
        && r == res.bytes && sectorSize == res.sectorSize && status == res.status && rotation == res.rotation
        && currentHeadTrack == res.headTrack && lastAngle == res.lastAngle
        && lastAngleReturned == (if res.sectorSize.Some? then res.lastAngle else old(lastAngleReturned))
        && forall k :: 0 <= k < BUFFER_SIZE && !(0 <= res.weak <= k < bytesPerSector) ==> buffer[k] == res.buf[k]
      ensures sectorsPerTrack == old(sectorsPerTrack) && bytesPerSector == old(bytesPerSector)
      ensures forall d :: 0 <= d < DRIVES ==> Row(d) == old(Row(d))
    {
      ghost var rowIn, bufIn, angleIn := Row(drive), buffer[..], lastAngle;
      ghost var res := ResolveSector(fmt, image, sectorsPerTrack, bytesPerSector, rowIn,
                                     currentHeadTrack, lastAngle, num, headPosition, bufIn);
      var track := TargetTrack(num, sectorsPerTrack);
      var sector := TargetSector(num, sectorsPerTrack);
      status := STATUS_NOT_FOUND;
      if track > MAX_TRACK {
        return 0, None, status, None;
      }
      currentHeadTrack := track;

      var trackOffset := trackInfo[drive, track - 1];
      assert trackOffset == rowIn[track - 1];
      ghost var a := ReadAt(bufIn, image, trackOffset, fmt.trackHeaderSize);
      var ok := ReadStorage(image, trackOffset, fmt.trackHeaderSize);
      var th := fmt.decodeTrackHeader(buffer[..fmt.trackHeaderSize]);
      assert buffer[..] == a.buf;
      if TrackRejected(th, track) {
        assert res == SectorResult(0, None, STATUS_NOT_FOUND, track, angleIn, -1, None, a.buf);
        return 0, None, status, None;
      }

      assert res == AcceptedTrack(fmt, image, bytesPerSector, trackOffset, th, track, sector, headPosition, angleIn, a.buf);
      var weak;
      status, r, weak := ReadTrack(image, trackOffset, th, track, sector, headPosition);
      lastAngleReturned := lastAngle;
      sectorSize := Some(bytesPerSector);
      rotation := Some(RotationDistance(lastAngle, headPosition));
    }

    /**
     * The part of `loadAtxSector` after the track checks: the sector-list
     * header, the header scan, then the extended records and the payload.
     */
    method ReadTrack(image: seq<u8>, trackOffset: u32, th: TrackHeader, track: u8, sector: u8, headPosition: u16)
      returns (status: u8, r: u16, weak: int)
      requires Valid()
      modifies this`lastAngle, buffer
      ensures Valid()
      ensures var res := AcceptedTrack(fmt, image, bytesPerSector, trackOffset, th, track, sector, headPosition,
                                       old(lastAngle), old(buffer[..]));
        && status == res.status && r == res.bytes && weak == res.weak && lastAngle == res.lastAngle
        && forall k :: 0 <= k < BUFFER_SIZE && !(0 <= weak <= k < bytesPerSector) ==> buffer[k] == res.buf[k]
    {
      ghost var angleIn := lastAngle;
      ghost var res := AcceptedTrack(fmt, image, bytesPerSector, trackOffset, th, track, sector, headPosition,
                                     lastAngle, buffer[..]);
      ghost var scan := TrackScan(fmt, image, trackOffset, th, buffer[..]);
      var c: u32 := (trackOffset + th.headerSize) % M32;
      var ok := ReadStorage(image, c, fmt.sectorListHeaderSize);
      var sl := fmt.decodeSectorListHeader(buffer[..fmt.sectorListHeaderSize]);
      var c0 := ListStart(c, sl.next, th.sectorCount, fmt.sectorHeaderSize);
      assert scan == SectorScan(fmt, image, c0, th.sectorCount, buffer[..]);
      var p := ScanSectorHeaders(image, c0, th.sectorCount, sector, headPosition);
      assert p == Select(scan.read, sector, headPosition, InitialPick(angleIn)) && buffer[..] == scan.buf;
      ghost var f := FinishSector(fmt, image, bytesPerSector, trackOffset, track, p, headPosition, buffer[..]);
      assert res == f;
      assert f.status == p.status && f.lastAngle == p.angle;
      status := p.status;
      r, weak := FinishRead(image, trackOffset, track, p, headPosition);
    }
  }
}
