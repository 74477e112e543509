/**
 * Specification of the sector resolver (`loadAtxSector`): the logical-to-physical
 * mapping, the scan of a track's sector headers with its angular tie-break, the
 * extended (weak-sector) records, the status and byte count reported, and the
 * integer rotational distance to the selected copy.
 */
module AtxSector {
  import opened AtxTypes
  import opened AtxIndex

  /** Angular units in one full disk rotation. */
  const AU_FULL_ROTATION: int := 26042
  /** Status reported when no copy of the sector is found. */
  const STATUS_NOT_FOUND: u8 := 0xF7
  /** Extended record type that marks weak data. */
  const WEAK_RECORD: u8 := 0x10
  /** Highest track number a request may name. */
  const MAX_TRACK: int := 40

  // ---------------------------------------------------------------------------
  // Logical sector number to (track, sector in track)

  /**
   * Target track, 1-based. On the AVR target `num - 1` is computed in unsigned
   * 16-bit arithmetic and the result is stored in a byte: the track is the true
   * track number truncated to a byte, so a request far past track 40 can wrap
   * back into range, and sector 0 stands for sector 65536.
   */
  function TargetTrack(num: u16, spt: u8): (t: u8)
    requires spt > 0
    ensures 1 <= num ==> t == ((num - 1) / spt + 1) % 0x100
    ensures num == 0 ==> t == (0xFFFF / spt + 1) % 0x100
  {
    (((num - 1) % M16) / spt + 1) % 0x100
  }

  /** Target sector within the track, 1-based, computed like `TargetTrack`; it always lies in [1, spt]. */
  function TargetSector(num: u16, spt: u8): (s: u8)
    requires spt > 0
    ensures 1 <= s <= spt
    ensures 1 <= num ==> s == (num - 1) % spt + 1
  {
    (((num - 1) % M16) % spt + 1) % 0x100
  }

  /**
   * For a sector number whose track is at most 40, the mapping is exact: the
   * sector lies in [1, spt] and (track - 1) * spt + sector recovers `num`.
   */
  lemma SectorMapping(num: u16, spt: u8)
    requires spt > 0 && 1 <= num && (num - 1) / spt + 1 <= MAX_TRACK
    ensures 1 <= TargetSector(num, spt) <= spt
    ensures 1 <= TargetTrack(num, spt) <= MAX_TRACK
    ensures (TargetTrack(num, spt) - 1) * spt + TargetSector(num, spt) == num
  {
    var q, r := (num - 1) / spt, (num - 1) % spt;
    assert (num - 1) % M16 == num - 1;
    assert TargetTrack(num, spt) == q + 1;
    assert TargetSector(num, spt) == r + 1;
    assert num - 1 == q * spt + r;
  }

  // ---------------------------------------------------------------------------
  // The sector-header scan and its tie-break

  /** Signed distance from the head to a header's timestamp, as the 16-bit `int` of the target holds it. */
  function Delta(timev: u16, head: u16): (d: int)
    ensures -0x8000 <= d < 0x8000 && (d - (timev - head)) % M16 == 0
    ensures d == 0 <==> timev == head
  {
    Int16(timev - head)
  }

  /** The tie-break test of the scan: does a candidate at distance `tt` replace the one at `pTT`? */
  predicate Wins(tt: int, pTT: int)
    ensures pTT == 0 ==> Wins(tt, pTT)
    ensures tt > 0 && pTT < 0 ==> Wins(tt, pTT)
    ensures tt <= 0 && pTT > 0 ==> !Wins(tt, pTT)
    ensures tt == 0 && pTT != 0 ==> !Wins(tt, pTT)
  {
    || pTT == 0
    || (tt > 0 && pTT < 0)
    || (tt > 0 && pTT > 0 && tt < pTT)
    || (tt < 0 && pTT < 0 && tt < pTT)
  }

  /** Is the extended-data flag (0x40) set in a status byte? */
  predicate HasExtendedData(status: u8) {
    (status / 0x40) % 2 == 1
  }

  /**
   * The scan's running state: distance of the current choice, the last angle
   * reported, the status reported, index and payload offset of the choice,
   * largest payload offset of any choice, the error flag and the count of
   * extended records to read.
   */
  datatype Pick = Pick(
    pTT: int, angle: u16, status: u8, index: u16, offset: u32,
    maxOffset: u32, hasError: bool, extCount: u8)

  /** The state before the scan: nothing chosen, "not found" status, the drive's last angle. */
  function InitialPick(lastAngle: u16): Pick {
    Pick(0, lastAngle, STATUS_NOT_FOUND, 0, 0, 0, false, 0)
  }

  /** One sector header read during the scan: loop index, file offset, decoded header. */
  datatype Slot = Slot(index: u16, at: u32, header: SectorHeader)

  predicate Matches(s: Slot, tgt: u8) {
    s.header.number == tgt
  }

  /** What a choice of `s` writes into the running state. */
  function Choose(p: Pick, s: Slot, head: u16): Pick
  {
    var h := s.header;
    Pick(Delta(h.timev, head), h.timev, 255 - h.status, s.index, h.data,
         if h.data > p.maxOffset then h.data else p.maxOffset,
         p.hasError || h.status > 0,
         if HasExtendedData(h.status) then (p.extCount + 1) % 0x100 else p.extCount)
  }

  /** One header of the scan: a matching header that wins the tie-break becomes the choice. */
  function Step(p: Pick, s: Slot, tgt: u8, head: u16): Pick
  {
    if Matches(s, tgt) && Wins(Delta(s.header.timev, head), p.pTT) then Choose(p, s, head) else p
  }

  /**
   * A choice records the header's angle, complemented status, index, offset
   * and distance; the largest offset grows to cover the new offset and is
   * one of the two; the error flag becomes sticky on a non-zero status.
   */
  lemma ChooseWrites(p: Pick, s: Slot, head: u16)
    ensures var q := Choose(p, s, head);
      && Chose(q, s, head)
      && q.maxOffset >= p.maxOffset && q.maxOffset >= s.header.data
      && (q.maxOffset == p.maxOffset || q.maxOffset == s.header.data)
      && (q.hasError <==> p.hasError || s.header.status > 0)
      && q.extCount == (if HasExtendedData(s.header.status) then (p.extCount + 1) % 0x100 else p.extCount)
  {
  }

  /**
   * A header either leaves the state alone or is chosen: one that does not
   * match never changes it, and the first match (nothing chosen yet) is always
   * chosen.
   */
  lemma StepCases(p: Pick, s: Slot, tgt: u8, head: u16)
    ensures var q := Step(p, s, tgt, head);
      && (!Matches(s, tgt) ==> q == p)
      && (Matches(s, tgt) && p.pTT == 0 ==> q == Choose(p, s, head))
      && (q == p || q == Choose(p, s, head))
  {
  }

  /** The scan over the headers read, in order. */
  function Select(read: seq<Slot>, tgt: u8, head: u16, p0: Pick): Pick
    decreases |read|
  {
    if read == [] then p0
    else Step(Select(read[..|read| - 1], tgt, head, p0), read[|read| - 1], tgt, head)
  }

  /** Appending one header to the scan is one more step. */
  lemma SelectSnoc(read: seq<Slot>, s: Slot, tgt: u8, head: u16, p0: Pick)
    ensures Select(read + [s], tgt, head, p0) == Step(Select(read, tgt, head, p0), s, tgt, head)
  {
    assert (read + [s])[..|read|] == read;
  }

  /** A 32-bit file cursor after `k` advances of `size` bytes each. */
  function Advance(start: u32, k: nat, size: nat): u32
    decreases k
  {
    if k == 0 then start else (Advance(start, k - 1, size) + size) % M32
  }

  /** The wrapped steps add up: `k` advances move the cursor `k * size` bytes, modulo 2^32. */
  lemma {:induction false} AdvanceClosedForm(start: u32, k: nat, size: nat)
    ensures Advance(start, k, size) == (start + k * size) % M32
    decreases k
  {
    if k > 0 {
      AdvanceClosedForm(start, k - 1, size);
      var before := start + (k - 1) * size;
      assert k * size == (k - 1) * size + size;
      Mod32Add(before, size);
    }
  }

  /** Reducing modulo 2^32 before adding changes nothing modulo 2^32. */
  lemma Mod32Add(a: int, b: int)
    ensures (a % M32 + b) % M32 == (a + b) % M32
  {
    var q := a / M32;
    assert a == q * M32 + a % M32;
  }

  /** State of the header loop: cursor, headers read so far, staging buffer. */
  datatype HeaderScan = HeaderScan(cursor: u32, read: seq<Slot>, buf: seq<u8>)

  /**
   * The first `n` iterations of the header loop from cursor `c0`: a successful
   * read records the header under its loop index and advances the cursor; a
   * failed read leaves the cursor where it is. So the cursor ends one header
   * size past the start for each header read.
   */
  function SectorScan(fmt: Format, image: seq<u8>, c0: u32, n: nat, buf: seq<u8>): (s: HeaderScan)
    requires fmt.Valid() && |buf| == BUFFER_SIZE && n <= M16
    ensures |s.buf| == BUFFER_SIZE && |s.read| <= n
    ensures s.cursor == Advance(c0, |s.read|, fmt.sectorHeaderSize)
    decreases n
  {
    if n == 0 then HeaderScan(c0, [], buf)
    else
      var prev := SectorScan(fmt, image, c0, n - 1, buf);
      var a := ReadAt(prev.buf, image, prev.cursor, fmt.sectorHeaderSize);
      if a.ok then
        var h := fmt.decodeSectorHeader(a.buf[..fmt.sectorHeaderSize]);
        HeaderScan((prev.cursor + fmt.sectorHeaderSize) % M32, prev.read + [Slot(n - 1, prev.cursor, h)], a.buf)
      else prev
  }

  /** One more iteration of the header loop, from the state after `n` iterations. */
  lemma SectorScanStep(fmt: Format, image: seq<u8>, c0: u32, n: nat, buf: seq<u8>)
    requires fmt.Valid() && |buf| == BUFFER_SIZE && n < M16
    ensures var prev := SectorScan(fmt, image, c0, n, buf);
      var a := ReadAt(prev.buf, image, prev.cursor, fmt.sectorHeaderSize);
      SectorScan(fmt, image, c0, n + 1, buf)
      == if a.ok then HeaderScan((prev.cursor + fmt.sectorHeaderSize) % M32,
                                 prev.read + [Slot(n, prev.cursor, fmt.decodeSectorHeader(a.buf[..fmt.sectorHeaderSize]))],
                                 a.buf)
         else prev
  {
  }

  /** `s` is the header of iteration `j`, read `j` header sizes past `c0` and decoded from the image there. */
  ghost predicate SlotReadAt(fmt: Format, image: seq<u8>, c0: u32, s: Slot, j: nat)
    requires fmt.Valid()
  {
    var at := Advance(c0, j, fmt.sectorHeaderSize);
    && s.index as int == j
    && s.at == at
    && CanRead(image, at, fmt.sectorHeaderSize)
    && s.header == fmt.decodeSectorHeader(image[at..at + fmt.sectorHeaderSize])
  }

  /**
   * Which headers the loop holds: the `j`-th one read is that of iteration
   * `j`, read at `j` header sizes past the start and decoded from the image
   * there. Reads succeed for a prefix of the iterations only: once a read
   * fails the cursor stays put, so every later iteration fails at the same
   * offset and no damaged header is ever skipped.
   */
  lemma {:induction false} SectorScanReads(fmt: Format, image: seq<u8>, c0: u32, n: nat, buf: seq<u8>)
    requires fmt.Valid() && |buf| == BUFFER_SIZE && n <= M16
    ensures var s := SectorScan(fmt, image, c0, n, buf);
      && (forall j :: 0 <= j < |s.read| ==> SlotReadAt(fmt, image, c0, s.read[j], j))
      && (|s.read| < n ==> !CanRead(image, s.cursor, fmt.sectorHeaderSize))
    decreases n
  {
    if n > 0 {
      var size := fmt.sectorHeaderSize;
      var prev := SectorScan(fmt, image, c0, n - 1, buf);
      var s := SectorScan(fmt, image, c0, n, buf);
      SectorScanReads(fmt, image, c0, n - 1, buf);
      var a := ReadAt(prev.buf, image, prev.cursor, size);
      if a.ok {
        assert s.read == prev.read + [Slot(n - 1, prev.cursor, fmt.decodeSectorHeader(a.buf[..size]))];
        assert |prev.read| == n - 1;
        forall j | 0 <= j < |s.read| ensures SlotReadAt(fmt, image, c0, s.read[j], j) {
          if j < |prev.read| { assert s.read[j] == prev.read[j]; }
        }
      } else {
        assert s == prev;
      }
    }
  }

  /** Forward distance from the head to a timestamp, modulo the 16-bit range of the target's `int`. */
  function Forward(timev: u16, head: u16): int {
    (timev - head) % M16
  }

  /**
   * Position `k` holds the copy the head meets next: it matches, and every
   * matching copy is farther ahead or equally far and not earlier in the scan.
   */
  ghost predicate Nearest(read: seq<Slot>, tgt: u8, head: u16, k: int) {
    && 0 <= k < |read|
    && Matches(read[k], tgt)
    && forall j :: 0 <= j < |read| && Matches(read[j], tgt) ==>
         || Forward(read[k].header.timev, head) < Forward(read[j].header.timev, head)
         || (Forward(read[k].header.timev, head) == Forward(read[j].header.timev, head) && k <= j)
  }

  ghost predicate HasMatch(read: seq<Slot>, tgt: u8) {
    exists j :: 0 <= j < |read| && Matches(read[j], tgt)
  }

  /** The running state reflects the choice of `s`. */
  ghost predicate Chose(p: Pick, s: Slot, head: u16) {
    && p.index == s.index
    && p.angle == s.header.timev
    && p.status == 255 - s.header.status
    && p.offset == s.header.data
    && p.pTT == Delta(s.header.timev, head)
  }

  /** For non-zero 16-bit distances the tie-break test is "strictly nearer going forward". */
  lemma WinsIsNearer(timev: u16, other: u16, head: u16)
    requires Delta(timev, head) != 0 && Delta(other, head) != 0
    ensures Wins(Delta(timev, head), Delta(other, head)) <==> Forward(timev, head) < Forward(other, head)
  {
    ForwardOfDelta(timev, head);
    ForwardOfDelta(other, head);
  }

  lemma ForwardOfDelta(timev: u16, head: u16)
    ensures Forward(timev, head) == (if Delta(timev, head) > 0 then Delta(timev, head) else Delta(timev, head) + M16)
                                      || Delta(timev, head) == 0
  {
    var x := timev - head;
    var w := x % M16;
    assert Delta(timev, head) == (if w < 0x8000 then w else w - M16);
  }

  /** A choice that stays nearest when a non-matching or no-nearer header is appended. */
  lemma NearestKept(pre: seq<Slot>, last: Slot, tgt: u8, head: u16, k: int)
    requires Nearest(pre, tgt, head, k)
    requires Matches(last, tgt) ==> Forward(pre[k].header.timev, head) <= Forward(last.header.timev, head)
    ensures Nearest(pre + [last], tgt, head, k)
  {
    var read := pre + [last];
    forall j | 0 <= j < |read| && Matches(read[j], tgt)
      ensures || Forward(read[k].header.timev, head) < Forward(read[j].header.timev, head)
              || (Forward(read[k].header.timev, head) == Forward(read[j].header.timev, head) && k <= j)
    {
      if j < |pre| { assert read[j] == pre[j]; }
    }
  }

  /** An appended matching header strictly nearer than the current choice, or the first match, is nearest. */
  lemma NearestReplaced(pre: seq<Slot>, last: Slot, tgt: u8, head: u16)
    requires Matches(last, tgt)
    requires forall j :: 0 <= j < |pre| && Matches(pre[j], tgt) ==>
               Forward(last.header.timev, head) < Forward(pre[j].header.timev, head)
    ensures Nearest(pre + [last], tgt, head, |pre|)
  {
    var read := pre + [last];
    forall j | 0 <= j < |read| && Matches(read[j], tgt)
      ensures || Forward(last.header.timev, head) < Forward(read[j].header.timev, head)
              || (Forward(last.header.timev, head) == Forward(read[j].header.timev, head) && |pre| <= j)
    {
      if j < |pre| { assert read[j] == pre[j]; }
    }
  }

  /**
   * The tie-break picks the copy the head meets next. Provided no matching
   * header sits exactly under the head, the scan ends with the earliest
   * matching header of least forward distance chosen (its index, angle,
   * complemented status and payload offset); with no matching header the
   * initial state is untouched.
   */
  lemma {:induction false} SelectIsNearest(read: seq<Slot>, tgt: u8, head: u16, lastAngle: u16)
    requires forall j :: 0 <= j < |read| && Matches(read[j], tgt) ==> Delta(read[j].header.timev, head) != 0
    ensures !HasMatch(read, tgt) ==> Select(read, tgt, head, InitialPick(lastAngle)) == InitialPick(lastAngle)
    ensures HasMatch(read, tgt) ==>
      exists k :: Nearest(read, tgt, head, k) && Chose(Select(read, tgt, head, InitialPick(lastAngle)), read[k], head)
    decreases |read|
  {
    if read != [] {
      var n := |read| - 1;
      var pre := read[..n];
      var last := read[n];
      assert read == pre + [last];
      var p0 := InitialPick(lastAngle);
      var p' := Select(pre, tgt, head, p0);
      assert forall j :: 0 <= j < n ==> pre[j] == read[j];
      SelectIsNearest(pre, tgt, head, lastAngle);
      if !HasMatch(pre, tgt) {
        if Matches(last, tgt) {
          NearestReplaced(pre, last, tgt, head);
          assert Chose(Select(read, tgt, head, p0), read[n], head);
        } else {
          assert !HasMatch(read, tgt) by {
            forall j | 0 <= j < |read| ensures !Matches(read[j], tgt) {
              if j < n { assert read[j] == pre[j]; }
            }
          }
        }
      } else {
        var k :| Nearest(pre, tgt, head, k) && Chose(p', pre[k], head);
        if Matches(last, tgt) {
          WinsIsNearer(last.header.timev, pre[k].header.timev, head);
          if Forward(last.header.timev, head) < Forward(pre[k].header.timev, head) {
            NearestReplaced(pre, last, tgt, head);
            assert Chose(Select(read, tgt, head, p0), read[n], head);
          } else {
            NearestKept(pre, last, tgt, head, k);
            assert Chose(Select(read, tgt, head, p0), read[k], head);
          }
        } else {
          NearestKept(pre, last, tgt, head, k);
          assert Chose(Select(read, tgt, head, p0), read[k], head);
        }
      }
    }
  }

  /**
   * With the head and every matching timestamp inside one rotation, nearer
   * modulo 2^16 is the same as nearer modulo the rotation, so the choice is the
   * copy of least wrapped distance modulo AU_FULL_ROTATION.
   */
  lemma ForwardMatchesRotation(t1: u16, t2: u16, head: u16)
    requires t1 < AU_FULL_ROTATION && t2 < AU_FULL_ROTATION && head < AU_FULL_ROTATION
    ensures Forward(t1, head) < Forward(t2, head)
            <==> (t1 - head) % AU_FULL_ROTATION < (t2 - head) % AU_FULL_ROTATION
  {
    var a, b := t1 - head, t2 - head;
    assert Forward(t1, head) == if a >= 0 then a else a + M16;
    assert Forward(t2, head) == if b >= 0 then b else b + M16;
    assert a % AU_FULL_ROTATION == if a >= 0 then a else a + AU_FULL_ROTATION;
    assert b % AU_FULL_ROTATION == if b >= 0 then b else b + AU_FULL_ROTATION;
  }

  /** Was position `j` chosen at the moment it was scanned? */
  ghost predicate WonAt(read: seq<Slot>, tgt: u8, head: u16, p0: Pick, j: int)
    requires 0 <= j < |read|
  {
    Matches(read[j], tgt) && Wins(Delta(read[j].header.timev, head), Select(read[..j], tgt, head, p0).pTT)
  }

  /** Dropping the last header does not change whether an earlier header was chosen when scanned. */
  lemma WonAtPrefix(read: seq<Slot>, tgt: u8, head: u16, p0: Pick)
    requires read != []
    ensures forall j :: 0 <= j < |read| - 1 ==>
              (WonAt(read[..|read| - 1], tgt, head, p0, j) <==> WonAt(read, tgt, head, p0, j))
  {
    var n := |read| - 1;
    var pre := read[..n];
    forall j | 0 <= j < n
      ensures WonAt(pre, tgt, head, p0, j) <==> WonAt(read, tgt, head, p0, j)
    {
      assert pre[..j] == read[..j] && pre[j] == read[j];
    }
  }

  /**
   * Only choices count, and the error flag is sticky: the flag ends up set
   * exactly when it was set before or some header with a non-zero status was
   * chosen at the time it was scanned.
   */
  lemma {:induction false} SelectError(read: seq<Slot>, tgt: u8, head: u16, p0: Pick)
    ensures Select(read, tgt, head, p0).hasError
            <==> p0.hasError || exists j :: 0 <= j < |read| && WonAt(read, tgt, head, p0, j) && read[j].header.status > 0
    decreases |read|
  {
    if read != [] {
      var n := |read| - 1;
      var prev := Select(read[..n], tgt, head, p0);
      SelectError(read[..n], tgt, head, p0);
      WonAtPrefix(read, tgt, head, p0);
      if WonAt(read, tgt, head, p0, n) {
        assert Select(read, tgt, head, p0) == Choose(prev, read[n], head);
      } else {
        assert Select(read, tgt, head, p0) == prev;
      }
    }
  }

  /**
   * Only choices count for the largest payload offset: it bounds the initial
   * value and the offsets of all headers chosen when scanned, and is either the
   * initial value or one of them.
   */
  lemma {:induction false} SelectMaxOffset(read: seq<Slot>, tgt: u8, head: u16, p0: Pick)
    ensures var p := Select(read, tgt, head, p0);
      && p.maxOffset >= p0.maxOffset
      && (forall j :: 0 <= j < |read| && WonAt(read, tgt, head, p0, j) ==> p.maxOffset >= read[j].header.data)
      && (p.maxOffset == p0.maxOffset
          || exists j :: 0 <= j < |read| && WonAt(read, tgt, head, p0, j) && p.maxOffset == read[j].header.data)
    decreases |read|
  {
    if read != [] {
      var n := |read| - 1;
      var prev := Select(read[..n], tgt, head, p0);
      SelectMaxOffset(read[..n], tgt, head, p0);
      WonAtPrefix(read, tgt, head, p0);
      if WonAt(read, tgt, head, p0, n) {
        assert Select(read, tgt, head, p0) == Choose(prev, read[n], head);
      } else {
        assert Select(read, tgt, head, p0) == prev;
      }
    }
  }

  /** How many headers were chosen at the time they were scanned with the extended-data flag set. */
  ghost function FlaggedWins(read: seq<Slot>, tgt: u8, head: u16, p0: Pick): nat
    decreases |read|
  {
    if read == [] then 0
    else
      var n := |read| - 1;
      FlaggedWins(read[..n], tgt, head, p0)
        + (if WonAt(read, tgt, head, p0, n) && HasExtendedData(read[n].header.status) then 1 else 0)
  }

  /** Incrementing a byte-wide counter that holds `(c + k) % 256` gives `(c + k + 1) % 256`. */
  lemma ByteCounterStep(c: int, k: nat)
    ensures ((c + k) % 0x100 + 1) % 0x100 == (c + k + 1) % 0x100
  {
  }

  /**
   * One extended record is due per choice flagged 0x40: the byte-wide counter
   * ends at the initial count plus the number of flagged choices, modulo 256.
   */
  lemma {:induction false} SelectExtCount(read: seq<Slot>, tgt: u8, head: u16, p0: Pick)
    ensures Select(read, tgt, head, p0).extCount == (p0.extCount + FlaggedWins(read, tgt, head, p0)) % 0x100
    decreases |read|
  {
    if read != [] {
      var n := |read| - 1;
      var prev := Select(read[..n], tgt, head, p0);
      SelectExtCount(read[..n], tgt, head, p0);
      var k := FlaggedWins(read[..n], tgt, head, p0);
      var q := Select(read, tgt, head, p0);
      if WonAt(read, tgt, head, p0, n) && HasExtendedData(read[n].header.status) {
        assert q.extCount == (prev.extCount + 1) % 0x100;
        assert FlaggedWins(read, tgt, head, p0) == k + 1;
        ByteCounterStep(p0.extCount, k);
      } else {
        assert q.extCount == prev.extCount;
        assert FlaggedWins(read, tgt, head, p0) == k;
      }
    }
  }

  /** Position `j` was the last header chosen when scanned: no later header won. */
  ghost predicate LastWin(read: seq<Slot>, tgt: u8, head: u16, p0: Pick, j: int) {
    && 0 <= j < |read|
    && WonAt(read, tgt, head, p0, j)
    && forall k :: j < k < |read| ==> !WonAt(read, tgt, head, p0, k)
  }

  /**
   * Whatever the distances (a copy under the head included), the scan reports
   * the last header chosen when scanned: its index, angle, complemented status,
   * payload offset and distance.
   */
  lemma {:induction false} SelectIsLastWin(read: seq<Slot>, tgt: u8, head: u16, p0: Pick, j: int)
    requires LastWin(read, tgt, head, p0, j)
    ensures Chose(Select(read, tgt, head, p0), read[j], head)
    decreases |read|
  {
    var n := |read| - 1;
    var pre := read[..n];
    var prev := Select(pre, tgt, head, p0);
    if j == n {
      assert Select(read, tgt, head, p0) == Choose(prev, read[n], head);
      ChooseWrites(prev, read[n], head);
    } else {
      assert !WonAt(read, tgt, head, p0, n);
      assert Select(read, tgt, head, p0) == prev;
      WonAtPrefix(read, tgt, head, p0);
      forall k | j < k < |pre| ensures !WonAt(pre, tgt, head, p0, k) {
        assert !WonAt(read, tgt, head, p0, k);
      }
      assert LastWin(pre, tgt, head, p0, j);
      SelectIsLastWin(pre, tgt, head, p0, j);
      assert pre[j] == read[j];
    }
  }

  /** With no header chosen when scanned, the scan leaves its initial state untouched. */
  lemma {:induction false} SelectNoWin(read: seq<Slot>, tgt: u8, head: u16, p0: Pick)
    requires forall j :: 0 <= j < |read| ==> !WonAt(read, tgt, head, p0, j)
    ensures Select(read, tgt, head, p0) == p0
    decreases |read|
  {
    if read != [] {
      var n := |read| - 1;
      var pre := read[..n];
      assert !WonAt(read, tgt, head, p0, n);
      assert Select(read, tgt, head, p0) == Select(pre, tgt, head, p0);
      WonAtPrefix(read, tgt, head, p0);
      forall k | 0 <= k < |pre| ensures !WonAt(pre, tgt, head, p0, k) {
        assert !WonAt(read, tgt, head, p0, k);
      }
      SelectNoWin(pre, tgt, head, p0);
    }
  }

  // ---------------------------------------------------------------------------
  // Extended (weak-sector) records

  /** State of the extended-record loop: cursor, records read, staging buffer. */
  datatype ExtScanState = ExtScanState(cursor: u32, recs: seq<ExtendedSectorData>, buf: seq<u8>)

  /**
   * The first `n` iterations of the extended-record loop. The cursor advances
   * whether or not a read succeeds, so it ends `n` record sizes past the start.
   */
  function ExtScan(fmt: Format, image: seq<u8>, e0: u32, n: nat, buf: seq<u8>): (x: ExtScanState)
    requires fmt.Valid() && |buf| == BUFFER_SIZE
    ensures |x.buf| == BUFFER_SIZE && |x.recs| <= n
    ensures x.cursor == Advance(e0, n, fmt.extendedSize)
    decreases n
  {
    if n == 0 then ExtScanState(e0, [], buf)
    else
      var prev := ExtScan(fmt, image, e0, n - 1, buf);
      var a := ReadAt(prev.buf, image, prev.cursor, fmt.extendedSize);
      var recs := if a.ok then prev.recs + [fmt.decodeExtended(a.buf[..fmt.extendedSize])] else prev.recs;
      ExtScanState((prev.cursor + fmt.extendedSize) % M32, recs, a.buf)
  }

  /** One more iteration of the extended-record loop, from the state after `n` iterations. */
  lemma ExtScanStep(fmt: Format, image: seq<u8>, e0: u32, n: nat, buf: seq<u8>)
    requires fmt.Valid() && |buf| == BUFFER_SIZE
    ensures var prev := ExtScan(fmt, image, e0, n, buf);
      var a := ReadAt(prev.buf, image, prev.cursor, fmt.extendedSize);
      ExtScan(fmt, image, e0, n + 1, buf)
      == ExtScanState((prev.cursor + fmt.extendedSize) % M32,
                      if a.ok then prev.recs + [fmt.decodeExtended(a.buf[..fmt.extendedSize])] else prev.recs,
                      a.buf)
  {
  }

  /** `x` is the record read `i` record sizes past `e0`, decoded from the image there. */
  ghost predicate RecordReadAt(fmt: Format, image: seq<u8>, e0: u32, x: ExtendedSectorData, i: nat)
    requires fmt.Valid()
  {
    var at := Advance(e0, i, fmt.extendedSize);
    CanRead(image, at, fmt.extendedSize) && x == fmt.decodeExtended(image[at..at + fmt.extendedSize])
  }

  /**
   * Which records the loop holds: when every one of the `n` slots after the
   * start can be read, all `n` records are kept, the `i`-th decoded from the
   * image `i` record sizes past the start.
   */
  lemma {:induction false} ExtScanReads(fmt: Format, image: seq<u8>, e0: u32, n: nat, buf: seq<u8>)
    requires fmt.Valid() && |buf| == BUFFER_SIZE
    requires forall i :: 0 <= i < n ==> CanRead(image, Advance(e0, i, fmt.extendedSize), fmt.extendedSize)
    ensures var x := ExtScan(fmt, image, e0, n, buf);
      && |x.recs| == n
      && forall i :: 0 <= i < n ==> RecordReadAt(fmt, image, e0, x.recs[i], i)
    decreases n
  {
    if n > 0 {
      var size := fmt.extendedSize;
      var prev := ExtScan(fmt, image, e0, n - 1, buf);
      var x := ExtScan(fmt, image, e0, n, buf);
      ExtScanReads(fmt, image, e0, n - 1, buf);
      var a := ReadAt(prev.buf, image, prev.cursor, size);
      assert CanRead(image, Advance(e0, n - 1, size), size);
      assert a.ok;
      assert x.recs == prev.recs + [fmt.decodeExtended(a.buf[..size])];
      forall i | 0 <= i < n
        ensures RecordReadAt(fmt, image, e0, x.recs[i], i)
      {
        if i < n - 1 { assert x.recs[i] == prev.recs[i]; }
      }
    }
  }

  predicate IsWeakFor(x: ExtendedSectorData, index: u16) {
    x.sectorIndex == index && x.kind == WEAK_RECORD
  }

  /** Weak offset kept by the loop: -1, overwritten by each weak record of the chosen index (as a 16-bit `int`). */
  function LastWeak(recs: seq<ExtendedSectorData>, index: u16): int
    decreases |recs|
  {
    if recs == [] then -1
    else if IsWeakFor(recs[|recs| - 1], index) then Int16(recs[|recs| - 1].data)
    else LastWeak(recs[..|recs| - 1], index)
  }

  /** Appending a record: a weak record of the chosen index sets the offset, any other keeps it. */
  lemma LastWeakSnoc(recs: seq<ExtendedSectorData>, x: ExtendedSectorData, index: u16)
    ensures LastWeak(recs + [x], index) == if IsWeakFor(x, index) then Int16(x.data) else LastWeak(recs, index)
  {
    assert (recs + [x])[..|recs|] == recs;
  }

  /** With no weak record for the chosen index, the weak offset stays -1. */
  lemma {:induction false} LastWeakNone(recs: seq<ExtendedSectorData>, index: u16)
    requires forall j :: 0 <= j < |recs| ==> !IsWeakFor(recs[j], index)
    ensures LastWeak(recs, index) == -1
    decreases |recs|
  {
    if recs != [] {
      var pre := recs[..|recs| - 1];
      assert forall j :: 0 <= j < |pre| ==> pre[j] == recs[j];
      LastWeakNone(pre, index);
    }
  }

  /** The weak offset is that of the last weak record naming the chosen index. */
  lemma {:induction false} LastWeakIsLastMatch(recs: seq<ExtendedSectorData>, index: u16, k: int)
    requires 0 <= k < |recs| && IsWeakFor(recs[k], index)
    requires forall j :: k < j < |recs| ==> !IsWeakFor(recs[j], index)
    ensures LastWeak(recs, index) == Int16(recs[k].data)
    decreases |recs|
  {
    var n := |recs| - 1;
    if k < n {
      var pre := recs[..n];
      assert forall j :: 0 <= j < n ==> pre[j] == recs[j];
      LastWeakIsLastMatch(pre, index, k);
    }
  }

  // ---------------------------------------------------------------------------
  // Rotational distance

  /**
   * Integer rotational distance from the head to the reported angle: the
   * plain difference when the angle is ahead, otherwise the distance around
   * the rest of the rotation, in the unsigned 16-bit arithmetic of the target.
   */
  function RotationDistance(angle: u16, head: u16): (d: int)
    ensures 0 <= d < M16
  {
    if angle > head then angle - head else (AU_FULL_ROTATION - head + angle) % M16
  }

  /**
   * For angles inside one rotation the distance lies in (0, AU_FULL_ROTATION]
   * and is the forward distance modulo the rotation (a full rotation when the
   * angle is under the head).
   */
  lemma RotationInRange(angle: u16, head: u16)
    requires angle < AU_FULL_ROTATION && head < AU_FULL_ROTATION
    ensures 0 < RotationDistance(angle, head) <= AU_FULL_ROTATION
    ensures RotationDistance(angle, head) % AU_FULL_ROTATION == (angle - head) % AU_FULL_ROTATION
  {
  }

  // ---------------------------------------------------------------------------
  // The whole request

  /** Outcome of a request; `sectorSize` is None when the call leaves it unwritten. */
  datatype SectorResult = SectorResult(
    bytes: u16, sectorSize: Option<u16>, status: u8, headTrack: u8, lastAngle: u16,
    weak: int, rotation: Option<int>, buf: seq<u8>)

  /**
   * Where the per-sector headers start: `sectorCount` headers before the offset
   * `next` names, so that they end exactly there. The product is the target's
   * 16-bit `size_t` and the sum a 32-bit offset.
   */
  function ListStart(c1: u32, next: u32, sectorCount: u16, headerSize: nat): (r: u32)
    ensures (r + (sectorCount * headerSize) % M16) % M32 == (c1 + next) % M32
  {
    (c1 + next - (sectorCount * headerSize) % M16) % M32
  }

  /** Track header as decoded after the (unchecked) read at the indexed offset. */
  function TrackHeaderRead(fmt: Format, image: seq<u8>, off: u32, buf: seq<u8>): TrackHeader
    requires fmt.Valid() && |buf| == BUFFER_SIZE
  {
    fmt.decodeTrackHeader(ReadAt(buf, image, off, fmt.trackHeaderSize).buf[..fmt.trackHeaderSize])
  }

  /** The track header is unusable: no sectors, or a track number other than the one requested. */
  predicate TrackRejected(th: TrackHeader, track: int) {
    th.sectorCount == 0 || th.trackNumber != track - 1
  }

  /** Headers read for a request that passed the track checks. */
  function TrackScan(fmt: Format, image: seq<u8>, trackOffset: u32, th: TrackHeader, buf: seq<u8>): (s: HeaderScan)
    requires fmt.Valid() && |buf| == BUFFER_SIZE
    ensures |s.buf| == BUFFER_SIZE && |s.read| <= th.sectorCount
  {
    var c1 := (trackOffset + th.headerSize) % M32;
    var b := ReadAt(buf, image, c1, fmt.sectorListHeaderSize);
    var sl := fmt.decodeSectorListHeader(b.buf[..fmt.sectorListHeaderSize]);
    SectorScan(fmt, image, ListStart(c1, sl.next, th.sectorCount, fmt.sectorHeaderSize), th.sectorCount, b.buf)
  }

  /** The payload read at the chosen offset; an offset of 0 means no copy was found and nothing is read. */
  function Payload(image: seq<u8>, bps: u16, trackOffset: u32, offset: u32, buf: seq<u8>): (a: Access)
    requires bps <= |buf|
    ensures |a.buf| == |buf|
    ensures var at := (trackOffset + offset) % M32;
      && (a.ok <==> offset != 0 && CanRead(image, at, bps))
      && (a.ok ==> a.buf[..bps] == image[at..at + bps])
      && (!a.ok ==> a.buf == buf)
  {
    if offset != 0 then ReadAt(buf, image, (trackOffset + offset) % M32, bps) else Access(false, buf)
  }

  /**
   * The request after the scan: the extended records behind the largest chosen
   * payload, the payload read (skipped when no copy was found), the byte count
   * (0 when a chosen copy was flagged or the read failed) and the rotation.
   */
  function FinishSector(fmt: Format, image: seq<u8>, bps: u16, trackOffset: u32, track: u8,
                        p: Pick, head: u16, buf: seq<u8>): (r: SectorResult)
    requires fmt.Valid() && bps <= BUFFER_SIZE && |buf| == BUFFER_SIZE
    ensures |r.buf| == BUFFER_SIZE
    ensures r.bytes == 0 || r.bytes == bps
  {
    var ext := ExtScan(fmt, image, (trackOffset + p.maxOffset + bps) % M32, p.extCount, buf);
    var payload := Payload(image, bps, trackOffset, p.offset, ext.buf);
    var bytes := if p.hasError || !payload.ok then 0 else bps;
    SectorResult(bytes, Some(bps), p.status, track, p.angle, LastWeak(ext.recs, p.index),
                 Some(RotationDistance(p.angle, head)), payload.buf)
  }

  /** A request whose track header passed the checks: the header scan, the choice, then the rest of the read. */
  function AcceptedTrack(fmt: Format, image: seq<u8>, bps: u16, trackOffset: u32, th: TrackHeader, track: u8,
                         sector: u8, head: u16, lastAngle: u16, buf: seq<u8>): (r: SectorResult)
    requires fmt.Valid() && bps <= BUFFER_SIZE && |buf| == BUFFER_SIZE
    ensures |r.buf| == BUFFER_SIZE
    ensures r.bytes == 0 || r.bytes == bps
    ensures r.sectorSize == Some(bps) && r.headTrack == track
    ensures r.rotation == Some(RotationDistance(r.lastAngle, head))
  {
    var scan := TrackScan(fmt, image, trackOffset, th, buf);
    var p := Select(scan.read, sector, head, InitialPick(lastAngle));
    FinishSector(fmt, image, bps, trackOffset, track, p, head, scan.buf)
  }

  /**
   * What the end of a request reports: the status and angle of the last
   * choice, and a full sector exactly when no chosen copy was flagged, a copy
   * was found and its payload lies inside the image, in which case the buffer
   * starts with that payload.
   */
  lemma FinishOutcome(fmt: Format, image: seq<u8>, bps: u16, trackOffset: u32, track: u8,
                      p: Pick, head: u16, buf: seq<u8>)
    requires fmt.Valid() && bps <= BUFFER_SIZE && |buf| == BUFFER_SIZE
    ensures var r := FinishSector(fmt, image, bps, trackOffset, track, p, head, buf);
      var at := (trackOffset + p.offset) % M32;
      && r.status == p.status && r.lastAngle == p.angle && r.headTrack == track
      && r.bytes == (if !p.hasError && p.offset != 0 && CanRead(image, at, bps) then bps else 0)
      && (p.offset != 0 && CanRead(image, at, bps) ==> r.buf[..bps] == image[at..at + bps])
  {
  }

  /**
   * `loadAtxSector` on the values it reads and writes: drive geometry, the
   * drive's track row, the head track, the last angle and the staging buffer
   * before the weak tail is overwritten.
   */
  function ResolveSector(fmt: Format, image: seq<u8>, spt: u8, bps: u16, row: seq<u32>,
                         headTrack: u8, lastAngle: u16, num: u16, head: u16, buf: seq<u8>): (r: SectorResult)
    requires fmt.Valid() && spt > 0 && bps <= BUFFER_SIZE && |row| == TRACKS && |buf| == BUFFER_SIZE
    requires TargetTrack(num, spt) != 0
    ensures |r.buf| == BUFFER_SIZE
    ensures r.bytes == 0 || r.bytes == bps
    ensures TargetTrack(num, spt) > MAX_TRACK ==>
              r.bytes == 0 && r.status == STATUS_NOT_FOUND && r.headTrack == headTrack && r.sectorSize == None
    ensures TargetTrack(num, spt) <= MAX_TRACK ==> r.headTrack == TargetTrack(num, spt)
    ensures TargetTrack(num, spt) <= MAX_TRACK ==>
              (r.sectorSize == None <==>
                 TrackRejected(TrackHeaderRead(fmt, image, row[TargetTrack(num, spt) - 1], buf), TargetTrack(num, spt)))
    ensures r.sectorSize == None ==>
              r.bytes == 0 && r.status == STATUS_NOT_FOUND && r.lastAngle == lastAngle && r.weak == -1 && r.rotation == None
    ensures r.sectorSize != None ==>
              r.sectorSize == Some(bps) && r.rotation == Some(RotationDistance(r.lastAngle, head))
  {
    var track := TargetTrack(num, spt);
    if track > MAX_TRACK then SectorResult(0, None, STATUS_NOT_FOUND, headTrack, lastAngle, -1, None, buf)
    else
      var trackOffset := row[track - 1];
      var a := ReadAt(buf, image, trackOffset, fmt.trackHeaderSize);
      var th := fmt.decodeTrackHeader(a.buf[..fmt.trackHeaderSize]);
      if TrackRejected(th, track) then SectorResult(0, None, STATUS_NOT_FOUND, track, lastAngle, -1, None, a.buf)
      else AcceptedTrack(fmt, image, bps, trackOffset, th, track, TargetSector(num, spt), head, lastAngle, a.buf)
  }
}
