# ATX floppy-image reader — Dafny model

This project models `atx.c`, the ATX reader of an Atari 8-bit disk-drive
emulator running on an AVR microcontroller. ATX is a container format for
copy-protected floppy images. The reader has two entry points:

- `loadAtxFile(drive)` validates the file header (signature "AT8X", version and
  minimum version). It sets the drive geometry from the density code, then
  walks the chain of variable-length track records. Each record's file offset
  is stored under its track number in the per-drive table `gTrackInfo`.
- `loadAtxSector(drive, num, …)` maps a logical sector number to a track and a
  sector. It moves the emulated head and scans the track's sector headers.
  Among several physical copies of the sector it picks the one the spinning
  head meets next. It then reads the weak-sector records, loads the payload into
  the 256-byte staging buffer and fills the weak tail of that payload with
  random bytes. It reports the byte count and the status byte, and computes the
  rotational distance to the chosen copy in angular units.

The model has four modules:

- `AtxTypes` (`atx_types.dfy`): the target's integer widths, the on-disk
  records, and a `Format` value. `Format` holds what the header file `atx.h`
  fixes: `ATX_VERSION`, each record's `sizeof`, and how each record is decoded
  from the front of the staging buffer. The module also defines the
  offset-addressed storage read.
- `AtxIndex` (`atx_index.dfy`): the specification of `loadAtxFile`. It defines
  the chain of track records, the row of offsets the walk leaves behind and the
  whole load as a function of the old state.
- `AtxSector` (`atx_sector.dfy`): the specification of `loadAtxSector`. It
  defines the sector mapping, the header scan and its tie-break, the extended
  records, the payload read and the rotational distance, with lemmas about them.
- `AtxReader` (`atx_reader.dfy`): the class `Reader`, which holds the globals of
  `atx.c` and the staging buffer. Its methods run the code's loops in place.
  Each method's postcondition ties its outputs and the new state to the
  specification functions above. The code overwrites the weak tail of the
  payload with random bytes, so the methods that include that step
  (`FinishRead`, `ReadTrack`, `LoadAtxSector`) tie the buffer to the
  specification only outside that tail. `RandomizeWeakTail` itself states
  only which bytes may change.

Integer widths follow the AVR target, where `int` and `size_t` are 16 bits:
- `num - 1` wraps modulo 2^16, and the track and sector numbers are stored in a byte.
- `int tt = timev - headPosition` and `int weakOffset = data` are 16-bit signed values (`Int16`).
- `sectorCount * sizeof(...)` and `AU_FULL_ROTATION - headPosition + gLastAngle` wrap modulo 2^16.
- File offsets are `u32` and wrap modulo 2^32.

## Model

| member | source | states |
|---|---|---|
| AtxTypes.ReadAt | atx.c:82-84 | The storage read succeeds exactly when the requested bytes lie in the image. On success the front of the buffer holds those image bytes; every other byte is kept, and a failed read changes nothing |
| AtxIndex.SectorsPerTrack | atx.c:75 | Density code 1 gives 26 sectors per track; every other code gives 18 |
| AtxIndex.BytesPerSector | atx.c:77 | Density code 1 gives 256 bytes per sector; every other code gives 128 |
| AtxIndex.Chain | atx.c:81-88 | Every header the walk indexes names a track below 40 and sits at or after the start offset |
| AtxIndex.ChainShape | atx.c:81-88 | The walk starts at the start offset. Each next record sits `size` bytes after the previous one. Every visited header was read from the image and names a track below 40. The walk is empty exactly when the first header cannot be read or names track 40 or more |
| AtxIndex.ChainStride | atx.c:87 | A visit after the first sits exactly `size` bytes after the one before it, with no 32-bit wrap in between |
| AtxIndex.ChainEnds | atx.c:81-88 | The walk does not stop early: after the last visit, the next cursor does not advance, its header cannot be read, or it names track 40 or more |
| AtxIndex.IndexFrom | atx.c:82-84 | When the header at the cursor cannot be read, the walk stops there with the row unchanged. A walk stopped for an out-of-range track reports a track number of 40 or more |
| AtxIndex.IndexFromIsApply | atx.c:80-88 | The row the walk leaves is the old row with each visited record's offset written under its track number, in chain order |
| AtxIndex.ApplyLastWins | atx.c:86 | Writing the chain into a row: a track the chain never visits keeps its old offset, and a visited track holds the offset of its last visit |
| AtxIndex.LoadFile | atx.c:56-91 | Returns 0 exactly when the header is refused, that is when the signature is not "AT8X" or a version field differs from `ATX_VERSION`; geometry and row are then unchanged. Otherwise the return equals the new bytes per sector, the geometry follows the density code and the row is the chain applied to the old row |
| AtxIndex.LoadIndexesChain | atx.c:80-88 | After an accepted load, tracks absent from the chain keep their old offset and visited tracks hold their last visit's offset |
| AtxReader.Reader.constructor | atx.c:49-54 | Power-on state: geometry, last angle, head track and every table entry are zero |
| AtxReader.Reader.ReadStorage | atx.c:61 | The in-place read fills the staging buffer as `ReadAt` says and reports success |
| AtxReader.Reader.LoadAtxFile | atx.c:56-91 | The globals, the drive's row, the buffer and the return value become those of `LoadFile`. The other drive's row, the last angle and the head track are unchanged |
| AtxReader.Reader.IndexTracks | atx.c:80-88 | The track walk loop leaves the drive's row, the buffer and the stop reason of the walk specification. The other drive's row is unchanged |
| AtxSector.TargetTrack | atx.c:110 | For `num >= 1` the track is `(num - 1) / spt + 1` truncated to a byte. Sector 0 behaves as sector 65536: its track is `65535 / spt + 1` truncated to a byte |
| AtxSector.TargetSector | atx.c:111 | The sector always lies in [1, spt]. For `num >= 1` it is `(num - 1) mod spt + 1` |
| AtxSector.SectorMapping | atx.c:110-111 | When `num >= 1` and its track is at most 40, the sector lies in [1, spt], the track lies in [1, 40] and `(track - 1) * spt + sector == num` |
| AtxSector.Delta | atx.c:170 | The distance is a 16-bit signed value congruent to `timev - headPosition` modulo 2^16. It is 0 exactly when the header is under the head |
| AtxSector.Wins | atx.c:171 | With nothing chosen (`pTT == 0`) any candidate wins. A candidate ahead of the head beats a choice behind it. A candidate behind or under the head never beats a choice ahead. A candidate exactly under the head never replaces an existing choice |
| AtxSector.ChooseWrites | atx.c:172-185 | A choice records the header's index, angle, complemented status, payload offset and distance. The largest offset covers both the old largest and the new offset and equals one of them. The error flag is set when it was set or the status is non-zero. The record counter grows by one, modulo 256, exactly when the status has bit 0x40 |
| AtxSector.StepCases | atx.c:168-171 | A header with another sector number leaves the state alone. The first matching header (nothing chosen yet) is always chosen. Any header either leaves the state alone or is chosen |
| AtxSector.SelectSnoc | atx.c:164-190 | Unfolds the definition of `Select`, the model of the header loop at atx.c:164-190: scanning one more header is one more `Step` on the state the earlier headers left, so headers are processed in the order they were read |
| AtxSector.SelectIsLastWin | atx.c:168-186 | In every case, a matching header under the head included, the scan reports the last header chosen when it was scanned: its index, angle, status complement (`*status`), payload offset and delta |
| AtxSector.SelectNoWin | atx.c:163-190 | When no header is chosen when scanned, the state is the initial one: status 0xF7, the old last angle, offset 0 |
| AtxSector.WinsIsNearer | atx.c:170-171 | For non-zero deltas the tie-break test holds exactly when the candidate is strictly nearer going forward from the head |
| AtxSector.SelectIsNearest | atx.c:163-190 | If no matching header lies exactly under the head, the choice is the earliest matching header with the least forward distance: its index, angle, complemented status, payload offset and delta. With no match the initial state is kept |
| AtxSector.ForwardMatchesRotation | atx.c:170-171 | For angles within one rotation, nearer modulo 2^16 is the same as nearer modulo `AU_FULL_ROTATION` |
| AtxSector.SelectError | atx.c:178-181 | The error flag is set exactly when it was already set or a header chosen when it was scanned had a non-zero status |
| AtxSector.SelectMaxOffset | atx.c:177 | The largest offset bounds the initial value and every offset chosen when scanned, and is either the initial value or one of them |
| AtxSector.SelectExtCount | atx.c:182-185 | The extended-record counter is the initial count plus the number of choices flagged 0x40, modulo 256 |
| AtxSector.AdvanceClosedForm | atx.c:188 | `k` advances of `size` bytes in 32-bit arithmetic move the cursor `k * size` bytes, modulo 2^32 |
| AtxSector.SectorScan | atx.c:164-190 | At most `n` headers are read, and the cursor ends one header size past the start for each header read: a failed read does not advance it |
| AtxSector.SectorScanReads | atx.c:164-188 | The `j`-th header kept is that of loop iteration `j`, read `j` header sizes past the start and decoded from the image there. If fewer than `n` are kept, the final cursor is unreadable: after the first failed read every later iteration fails at the same offset |
| AtxSector.ExtScan | atx.c:196-205 | At most `n` records are read, and the cursor ends `n` record sizes past the start whether or not the reads succeed |
| AtxSector.ExtScanReads | atx.c:196-205 | When all `n` record slots after the start lie in the image, all `n` records are kept in order, the `i`-th decoded from the image `i` record sizes past the start |
| AtxSector.LastWeakSnoc | atx.c:197-202 | Unfolds the definition of `LastWeak`, the model of the extended-record loop at atx.c:196-205: a weak record (type 0x10) naming the chosen index sets the weak offset to its data as a 16-bit `int`, and any other record keeps it |
| AtxSector.LastWeakNone | atx.c:194-206 | With no weak record for the chosen index, the weak offset stays -1 |
| AtxSector.LastWeakIsLastMatch | atx.c:196-205 | The weak offset is the data field, as a 16-bit `int`, of the last weak (type 0x10) record naming the chosen index |
| AtxSector.RotationDistance | atx.c:227-231 | The rotational distance is a 16-bit unsigned value |
| AtxSector.RotationInRange | atx.c:227-231 | For angle and head within one rotation, the distance lies in (0, 26042] and equals the forward distance modulo the rotation |
| AtxSector.ListStart | atx.c:160 | The sector headers end exactly where the list header's `next` points: the start plus the headers' total size (a 16-bit product) equals the list-header offset plus `next`, modulo 2^32 |
| AtxSector.TrackScan | atx.c:155-164 | At most `sectorCount` headers are read, and the staging buffer keeps its 256 bytes |
| AtxSector.Payload | atx.c:212 | The payload read succeeds exactly when the chosen offset is not 0 and the sector's bytes at the track offset plus that offset lie in the image. The buffer then starts with those bytes; otherwise it is unchanged |
| AtxSector.FinishSector | atx.c:193-213 | After the scan the byte count is either 0 or the bytes per sector |
| AtxSector.AcceptedTrack | atx.c:154-241 | For a track that passed the checks, the byte count is 0 or the bytes per sector, the sector size is written as the bytes per sector, the head is on the requested track and the rotation is the distance to the reported angle |
| AtxSector.FinishOutcome | atx.c:171-213 | The status and last angle are those of the last choice. The byte count is the full sector exactly when no chosen copy was flagged, a copy was found (offset not 0) and its payload lies in the image; the buffer then starts with that payload |
| AtxSector.ResolveSector | atx.c:93-241 | A track above 40 returns 0 with status 0xF7 and leaves the head track and the sector size alone. Otherwise the head moves to the target track. The sector size stays unwritten exactly when the indexed track header has no sectors or the wrong track number; the result is then 0 with status 0xF7, the last angle unchanged and no weak offset. Otherwise the size is the bytes per sector and the rotation is the distance to the last angle |
| AtxReader.Reader.ConsiderHeader | atx.c:168-186 | One header of the scan, as the code tests and updates it, is one step of the specification |
| AtxReader.Reader.ScanSectorHeaders | atx.c:163-190 | The header loop leaves the choice of the specification's scan, the buffer the reads left and `gLastAngle` equal to the chosen angle. The cursor advances only past headers that were read |
| AtxReader.Reader.ReadWeakOffset | atx.c:194-206 | The extended-record loop returns the last weak offset of the records read. The cursor advances whether or not a read succeeds |
| AtxReader.Reader.RandomizeWeakTail | atx.c:216-220 | Only buffer bytes in [weakOffset, bytes per sector) are changed |
| AtxReader.Reader.ReadPayload | atx.c:212 | The payload is read only when the chosen offset is not 0 |
| AtxReader.Reader.FetchSector | atx.c:193-213 | The weak offset and the byte count are those of the extended-record and payload specification, and the buffer holds what the reads left |
| AtxReader.Reader.FinishRead | atx.c:193-220 | The byte count and weak offset are those of `FinishSector`. The buffer agrees with it outside the randomized weak tail |
| AtxReader.Reader.ReadTrack | atx.c:154-220 | The part after the track checks gives the status, byte count, weak offset and last angle of the accepted-track specification. The buffer agrees with it outside the randomized weak tail |
| AtxReader.Reader.LoadAtxSector | atx.c:93-241 | Every output and every global becomes that of `ResolveSector`. `last_angle_returned` mirrors the last angle once a track is accepted. The buffer agrees outside the weak tail, and the geometry and track table are unchanged |

## Left out

- Timing: the `_delay_ms` waits, the head-step loop and the `double` delay arithmetic (atx.c:32-40, 121-135, 222-237) are busy-waiting on floating-point constants. Only the integer rotational distance is kept.
- `getCurrentHeadPosition` reads the hardware timer `TCNT1` (atx.c:243-245). The sampled position is the parameter `headPosition`. `t2` only feeds the delay and is not modelled.
- `faccess_offset` belongs to the FAT layer, `fat.c`, which is not part of this model. It is assumed to succeed exactly when the bytes lie in the image, to return the requested length on success and 0 on failure, and to leave the buffer unchanged on failure.
- `atx.h` is not part of this model. `ATX_VERSION`, the record sizes and the byte layout of each record are the `Format` parameter. Each size is assumed to lie between 1 and 256 bytes.
- `rand() % 256` is modelled as an arbitrary byte, not as a pseudo-random generator.
- AtxReader.Reader.LoadAtxFile: a track header naming track 40 or more writes past the end of `gTrackInfo[drive]` in the code (atx.c:50, 86): for drive 0, tracks 40-79 overwrite drive 1's row. The model stops the walk there instead (`TrackOutOfRange`) and writes nothing.
- AtxReader.Reader.LoadAtxFile: a record of size 0 makes the code loop forever. A cursor that wraps past 2^32 lets the code continue from a lower offset. The model stops the walk when the next cursor is not greater than the current one (`NoProgress`).
- AtxReader.Reader.LoadAtxSector: the code's undefined cases are preconditions. The drive must be below 2, the sectors per track must be non-zero (no file loaded divides by zero) and the computed track must be non-zero (track 0 indexes entry -1).
- AtxReader.Reader.RandomizeWeakTail: states only which bytes may change, since the new bytes are arbitrary.
- The head state of the code is a single global shared by both drives. The model keeps it so.
- AtxSector.SelectIsNearest: holds only when no matching header lies exactly under the head. Such a header resets `pTT` to 0, and the code then lets the next matching header win at any distance (see below). `SelectIsLastWin` covers that case too: whatever the distances, the scan reports the last header chosen when it was scanned.

The model follows the code where its comments or its apparent intent say otherwise:
- Density code 1 gives 256 bytes per sector and every other code gives 128 (atx.c:75-77). The comments say the opposite: atx.c:74 calls density 1 enhanced density, and atx.c:76 gives enhanced density 128 bytes per sector.
- The status byte is overwritten by every later choice, not only by the first match (atx.c:174).
- The largest payload offset, the error flag and the extended-record count are updated only for headers chosen when they are scanned, not for every matching candidate (atx.c:171-186).
- A track that was never indexed keeps its previous offset, which is 0 after power-on. The reader then reads a track header at that offset and applies the usual checks to it (atx.c:144-152). Nothing marks the track as missing.
- Deltas are compared as 16-bit `int` values, not by adding the full-rotation constant. `ForwardMatchesRotation` shows the two agree for angles within one rotation.
- On the 16-bit target `num - 1` is 65535 for `num == 0`, so sector 0 behaves as sector 65536. With 18 or 26 sectors per track its track is 57 or 217, so the request always fails at the track check (atx.c:116-119).
- A failed sector-header read leaves the cursor where it is (atx.c:165, 188), so every later iteration of the loop reads the same offset and fails too. The loop never skips a damaged header; `SectorScanReads` states this.
- A matching header exactly under the head sets `pTT` to 0, which the tie-break also reads as "nothing chosen yet". The next matching header therefore replaces it, however far ahead it lies (atx.c:171-172).
