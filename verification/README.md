# Windows 9x QuickInstall: a verified model of its hard core

This project models five parts of Windows 9x QuickInstall and proves what they promise.

* **The threaded read-ahead reader** (`ReaderSpec`, `ThreadedReader`, `ReaderAnswers`, `ReaderSafety`,
  `ReaderProgress`, `FlatReader`, `BlockList`, `HeapReader`). A producer thread fills a bounded list of blocks, a
  consumer thread drains it, and read failures go through a handshake with retry or cancel. `ThreadedReader` is a step
  system: both program counters, the list, the descriptor offset and the flags. A *schedule* is any sequence of events
  that name the thread that steps and what its surroundings answered (how much `read` and `write` moved, what the
  callback said, what the caller asks next), so a statement about all schedules is one about every interleaving and
  every pattern of short reads, failures and retries. `ReaderSpec.CallResult` is what a call does when nobody gets in
  its way; `ReaderAnswers` ties cancellations and write failures to the events that answered so; `FlatReader` is the
  single-threaded reader; `BlockList` is the linked list on the heap, and `HeapReader` runs the step system with it.
  The block size is any `B > 0`.
* **MercyPak** (`Dedup`, `MercyPak`, `Format`, `Unpacker`, `AsRead`, `RoundTrip`, `Misread`, `MisreadExamples`). The
  packer's grouping of equal files and its writer, the format byte by byte, and the installer's unpacker for V1 and V2,
  which reads through the calls of the threaded reader into the buffers the code has: the path buffer and the V2 stamps
  start cleared and then hold what was read last, the V2 size is cleared before each read, the V1 descriptor starts with
  whatever its memory held.
* **The LZSS decoder** (`Lzss`): a 4096 byte ring window against copies from a distance in the output so far.
* **Boot media** (`BootSector`, `SysLinux`, `SysLinuxLayout`): cached boot sector patching, FAT32 backup, MBR
  activation; extent coalescing, sector coverage, checksum and patched fields of `ldlinux.sys`, and the boot sector that
  points to it.
* **The wizard and the install sequencer** (`Wizard`, `WizardTransitions`, `InstallSequence`): `state++` and `state--`
  over the enum, with the OS file, the disk array and the destination; where each menu answer leads; and the order,
  error handling and progress bars of `qi_install`.

Code that updates things in place is a class or a method with loops, proved equal to a function of its inputs or of
the old state; the lemmas then say what those functions guarantee.

Where the code does something else than its comments or contracts say, the model follows the code:

* `mappedFile_read` never advances `dst`. It delivers file[pos..pos+len) exactly when the read stays in one block
  (`ReaderSpec.ReadIsExactIffInOneBlock`). `mappedFile_copyToFiles` is not affected. A header field of an archive that
  straddles a block is laid over what its buffer held, so an archive comes back exactly when the last blob is not empty,
  every size and directory is still read as itself, and the files as they are read are the packed ones
  (`Misread.RoundTripIff`). With the installer's block of 1 MiB, take two files of 1048548 and 1 bytes with one-byte
  paths, the first with a stamp of zeros: they come back exactly when the stamp of the second is zero too
  (`MisreadExamples.MisreadByTheInstaller`).
* A request beyond the end of the file spins for ever unless the file ends on a block boundary
  (`ReaderSpec.TransferOutOfRange`); a zero-length copy at the end of the file answers false, so an archive whose last
  blob is empty reports failure (`RoundTrip.UnpackPacked`).
* With room for fewer than two blocks an in-range call can fail with no error at all
  (`ReaderSafety.NoSpuriousFailureIff`), and `mappedFile_close` can hang on a read failure nobody answers
  (`ReaderProgress.CloseReturnsIff`).
* The 64 KiB test in the extent loop compares two bytes of one aligned sector and never fails
  (`SysLinux.UpperHalfTestNeverFails`); what bounds an extent is 127 sectors.
* The guard against a backreference that begins on the last payload byte can never fire; an exception is raised
  there, and the decoder model answers `None`.
* The FAT32 backup sectors always equal the boot sectors they were copied from; the boot sectors themselves are left
  alone exactly for backup index 0 or at least 3 (`BootSector.BackupKeepsBootSectorsIff`).

## Model

| member | source | states |
|---|---|---|
| ReaderSpec.ReadIsExactIffInOneBlock | installer/mappedfile_mt.c:263-294 | An in-range `mappedFile_read` fills its buffer with the next bytes of the file, whatever the buffer held, if and only if the read stays inside one block |
| ReaderSpec.TransferCopy | installer/mappedfile_mt.c:297-338 | Moving block by block appends exactly the requested bytes to every target and ends behind the last of them, for every block size |
| ReaderSpec.TransferOutOfRange | installer/mappedfile_mt.c:302-335 | Asking for more than is left never returns if and only if the file does not end on a block boundary; otherwise it fails at the end of the file |
| ReaderSpec.StraddlingReadKeepsLastByte | installer/mappedfile_mt.c:268-291 | A read that leaves its block keeps the last byte its buffer held before |
| ThreadedReader.InvNext | installer/mappedfile_mt.c:81-217 | Every step of either thread keeps the invariant: list contents and bounds, descriptor offset, error handshake, position in the first block, bytes delivered, log of calls |
| ThreadedReader.InvExec | installer/mappedfile_mt.c:81-338 | The invariant holds after every schedule, so under every interleaving, short read, failure, retry and cancellation |
| ThreadedReader.ChunkIsFileBytes | installer/mappedfile_mt.c:304-321 | The bytes taken from the first listed block in one round are the next bytes of the file and lie inside the block |
| ThreadedReader.DrainedToTheEnd | installer/mappedfile_mt.c:103-130 | With maxBlocks >= 2 and no cancellation, finding no block means that a file ending on a block boundary has been drained to its end |
| ReaderSafety.ListIsTheReadAheadWindow | installer/mappedfile_mt.c:81-94 | After every schedule the list is exactly the file blocks from the number disposed up to readaheadPos, its length is blockCount, and blockCount <= maxBlocks although fullness is tested without the lock |
| ReaderSafety.ErrorHandshake | installer/mappedfile_mt.c:171-217 | hasError is up only while the producer waits, each failure gets exactly one reaction, and a block read, first try or retry, starts with the descriptor at readaheadPos and never skips or repeats a byte |
| ReaderAnswers.CountersAreAnswers | installer/mappedfile_mt.c:113-126 | A run has been cancelled exactly as often as a callback was called and said cancel, and has had exactly as many write failures as write() took less than it was given |
| ReaderAnswers.UndisturbedByEvents | installer/mappedfile_mt.c:115-118 | Without a callback, or when none says cancel, and with writes that take whole blocks, a run has neither |
| ReaderAnswers.CancelEndsCallAndProducer | installer/mappedfile_mt.c:120-124 | When the callback says cancel, the call returns false with what it has moved, the error is down, the producer ends two steps later and never reads again |
| ReaderAnswers.OtherwiseTheBlockIsReadAgain | installer/mappedfile_mt.c:202-212 | Without a callback, or when it does not say cancel, the call goes on waiting, the error is down, and the producer seeks back to readaheadPos and begins the same block again |
| ReaderAnswers.ShortWriteEndsTheCopy | installer/mappedfile_mt.c:317-326 | A write that takes only part makes the copy return false at an unmoved position, and the target keeps just that part |
| ReaderAnswers.WaitsForBlocks | installer/mappedfile_mt.c:108-110 | With no block at hand the consumer asks on exactly while there are fewer than maxBlocks / 2 and fewer than eight |
| ReaderAnswers.TakesABlockAtHand | installer/mappedfile_mt.c:104-106 | A block that is there is fetched without waiting |
| ReaderSafety.CopyToFilesIsExact | installer/mappedfile_mt.c:297-338 | Under every schedule a copyToFiles that returned true appended exactly file[pos..pos+len) to every output and moved pos by len; one that returned false left a prefix of it in each output |
| ReaderSafety.ThreadedRefinesSequential | installer/mappedfile_mt.c:263-338 | In every schedule in which no callback says cancel and no write falls short, every call that returned did what the sequential transfer does, multi-block reads and out-of-range requests included |
| ReaderSafety.ThreadedRefinesFlat | installer/mappedfile_mt.c:263-338 | Any sequence of in-range, non-empty copies and single-block reads gives the bytes, results and positions of the flat reader |
| ReaderSafety.OverlongRequestNeverReturns | installer/mappedfile_mt.c:268-291 | A call beyond the end of the file can have returned only when the file ends on a block boundary, and then it failed at the end |
| ReaderSafety.NoSpuriousFailureIff | installer/mappedfile_mt.c:108-129 | In-range calls never fail in schedules in which no callback says cancel and no write falls short, if and only if maxBlocks >= 2 |
| ReaderSafety.EagerConsumerFails | installer/mappedfile_mt.c:108-129 | With maxBlocks < 2 any first call that is in range and not empty fails under some schedule with no error at all |
| ReaderSafety.CloseFreesEveryBlock | installer/mappedfile_mt.c:248-261 | A close that ended has joined the producer, and every block that was ever linked has been freed |
| ReaderProgress.StepAdvances | installer/mappedfile_mt.c:103-217 | A measure of the work left in a call that is in range, or on a file that ends on a block boundary, falls with every step of the thread that is due and never rises with a step of the other, each event with which a read would fail being paid for once |
| ReaderProgress.FairCallReturns | installer/mappedfile_mt.c:103-217 | With maxBlocks >= 2 a call under way in any reachable state, in range or on a file that ends on a block boundary, returns within w * (work + 1) steps of any interleaving in which every w steps hold one of each thread: no deadlock, and finitely many failures only delay |
| ReaderProgress.CloseReturnsIff | installer/mappedfile_mt.c:248-251 | From a reachable join, `mappedFile_close` returns under every fair schedule that is long enough if and only if no read failure is pending and the producer is not past its test of `closing` with a read still to come; otherwise some schedule hangs it |
| ReaderProgress.FairCloseReturns | installer/mappedfile_mt.c:192-217 | Without such a failure or read, the join ends, every block is freed and the close returns within w * (work + 1) steps of any schedule in which every w steps hold one of each thread |
| ReaderProgress.CloseAtTheEndReturns | installer/mappedfile_mt.c:248-261 | Closing an idle reader whose readaheadPos has reached the size returns under every fair schedule that is long enough |
| ReaderProgress.CloseWhileReadingCanHang | installer/mappedfile_mt.c:248-261 | While the reader is idle, more than a block is left to read, there is room for two and nothing was cancelled, some steps of the producer later a close can hang for ever |
| ReaderProgress.CloseHangsIff | installer/mappedfile_mt.c:181-183 | From a reachable join, some schedule parks the producer with nobody left to answer it if and only if a read failure is pending or the producer is past its test of `closing` and reads again |
| ReaderProgress.HungForEver | installer/mappedfile_mt.c:248-251 | Once the producer waits for a reaction and the consumer for the producer, no schedule changes anything |
| FlatReader.FitsAgree | installer/mappedfile.c:100-130 | For requests that are in range, not empty and, for a read, inside one block, block by block transfer and flat access agree in bytes, result and position |
| FlatReader.MappedFile.CopyToFiles | installer/mappedfile.c:100-116 | Every output gets the next len bytes and the position moves by len |
| FlatReader.MappedFile.Read | installer/mappedfile.c:122-130 | The buffer gets the next bytes, or buffer and position stay as they were when there are not enough |
| BlockList.BlockList.Append | installer/mappedfile_mt.c:158-166 | The chain from memFirst to memLast stays exact and gains the block at its end |
| BlockList.BlockList.DisposeFirst | installer/mappedfile_mt.c:81-94 | The chain loses exactly its first block; memLast is null if and only if nothing is left |
| BlockList.BlockList.GetCurrent | installer/mappedfile_mt.c:96-101 | The oldest block, or null exactly when the list is empty |
| HeapReader.Heap.Step | installer/mappedfile_mt.c:81-166 | One step of either thread with its pointer operations: the chain on the heap stays the list of the state, and the block fetched is memFirst |
| HeapReader.RunOnHeap | installer/mappedfile_mt.c:81-294 | After every schedule the chain from memFirst to memLast holds exactly the listed blocks, its length is blockCount, and memLast is its last node, null if and only if the list is empty |
| Dedup.KnownFiles.Add | sysprep/mercypak.py:202-215 | The scan and append leave what adding to the first matching group with room, or to a new group, means |
| Dedup.KnownFiles.AddMany | sysprep/mercypak.py:302-304 | Adding the files one after the other gives the groups that the conservation and tightness results are about |
| Dedup.AddFileKeepsOrder | sysprep/mercypak.py:202-215 | Adding a file puts it behind all packed files of its digest and moves no other file |
| Dedup.AddAllConserves | sysprep/mercypak.py:202-215 | With a digest injective on the inputs, the groups hold exactly the added files, and files of one digest keep their order |
| Dedup.AddAllTight | sysprep/mercypak.py:115 | Every group has 1 to 8 files, and of the groups of one digest only the last may have room |
| Dedup.GroupingIsTight | sysprep/mercypak.py:202-215 | n files of one digest make ceil(n / 8) groups |
| MercyPak.ArchiveWriter.Pack | sysprep/mercypak.py:308-372 | Packing raises exactly when something does not fit its field, and otherwise writes the archive of the format definition, V1 or V2 |
| MercyPak.ArchiveWriter.WriteGroup | sysprep/mercypak.py:326-372 | One group, V2 with shared data or V1 with a copy for each file; fails exactly when a name, stamp, size or count does not fit |
| Format.PackableIff | sysprep/mercypak.py:308-372 | Packing raises exactly when some length, count, date or time would not come back from its field |
| Format.ArchiveStart | sysprep/mercypak.py:19-32 | The archive starts with MRCY or ZIEG and the numbers of directories and files, low byte first |
| Format.FileIs | sysprep/mercypak.py:343-352 | A file's header: length of the path, path, attributes, date, time, byte by byte |
| Format.GroupIsV2 | sysprep/mercypak.py:337-355 | A V2 group: number of files, headers, size and the data once |
| Format.FileIsV1 | sysprep/mercypak.py:361-372 | A V1 file: header, size and its own data |
| Format.GroupLimits | installer/install.c:134-164 | A V2 group is refused exactly when it names more than sixteen files, and files are counted in 32 bits |
| Format.BufferAfterString | installer/install.c:60-67 | Byte by byte what the path buffer holds after a string: converted up to the first zero, as read behind it, a zero, and the old bytes |
| Format.LastEmptyBlob | installer/install.c:156-162 | An empty blob at the end of a V2 archive makes the unpacker answer false and leave its files without date, time and attributes |
| Format.LastEmptyBlobV1 | installer/install.c:107-110 | At the end of a V1 archive it answers false too, but sets them |
| Unpacker.Installer.CreateDirectories | installer/install.c:73-83 | The directory loop reads what the directory table means at the reader's position |
| Unpacker.Installer.ExtractGroupV2 | installer/install.c:129-164 | One round of the V2 loop: count, names and stamps, size, data to all files, stamps only on success |
| Unpacker.Installer.ExtractAllFilesV2 | installer/install.c:122-177 | The V2 loop stops at the first failure and counts whole groups, in 32 bits |
| Unpacker.Installer.ExtractAllFilesV1 | installer/install.c:89-116 | The V1 loop goes on after a failed copy and remembers the failure |
| Unpacker.Installer.UnpackGeneric | installer/install.c:180-223 | The whole unpacker on a freshly opened archive, wrong magic and truncated header included |
| RoundTrip.UnpackPacked | installer/install.c:180-223 | Unpacking a packed archive of either version ends with pos = size and f = fileCount, makes exactly the packed directories, succeeds if and only if the last blob is not empty, and then leaves exactly the packed files |
| AsRead.FieldReads | installer/mappedfile_mt.c:263-294 | A header field that is there is read, and leaves in its buffer its parts laid one over the other from the front, over what the buffer held |
| Misread.FieldMisread | installer/mappedfile_mt.c:268-291 | A straddled header field ends in the byte its buffer held before |
| AsRead.UnpackReads | installer/install.c:180-223 | When counts and sizes are read back, unpacking a packed archive of either version ends with pos = size and f = fileCount, makes the directories as they are read, succeeds if and only if the last blob is not empty, and leaves the files as they are read |
| Misread.RoundTripIff | sysprep/mercypak.py:309-372 | Group, pack as V1 or V2, unpack with the buffers of the code and blocks of at least 4181 bytes: exactly the directories and the map from path to data, attributes, date and time come back if and only if the last blob is not empty, every size and directory is read back, and the files as they are read are the packed ones |
| Misread.FieldByFieldIff | sysprep/mercypak.py:309-372 | When no file is read with the path of another one, that is: if and only if the last blob is not empty and every size, path and stamp is read back as itself |
| Misread.OutOfStep | installer/install.c:153-156 | A size that is not read back writes a file of the wrong length, and nothing that is read later makes it good, for either version |
| RoundTrip.RoundTripInOneBlock | sysprep/mercypak.py:309-355 | For any block size, when no header field straddles a block, exactly the directories and files come back if and only if the last blob is not empty; the digest is injective on the contents, paths are distinct once converted, those of directories not empty, and everything fits its field |
| RoundTrip.KeysArePackedPaths | installer/install.c:60-83 | What came back, for any paths: one directory for each packed one and each file once, under the packed path with slashes for backslashes and cut at its first zero byte if it has one, with data, attributes, date and time; and nothing else |
| RoundTrip.ConvertedPath | installer/install.c:79 | A converted path holds no backslash, is as long as a path without zero byte, and is the path itself when there is nothing to convert |
| RoundTrip.SmallArchivesFit | installer/mappedfile_mt.c:268-291 | An archive no larger than one block of the reader has no header field that straddles a block, so its round trip needs no condition on header fields |
| RoundTrip.VersionsAgree | sysprep/mercypak.py:326-372 | The V1 and the V2 archive of the same groups, duplicate paths allowed, leave the same directories and the same file tree |
| RoundTrip.WrittenInAnyOrder | installer/install.c:129-164 | Writing files of distinct paths in any order leaves exactly those files |
| RoundTrip.FieldExact | installer/install.c:61-67 | A header field that stays inside one block is read back exactly, whatever the buffer held |
| MisreadExamples.MisreadByTheInstaller | installer/install.c:125-148 | At the block size of the source and over its own buffers, an archive of two files whose second stamp starts on the last byte of a block comes back if and only if that stamp is all zero |
| MisreadExamples.StraddledSize | installer/install.c:153-154 | A V2 size of which one or two bytes lie before the boundary is read without those low bytes |
| MisreadExamples.StraddledFirstStamp | installer/install.c:125-148 | A stamp in a fresh slot of which one or two bytes lie before the boundary is read as its remaining bytes and zeros |
| MisreadExamples.FirstNameIsCut | installer/install.c:60-67 | The first path, of which one byte lies before the boundary, is read without that byte |
| MisreadExamples.MisreadNamesComeBack | installer/install.c:89-116 | An archive in which two names are each misread as the other comes back: reading every field back as itself is not necessary |
| Lzss.WindowPut | sysprep/drivercopy.py:60-104 | Writing one byte keeps the window equal to the last 4096 bytes of spaces followed by output |
| Lzss.WindowGet | sysprep/drivercopy.py:92-98 | Reading the window at matchpos is looking back ((pos - matchpos - 1) mod 4096) + 1 bytes in the history |
| Lzss.CopyBack | sysprep/drivercopy.py:97-102 | The copy loop through the ring equals copying from that distance in the output, overlapping copies included |
| Lzss.DecodeLoop | sysprep/drivercopy.py:60-104 | The decoder with its window computes the LZ77 meaning of the payload for both ring starts, or raises exactly when a backreference is cut off |
| Lzss.MsExpandDecompress | sysprep/drivercopy.py:47-110 | Header detection, decoding and trimming of the whole function |
| Lzss.SzddFileUnpacks | sysprep/drivercopy.py:47-54 | Behind a 14 byte header starting with SZDD, a stream encoded from ring position 0xFF0 on unpacks to what it means, cut to the header's length when that is positive and was reached |
| Lzss.HeaderlessFileUnpacks | sysprep/drivercopy.py:53-58 | Any other file is a stream encoded from ring position 0xFEE on |
| Lzss.MatchMeans | sysprep/drivercopy.py:97-102 | Each byte of a match is the one d places before it, overlapping included, or a space before the start |
| Lzss.OutputBound | sysprep/drivercopy.py:67-110 | 17 * output <= 144 * input, and an SZDD length that was reached is met exactly |
| Lzss.ItemsBound | sysprep/drivercopy.py:69-104 | Each control byte pays for what its backreferences add: the bound holds at every point of a payload, mid-group included |
| Lzss.DecodeInvertsEncode | sysprep/drivercopy.py:28-110 | Decoding the encoded form of any stream of bytes and matches, reaching into the initial spaces or overlapping, gives what the stream means |
| BootSector.ModifyBootSector | installer/util_disk.c:563-610 | For any list, in any sector order with repeats, true means the partition equals applying each modifier directly in turn; otherwise, and only when a read or write failed, it equals applying a prefix |
| BootSector.ModifyAndWriteBootSector | installer/util_disk.c:612-632 | It succeeds exactly when no access fails; on FAT32 the patched sectors 0, 1 and 2 are then copied to the backup index found in the patched sector 0, and on FAT16 nothing more is written |
| BootSector.BackupEqualsOriginal | installer/util_disk.c:615-629 | Sectors 0 to 2 equal their copies, for every backup index |
| BootSector.BackupKeepsBootSectorsIff | installer/util_disk.c:619-628 | The backup leaves the three boot sectors alone, for every partition of 512 byte sectors that names that index in its sector 0, if and only if the index is 0 or at least 3 |
| BootSector.BackupKeepsThisPartition | installer/util_disk.c:619-628 | For one partition: the boot sectors survive exactly when, for index 1, all three are equal and, for index 2, the first and the third are |
| BootSector.Fat32ListKeeps | installer/mbr_boot_win98.h:236-243 | The FAT32 list keeps bytes 0x0B to 0x59 of sector 0, the backup index, all of FSInfo but its signature, and all other sectors |
| BootSector.Fat16ListKeeps | installer/mbr_boot_win98.h:229-234 | The FAT16 list keeps bytes 0x0B to 0x3D of sector 0 and all other sectors |
| BootSector.Fat32Prepared | installer/util_disk.c:612-632 | The end state of FAT32 preparation with an index from 3 on: copies, kept bytes and untouched sectors |
| BootSector.SetPartitionActive | installer/util_disk.c:494-519 | Of bytes 0x1BE, 0x1CE, 0x1DE and 0x1EE of the first sector the chosen entry's is 0x80 and the others 0, every other byte of the disk is as it was; it fails only when an access fails; a bad index is fatal and writes nothing |
| BootSector.WriteMbrToDrive | installer/util_disk.c:521-535 | Bytes 0 to 0x1BD are the new code, everything else stays; it fails only when an access fails |
| BootSector.WriteMbrSetActive | installer/install.c:616-621 | Both together: new code, one active entry, table and signature otherwise kept byte by byte |
| SysLinux.Coalesce | sysprep/syslinux.py:36-86 | Expanding the extents gives the sector list back in order; for contiguous sectors every extent but the last has 127 sectors and there are ceil(n / 127) |
| SysLinux.UpperHalfTestNeverFails | sysprep/syslinux.py:61 | The 64 KiB test holds for every sector-aligned address |
| SysLinux.EverySectorIsReachedOnce | sysprep/syslinux.py:139-179 | Boot pointer, extents and the two ADV pointers name the DataSectors + 2 contiguous sectors of ldlinux.sys, each exactly once and in order |
| SysLinux.Sizes | sysprep/syslinux.py:296-297 | The written file is the padded data and two sectors more, and the summed dwords lie inside the padded data |
| SysLinux.ByteArray.PatchExtents | sysprep/syslinux.py:89-96 | The extents are written slot by slot, or an exception is raised exactly when one does not fit its slot |
| SysLinux.ExtentsReadBack | sysprep/syslinux.py:89-96 | Every extent is read back from its own slot |
| SysLinux.ByteArray.Prepare | sysprep/syslinux.py:147-189 | Patch area, ADV pointers, extents and blank ADVs, each at the place the file points to, with every out-of-range read an exception |
| SysLinux.PatchLdlinuxSys | sysprep/syslinux.py:98-198 | The patched file, with extents that expand to its sectors, or an exception |
| SysLinux.ComputeCheckSum | sysprep/syslinux.py:191-194 | The masked loop computes LDLINUX_MAGIC minus the sum of the dwords, modulo 2^32 |
| SysLinux.CheckSumIff | sysprep/syslinux.py:191-196 | Storing the checksum in an aligned field makes the dwords sum up to LDLINUX_MAGIC modulo 2^32 if and only if the field was zero before |
| SysLinux.PatchedSumsToMagic | sysprep/syslinux.py:147-196 | The patched file's dwords sum up to LDLINUX_MAGIC modulo 2^32 if and only if the ADV pointers and extents, at the places the unpatched file points to, leave only zeros in the checksum field |
| SysLinux.SlotsElsewhereSumToMagic | sysprep/syslinux.py:147-196 | In particular the sum is right when the file's pointers keep clear of the checksum |
| SysLinux.PreparedInLayout | sysprep/syslinux.py:154-188 | In a readable layout the writes go to the places that the file named before it was patched |
| SysLinux.AdvsBehindTheSum | sysprep/syslinux.py:182-188 | The ADV sectors never overlap the summed range |
| SysLinux.PatchBootSector | sysprep/syslinux.py:258-294 | Boot sector and copy are written to the image, or an exception is raised exactly when a pattern is missing, the number does not fit or the copy lies outside the image |
| SysLinux.BootPointerArrives | sysprep/syslinux.py:271-288 | The BIOS parameter block survives, and the two halves at the patterns' places give the sector of ldlinux.sys |
| SysLinuxLayout.BootSectorIs | sysprep/syslinux.py:271-288 | Where EF BE AD DE and CE FA ED FE are first found come the low and the high half of the sector number; bytes 0x0B to 0x59 stay, all others are SYSLINUX's |
| SysLinuxLayout.CountedFromThePartition | sysprep/syslinux.py:264 | Sector numbers count from the start of the partition, and a file in front of it is an exception |
| SysLinuxLayout.LayoutIs | sysprep/syslinux.py:147-171 | Everything is found from the first FE 02 B2 3E at m: the extended patch area by the word at m + 22, and by its words 0 and 10 the ADV pointers and the extents |
| SysLinuxLayout.PatchedFile | sysprep/syslinux.py:147-189 | The patched file at those places: ceil(size / 512), 2 and ceil(size / 4), the two ADV sectors, every extent in its slot, two blank ADVs behind the data, and every other byte but the checksum unchanged |
| SysLinuxLayout.BlankAdvIs | sysprep/syslinux.py:231-255 | The blank ADV byte by byte |
| SysLinux.BootSectorAndItsCopy | sysprep/syslinux.py:290-294 | The boot sector and its copy are equal and the rest of the image is untouched |
| InstallSequence.Installer.ConfigGetItem | installer/install.c:514-521 | The search ends at the option's own row |
| InstallSequence.Installer.AddToProgressBoxIfEnabled | installer/install.c:608-614 | An enabled copy step gets the next free bar; nothing else changes |
| InstallSequence.Installer.ExecuteIfEnabled | installer/install.c:715-726 | A step runs exactly when it is enabled and nothing failed before, with the bar of its option, and a failure is recorded under its index |
| InstallSequence.Installer.Install | installer/install.c:728-783 | The whole sequence: bars, maximum of the preparation bar, steps in order, result |
| InstallSequence.StopsAtFirstFailure | installer/install.c:715-783 | For any options and any failing steps, the enabled steps run in order up to and including the first failure, errorIndex names it, and without one all enabled steps ran |
| InstallSequence.EachStepRunsAtMostOnce | installer/install.c:753-769 | No step runs twice in an installation |
| InstallSequence.StepsInTheRightOrder | installer/install.c:753-769 | MBR, formatting, boot sector, mounting in this order, then the copies, the OS before the registry and both before patches, drivers and extras, for any choice and failures |
| InstallSequence.BarNumbers | installer/install.c:734-746 | Bar 0 is all preparation, 1 the OS, 2 the registry, and from 3 on each other chosen copy has the next number |
| InstallSequence.CopyBarsAreDistinct | installer/install.c:740-746 | Enabled copy steps have distinct bars of the box, none of them the preparation bar |
| InstallSequence.ProgressMatchesCount | installer/install.c:544-552 | A successful installation has advanced the preparation bar by exactly the counted steps |
| InstallSequence.CountedPreparations | installer/install_cfg.inc:3-83 | What is counted over the option table is the number of chosen preparation steps |
| Wizard.GetPartitionFromIndex | installer/util_disk.c:391-401 | The partition at that place of all disks' partitions in menu order, or none |
| Wizard.QiWizard.DestinationSelect | installer/install.c:425-512 | The menu loop decides as the checks in their order say, and only an eligible partition of the fresh disk array is chosen |
| Wizard.PickLoopIsEligible | installer/install.c:464-510 | Whatever is picked in whatever order, a chosen destination is in the disk array, on a "dos" table, FAT16 or FAT32, primary and not the source |
| Wizard.QiWizard.Install | installer/install.c:728-783 | The install screen runs the sequencer and closes the OS file exactly when the step that unpacks it ran |
| Wizard.QiWizard.Run | installer/install.c:811-858 | The loop with its switch and `state++` / `state--` does, for as long as there are inputs, what the turns of the model say |
| Wizard.InvTurn | installer/install.c:811-858 | Every turn keeps the invariant over state, OS file, disk array, destination and options |
| Wizard.WizardIsSafe | installer/install.c:811-858 | Over whole runs qi_install is only entered with the OS file open and an eligible destination of the current disk array, the state is always one the switch knows, and openings and closings of the OS file match |
| Wizard.OsFileIsCopied | installer/install.c:700-705 | An installation without failure has unpacked, and so closed, the OS file |
| Wizard.ExitCleansUp | installer/install.c:292-317 | After an exit or reboot no file is open, no destination is left, and every opening has been closed |
| WizardTransitions.MainMenuLeads | installer/install.c:408-417 | Each item of the main menu leads to its screen, cancelling starts over, anything else is fatal |
| WizardTransitions.EndMenuLeads | installer/install.c:792-799 | Each item of the end menu leads to its screen, anything else is fatal |
| WizardTransitions.OtherScreensLead | installer/install.c:811-858 | Variant selection opens the file and leads to the main menu, help and disks lead back to it, starting over cleans up, and exits clean up and end |
| WizardTransitions.ConfigureLeads | installer/install.c:559-606 | Cancelling the configuration leads back to the destination, refusing a warning about an option that is on, or the quirks, shows it again, and only otherwise the installation is next; the options are the menu's with OS, mounting and registry on |
| WizardTransitions.InstallsOnlyFromConfigure | installer/install.c:811-858 | Over whole runs, a turn ends in the installation only from a configuration that was not cancelled and whose warnings and quirks were accepted, with just those options |
| WizardTransitions.InstallLeads | installer/install.c:773-782 | A failed installation starts over, one without failure leads to the end menu |
| WizardTransitions.ChosenIff | installer/install.c:464-510 | A partition is chosen if and only if it was picked, is eligible, and the user agreed when it is from 128 GB on, ends behind 128 GB or is mounted |
| WizardTransitions.DestinationIsAgreed | installer/install.c:425-512 | The destination menu is left to the configuration only with a partition that some round chose so, and otherwise to the main menu without one |
| WizardTransitions.ItemNumber | installer/util_disk.c:391-401 | Partition k of disk d has the number of all partitions on the disks before it, and k |

## Left out

- Misread.RoundTripIff: for blocks of at least 4181 bytes, the longest header of a group, and fewer than 2^32 - 16 files; below that RoundTrip.RoundTripInOneBlock holds.
- Unpacker.Installer.CreateDirectories: stops at the first field that cannot be read. The code goes on, but with local variables that were never set, so what it creates then is not determined by the source.
- Unpacker.Installer.ExtractAllFilesV1: stops at the first field that cannot be read. The code goes on to open the path in its buffer, cut off at a length that was never set, and answers false in the end.
- SysLinux.PatchedSumsToMagic: for a patch area that is aligned and summed, and parts that lie inside the file with pointers that are not written over before they are read; the code checks none of this.
- ReaderProgress.FairCallReturns: says nothing of schedules in which one of the threads gets no turn for ever.
- Data races: each unlocked test of a shared field is one atomic step and reads the current value; a locked region, a `read`, a `write` and a sector write are atomic too. Torn or delayed values are not modelled.
- A block is filled before it is linked and never written afterwards, so its bytes are a value; `malloc` succeeds.
- The two threads share one state, so the reader is a step system on values; only its list of blocks is also modelled with pointers.
- The read error callback answers retry or cancel, the two reactions the installer knows.
- The flat reader's failing `write`, which is an assertion there, and its `madvise` calls.
- Opening target files, making directories and setting times and attributes succeed. FAT's case-insensitivity is not modelled: paths are equal when their bytes are.
- SHA-256 is an arbitrary function that is assumed injective on the packed contents. Walking the source directory and DOS date and attribute encoding are not modelled.
- SysLinux uses 512 byte sectors only, as its caller does; it does not use the slot count read from the file, because the code does not check it. Copying files into the image is not modelled.
- Device reads and writes may fail at any time; a failed sector write changes nothing.
- Formatting, mounting, UEFI files and hardware quirks are steps that succeed or fail; menus, message boxes and progress drawing are inputs or dropped.
- The disk management screen is reduced to its refresh of the disk array; the wizard model ends when its inputs do.
- INF rewriting, 8.3 naming, registry work, image building, the post-setup program and all scripts: string handling and plumbing around libraries.
