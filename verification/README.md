# Proofs about cryptsetup

A model of the parts of cryptsetup that keep state across processes, crashes or text formats, and proofs
of what they guarantee. `dafny verify dfyconfig.toml` checks everything.

| files | what they model |
|---|---|
| `LockProtocol`, `LockRuns`, `DeviceLock` | the metadata lock: a lock file that every user creates on demand and every releaser may remove, verified by a second look at the inode, and the reference count on top |
| `ReencryptSpec`, `ReencryptCopy`, `ReencryptLog` | offline re-encryption: an in-place move between two overlapping views of one disk, resumed from a text log |
| `BlockIo`, `Wipe` | byte ranges served by whole-block reads and writes, and wiping on top |
| `Base64Spec`, `Base64Encode`, `Base64Decode`, `Base64Stream` | the encoding of section 4 of RFC 4648, and a decoder that streams |
| `CStrings`, `Tokens`, `CipherSpec`, `DmCrypt`, `DmCryptQuery`, `DmVerity`, `DmVerityQuery`, `DmVerityCut` | the table lines of dm-crypt and dm-verity, printed and parsed, and the translation of cipher names |
| `PlainHash` | the key of a plain device |

Code that changes state step by step is a method with loops over a class or an array, proved against a
specification function; the main results are lemmas about those functions over every input, run or
interleaving. What those functions mean is said once more in literal terms (`Base64Spec.Char6Is`,
`CipherSpec.KernelName`, `DmCrypt.RealCipherLine`, `PlainHash.KeyByte`, `ReencryptLog.LogTextIs` and their neighbours).
Errors that a state does not explain are drawn from a budget of faults, so that contracts also say when a call must
succeed.

**The lock.** A state is what the path names and, for each handle, how far it got, its descriptor's inode
and its flock. Every system call is a step and so is a crash, so a run interleaves them in any way.
`Kernel` is one process of such a system: between its own steps the others play any part of an arbitrary
script.

**Re-encryption.** The ciphers are bijections that may differ at every position. The forward target lies at
or below the source, the backward target at or above it. A run may stop on a signal, fail, or lose power
with a torn block, in the copy, in the wipe after it, or at a log entry; a log entry is written completely or
not at all. `ChainRecovers` is about any number of such runs, and `ReencContext.Reencrypt` makes them, each
from the text that the one before left in the log file. `ReplaySafeIff` says exactly how much may be in flight.

**Tables.** A parser moves a cursor over a string; strsep, strtoull and the scanf conversions in use are
functions with their C behaviour (white space, signs, saturation, truncation to 32 bits).

## What the proofs found

- The log of a re-encryption restores a context exactly when its UUID has 1 to 40 characters and no white
  space. When the first 444 characters of a UUID contain no line feed, the sector cuts the log off inside the
  UUID line, and such a log is accepted and restores nothing (`ReencryptLog.BadUuidRestoresNothing`).
- Clearing the end of a decrypted device happens before the last log entry. When power fails there, a replay
  from the old entry can read cells that were just cleared (`ReencryptSpec.ZeroingSafeIff`).
- A forward copy whose device size was forced below the length of the old view fails on its last block, without any
  fault, when that block goes behind the end of the view (`ReencryptCopy.ReencContext.CopyForward`).
- `cipher_c2dm` refuses a name that is exactly as long as its buffer and silently cuts a longer one; a mode
  and IV of more than 63 characters are cut while they are scanned (`CipherSpec.LegacyRoundTrip`,
  `CipherSpec.SpecRoundTrip`). One-character ciphers without a mode, the mode rfc4309, and algorithms wider than 143
  characters do not come back either.
- A null cipher is printed without its key. FEC options over 254 characters and signature key options over
  542 are cut: two different targets then have the same line (`DmVerityCut.SiblingPrintedAlike`), and a target
  is lost unless just the digit of zero FEC roots is missing (`DmVerityCut.VerityRoundTripIff`).
- A wipe whose offset plus length exceeds 64 bits reports success without writing (`Wipe.WipeDevice`).
- A stat that fails in the verification of a lock, for whatever reason, makes the acquisition go round again;
  without an unlink that can happen any number of times (`LockRuns.StatErrorRetries`).
- A dm-verity line that ends right after `use_fec_from_device`, `fec_start`, `fec_blocks` or `fec_roots` is read
  through a null pointer. The printer can produce one by cutting its FEC options there
  (`DmVerityCut.CutEarly`).
- The comment in `base64_encode_alloc` says that a wrapped length comes out as 0; the code adds one to it, so
  it is 1. The test that follows is exact all the same. The model follows the code.
- With a decoding context a padded group is taken in the middle of a text, without one only at its end. An
  empty chunk is a flush and is refused within a group.

## Assumptions

- Locking: an inode is not reused while a descriptor is open on it; `stat` fails in verifications only finitely
  often for other reasons than a missing file; a wait that the others never end is ended by a signal.
- Copying: a write that succeeds is a full write (the source does not handle short ones at
  src/cryptsetup_reencrypt.c:946-953 and 1021-1026), and data reaches the disk before the log entry that
  follows it. The device size is at most the length of the new view. The first log entry considered is the
  one that the copy functions write; the one of `open_log` comes before the direction is final.
- Block I/O: the device size, and for wiping the offset and the piece, are multiples of the block.
- Strings contain no NUL; `long` has 64 bits; an out-of-range scanf integer saturates as in `strtol` and is
  then cut to 32 bits. Printed device paths, key descriptions and names contain no blank.
- A digest has a fixed positive length.

## Model

| member | source | states |
|---|---|---|
| `LockProtocol.StepKeepsInv` | lib/utils_device_locking.c:127-346 | Every single step of any handle (open or create, flock, verify, unlock, try-lock, stat, unlink, close, crash) keeps the invariant: no conflicting flocks on one inode, and whoever is verified or about to unlink locks the file that the path names |
| `LockProtocol.RunKeepsInv` | lib/utils_device_locking.c:127-346 | The invariant survives every interleaving of steps, of any length and with any number of handles |
| `LockRuns.MutualExclusion` | lib/utils_device_locking.c:300-346 | In every reachable state a verified handle holds the flock it asked for on the inode the path names, and a verified writer is the only verified handle |
| `LockRuns.UnlinkRemovesOwnFile` | lib/utils_device_locking.c:220-252 | A releaser about to unlink removes its own file: the path names its inode, nobody is verified, and no second releaser is as far |
| `LockRuns.HeldPinsPath` | lib/utils_device_locking.c:220-286 | While one handle stays verified, no run of the others changes what the path names |
| `LockRuns.RetriesCharged` | lib/utils_device_locking.c:264-336 | At every point of every run, failed verifications of a handle plus a pending one are paid for by unlinks of other handles and by errors of stat |
| `LockRuns.RetryBound` | lib/utils_device_locking.c:264-336 | The EAGAIN retries of a handle never exceed the unlinks of the lock path by others plus the errors of stat in its verifications; without such errors they never exceed the unlinks |
| `LockRuns.StatErrorRetries` | lib/utils_device_locking.c:308-336 | The errors are needed in the bound: from any state in which a handle is about to verify, and for every k, there is a run with k retries and no unlink, through unlock, close, open and flock, that ends in the same state |
| `LockRuns.FlockAloneIsNotEnough` | lib/utils_device_locking.c:264-286 | There is a reachable state in which two handles both have an exclusive flock, on two inodes, so that the second look at the path is needed |
| `LockRuns.RaceRelock` | lib/utils_device_locking.c:220-346 | The run that leads there, step by step: a waiter locks a removed file while its remover locks the new one |
| `DeviceLock.Kernel.OpenResource` | lib/utils_device_locking.c:127-144 | Opening creates the file when the path names none; on success the descriptor is the inode the path names at that moment. Without interference and faults it succeeds |
| `DeviceLock.Kernel.FlockFd` | lib/utils_device_locking.c:308-316 | EBUSY only without blocking; without interference and faults the flock is granted exactly when no other descriptor of the file is in its way |
| `DeviceLock.Kernel.VerifyLockHandle` | lib/utils_device_locking.c:264-286 | Success means verified; EAGAIN is one counted retry and, if nobody interfered and stat did not fail, means the path names another inode; then success is forced when it names ours |
| `DeviceLock.Kernel.ReleaseLockHandle` | lib/utils_device_locking.c:220-252 | Whatever fails in between, release ends with no lock, and back at the loop head only after a failed verification; without interference and faults the file is removed exactly when it is ours and nobody else has a flock on it |
| `DeviceLock.Kernel.AcquireAndVerify` | lib/utils_device_locking.c:300-346 | The loop ends under interference from any script of the others and any finite number of faults; success is a verified lock of the kind asked for, failure leaves none, a failed open keeps its own error number, EBUSY from flock comes only without blocking, and the retries are at most the unlinks of others plus the stat errors during the call. Without interference and faults it succeeds, at the first try, exactly when no other descriptor of the named file holds a flock in its way |
| `DeviceLock.Kernel.UnlockInternal` | lib/utils_device_locking.c:457-463 | Unlocking a verified handle ends without a lock or descriptor; without interference and faults the path then names nothing, unless another descriptor of the file holds a flock |
| `DeviceLock.Device.ReadLock` | lib/utils_device.c:1009-1018 | A nested read lock only counts up and makes no system call; the first one acquires a shared lock or fails with EBUSY and changes nothing, and without interference and faults it fails only if somebody holds an exclusive one |
| `DeviceLock.Device.WriteLock` | lib/utils_device.c:1020-1028 | As for reading, with an exclusive lock; the result is the new depth |
| `DeviceLock.Device.UnlockInternal` | lib/utils_device_locking.c:479-496 | Only the last unlock reaches the kernel; before that the count goes down and no system call is made |
| `DeviceLock.Device.ReadUnlock` | lib/utils_device.c:1030-1038 | One level less, the flock released exactly at zero; nothing with locking switched off |
| `DeviceLock.Device.WriteUnlock` | lib/utils_device.c:1040-1048 | The same for a write lock, whose assert on the type is a precondition |
| `DeviceLock.Make` | lib/utils_device.c:1009-1048 | One request on a device, made if its assert holds: the device goes on matching its history, nested requests always succeed, and no system call is made while locks stay outstanding |
| `DeviceLock.Play` | lib/utils_device.c:1009-1048 | For every sequence of requests to an unlocked device: the count is granted locks minus unlocks, a flock is held exactly while that is positive, and it is of the kind that the first of the outstanding locks asked for |
| `DeviceLock.KindIsPinned` | lib/utils_device_locking.c:348-407 | The flock that a history calls for does not change as long as locks stay outstanding: nested read locks leave a write lock exclusive |
| `ReencryptSpec.CopyOn` | src/cryptsetup_reencrypt.c:933-965 | Copying in the right direction from lo to mid and on to hi is the same as copying from lo to hi, on overlapping views |
| `ReencryptSpec.OffsetSeparates` | src/cryptsetup_reencrypt.c:933-1040 | At every block boundary the offset separates positions readable through the new view from positions still readable through the old one |
| `ReencryptSpec.StopKeepsRecoverable` | src/cryptsetup_reencrypt.c:909-1043 | A run that stops anywhere, with anything written between its log entry and its write front, keeps all data recoverable if no more than the distance is in flight |
| `ReencryptSpec.ChainRecovers` | src/cryptsetup_reencrypt.c:909-1043 | After any chain of interrupted, failed and crashed runs, a last run that gets through leaves the new view equal to the original old view on the whole device |
| `ReencryptSpec.SomeDiskLoses` | src/cryptsetup_reencrypt.c:933-965 | With more in flight than the distance there is a disk that loses data when resumed from the log |
| `ReencryptSpec.ReplaySafeIff` | src/cryptsetup_reencrypt.c:933-1040 | Resuming is safe for all disks exactly when the bytes in flight do not exceed the distance (or at distance zero old and new cipher text agree) |
| `ReencryptSpec.FinishedDisk` | src/cryptsetup_reencrypt.c:1127-1138 | A finished run followed by the wipe leaves the whole original text and then zeros |
| `ReencryptSpec.ZeroingLoses` | src/cryptsetup_reencrypt.c:1132-1145 | A disk that loses data when power fails during the wipe that follows a decryption, before the log is updated, whenever a cleared cell is read again |
| `ReencryptSpec.ZeroingSafeIff` | src/cryptsetup_reencrypt.c:1132-1145 | Such a wipe is safe for all disks exactly when the cleared cells and those that a replay from the log reads again do not meet, also for a device size below the length of the old view |
| `ReencryptCopy.ReencContext.ReadBuf` | src/cryptsetup_reencrypt.c:886-907 | Short and interrupted reads are retried until the block is full or the old view ends; the buffer then holds that slice of plain text |
| `ReencryptCopy.ReencContext.MoveBlock` | src/cryptsetup_reencrypt.c:943-965 | Writing one block and advancing keeps the disk equal to the copied prefix, and with a log entry for each block at most a block is in flight |
| `ReencryptCopy.ReencContext.CopyForward` | src/cryptsetup_reencrypt.c:909-968 | However the forward run ends, it ends as the specification of runs allows; finished means the offset is at the device size; per-block logging bounds the data in flight by one block. Without faults it finishes exactly when no block goes behind the end of the old view, or the device ends there |
| `ReencryptCopy.ReencContext.CopyBackward` | src/cryptsetup_reencrypt.c:970-1043 | The same for the backward run, which starts at the end unless it is resumed, touches nothing before its start is logged, and nothing at all when the old view does not reach its start; without faults it finishes whenever the old view does |
| `ReencryptCopy.ReencContext.ZeroRest` | src/cryptsetup_reencrypt.c:1045-1078 | What is zeroed is exactly a run of positions behind the data, whether it ends in full, by a signal, or by a failed or short write; without faults it is the whole range; when power fails the rest of the range may hold anything |
| `ReencryptCopy.ReencContext.CopyLoop` | src/cryptsetup_reencrypt.c:1127-1130 | The number of the direction in the context decides which loop runs; without faults it finishes exactly when it can get through |
| `ReencryptCopy.ReencContext.WipeRest` | src/cryptsetup_reencrypt.c:1132-1138 | Only with the number of decryption in the context, and a longer new view, something behind the data is cleared; without faults all of it |
| `ReencryptCopy.ReencContext.CopyData` | src/cryptsetup_reencrypt.c:1080-1153 | A whole run: the disk after the copy loop is one a run may leave; a loop that got through has moved everything, and nothing but positions behind the data changes then, even if power fails in the wipe or at the last log entry; a decryption without faults has cleared all of them; with per-block logging the log then stands at the end |
| `ReencryptCopy.ReencContext.ReadLog` | src/cryptsetup_reencrypt.c:335-362 | Direction, mode and offset are taken over from the text in the log file: 0 exactly for a forward copy, the number of the mode, and the offset that was logged last; or the log cannot be read |
| `ReencryptCopy.ReencContext.WriteLog` | src/cryptsetup_reencrypt.c:270-291 | Whoever parses the log file afterwards, with anything in the buffer, gets direction 0 exactly for forward and 1 for backward, mode 0, 1 or 2 for reencrypt, encrypt or decrypt, the logged offset and the shift |
| `ReencryptCopy.ReencContext.NextBlock` | src/cryptsetup_reencrypt.c:933-945 | The condition under which a forward copy can finish goes over from one block to the next, and fails at a block that the end of the old view cuts short |
| `ReencryptCopy.ReencContext.RunKeeps` | src/cryptsetup_reencrypt.c:1080-1153 | One run from a state in which no data is lost leaves such a state: recoverable from the log, or all moved with the log at the end |
| `ReencryptCopy.ReencContext.Reencrypt` | src/cryptsetup_reencrypt.c:1080-1153 | The tool run any number of times, each time from the direction, mode and offset in the text of the log file, with a log entry per block and blocks up to the distance: whatever signals, errors and power losses came before, in the copy or in the wipe, no data is lost; when a run gets through the new view is the original old view; with fewer faults than attempts one does get through, unless a block goes behind the end of the old view; and a decryption without faults is followed by zeros |
| `ReencryptLog.LogContext.WriteLog` | src/cryptsetup_reencrypt.c:270-291 | The log file, of any length, begins with the NUL-padded sector of the printed context; after an error some beginning of that, or nothing, was written |
| `ReencryptLog.LogContext.ParseLineLog` | src/cryptsetup_reencrypt.c:293-333 | One line has the specified effect on the context: comment, version range, UUID check, direction, offset, shift, mode range, or refusal |
| `ReencryptLog.LogContext.ParseLog` | src/cryptsetup_reencrypt.c:335-362 | The file is read as far as it goes, and cutting the buffer in place at each line feed has the effect of the line-by-line specification on the C string in it, fields set before an error included |
| `ReencryptLog.ParsedNumberLines` | src/cryptsetup_reencrypt.c:293-362 | The four number lines restore direction, mode, offset and shift over their whole ranges |
| `ReencryptLog.LogTextIs` | src/cryptsetup_reencrypt.c:270-279 | The printed text, character by character: banner, version = 2, UUID, direction, mode, offset and shift each on their line, # EOF |
| `ReencryptLog.VersionLine` | src/cryptsetup_reencrypt.c:303-307 | Of all version lines exactly those with 1 and 2 are accepted |
| `ReencryptLog.ModeLine` | src/cryptsetup_reencrypt.c:322-328 | Every mode is taken over, and exactly 0, 1 and 2 leave the log accepted |
| `ReencryptLog.RefusedLine` | src/cryptsetup_reencrypt.c:329-330 | A line that is no comment and starts with none of the six keys is refused, an empty one too |
| `ReencryptLog.NoNumber` | src/cryptsetup_reencrypt.c:303-330 | A key with something other than a number behind it is refused and changes nothing |
| `ReencryptLog.UuidCompared` | src/cryptsetup_reencrypt.c:308-312 | Of a UUID without white space the first 40 characters are compared with the one of the device |
| `ReencryptLog.GoodUuidIs` | src/cryptsetup_reencrypt.c:308-312 | A good UUID in literal terms: 1 to 40 characters, none of the six that isspace knows |
| `ReencryptLog.GoodUuidRestores` | src/cryptsetup_reencrypt.c:270-362 | With a UUID of 1 to 40 characters and no white space the text fits the sector and reading it back restores every field |
| `ReencryptLog.BadUuidRestoresNothing` | src/cryptsetup_reencrypt.c:270-362 | With any other UUID no field is restored; the log is accepted, without effect, exactly when the first 444 characters of the UUID fill the sector without a line feed, and refused otherwise |
| `ReencryptLog.LogRoundTrip` | src/cryptsetup_reencrypt.c:270-362 | The log restores every context with the same UUID if and only if the UUID has 1 to 40 characters and no white space |
| `BlockIo.ReadBuffer` | lib/utils_io.c:32-63 | The bytes read are those of the device at the position, in order, across short and interrupted reads; without interruption handling only the end of the device makes it short |
| `BlockIo.WriteBuffer` | lib/utils_io.c:65-96 | What reached the device is exactly a prefix of the buffer; without faults it is all of it |
| `BlockIo.WriteBlockwise` | lib/utils_io.c:98-148 | From an aligned position, success changes exactly the bytes of the buffer, although the last block is read, patched and written back |
| `BlockIo.ReadBlockwise` | lib/utils_io.c:150-191 | From an aligned position, success returns exactly the slice |
| `BlockIo.WriteLseekBlockwise` | lib/utils_io.c:199-251 | For every offset (negative ones count from the end), length and block size: success changes exactly [offset, offset + length) and needs that range to be on the device, a failure touches nothing outside it, and without faults it succeeds exactly on such ranges |
| `BlockIo.ServesIs` | lib/utils_io.c:199-251 | The requests that are served, in numbers: a range of at least one byte lies on the device, counted from its start or, with a negative offset, from its end; the block size does not matter |
| `BlockIo.NoFaultIs` | lib/utils_io.c:32-96 | Interruptions and transfers of fewer bytes than asked for do not count as faults |
| `BlockIo.ReadLseekBlockwise` | lib/utils_io.c:253-298 | Success returns exactly that slice of the device; without faults every range on the device is read |
| `BlockIo.WriteThenRead` | lib/utils_io.c:199-298 | Writing one range and reading any range of the same device: what was written is read back, everything else is read as it was, and without faults both succeed on ranges of the device |
| `Wipe.WipeSpecial` | lib/utils_wipe.c:54-92 | Forty passes, of which 5 to 31 repeat the triples of the table over the whole triples of the piece, 38 is all ones and the others are twelve outputs of the generator; nothing outside the piece changes, and the last output is what it holds in the end; without faults it succeeds |
| `Wipe.WipePattern` | lib/utils_wipe.c:32-52 | Each whole triple of the buffer becomes the three bytes of the pattern; one or two bytes at its end stay as they were |
| `Wipe.WipePass` | lib/utils_wipe.c:62-82 | One pass: the buffer is filled as its number says and written over the piece and nothing else |
| `Wipe.WipeBlock` | lib/utils_wipe.c:94-130 | A zero piece ends as zeros of exactly its size, also when it ends inside a device block; a random one as what the generator gave out for it |
| `Wipe.WipeLoop` | lib/utils_wipe.c:199-218 | Success leaves in [start, end) zeros, the outputs of the generator one after the other, or every twelfth of them, as the pattern says, and nothing else changed; an interruption leaves exactly the prefix up to the reported offset; an error changed nothing outside the range; without faults there is no error |
| `Wipe.WipeDevice` | lib/utils_wipe.c:132-224 | Refused calls change nothing (out of memory is positive ENOMEM); an accepted wipe of a range on the device succeeds when nothing fails; a successful one of a range below 64 bits leaves exactly that range zero, or holding what the generator gave out (for the special pattern the last of twelve for each piece, and that only on a rotational device), without a length exactly the rest of the device; a range that wraps 64 bits is not touched and reports success when the call is accepted |
| `Base64Spec.Char6Is` | lib/base64.c:62-63 | The character for each 6-bit value is the one at that place in the alphabet string |
| `Base64Spec.ValueIs` | lib/base64.c:185-249 | The value of each character is its place in the alphabet, -1 for every character outside it |
| `Base64Spec.EncodedGroup` | lib/base64.c:87-133 | Every character of every group of an encoding, from the bytes at its place, padding included |
| `Base64Spec.QuadIs` | lib/base64.c:402-467 | The bytes of each kind of group from the places of its characters in the alphabet, and which groups have none |
| `Base64Spec.DecodedIff` | lib/base64.c:402-467 | A text stands for bytes exactly when its length is a multiple of four and each of its groups does |
| `Base64Spec.DecodedGroup` | lib/base64.c:402-467 | With padding at the end only, the bytes of group g stand at 3 g |
| `Base64Spec.DecodeEncode` | lib/base64.c:68-133 | For every byte string the encoding decodes to it, has padding at its end only, and is canonical |
| `Base64Spec.EncodeDecode` | lib/base64.c:402-467 | A decodable text is re-encoded to itself exactly when the unused bits of its last group are zero (section 3.5 of RFC 4648) |
| `Base64Encode.EncodedHead` | lib/base64.c:90-133 | The general loop's expression for each of the four characters is that of section 4 of RFC 4648 on the 24-bit group |
| `Base64Encode.EncodeFast` | lib/base64.c:68-81 | The fast path writes the full encoding of whole groups and nothing else |
| `Base64Encode.Encode` | lib/base64.c:87-133 | For every input and room, exactly the first min(room, length) characters of the encoding are written, a terminator is added exactly when room remains, and nothing else changes |
| `Base64Encode.FastSizes` | lib/base64.c:98-102 | The fast path is taken exactly when the input is whole groups and the room is exactly their encoded length |
| `Base64Encode.OverflowTestExact` | lib/base64.c:145-165 | In 64-bit arithmetic the test inlen > outlen holds exactly when the length computation wrapped |
| `Base64Encode.EncodeAlloc` | lib/base64.c:145-174 | No buffer and 0 for a length that wraps; no buffer and the length without memory; otherwise the encoding with its terminator |
| `Base64Decode.FourIsQuad` | lib/base64.c:402-467 | decode_4 accepts a group exactly when it has a meaning and is padded only at the end of the text |
| `Base64Decode.FourEmits` | lib/base64.c:402-467 | Accepted or refused, a group emits exactly the bytes that its leading characters of the alphabet determine |
| `Base64Decode.StreamAppend` | lib/base64.c:487-565 | Decoding a text in two parts, carrying what is left over, is decoding the whole |
| `Base64Decode.LeftoverLength` | lib/base64.c:348-386 | What the context carries is always the length of the text so far modulo four |
| `Base64Decode.StreamedIsDecoded` | lib/base64.c:487-565 | Streaming succeeds with nothing left exactly on concatenations of full or padded groups, with their decoding |
| `Base64Decode.PlainIsDecoded` | lib/base64.c:487-565 | Without a context exactly those with padding at the very end are accepted |
| `Base64Decode.ChunkingDoesNotMatter` | lib/base64.c:487-565 | For every way to cut a text into chunks: everything is accepted with nothing left over exactly when the newline-free text is a concatenation of groups and no empty chunk flushes within one, and the joined outputs are its decoding; the leftover is as long as the text so far modulo four |
| `Base64Decode.DecodersInvertEncoder` | lib/base64.c:68-133 | Both ways of decoding undo the encoder on every input |
| `Base64Decode.ReencodesIffCanonical` | lib/base64.c:402-467 | For every text accepted without a context, re-encoding its bytes gives it back exactly when it is canonical |
| `Base64Stream.Get4` | lib/base64.c:348-386 | The next four non-newline characters of context and input, the context keeping what is less than four |
| `Base64Stream.Decode4` | lib/base64.c:402-467 | Acceptance and emitted bytes of a group, also when the group is refused after bytes were written or the room is short |
| `Base64Stream.FastPath` | lib/base64.c:507-520 | The unrolled loop consumes whole groups, and its last, failed attempt is known so that the output can be rolled back |
| `Base64Stream.SlowPath` | lib/base64.c:522-559 | From there on newlines are skipped and the leftover collected, with the meaning of the streaming specification |
| `Base64Stream.DecodeCtx` | lib/base64.c:487-565 | Success, output, length and new context of one call are those of the specification, for every context, chunk, flush and room |
| `Base64Stream.NeedLenSuffices` | lib/base64.c:579-599 | 3 * (inlen / 4) + 3 never wraps and holds the whole decoded output, up to three carried characters included |
| `Base64Stream.DecodeAllocCtx` | lib/base64.c:578-605 | With memory the allocated buffer holds the whole decoding, or the text is refused because it is not decodable; without, nothing happens to the context |
| `Base64Stream.DecodeChunk` | lib/base64.c:487-565 | One call on one chunk with room for all of its output, an empty one being a flush |
| `Base64Stream.DecodeChunks` | lib/base64.c:487-565 | Call by call over any list of chunks and a flush at the end: all calls succeed exactly when the newline-free text is a concatenation of groups and no empty chunk comes within one (always so for chunks that are not empty), and the outputs together are its decoding |
| `CStrings.HexRoundTrip` | lib/libdevmapper.c:447-453 | Every byte string is read back from its lower-case hexadecimal text |
| `CStrings.HexDigits` | lib/libdevmapper.c:447-453 | The two characters for each byte are the lower-case hexadecimal digits of its halves |
| `CStrings.DecDigits` | lib/libdevmapper.c:670-674 | Digit k from the end of a printed number is its k-th decimal digit, and there are no leading zeros |
| `CStrings.SameLetter` | lib/libdevmapper.c:1987-2003 | strcasecmp takes two characters for the same when they are, or are the same letter in upper and lower case |
| `CStrings.StrtoullIs` | lib/libdevmapper.c:1944-1967 | Every decimal number, with or without a sign and of any length: above 64 bits the largest one, negative ones wrap around, no digit means zero and nothing used up |
| `CStrings.ScanIntIs` | src/cryptsetup_reencrypt.c:303-328 | Every decimal number through %d: cut to 64 bits, then to 32 |
| `CStrings.StrtoullDec` | lib/libdevmapper.c:1944-1967 | strtoull reads back every printed 64-bit number and stops where it ends |
| `CipherSpec.Translated` | lib/libdevmapper.c:468-528 | For every spec that fits the scans, the kernel name printed is capi:<algorithm>-<iv>, with its truncation test on exactly one length |
| `CipherSpec.KernelName` | lib/libdevmapper.c:497-521 | The name and the option for cipher-mode-iv as text, integrity by integrity: capi:mode(cipher)-iv, rfc4309(...) for ccm under aead, rfc7539(...,poly1305), authenc(...,...), with refusal at exactly 256 characters |
| `CipherSpec.KernelNameWithoutMode` | lib/libdevmapper.c:497-521 | The same for cipher-iv |
| `CipherSpec.LegacyName` | lib/libdevmapper.c:497-500 | Without integrity a text of the right shape goes to the kernel as it is, up to 255 characters, and is refused at 256 |
| `CipherSpec.LegacyShapeIs` | lib/libdevmapper.c:479-495 | That shape in literal terms: 1 to 63 characters before the first dash, and behind it and any blanks something other than a dash |
| `CipherSpec.SurvivesIs` | lib/libdevmapper.c:463-466 | The condition of the round trip in numbers: 63 for the parts, 125 for poly1305, 133 for authenc |
| `CipherSpec.TwoPartPlain` | lib/libdevmapper.c:468-592 | cipher-iv with integrity none or aead comes back unchanged unless the cipher has one character, and is then refused |
| `CipherSpec.ThreePartPlain` | lib/libdevmapper.c:468-592 | cipher-mode-iv with integrity none or aead comes back unchanged unless the mode is rfc4309, which is lost |
| `CipherSpec.CcmAead` | lib/libdevmapper.c:468-592 | The mode ccm under aead always comes back unchanged |
| `CipherSpec.Poly1305` | lib/libdevmapper.c:468-592 | poly1305 comes back unchanged when the algorithm is within the scan width, and is refused otherwise |
| `CipherSpec.AuthencSurvives` | lib/libdevmapper.c:468-592 | Any other short integrity name without comma or dash comes back with its cipher, or is refused when the whole exceeds the scan width |
| `CipherSpec.AuthencLost` | lib/libdevmapper.c:468-592 | An integrity name that is empty, over 63 characters, or has a comma or a dash never comes back |
| `CipherSpec.TranslatedShortened` | lib/libdevmapper.c:479-495 | A spec whose mode and IV exceed 63 characters is silently translated as a shorter one |
| `CipherSpec.SpecRoundTrip` | lib/libdevmapper.c:468-592 | For every clean spec and every integrity profile: cipher_dm2c undoes cipher_c2dm if and only if the parts fit the scans and none of the named collisions applies |
| `CipherSpec.CapiShrinks` | lib/libdevmapper.c:530-592 | A name that starts with capi never comes back as itself |
| `CipherSpec.LegacyRoundTrip` | lib/libdevmapper.c:497-500 | For every string at all, without integrity: it comes back if and only if it has the shape of a spec, is below 256 characters and does not start with capi |
| `CipherSpec.Rfc4309IsLost` | lib/libdevmapper.c:557-562 | aes-rfc4309-random with aead comes back as aes-random |
| `Tokens.HexKey` | lib/libdevmapper.c:447-453 | The loop prints the hexadecimal text of the key |
| `DmCrypt.IntLog10` | lib/libdevmapper.c:455-461 | One less than the number of decimal digits |
| `DmCrypt.PrintKey` | lib/libdevmapper.c:643-667 | The key text: a dash for a null cipher, a keyring reference in a buffer sized with int_log10 that never cuts it, or hexadecimal |
| `DmCrypt.CountOptions` | lib/libdevmapper.c:609-626 | The number printed is the number of option tokens printed |
| `DmCrypt.PrintFeatures` | lib/libdevmapper.c:624-640 | The feature section is the count and every token, never cut by its buffers |
| `DmCrypt.GetDmCryptParams` | lib/libdevmapper.c:595-685 | The whole line, for every target and flags, refused only when the cipher translation refuses; the length estimate is always enough. What the line is in literal terms, say the next lemmas |
| `DmCrypt.RealCipherLine` | lib/libdevmapper.c:643-676 | For a kernel name other than null and with cipher_null at no position: the line field by field, with the key in hexadecimal or as :size:logon:description |
| `DmCrypt.NullCipherLine` | lib/libdevmapper.c:643-676 | For every other kernel name the key is a dash |
| `DmCrypt.NullIs` | lib/utils_crypt.c:181-186 | The test for a null cipher holds exactly for null and for names with cipher_null at some position |
| `DmCrypt.FeaturesText` | lib/libdevmapper.c:609-640 | The feature section word by word: the count, the names of the flags that are set in their order, the sector size unless it is 512, the integrity |
| `Tokens.ReadHex` | lib/utils_crypt.c:155-179 | The loop over pairs of characters returns the bytes of the text, or nothing when one pair is not used up by strtoul |
| `DmCryptQuery.QueryKey` | lib/libdevmapper.c:2027-2068 | The key is the keyring reference or the hex bytes of the text; a keyring text without a description is the only ENOMEM |
| `DmCryptQuery.DmTarget.QueryOption` | lib/libdevmapper.c:1987-2008 | One option sets its flag or field, names compared without case, or is refused |
| `DmCryptQuery.DmTarget.QueryOptions` | lib/libdevmapper.c:1977-2014 | The loop accepts exactly the announced number of options and leaves their combined effect |
| `DmCryptQuery.DmTarget.Query` | lib/libdevmapper.c:1918-2087 | The parser accepts a line and fills the target exactly as the specification of lines says; a refused line leaves cipher, integrity, device and key alone |
| `DmCryptQuery.TokensAreRead` | lib/libdevmapper.c:1977-2014 | A list of tokens with its count is read token by token to the end, counter and cursor in step |
| `DmCryptQuery.TokensCounted` | lib/libdevmapper.c:1977-2014 | With any other count than the number of tokens the list is refused |
| `DmCryptQuery.NamedFlagIs` | lib/libdevmapper.c:1987-1998 | A word sets a flag exactly when it is its name, upper and lower case being the same |
| `DmCryptQuery.NumberAfterIs` | lib/libdevmapper.c:1999-2004 | A number behind integrity: or sector_size: is cut to 32 bits, after one beyond 64 bits was taken for the largest |
| `DmCryptQuery.FeaturesAreRead` | lib/libdevmapper.c:1971-2014 | Every printed feature section is read back in full |
| `DmCryptQuery.KeyIsRead` | lib/libdevmapper.c:2027-2068 | Hex keys and keyring descriptions (with colons in them too) are read back; a null cipher has lost its key |
| `DmCryptQuery.CryptLineRoundTrip` | lib/libdevmapper.c:1918-2087 | Reading a printed line gives back every field, the flags and, for a kernel name other than null and with cipher_null at no position, the key, with cipher and integrity as the translation back makes them |
| `DmCryptQuery.RealKeyIsFound` | lib/libdevmapper.c:643-676 | For such a kernel name the key that is found is the key of the target, whatever becomes of the cipher name |
| `DmCryptQuery.RoundTripsIff` | lib/libdevmapper.c:1918-2087 | For every valid target, reading its line gives it back if and only if its cipher survives the translation |
| `DmCryptQuery.AuthenticatedTarget` | lib/libdevmapper.c:1918-2087 | With an integrity profile: if and only if the spec fits and survives |
| `DmCryptQuery.PlainTarget` | lib/libdevmapper.c:1918-2087 | Without one: if and only if the cipher has the shape of a spec, is below 256 characters and does not start with capi |
| `DmVerity.Normalised` | lib/libdevmapper.c:700-706 | At most one of ignore, restart and panic remains; panic beats restart, both beat ignore, nothing else is dropped, and nothing at all without a conflict |
| `DmVerity.DropConflicts` | lib/libdevmapper.c:700-706 | The two tests in sequence compute that normalisation |
| `DmVerity.PrintFeatures` | lib/libdevmapper.c:708-743 | The three feature texts and the count of all option tokens, two for each option with a value |
| `DmVerity.GetDmVerityParams` | lib/libdevmapper.c:688-785 | The whole line for every target and flags; the length estimate is always enough |
| `DmVerity.VerityLineText` | lib/libdevmapper.c:762-774 | The line field by field: the ten mandatory ones, the salt or a dash, and the number of option words before the options |
| `DmVerity.FlagTextsAre` | lib/libdevmapper.c:700-743 | The flag names in their order, restart only without panic and ignore only without either |
| `DmVerity.OptionTextsAre` | lib/libdevmapper.c:719-733 | The texts of the four FEC options and of the signature option, as far as 254 and 542 characters hold them |
| `DmVerityQuery.QueryTable` | lib/libdevmapper.c:2116-2225 | The mandatory fields are taken off the line from left to right, block sizes cut to 32 bits, each with its own error exit |
| `DmVerityQuery.QueryHashes` | lib/libdevmapper.c:2182-2225 | Hash name, root digest and salt, after which the line may end; digests of odd length or with other characters than hex digits are refused |
| `DmVerityQuery.FlagKindIs` | lib/libdevmapper.c:2243-2252 | A word sets a flag exactly when it is its name, upper and lower case being the same |
| `DmVerityQuery.KindIs` | lib/libdevmapper.c:2253-2290 | And so for the names of the options with a value |
| `DmVerityQuery.ArgumentIs` | lib/libdevmapper.c:2269-2299 | Numbers of any size behind the FEC options, the area offset as a 64-bit product, roots cut to 32 bits; of two signature keys the first stays |
| `DmVerityQuery.HexToBytesIs` | lib/utils_crypt.c:155-179 | Texts of odd length are refused; an accepted one has a byte for each two characters |
| `DmVerityQuery.FlagsCounted` | lib/libdevmapper.c:2229-2307 | A list of flags is accepted exactly when the count is their number |
| `DmVerityQuery.DmTarget.QueryArgument` | lib/libdevmapper.c:2253-2299 | An option with a value sets its field, computes the FEC area in 64 bits, keeps the first signature key, and moves the cursor past the value |
| `DmVerityQuery.DmTarget.QueryOptions` | lib/libdevmapper.c:2229-2307 | The loop has the specified effect, options with a value counting twice, and all text must be used; a missing value is a refusal for the signature key and a read through a null pointer for the others |
| `DmVerityQuery.DmTarget.Query` | lib/libdevmapper.c:2089-2339 | A line is accepted with the target filled, refused, or read through a null pointer, exactly as the specification of lines says |
| `DmVerityQuery.TableIsRead` | lib/libdevmapper.c:2116-2225 | The ten mandatory fields are read back, salt and root hash included |
| `DmVerityQuery.FecIsRead` | lib/libdevmapper.c:2253-2289 | The four FEC options take eight of the counted tokens and restore the device and the three numbers |
| `DmVerityQuery.VerityLineRoundTrip` | lib/libdevmapper.c:2089-2339 | Every target whose FEC and signature options fit their buffers is read back in full, with the normalised flags |
| `DmVerityQuery.OptionsFound` | lib/libdevmapper.c:2253-2299 | What is found for each option: the flags without those in conflict, the FEC values with the area offset as their product with the hash block size in 64 bits, the signature key, and nothing for options that are not there |
| `DmVerityCut.SiblingPrintedAlike` | lib/libdevmapper.c:719-733 | When they do not fit, another valid target is printed as the very same line, so one of the two is lost |
| `DmVerityCut.CutEarly` | lib/libdevmapper.c:2229-2307 | FEC options cut before any digit of their roots: the line is refused wherever the cut falls, except that exactly without a signature key and right after an option name it is read through a null pointer |
| `DmVerityCut.CutBeforeRoots` | lib/libdevmapper.c:2282-2289 | Cut right before the digits, they are read with zero roots |
| `DmVerityCut.VerityRoundTripIff` | lib/libdevmapper.c:688-785 | For every single target and all flags: its line is read back as it was if and only if the signature description fits its buffer and the FEC options fit theirs, or miss it by just the digit of zero roots |
| `PlainHash.KeyIsStream` | lib/crypt_plain.c:40-60 | Byte i of a key is byte i mod len of the digest of round i / len, for any start |
| `PlainHash.KeyByte` | lib/crypt_plain.c:30-63 | Byte i of a key is byte i mod len of the digest of i / len letters A followed by the passphrase |
| `PlainHash.ShortKey` | lib/crypt_plain.c:30-63 | A key no longer than a digest is a beginning of the digest of the passphrase alone |
| `PlainHash.PlainKeyIs` | lib/crypt_plain.c:67-117 | A buffer is the key for a hash name exactly when its first bytes are those of the passphrase or of the digests, as far as the name asks for, and the others are zero |
| `PlainHash.PlainKeyError` | lib/crypt_plain.c:67-117 | Which error is returned when: -22 for a bad name or a short plain passphrase, -2 for an algorithm that is not there |
| `PlainHash.FormIs` | lib/crypt_plain.c:78-103 | name stands for the whole key, name:len for len bytes if the key has as many, and 256 characters are refused |
| `PlainHash.ShorterIsPrefix` | lib/crypt_plain.c:40-60 | A shorter key is a prefix of a longer one; both are cut out of the unbounded concatenation H(p), H(Ap), H(AAp), ... |
| `PlainHash.HashRounds` | lib/crypt_plain.c:30-63 | The loop ends, fills exactly the key bytes with that prefix, and leaves the rest of the buffer alone; 1 exactly when the hash backend fails |
| `PlainHash.CryptPlainHash` | lib/crypt_plain.c:67-117 | Result and buffer for every hash name, length suffix and passphrase; after success byte i is that of the digest of i / len letters A and the passphrase, with zeros behind the hashed length; errors change nothing, and 1 comes only from the hash backend |
| `PlainHash.LengthForm` | lib/crypt_plain.c:83-116 | hash:len stands for the key of len bytes followed by zeros, and fails as that key does |
| `PlainHash.PlainKeyPrefix` | lib/crypt_plain.c:67-117 | Whatever the algorithm, plain included, a shorter key is a prefix of a longer one |

## Left out

- Locks of regular files (`DEV_LOCK_FILE`), which lock the file itself and never remove it.
- The reference count is unbounded; its 32-bit wrap-around is not modelled.
- Memory alignment and bounce buffers, allocation failure in the copy loops, logging, progress callbacks and translated messages.
- Ordering between the page cache and the disk without fsync; in the copy loops a log entry is written whole or not at all.
- Short writes in the re-encryption loops, which the source does not handle.
- Behaviour past the end of a device that is not a multiple of its block size.
- What the wishes of a progress callback are; it may ask to stop after any piece.
- Real ciphers and hashes; they are arbitrary bijections and functions.
- Bit operations on disjoint bits in base64 are written as sums.
- Queries of a table line that ask for only some of its parts, and the lookup of printed device numbers.
- What happens after a read through a null pointer.
- Option counters are unbounded; a line with more than 2^32 options is not modelled.
- Fields that a refused dm-crypt or dm-verity line has already changed, other than those named in the contracts.
- dm-integrity lines: their fixed buffers and 32-bit journal size make the round trip mostly side conditions.
- LUKS1, LUKS2, VERITY, TCRYPT and BITLK metadata, `lib/setup.c` and the command line tools.
