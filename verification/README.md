# Verified model of rencfs

This project models the storage layer of rencfs, an encrypted file system, and proves what that layer
promises. `dafny verify dfyconfig.toml` checks all of it.

* **Block streams.** A file's plaintext is cut into blocks of `P` bytes; each is stored as a 12-byte nonce, the
  ciphertext and a 16-byte tag, under an associated data that is the block's index. `Layout` fixes the format and
  gives an independent decoder; the AEAD is any pair of functions under which opening inverts sealing and opens
  nothing else, with a toy instance as witness; that it tells block indexes apart is a condition of the theorems that
  need it. `Buffers`, `CryptoWrite`, `CryptoWriteSeek` and `CryptoRead` are the classes of the source, with the same
  branches, and their contracts are stated against a plain byte array (`Bytes.WriteAt`, `Bytes.ZeroExtend`) and a
  cursor over it. `StreamUtil` holds the copying loops, over any short reader and any writer of the layer;
  `WriterMachine`, `WriterRuns` and `ReaderRuns` hold the theorems over whole runs.
* **Departures.** Where the streams do not behave like a byte array, the contracts say what they do instead, and the
  condition on the property itself is stated both ways. `WriterMachine` follows the writer through every run: an old block
  taken for the one behind the end, a block left unloaded by a flush, and a front that is pending over a stored block it
  was never loaded from. From every such state a seek and a write is the positioned write if and only if no bytes of an
  old block and no zeros over stored bytes come with it (`WriterMachine.SeekWriteExactly`), and a run is the byte array's
  at every step if and only if every step meets its guard (`WriterMachine.FaithfulExactly`). None of this depends on the
  cipher but one thing, a front that is stored short because the writer leaves its block or finishes: what the file then
  decodes to is given for any cipher by `ShortBlocks.ShortBlock`. A reader is lost in the last block if and only if it met
  the end before (`CryptoRead.RingCryptoRead.Seek`). `Departures` shows each failure on a family of inputs.
* **Lock table.** `ArcHashMap` is a machine of atomic steps that interleave freely: lookups and inserts under a
  read-write lock, lock-free decrements, and a purge that scans key by key.
* **Name space.** `Directories` and `Namespace` model directories with their LS and HASH indexes, the attribute cache
  and the entry-metadata cache; every operation is proved to do to the on-disk indexes what a plain tree operation does
  to a tree. `NamespaceRuns` follows whole runs, and `Ancestry` which directories keep a path from the root.
* **Open files.** `OpenFile` holds the readers and the writer of one inode with its recorded size (read, write, flush,
  release, resize), `FileRuns` its runs and scenarios; `Handles` holds the handle tables; `Attributes` the merging of
  attributes.
* **File names.** `FileNames` covers unpadded base64 (section 4 of RFC 4648, padding omitted as section 3.2 allows)
  and sealed names.

Randomness is arbitrary (nonces are any 12 bytes; a new inode number is any unused one), a short read is any nonzero
length, an LRU eviction is any removal, and the clock is a parameter. Readers return their bytes as values instead of
filling a caller's slice.

Where the code and its documentation disagree the model follows the code:

* A seekable writer whose clean block was only loaded by a seek keeps that block when it next seeks past the end of
  a plaintext of whole blocks. No zeros are written, and a write then lays its bytes over the old block, which is
  appended with them (`CryptoWriteSeek.RingCryptoWriteSeek.Seek`, `Departures.SeekThenWrite`,
  `Departures.OldBlockAppended`).
* A flush of a full block inside the plaintext leaves the next block unloaded, and a shorter write there leaves only the
  front of that block pending. Later writes that fill the block make it whole again, but a seek forward inside it puts
  zeros over the stored bytes (`Departures.FillBehindFlush`), and leaving it stores it short
  (`CryptoWriteSeek.RingCryptoWriteSeek.Write`, `Departures.WriteBehindFlush`).
* A reader that met the end cannot be positioned inside the last block until it is sought elsewhere
  (`CryptoRead.RingCryptoRead.Seek`), so a second read of the last block through one handle gives nothing
  (`FileRuns.ReadTwice`). An empty read drops what is unread of the cached block (`CryptoRead.RingCryptoRead.Read`).
* The closed-form length is 28 short for a plaintext of whole blocks (`Layout.ReportedLenExact`).
* Truncating with readers and a writer open records the old size (`OpenFile.FileStreams.SetLen`), after which growing
  the file fails (`FileRuns.GrowAfterTruncate`).
* The reader of a read-write handle is not rebuilt after that handle's writes (`FileRuns.ReadOwnWrite`); it sees what
  its writer stored once it reads in another block (`FileRuns.ReadOwnFlush`).
* A name with a separator is listed with spaces, and the listed name does not lead back
  (`Namespace.ListedNameResolves`); a cached `$..` survives a move (`NamespaceRuns.StaleParentLink`); a removed file's
  attributes are still served (`NamespaceRuns.RemovedStillServed`); the name `$..` is accepted in the root
  (`Namespace.EncryptedFs.Create`); a directory may be moved below itself (`Ancestry.MoveRooted`), and a directory
  that another was moved over still takes entries (`Ancestry.EntryWithoutPath`); a refused second writer keeps its
  read handle (`Handles.HandleTables.Open`), and a failed one leaves a handle behind on which every later rebuilding
  of the file's readers fails (`Handles.LostForGood`).

## Model

| member | source | states |
|---|---|---|
| Layout.ToyIsLawful | src/crypto/write.rs:67-89 | the AEAD laws have an instance: opening gives back what was sealed and nothing else opens, and lengths differ by the tag |
| Layout.ToyBinds | src/crypto/write.rs:69-72 | and one that tells block indexes apart whose low bytes differ: what is sealed for one does not open under the other |
| Layout.StoredLenFormula | src/crypto/write.rs:67-89 | n plaintext bytes occupy n + 28 * ceil(n / P) stored bytes |
| Layout.ReportedLenExact | src/crypto/read.rs:170-179 | the closed-form length gives n exactly when n is 0 or not a multiple of P, and n - 28 otherwise |
| Layout.StoredDiv | src/crypto/write.rs:327-328 | dividing the stored length by the stored block size counts the full plaintext blocks; it is 0 only for the empty plaintext |
| Layout.SpliceBlock | src/crypto/write.rs:67-89 | sealing a block over its place, when it is full or covers the rest, stores the plaintext with that block replaced and no other touched |
| Layout.StoresIffDecodes | src/crypto/read.rs:29-74 | the block-by-block relation between stored bytes and plaintext holds exactly when opening the blocks in order gives the plaintext |
| Layout.MisplacedBlock | src/crypto/read.rs:51-58 | a block that was sealed for another place does not open, and the stream does not decode, if the cipher tells the two indexes apart |
| Layout.ExchangeShows | src/crypto/read.rs:51-58 | a stored stream in which two different full blocks are exchanged no longer decodes, for such a cipher |
| Buffers.BufMut.SeekRead | src/crypto/buf_mut.rs:60-74 | the read cursor moves to any position up to the fill mark; any other target fails and moves nothing |
| Buffers.BufMut.SeekWrite | src/crypto/buf_mut.rs:79-94 | the write cursor moves anywhere in the buffer and raises the fill mark to itself; out of bounds fails and moves nothing |
| Buffers.BufMut.SeekAvailable | src/crypto/buf_mut.rs:99-117 | the fill mark moves anywhere in the buffer and pulls both cursors back under it |
| Buffers.BufMut.Write | src/crypto/buf_mut.rs:159-175 | as much as fits is laid over the content at the write cursor; the buffer becomes dirty only if something was taken |
| Buffers.BufMut.Read | src/crypto/buf_mut.rs:177-187 | gives the longest front of the unread bytes that the request allows |
| Buffers.File.ReadFull | src/crypto/read.rs:34-48 | repeated short reads fill the buffer or stop at the end of the file, with the bytes in order |
| Buffers.DecryptBlock | src/crypto/read.rs:29-74 | what is under the cursor is opened with the first 12 bytes as nonce and the block index as associated data, in place, and the index advances; nothing to read, a block that does not open and one shorter than a nonce, on which the source panics, are told apart |
| CryptoWrite.RingCryptoWrite.constructor | src/crypto/write.rs:50-65 | a fresh writer over a stored stream holds its plaintext at position 0 with nothing pending |
| CryptoWrite.RingCryptoWrite.EncryptAndWrite | src/crypto/write.rs:67-89 | the stored bytes become the old ones with the nonce and the pending content, sealed under that nonce with the block index as associated data, laid over the place of that block; the plaintext does not change |
| CryptoWrite.RingCryptoWrite.Write | src/crypto/write.rs:92-105 | takes exactly the bytes up to the block end, and the plaintext becomes the positioned write, a left-over block counting as part of it; what is left pending is only the front of a stored block exactly when the write goes into a buffer that holds no more than one and does not cover the block |
| CryptoWrite.RingCryptoWrite.Flush | src/crypto/write.rs:107-123 | in every state plaintext and position are kept; a full block is stored and the buffer emptied, anything else is left untouched |
| CryptoWrite.RingCryptoWrite.WriteAll | src/crypto/write.rs:92-105 | all bytes are taken in one positioned write; a front is left pending exactly when the last piece ends inside a stored block that was never loaded; a stuck buffer fails without change |
| CryptoWrite.RingCryptoWrite.Finish | src/crypto/write.rs:126-142 | the output then stores the whole plaintext; a second finish is refused |
| CryptoWrite.FillZeros | src/stream_util.rs:115-140 | exactly the given number of zeros is written at the cursor of a file or of the encrypting writer, or fails without change on one that takes no more |
| CryptoWriteSeek.RingCryptoWriteSeek.LoadBlock | src/crypto/write.rs:218-248 | loads the stored block under the cursor and moves the output back to it; with no block the old buffer stays |
| CryptoWriteSeek.RingCryptoWriteSeek.GetPlaintextLen | src/crypto/write.rs:250-270 | the length is exact when the pending block is the last one, and otherwise the closed form of the whole plaintext |
| CryptoWriteSeek.RingCryptoWriteSeek.EndIsEnd | src/crypto/write.rs:250-270 | so seeks from the end count from the true end exactly with the last block pending, and not as a front, or off the block boundary |
| CryptoWriteSeek.RingCryptoWriteSeek.SeekInBlock | src/crypto/write.rs:291-317 | within a block the content is kept and the cursor goes as far as it can, short of the target only at the end of the stream or of a front; a left-over block stays where it is |
| CryptoWriteSeek.RingCryptoWriteSeek.SeekToBlock | src/crypto/write.rs:318-348 | to another block the pending one is stored and the target or last block loaded; in the stale case the old bytes stay in the buffer, at the place behind the last block |
| CryptoWriteSeek.RingCryptoWriteSeek.Seek | src/crypto/write.rs:273-356 | the cursor lands on the target with the plaintext zero-extended to it, except from a clean loaded block to a target at or past the end of whole blocks, where that block is left over with the cursor in it, nothing is stored, and it fails past the block's end, and from a front, where zeros go over the stored bytes between its end and the target |
| CryptoWriteSeek.RingCryptoWriteSeek.Write | src/crypto/write.rs:358-376 | from every state the positioned write up to the block end, a left-over block counting as part of the plaintext; only a front of a stored block is left pending exactly when the write hits an unloaded block, or goes on in such a front, without covering the block |
| CryptoWriteSeek.RingCryptoWriteSeek.WriteAll | src/crypto/write.rs:358-376 | from every state all bytes as one positioned write, with a front left under the same condition; at the end of a left-over block none are taken |
| CryptoWriteSeek.RingCryptoWriteSeek.Flush | src/crypto/write.rs:378-380 | plaintext and position are kept; the next block is unloaded afterwards exactly when a full block inside the plaintext was flushed |
| CryptoWriteSeek.RingCryptoWriteSeek.Finish | src/crypto/write.rs:383-387 | the output stores the plaintext including the pending block |
| WriterRuns.Run | src/crypto/write.rs:273-388 | from a fresh writer over any stored stream every run in which each seek and write meets its guard, short writes behind flushed blocks included, and a finish leave a stream that decodes to the byte array with each write applied at its offset and gaps zero-filled |
| WriterRuns.RunOps | src/crypto/write.rs:273-388 | the same for the live writer in any state, including its pending block |
| WriterRuns.NeverHitsBehaves | src/crypto/write.rs:273-388 | for runs of seeks followed by writes, with flushes, the guard holds as soon as no write goes on behind a flushed full block with less than the next one holds |
| WriterMachine.StepSeek | src/crypto/write.rs:273-356 | a seek is one step of a machine over the plaintext, the cursor and what the one cached block is, left-over blocks and fronts included; a clean one inside the plaintext stores nothing |
| WriterMachine.StepWrite | src/crypto/write.rs:358-376 | so is writing all of some bytes, which fails exactly at the end of a left-over block |
| WriterMachine.StepCall | src/crypto/write.rs:358-376 | so is one write call, empty ones included, with the exact count it takes |
| WriterMachine.StepFlush | src/crypto/write.rs:378-380 | so is a flush |
| WriterMachine.SeekWriteExactly | src/crypto/write.rs:273-376 | from any state a seek and a nonempty write are the positioned write if and only if no bytes of an old block and no zeros over nonzero stored bytes come with them, and no front is left |
| WriterMachine.Run | src/crypto/write.rs:273-388 | every run of seeks, writes and flushes that leaves no front for another block, and a finish, leave what the machine computes, which is the byte array's content when every step met its guard; a front pending at the end is stored short, and what that decodes to is stated for any cipher |
| WriterMachine.FaithfulExactly | src/crypto/write.rs:273-388 | a run stands where a byte array with a cursor does after every step if and only if every step meets its guard: no stale seek behind the end, no zeros over nonzero stored bytes, no front left by a seek, no part of an old block left by a write |
| Bytes.HarmlessExactly | src/crypto/write.rs:318-348 | bytes laid over an old block behind the end are the positioned write exactly when they reach the block's end and the block was zero before them |
| Bytes.GapThenWrite | src/crypto/write.rs:349-353 | zeros put over stored bytes before a write make it the positioned write exactly when those bytes were zero |
| Bytes.WrittenAt | src/crypto/write.rs:349-376 | the positioned write all this is measured against, byte by byte: the new bytes, else the old ones, else zeros |
| Bytes.ResizeAt | src/encryptedfs.rs:1682-1714 | resizing, byte by byte: the old bytes, else zeros |
| Departures.SeekThenWrite | src/crypto/write.rs:318-376 | from any state of the writer, left-over blocks and fronts included, a seek that leaves no front and a nonempty write give the positioned write if and only if they meet the guard; after a stale seek from a loaded block old content is appended, or nothing is written |
| Departures.OldBlockAppended | src/crypto/write.rs:318-376 | over any plaintext of whole blocks, after a seek alone, a seek behind the end and a write append the first block with the bytes laid over it |
| Departures.StaleSeek | src/crypto/write.rs:318-348 | over any plaintext of whole blocks, a seek past the end after a seek alone reports success and stores no zeros |
| ShortBlocks.ShortBlock | src/crypto/write.rs:67-89 | under any cipher a shorter block sealed over a longer one decodes if and only if the mixed block opens, to the plaintext with that block replaced by what it opens to |
| ShortBlocks.CutIsShort | src/crypto/write.rs:67-89 | so does storing a pending front |
| Departures.ShortBlockCorrupts | src/crypto/write.rs:67-89 | under the toy cipher a shorter block sealed over a longer one does not decode to the positioned write |
| Departures.WriteBehindFlush | src/crypto/write.rs:358-376 | a flush of a full block, a shorter write behind it and a finish give the positioned write exactly when the cipher opens the mixed block to the block it should be; under the toy cipher they do not |
| Departures.FillBehindFlush | src/crypto/write.rs:273-388 | behind a flushed block, under any cipher, a write, a seek over a gap and a write up to the block's end are stored with zeros in the gap: what the two writes ask for exactly if the gap was zero |
| Departures.LeaveFront | src/crypto/write.rs:318-324 | leaving the block of a pending front stores it over the front of that block, which decodes as stated for any cipher |
| Departures.FlushThenWrite | src/crypto/write.rs:358-376 | writing over a zero plaintext only the zeros already there, with a flush between, changes what it decodes to |
| CryptoRead.RingCryptoRead.LoadNext | src/crypto/read.rs:118-125 | the next block replaces the cached one and the cursor keeps pointing at the next plaintext byte; at the end the cache is emptied |
| CryptoRead.RingCryptoRead.Read | src/crypto/read.rs:110-129 | exactly the bytes from the cursor to the end of the cached block, or of the next one once it is used up, as far as asked; an empty request drops the cached block; the reader is drained exactly when it went for another block at the end |
| CryptoRead.RingCryptoRead.NextIsPos | src/crypto/read.rs:165-168 | the reported position is that of the next byte unless the end was read past |
| CryptoRead.RingCryptoRead.DrainedBlock | src/crypto/read.rs:165-168 | after the end was read past, the reported position is the start of the last block |
| CryptoRead.RingCryptoRead.GetPlaintextLen | src/crypto/read.rs:170-179 | the bound of seeks is the plaintext length, or 28 less for whole blocks |
| CryptoRead.RingCryptoRead.SeekInBlock | src/crypto/read.rs:206-222 | in the same block the reader lands on the target, or stays drained |
| CryptoRead.RingCryptoRead.SeekToBlock | src/crypto/read.rs:223-246 | in another block the reader lands on the target, whatever its state and whatever it has cached |
| CryptoRead.RingCryptoRead.Seek | src/crypto/read.rs:182-249 | the reader lands on the clamped target exactly when it was not drained or the target is outside the last block, with the target's block cached; before the start fails without change |
| CryptoRead.SeekForward | src/stream_util.rs:22-63 | skips min(len, what is left) bytes of a file with any short reads or of the decrypting reader; the exact form fails exactly when the source is too short |
| ReaderRuns.StepRun | src/crypto/read.rs:110-249 | each read, empty ones included, or seek is the step of a cursor over the plaintext that knows where the cached block ends |
| ReaderRuns.Run | src/crypto/read.rs:110-249 | every run of seeks and reads over a stored stream returns exactly what the cursor returns, empty reads and drained states included |
| ReaderRuns.UndrainedSeeks | src/crypto/read.rs:182-249 | until a read met the end, a seek up to the reported end, from the start, the end or the cursor, returns its target clamped to that end, and the next read gives the bytes from there; before the start it is refused |
| StreamUtil.Copy | src/stream_util.rs:65-113 | moves min(len, what is left) bytes in order from any source to any sink; the exact form fails exactly when the source is too short |
| StreamUtil.ReadUpTo | src/stream_util.rs:141-155 | fills the request from any source or stops at its end, with the bytes in order |
| StreamUtil.Encrypt | src/crypto/write.rs:67-142 | any chunking with flushes anywhere stores exactly the concatenation |
| StreamUtil.EncryptThenExchange | src/crypto/write.rs:67-142 | what the writer leaves decodes to the bytes written, and no longer decodes once two full blocks of it are exchanged, for any cipher that tells their indexes apart |
| StreamUtil.Decrypt | src/crypto/read.rs:110-129 | any sequence of nonempty read sizes gives the bytes in order, each read something until all were given |
| StreamUtil.RoundTrip | src/crypto.rs:195-214 | sequential writing and reading back give the same bytes for every chunking and every sequence of sizes |
| ArcHashMap.InvKept | src/arc_hashmap.rs:21-83 | every atomic step keeps counts, tables, lock exclusion and pending purges consistent |
| ArcHashMap.CountedKept | src/arc_hashmap.rs:55-65 | each counter stays the number of live holders of its entry through every step |
| ArcHashMap.CollectedKept | src/arc_hashmap.rs:80-83 | a tabled entry with count zero always has a drop that is yet to scan it, or an insert about to hold it |
| ArcHashMap.RunKeepsInv | src/arc_hashmap.rs:21-83 | the same over every interleaving |
| ArcHashMap.RunIsSafe | src/arc_hashmap.rs:45-83 | in every interleaving live holders of one key share one tabled entry, holders of different keys do not, and counts are exact |
| ArcHashMap.PurgeSparesHeld | src/arc_hashmap.rs:80-83 | no step removes or replaces a live holder's entry, and its counter is positive |
| ArcHashMap.QuietTableIsHeld | src/arc_hashmap.rs:21-27 | with no call and no drop in progress the keys are exactly the held keys, none if nothing is held |
| ArcHashMap.GetGives | src/arc_hashmap.rs:51-65 | in every reachable state a lookup that ends gives a live holder of its key on the tabled entry, whose count it raises by one, if and only if the key is tabled; nothing else changes |
| ArcHashMap.InsertGives | src/arc_hashmap.rs:67-78 | an insert that ends always gives such a holder |
| ArcHashMap.DropGives | src/arc_hashmap.rs:21-27 | a drop takes its holder out of use and out of the count, and ends without it; nothing else changes |
| ArcHashMap.WholeGet | src/arc_hashmap.rs:50-65 | a whole lookup, with anything interleaved, gives a holder if and only if its key was tabled when it began, and then of the value that was there |
| ArcHashMap.WholeInsert | src/arc_hashmap.rs:45-78 | a whole insert, with anything interleaved, always gives a holder: of the old value if the key was tabled when it began, else of the new one |
| ArcHashMap.DropAlone | src/arc_hashmap.rs:21-27 | with nothing else in progress a drop runs to its end and leaves exactly the keys that are still held |
| ArcHashMap.Waits | src/arc_hashmap.rs:21-83 | a lookup waits exactly for an insert or a purge in progress, an insert and a purge for any call or purge, and a drop's decrement for nothing |
| ArcHashMap.ComesToRest | src/arc_hashmap.rs:21-83 | the locks never jam: whatever calls and drops are in progress, all can run to their ends with every live holder untouched |
| Names.NormalizeFixes | src/crypto.rs:245 | normalising leaves a name alone exactly when it has no separator |
| Names.NormalizeAt | src/crypto.rs:245 | each slash and each backslash becomes a space and nothing else changes |
| FileNames.Base64Inverse | src/crypto.rs:32 | a text decodes to some bytes exactly when it is their encoding |
| FileNames.GroupNumber | src/crypto.rs:32 | the four digits of a group are its three bytes as one number, highest first |
| FileNames.EncryptFileName | src/crypto.rs:234-250 | an ordinary name comes back normalised, unchanged without separators; its sealed form has no slash and is neither special name; special names are stored in the clear |
| FileNames.SealedText | src/crypto.rs:216-220 | the text form of any sealed bytes is their base64 with each slash as a bar, and decrypts to their plaintext |
| FileNames.SealedTextsDiffer | src/crypto.rs:234-250 | texts of different sealed bytes differ, so a fresh nonce makes a fresh name |
| Directories.AddToIndexed | src/encryptedfs.rs:2130-2204 | writing an entry under a new key and sealed name keeps both indexes in bijection |
| Directories.RemoveFromIndexed | src/encryptedfs.rs:2214-2239 | removing by name removes from both indexes and keeps them in bijection |
| Directories.RelinkIndexed | src/encryptedfs.rs:1842-1853 | writing the parent link again keeps the indexes and the named children |
| Directories.NewDirIndexed | src/encryptedfs.rs:707-742 | a new directory's indexes agree, it is empty, and it links to its parent |
| Directories.LenZeroIffEmpty | src/encryptedfs.rs:836-849 | the count is zero exactly when there are no named children |
| Directories.LenCounts | src/encryptedfs.rs:836-849 | it is the number of named children |
| Attributes.GetAttr | src/encryptedfs.rs:1236-1266 | times are the latest of the stored ones and every open handle's, readers and writer, in whatever order the readers are visited; the size is the larger of the stored and the writer's, and nothing else changes |
| Attributes.JoinedUnique | src/encryptedfs.rs:1242-1250 | there is only one such result |
| Attributes.UpdateNeverLowers | src/encryptedfs.rs:2364-2396 | a non-overwriting update lowers neither the size nor the modification and creation times |
| Attributes.UpdateExactly | src/encryptedfs.rs:2364-2396 | an update, field by field: access and change times are now, the other times the later ones, ownership, permissions and flags the new ones if given, the size overwritten or the larger as asked |
| Namespace.EncryptedFs.constructor | src/encryptedfs.rs:2090-2128 | a new file system is an empty root |
| Namespace.EncryptedFs.GetInode | src/encryptedfs.rs:1219-1232 | gives the stored attributes of an existing inode whether cached or not; a removed one may still be served from the cache |
| Namespace.EncryptedFs.FindByName | src/encryptedfs.rs:803-832 | lookup of an ordinary name is the tree's entry with its inode's attributes; `.` and `$.` are the directory itself, `..` and `$..` its parent, none in the root; errors and absence told apart |
| Namespace.EncryptedFs.Create | src/encryptedfs.rs:647-799 | adds one entry, with an empty directory for a directory, and nothing else; the exact condition of success and of each refusal, which changes nothing; the indexes break exactly for `$..` in the root |
| Namespace.EncryptedFs.RemoveFile | src/encryptedfs.rs:928-992 | succeeds exactly on a file: removes the entry and its inode, touches the directory, and changes nothing else; each refusal has its exact condition and changes nothing; the removed inode stays in the attribute cache |
| Namespace.EncryptedFs.RemoveDir | src/encryptedfs.rs:854-923 | the same for directories, exactly those with no named children |
| Namespace.EncryptedFs.Rename | src/encryptedfs.rs:1786-1872 | succeeds exactly when both parents are directories, the entry exists, and it stays where it is or its target is no directory with children; each refusal has its exact condition and changes nothing; moves one entry, relinks a moved directory, keeps every inode and changes only the times of the two directories and the moved one |
| Namespace.EncryptedFs.InsertDirectoryEntry | src/encryptedfs.rs:2130-2204 | both indexes are written with the same inode and kind |
| Namespace.EncryptedFs.RemoveDirectoryEntry | src/encryptedfs.rs:2214-2239 | both index entries go, the second found through the sealed name that the first kept |
| Namespace.EncryptedFs.ReadEntry | src/encryptedfs.rs:1086-1163 | an entry is listed as `.` for the own link, `..` for the parent link and under its decrypted name else, with what its LS file stores or, for `..`, what was cached of it; it is cached afterwards and nothing else is |
| Namespace.EncryptedFs.ReadDir | src/encryptedfs.rs:1009-1022 | lists every LS entry once: `.` exactly once with the directory's own inode, `..` exactly once with the parent link or its cached value, or not at all in the root; only the directory's access and change times move |
| Namespace.CreatedAt | src/encryptedfs.rs:647-799 | after creating, the one new name leads to the new inode and every other name in every directory to what it did |
| Namespace.RemovedAt | src/encryptedfs.rs:854-992 | after removing, the name leads nowhere, every other name where it did, and the inode is no directory any more |
| Namespace.MovedAt | src/encryptedfs.rs:1821-1853 | after moving, the new name leads to what the old one did, the old one nowhere, every other name where it did |
| Namespace.CreateShaped | src/encryptedfs.rs:647-799 | creating keeps entries pointing to existing inodes of their kind, one entry an inode, and parent links to the holding directory |
| Namespace.RemoveShaped | src/encryptedfs.rs:854-992 | so does removing |
| Namespace.MoveShaped | src/encryptedfs.rs:1786-1872 | so does moving, over another entry or not |
| Namespace.CreateSound | src/encryptedfs.rs:647-799 | on disk creating is the tree's creation and keeps indexes and caches |
| Namespace.RemoveSound | src/encryptedfs.rs:854-992 | on disk removing is the tree's removal and keeps indexes and caches |
| Namespace.MoveSound | src/encryptedfs.rs:1825-1853 | on disk moving is the tree's move and keeps indexes and caches |
| Namespace.ListingAgrees | src/encryptedfs.rs:1086-1163 | every named child is listed with its inode and kind under its normalised name, and every listed sealed name is a named child's |
| Namespace.LinksAre | src/encryptedfs.rs:1100-1103 | every listing names the directory's own links exactly once each, and no child by their names |
| Namespace.ListedNameResolves | src/crypto.rs:234-262 | a listed name leads back to the same inode exactly when the name has no separator |
| NamespaceRuns.Run | src/encryptedfs.rs:647-1872 | every run of operations on ordinary names, with evictions anywhere, is step by step the fold of the tree's operations on tree, parent links, cached parent links and attributes, each refused as coded or done with the unused number drawn for it, and answered by what the tree says, listings with their own links included; indexes, caches and shape stay sound throughout |
| NamespaceRuns.StaleParentLink | src/encryptedfs.rs:1128-1137 | a directory listed before it moves is listed afterwards with its old parent |
| NamespaceRuns.RemovedStillServed | src/encryptedfs.rs:928-992 | a removed file's attributes are still served while they are cached |
| Ancestry.MoveRooted | src/encryptedfs.rs:1821-1853 | after a move exactly those directories stop reaching the root that are below the moved one, and only when its new parent is too |
| Ancestry.RenameDir | src/encryptedfs.rs:1786-1872 | the same through rename |
| Ancestry.StepWhole | src/encryptedfs.rs:647-1872 | an operation keeps a path from the root to every directory that has an entry exactly when it does not put a directory below itself or into one that lost its own entry |
| Ancestry.RunWhole | src/encryptedfs.rs:647-1872 | over every run all directories with an entry keep such a path, after every operation, exactly when no operation does that |
| Ancestry.EntryWithoutPath | src/encryptedfs.rs:1821-1853 | an empty directory that another is moved over still takes a new directory, to which no path leads |
| Handles.HandleTables.Open | src/encryptedfs.rs:1615-1658 | issues a new nonzero handle into both tables of each kind, one writer an inode, with each refusal as coded and the tables stated for it; a read-write open whose writer fails leaves its handle in the inode's set of readers only |
| Handles.HandleTables.Release | src/encryptedfs.rs:1386-1453 | a nonzero handle is in no table and no writer's slot afterwards, every other handle keeps its inode and its sets; refuses an unknown one; zero changes nothing |
| Handles.ReopenAfterRelease | src/encryptedfs.rs:1386-1658 | after a writer's release, and any run that does not open its inode for writing, the inode can be opened for writing again |
| Handles.NoWriterStays | src/encryptedfs.rs:1386-1658 | over every run that does not open it for writing, an inode without a writer stays without one |
| Handles.HandleTables.LookupReaders | src/encryptedfs.rs:1972-1989 | rebuilding an inode's readers finds them all exactly when none but the skipped one was lost |
| Handles.Run | src/encryptedfs.rs:1386-1658 | every run of opens and releases, failures included, is the fold of its steps, each reply as the tables before it say |
| Handles.NeverReissued | src/encryptedfs.rs:1386-1658 | over every run handles are given out in increasing order, and lost ones stay lost |
| Handles.LostForGood | src/encryptedfs.rs:1615-1658 | after a read-write open whose writer fails, and any run, rebuilding that inode's readers fails |
| OpenFile.FileStreams.OpenWrite | src/encryptedfs.rs:2058-2088 | a second writer is refused; a new one carries the current size |
| OpenFile.FileStreams.Read | src/encryptedfs.rs:1321-1383 | gives the stored bytes at the offset, filling the request or stopping at the end, and nothing past the reported end or in a last block already read past; says exactly when it leaves the handle past the end; a reader that its own writer left behind catches up in another block |
| OpenFile.FileStreams.Write | src/encryptedfs.rs:1469-1546 | the writer makes the machine's seek and write up to the block end and within the cipher's bound, the size keeps matching the content and other readers start afresh; it is the positioned write exactly when the seek puts no zeros over nonzero stored bytes |
| OpenFile.CallWithin | src/encryptedfs.rs:1509-1528 | a positioned write within the bound, from any state it can meet, ends at its offset with the right length and never in an old block, and is the positioned write exactly when no zeros go over nonzero stored bytes |
| OpenFile.FileStreams.Flush | src/encryptedfs.rs:1550-1577 | the writer makes the machine's flush, content and size are kept and other readers start afresh |
| OpenFile.FileStreams.Release | src/encryptedfs.rs:1386-1453 | releasing the writer stores the pending content, and every remaining reader starts afresh on it; a pending front is stored short, and the file is then consistent exactly when it decodes to the content; handle zero is accepted |
| OpenFile.FileStreams.ResetReaders | src/encryptedfs.rs:1972-1989 | every reader but the skipped ones is rebuilt on what is stored |
| OpenFile.FileStreams.SetLen | src/encryptedfs.rs:1663-1739 | the content up to the recorded size, pending writes included, is cut or zero-extended to n, or the call fails exactly when that size promises more bytes to keep than there are; the size recorded is n, except the old one when truncating with readers and a writer open |
| OpenFile.FileStreams.FlushAndResetWriter | src/encryptedfs.rs:1747-1783 | pending writes are stored, the size saved, and a new writer carries on |
| OpenFile.FileStreams.Rewrite | src/encryptedfs.rs:1682-1714 | the stored content becomes the resized one, in place only when emptied, or stays when it is shorter than what is to be kept |
| FileRuns.RunWrites | src/encryptedfs.rs:1469-1577 | over every run of writes and flushes on one handle that leaves no front for another block, hits on unloaded blocks and refused calls included, the writer goes through the machine's states, each call takes what it should, the size equals the content's length and stays within the bound |
| FileRuns.AllClearExactly | src/encryptedfs.rs:1469-1577 | the content is each taken piece written at its offset, after every call, if and only if no call leaves a front or puts zeros over nonzero stored bytes |
| FileRuns.InOrderIsClear | src/encryptedfs.rs:1469-1577 | writes in order are so, over whatever content and with flushes anywhere |
| FileRuns.UnflushedIsClear | src/encryptedfs.rs:1469-1546 | without flushes every run of writes is so, in any order |
| FileRuns.ReleaseThenRead | src/encryptedfs.rs:1423-1447 | after the writer is released another open reader gives the released content |
| FileRuns.RunReads | src/encryptedfs.rs:1321-1383 | every run of reads through one handle gives what a cursor that gets lost in the last block gives |
| FileRuns.FullReads | src/encryptedfs.rs:1321-1383 | as long as every read gave as much as was asked, each gives the bytes from its offset |
| FileRuns.ReadTwice | src/encryptedfs.rs:1321-1383 | the last block read to its end and then again gives nothing the second time |
| FileRuns.ReadOwnWrite | src/encryptedfs.rs:1469-1546 | a handle open for reading and writing reads the content from before a first write |
| FileRuns.ReadOwnFlush | src/encryptedfs.rs:1321-1577 | once a flush stored a full block, the handle's own reader, if it was in a later block, reads the content with that block in it from the start |
| FileRuns.GrowAfterTruncate | src/encryptedfs.rs:1663-1739 | after a truncation with readers and a writer open growing the file fails, unless to the old size, which does nothing |
| FileRuns.ResizeThenRelease | src/encryptedfs.rs:1663-1739 | a writer's release after a resize does not undo it |

## Left out

- The cipher, Argon2, BLAKE3, the random generator and zeroizing: only the AEAD laws are used, and the digest of a name is an injective value.
- Machine integer widths: offsets, lengths and counters are unbounded, so wrapping of 64-bit positions and of the holder counter is not modelled.
- I/O failures: files always open, read and write; the one exception is the outcome of preparing a writer in `Handles`.
- Streams that do not authenticate: `Buffers.DecryptBlock` states their errors; the readers and writers above it are specified over well-formed streams.
- OpenFile.FileStreams.Read: a reader that shares its handle with a writer is not rebuilt after that writer's own writes; once the writer stored something, reading through it again in the block it has cached, which it may give as it was, is outside the contract.
- OpenFile.FileStreams.Write and FileRuns.RunWrites: a write elsewhere while a front is pending over its block stores that front short; what such a store leaves is `ShortBlocks.ShortBlock`'s, and the file is not followed after it.
- OpenFile.FileStreams.Release and OpenFile.FileStreams.SetLen: a front that is pending may be stored short only by closing the last handle, because the readers that would be rebuilt on the result may not open it.
- WriterMachine.Run: seeks are from the start, the only ones that move the cursor in the file system; the others are `CryptoWriteSeek.RingCryptoWriteSeek.Seek`'s. A run ends where a seek leaves a front, which is then stored short.
- CryptoWriteSeek.RingCryptoWriteSeek.Seek and CryptoWriteSeek.RingCryptoWriteSeek.SeekToBlock: not from a front to another block, for the same reason; `Departures.LeaveFront` states what that stores.
- Departures.ShortBlockCorrupts: stated for the toy cipher, because what a real cipher does with a damaged block is not among the AEAD laws; `ShortBlocks.ShortBlock` is the statement for any cipher.
- Namespace.EncryptedFs.RemoveFile, Namespace.EncryptedFs.RemoveDir and Namespace.EncryptedFs.Rename are specified for ordinary names only; the special ones name a directory's own links.
- Namespace.EncryptedFs.SetAttr: merges with stored attributes only; merging with open handles is `Attributes.GetAttr`, and the size effect of handles is in `OpenFile`.
- Namespace.EncryptedFs.Create: the empty name is excluded; its sealed text is empty (`FileNames.EncryptFileName`), so that writing its entry is an I/O failure.
- Locking inside the file system object: operations are atomic, so races between a check and the later insert are not modelled; the lock table itself is modelled step by step.
- The decrypted-name cache, whose values are functions of their keys; password change and key creation, which are sequential round trips; `copy_file_range` and `write_all_bytes_to_fs`, whose loops do not advance the destination.
- Mount glue, command line, keyring, expiry timers, the write-ahead log that the documentation mentions, benches, tests and packaging.
