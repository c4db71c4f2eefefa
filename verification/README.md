# Verified core of the hdx-common device tree

Dafny models of the algorithms in this repository that are more than device glue, with proofs of what
they promise. `dafny verify dfyconfig.toml` checks the whole project.

| file | what it models |
|---|---|
| `Kfifo.dfy`, `Ring.dfy`, `FifoSpec.dfy` | the kfifo ring buffer with 32-bit indices that wrap, against a plain bounded queue |
| `KfifoConcurrent.dfy` | one producer and one consumer on a kfifo without a lock, step by step |
| `KfifoRecord.dfy`, `RecordSpec.dfy` | length-prefixed records in a kfifo, against a queue of records |
| `KfifoScatter.dfy` | scatter lists for a kfifo range under an arbitrary page map |
| `Calendar.dfy` | `time_to_tm` against the proleptic Gregorian calendar |
| `AddrSpec.dfy`, `DevAddr.dfy` | reference-counted address lists with sync and unsync: specification, and linked lists on the heap |
| `Gf2.dfy`, `Crc8.dfy` | CRC-8 tables and checksum, against division of polynomials over GF(2) |
| `RomePackets.dfy`, `RomeEvents.dfy`, `RomeDownload.dfy` | the Rome firmware download: packets, event stream, and the host against the controller's rules |
| `Kstrtox.dfy` | strict string to integer conversion |
| `PmQos.dfy` | quality-of-service targets with many callers |
| `FirmwarePages.dfy` | the firmware page buffer against a flat byte array |
| `Cordic.dfy` | the CORDIC rotation: angle error, distance to the exact rotation, radius |
| `Gralloc.dfy` | ownership of preview buffers between camera and display window |
| `Words.dfy`, `Memory.dfy`, `Collections.dfy` | 32-bit words, powers of two, block copies, optional values |

State that the source updates in place is a class or an array here, and its loops are loops with
invariants. Foreign results are parameters: whether allocations succeed (`granted`, `mem`, `good`), what
the controller answers (`script`), what the window grants (`will`). Reads from a descriptor may return any
part of what is there.

Some properties turned out to be false as one might expect them. Each has its exact condition:

- A record longer than its prefix can express is stored but not read back (`RecordSpec.TooLong`); records
  survive if and only if all lengths fit (`RecordSpec.DecodeEncode`). `__kfifo_in_r` does not check this.
- `__kfifo_skip_r` does not look whether there is a record. The fifo stays well formed if and only if there
  is one (`KfifoRecord.SkipR`, `KfifoRecord.SkipOfNothing`).
- `__kfifo_alloc` computes the byte size in `size_t`, which has 32 bits on this device. The fifo is usable if
  and only if it fits (`Kfifo.Fifo.Alloc`, `Kfifo.SizeWraps`). Where `size_t` is wider, it is the `unsigned int`
  offsets of the copy routines that wrap.
- A scatter list can get an empty entry: if and only if the range ends with its page, the next page lies
  elsewhere and there is room (`KfifoScatter.SetupSglBuf`, `KfifoScatter.EmptyTailOccurs`).
- The host reads exactly the events of an obeying controller if and only if the combination is supported. A
  patch in mode SKIP_EVT_VSE_CC for a version below 3.2 is not, and leaves events unread
  (`RomeDownload.ReadsExactly`, `RomeDownload.OldChipSkipping`).
- During a download, a vendor event that rejects a segment is accepted if and only if a stray event came before it
  (`RomeEvents.StraysThenEvent`, `RomeEvents.StrayHidesRejection`). A stray with nothing behind it is accepted
  too; `RomeEvents.AcceptsExactly` has the condition for every stream.
- Minus zero is a range error, so reading back behind a minus sign works if and only if the number is from
  1 to 2^63 (`Kstrtox.NegativeRoundTrip`, `Kstrtox.MinusZero`).
- Notifications of a QoS target are sent outside the lock and can overtake each other
  (`PmQos.NotificationsOvertake`). The last one is the target, whatever the order, if and only if nothing but
  the target is left to notify (`PmQos.SettlesExactly`). Sent in the order of the changes they always end
  with the target (`PmQos.InOrderSettles`).
- A failed `allocate` leaves nothing behind if and only if the window grants fewer than five requests in a
  row, the four settings and the first buffer. Otherwise a failing ION descriptor leaves its buffer with the
  camera, or a refused buffer leaves the descriptors of the earlier ones open (`Gralloc.Memory.Allocate`,
  `Gralloc.RemainsOccur`). The source returns the same error in all these cases; the model tells them apart.

`leaps_between` is documented for ascending years only; the year loop also calls it with descending ones, and
it is right there too (`Calendar.LeapsBetweenIsExcess`).

## Model

| member | source | states |
|---|---|---|
| `Kfifo.RoundDownPow2` | compat-wireless/compat/kfifo.c:38-67 | the capacity is the largest power of two that is at most the requested size |
| `Kfifo.IndexPosition` | compat-wireless/compat/kfifo.c:104-126 | an index masked after wrapping at 2^32 points to the byte that the index without any wrapping points to |
| `Kfifo.InLength` | compat-wireless/compat/kfifo.c:33-36 | after an insertion of what fits, the wrapped difference of the indices is the old length plus the inserted number |
| `Kfifo.OutLength` | compat-wireless/compat/kfifo.c:181-187 | after a removal of what is there, the wrapped difference of the indices is the old length minus the removed number |
| `Kfifo.MovedPosition` | compat-wireless/compat/kfifo.c:128-140 | moving an index by n elements, wrapping or not, moves the byte position by n elements |
| `Kfifo.AppendedValue` | compat-wireless/compat/kfifo.c:128-140 | bytes written circularly at `in` follow the bytes read circularly from `out`; nothing unread is overwritten |
| `Kfifo.DroppedValue` | compat-wireless/compat/kfifo.c:181-187 | reading from the moved `out` gives the old contents without the first n elements |
| `Kfifo.ChunksAppend` | compat-wireless/compat/kfifo.c:128-140 | appending bytes of whole elements appends those elements |
| `Kfifo.Fifo.Unused` | compat-wireless/compat/kfifo.c:33-36 | capacity minus length, never negative, although computed with wrap-around |
| `Kfifo.Fifo.Alloc` | compat-wireless/compat/kfifo.c:38-67 | success exactly for a size of at least two and granted memory; the fifo is then usable, and empty, if and only if its byte size fits 32 bits and elements are not empty; both failures leave no buffer |
| `Kfifo.SizeWraps` | compat-wireless/compat/kfifo.c:57 | 2^31 elements of two bytes: the byte size wraps to zero |
| `Kfifo.Fifo.PutBytes` | compat-wireless/compat/kfifo.c:104-126 | the two memcpy calls lay the bytes out circularly from the masked offset |
| `Kfifo.Fifo.GetBytes` | compat-wireless/compat/kfifo.c:143-165 | the two memcpy calls read the bytes circularly from the masked offset |
| `Kfifo.Fifo.CopyIn` | compat-wireless/compat/kfifo.c:104-126 | copying elements in is a circular write at their element position |
| `Kfifo.Fifo.CopyOut` | compat-wireless/compat/kfifo.c:143-165 | copying elements out is a circular read at their element position |
| `Kfifo.Fifo.Push` | compat-wireless/compat/kfifo.c:128-140 | elements copied behind the stored ones and then published are appended |
| `Kfifo.Fifo.In` | compat-wireless/compat/kfifo.c:128-140 | the first n of the offered elements are appended, all of them or as many as fill the fifo; one insertion of the bounded queue |
| `Kfifo.Fifo.OutPeek` | compat-wireless/compat/kfifo.c:167-178 | the oldest elements, as many as asked for or all there are; the queue is unchanged |
| `Kfifo.Fifo.Out` | compat-wireless/compat/kfifo.c:181-187 | the delivered elements followed by the remaining ones are the old ones; as many as asked for, or the fifo is empty afterwards |
| `Kfifo.ServeOne` | compat-wireless/compat/kfifo.c:128-187 | each request has the effect and the reply of the bounded queue |
| `Kfifo.Serve` | compat-wireless/compat/kfifo.c:104-187 | every run of in, out and peek requests gives the replies and the contents of a plain bounded queue, however often the indices wrap |
| `Kfifo.ChunksAre` | compat-wireless/compat/kfifo.c:104-165 | elements are the bytes cut into pieces of the element size |
| `FifoSpec.EffectDetermines` | compat-wireless/compat/kfifo.c:128-187 | the queue operation is the only one with the stated effect: prefixes of the offer or the queue, as long as asked for unless full or empty |
| `FifoSpec.EveryStep` | compat-wireless/compat/kfifo.c:128-187 | every step of every run has that effect |
| `FifoSpec.Conservation` | compat-wireless/compat/kfifo.c:128-187 | over any run, the start contents followed by everything that entered equal everything that left followed by the final contents |
| `Ring.ReadAfterWrite` | compat-wireless/compat/kfifo.c:104-165 | writing behind stored bytes that leave enough room appends to them, wherever the end of the buffer falls |
| `Ring.WriteSplit` | compat-wireless/compat/kfifo.c:104-126 | the split copy of kfifo_copy_in is one circular write |
| `Ring.ReadSplit` | compat-wireless/compat/kfifo.c:143-165 | the split copy of kfifo_copy_out is one circular read |
| `Ring.Untouched` | compat-wireless/compat/kfifo.c:104-126 | a circular write leaves every byte outside of it alone |
| `KfifoConcurrent.SlotIsCircular` | compat-wireless/compat/kfifo.c:104-126 | each byte of a batch goes to the slot that its place in the whole stream determines |
| `KfifoConcurrent.Backlog` | compat-wireless/compat/kfifo.c:33-36 | the wrapped differences that producer and consumer compute are the true ones |
| `KfifoConcurrent.OfferKeeps` | compat-wireless/compat/kfifo.c:128-140 | the producer reading the indices keeps the invariant |
| `KfifoConcurrent.PutByteKeeps` | compat-wireless/compat/kfifo.c:104-126 | the producer copying one byte, in any order, keeps the invariant |
| `KfifoConcurrent.PublishKeeps` | compat-wireless/compat/kfifo.c:128-140 | the producer publishing `in` keeps the invariant |
| `KfifoConcurrent.RequestKeeps` | compat-wireless/compat/kfifo.c:167-178 | the consumer reading the indices keeps the invariant |
| `KfifoConcurrent.GetByteKeeps` | compat-wireless/compat/kfifo.c:143-165 | the consumer copying one byte, in any order, keeps the invariant |
| `KfifoConcurrent.ReleaseKeeps` | compat-wireless/compat/kfifo.c:181-187 | the consumer publishing `out`, or ending a peek, keeps the invariant |
| `KfifoConcurrent.OfferTakes` | compat-wireless/compat/kfifo.c:128-140 | an offer is taken from its first element on, as a whole or as far as it fills the fifo |
| `KfifoConcurrent.RequestTakes` | compat-wireless/compat/kfifo.c:167-178 | a request is met as a whole or as far as there is published data |
| `KfifoConcurrent.ReleaseDelivers` | compat-wireless/compat/kfifo.c:181-187 | a finished request delivers the next bytes of the stream; a peek leaves them there |
| `KfifoConcurrent.AsOfferedKept` | compat-wireless/compat/kfifo.c:128-140 | what was sent stays the concatenation of the accepted prefixes of the offers |
| `KfifoConcurrent.NeverStuck` | compat-wireless/compat/kfifo.c:104-187 | neither side waits for the other: each can always start, copy its next byte and publish |
| `KfifoConcurrent.InvImpliesSafe` | compat-wireless/compat/kfifo.c:104-187 | the invariant implies what the lock-free design promises |
| `KfifoConcurrent.EveryInterleavingIsSafe` | compat-wireless/compat/kfifo.c:104-187 | in every state of every interleaving of one producer and one consumer: what was sent are the accepted prefixes of the offers in order, what was received is a prefix of what was sent, no unread slot is written, only published data is read, and the two sides never touch the same slot |
| `RecordSpec.PrefixRoundTrip` | compat-wireless/compat/kfifo.c:412-444 | the length prefix reads back as written if and only if it can express the length |
| `RecordSpec.DecodeEncode` | compat-wireless/compat/kfifo.c:397-510 | a list of records survives storage if and only if every length fits its prefix |
| `RecordSpec.EncodeDecode` | compat-wireless/compat/kfifo.c:397-510 | a byte string that decodes is the encoding of what it decodes to |
| `RecordSpec.DecodeSnoc` | compat-wireless/compat/kfifo.c:452-463 | an appended record comes out as one more record if and only if its length fits the prefix |
| `RecordSpec.TooLong` | compat-wireless/compat/kfifo.c:397-404 | a record of 256 bytes behind a one-byte prefix is read back as empty |
| `RecordSpec.FrontRecord` | compat-wireless/compat/kfifo.c:466-476 | records that are not empty start with one whole record |
| `RecordSpec.EffectDetermines` | compat-wireless/compat/kfifo.c:452-510 | the record operation is the only one with the stated effect: a record goes in whole exactly if all then fit, a removal takes the first record whatever part is delivered |
| `RecordSpec.EveryStep` | compat-wireless/compat/kfifo.c:452-510 | every step of every run has that effect |
| `RecordSpec.Conservation` | compat-wireless/compat/kfifo.c:452-510 | over any run, records at the start and entered are records removed, one for each removal or skip that found any, and records at the end |
| `KfifoRecord.PokeN` | compat-wireless/compat/kfifo.c:435-444 | stores the prefix circularly, also across the end of the buffer |
| `KfifoRecord.PeekN` | compat-wireless/compat/kfifo.c:412-424 | reads the length of the next record, also across the end of the buffer |
| `KfifoRecord.StoreRecord` | compat-wireless/compat/kfifo.c:452-463 | prefix and payload are appended as one encoded record |
| `KfifoRecord.InR` | compat-wireless/compat/kfifo.c:452-463 | the record goes in whole or not at all; if its length fits the prefix this is one insertion of the queue of records |
| `KfifoRecord.OutCopyR` | compat-wireless/compat/kfifo.c:466-476 | copies as much of the next record as was asked for, and returns its whole length |
| `KfifoRecord.OutPeekR` | compat-wireless/compat/kfifo.c:478-487 | the next record, cut to the length asked for, or nothing if there is none; the queue is unchanged |
| `KfifoRecord.Advance` | compat-wireless/compat/kfifo.c:490-501 | moving `out` over prefix and payload drops exactly the first record |
| `KfifoRecord.OutR` | compat-wireless/compat/kfifo.c:490-501 | removes exactly the first record, even if the buffer is shorter than it, and delivers the part that fits; without a record nothing happens |
| `KfifoRecord.SkipR` | compat-wireless/compat/kfifo.c:504-510 | removes exactly one record; the fifo stays well formed if and only if there was one |
| `KfifoRecord.SkipOfNothing` | compat-wireless/compat/kfifo.c:504-510 | a new fifo is not well formed after a skip |
| `KfifoRecord.Serve` | compat-wireless/compat/kfifo.c:452-510 | every run of record operations, with lengths that fit and no skip of nothing, gives the replies and contents of a queue of records |
| `KfifoScatter.ContiguousBytes` | compat-wireless/compat/kfifo.c:310-347 | within a physically contiguous run of pages translation is one addition |
| `KfifoScatter.Extend` | compat-wireless/compat/kfifo.c:310-347 | a contiguous run goes on if and only if the next page is where the comparison expects it |
| `KfifoScatter.EmptyTailOccurs` | compat-wireless/compat/kfifo.c:310-347 | one whole page with the next page elsewhere and room for two entries gets an empty one |
| `KfifoScatter.SetupSglBuf` | compat-wireless/compat/kfifo.c:310-347 | for any page map and list length: one entry per physical run, up to the limit, which together denote the bytes from `buf`, all of them unless the entries run out; the exact number of entries; an entry is empty if and only if the range ends with its page, the next page lies elsewhere and there is room |
| `KfifoScatter.SetupSgl` | compat-wireless/compat/kfifo.c:349-369 | the entries denote the fifo range from the index, around the end of the buffer, or a prefix of it when the entries run out; when one of them is empty |
| `Calendar.LeapsBetweenIsExcess` | compat-wireless/compat/compat-2.6.32.c:129-143 | leaps_between is the number of days by which the years between two years exceed 365 each, in either direction |
| `Calendar.GuessAhead` | compat-wireless/compat/compat-2.6.32.c:193-200 | after a guess forward the distance to the year looked for, in days, is smaller than before, overshooting included |
| `Calendar.GuessBack` | compat-wireless/compat/compat-2.6.32.c:193-200 | the same after a guess backward |
| `Calendar.GuessDecreases` | compat-wireless/compat/compat-2.6.32.c:193-200 | the termination measure of the year loop, for day counts of either sign |
| `Calendar.Guess` | compat-wireless/compat/compat-2.6.32.c:193-200 | one round keeps the day looked for and makes progress |
| `Calendar.FindYear` | compat-wireless/compat/compat-2.6.32.c:191-204 | the loop ends, and with the year and the day of the year that denote the day |
| `Calendar.FindMonth` | compat-wireless/compat/compat-2.6.32.c:206-212 | the month table search ends with the month and the day of the month |
| `Calendar.TimeToTm` | compat-wireless/compat/compat-2.6.32.c:164-213 | every field is in range and consistent, and rebuilding the seconds from the fields gives totalsecs + offset |
| `Calendar.Unique` | compat-wireless/compat/compat-2.6.32.c:164-213 | at most one valid broken-down time denotes a given second |
| `Calendar.ThereAndBack` | compat-wireless/compat/compat-2.6.32.c:164-213 | converting the seconds of any valid broken-down time gives that time back |
| `AddrSpec.AddKeeps` | compat-wireless/compat/compat-2.6.32.c:14-44 | an addition keeps addresses unique and in use, and a failed one changes nothing |
| `AddrSpec.AddSum` | compat-wireless/compat/compat-2.6.32.c:14-44 | a successful addition gives that address one more user, or none if it is global already, and changes no other address |
| `AddrSpec.DeleteKeeps` | compat-wireless/compat/compat-2.6.32.c:46-70 | a deletion keeps addresses unique and in use, and a failed one changes nothing |
| `AddrSpec.DeleteSum` | compat-wireless/compat/compat-2.6.32.c:46-70 | a successful deletion takes one user from that address and changes no other |
| `AddrSpec.Promise` | compat-wireless/compat/compat-2.6.32.c:72-117 | the balance means, entry by entry: destination users are its own users plus one exactly if the source entry is synced |
| `AddrSpec.SyncKeeps` | compat-wireless/compat/compat-2.6.32.c:72-97 | a pass keeps the balance, also one cut short by an allocation failure |
| `AddrSpec.UnsyncKeeps` | compat-wireless/compat/compat-2.6.32.c:100-117 | an unsync pass keeps the balance |
| `AddrSpec.SyncSettles` | compat-wireless/compat/compat-2.6.32.c:72-97 | after a successful pass the source has exactly the addresses with own or global users, all synced and with another user, and each has exactly one more user in the destination |
| `AddrSpec.UnsyncSettles` | compat-wireless/compat/compat-2.6.32.c:100-117 | after an unsync nothing is held, and all users in both lists are own and global ones |
| `AddrSpec.SyncSucceeds` | compat-wireless/compat/compat-2.6.32.c:72-97 | a pass succeeds if and only if there is memory for every unsynced address that the destination lacks |
| `AddrSpec.SyncCutShort` | compat-wireless/compat/compat-2.6.32.c:82-96 | a failing pass is a successful one over the entries before, and leaves the rest alone |
| `AddrSpec.StepCounts` | compat-wireless/compat/compat-2.6.32.c:14-70 | a successful call for an own user changes that address by one user and nothing else |
| `AddrSpec.ResultsMean` | compat-wireless/compat/compat-2.6.32.c:14-70 | when additions and deletions fail, and with what |
| `AddrSpec.AddPlaces` | compat-wireless/compat/compat-2.6.32.c:33-43 | a new address comes in front, a known one stays |
| `AddrSpec.DeletePlaces` | compat-wireless/compat/compat-2.6.32.c:51-69 | a deletion leaves the other addresses in order |
| `AddrSpec.EveryRunKeeps` | compat-wireless/compat/compat-2.6.32.c:14-117 | from two empty lists every run of adds, balanced deletes, syncs and unsyncs keeps uniqueness and the balance of the list values |
| `AddrSpec.DeleteUndoesAdd` | compat-wireless/compat/compat-2.6.32.c:14-70 | deleting the address just added restores the list, order included |
| `AddrSpec.DeleteAddCommute` | compat-wireless/compat/compat-2.6.32.c:14-70 | adding one address and deleting another may be exchanged |
| `AddrSpec.UnsyncUndoesSync` | compat-wireless/compat/compat-2.6.32.c:72-117 | a successful sync and then an unsync, from a source with nothing synced, restore both lists exactly |
| `DevAddr.List.Locate` | compat-wireless/compat/compat-2.6.32.c:19-21 | the search finds the first element for the address, or none |
| `DevAddr.List.Unlink` | compat-wireless/compat/compat-2.6.32.c:63-65 | unlinking removes exactly that element from the chain and lowers the count |
| `DevAddr.List.Add` | compat-wireless/compat/compat-2.6.32.c:14-44 | the linked list has the entries and the result of the list specification; the count is its length |
| `DevAddr.List.Delete` | compat-wireless/compat/compat-2.6.32.c:46-70 | the same for the deletion, including the global deletion without a global user |
| `DevAddr.SyncRound` | compat-wireless/compat/compat-2.6.32.c:79-95 | one round of the sync loop, on two linked lists, while the loop holds a pointer into one |
| `DevAddr.Sync` | compat-wireless/compat/compat-2.6.32.c:72-97 | both linked lists and the result are those of the specified pass; only new elements join the destination |
| `DevAddr.UnsyncRound` | compat-wireless/compat/compat-2.6.32.c:106-116 | one round of the unsync loop |
| `DevAddr.Unsync` | compat-wireless/compat/compat-2.6.32.c:100-117 | both linked lists are those of the specified pass; only new elements join the destination |
| `DevAddr.Perform` | compat-wireless/compat/compat-2.6.32.c:14-117 | one call on the two linked lists is one step of the protocol: entries, result, balance, and counts that are the list lengths |
| `DevAddr.Run` | compat-wireless/compat/compat-2.6.32.c:14-117 | every run of calls on two linked lists, with callers that delete only what they added, gives the entries and results of the protocol and keeps uniqueness, balance and counts |
| `DevAddr.RunFromEmpty` | compat-wireless/compat/compat-2.6.32.c:14-117 | the same from two new lists |
| `DevAddr.SyncAndBack` | compat-wireless/compat/compat-2.6.32.c:72-117 | a successful sync and then an unsync, from a source with nothing synced, leave both linked lists with the entries and counts they had |
| `Gf2.SerialLinear` | compat-wireless/compat/crc8.c:74-81 | the shift register is linear in start value and message |
| `Gf2.BurstDetected` | compat-wireless/compat/crc8.c:74-81 | with a non-zero constant term, messages that differ in one burst no longer than the register leave different registers |
| `Gf2.SerialDivides` | compat-wireless/compat/crc8.c:74-81 | the register holds the remainder of the division by x^d + p, with the quotient it shifted out |
| `Gf2.DivisionUnique` | compat-wireless/compat/crc8.c:74-81 | quotient and remainder are unique |
| `Crc8.BitsStep` | compat-wireless/compat/crc8.c:29-63 | a shift-and-add step on the byte is a step of the shift register, in both bit orders |
| `Crc8.SumEntry` | compat-wireless/compat/crc8.c:39-40 | the entry at 2^k + j is the sum of the entries at 2^k and j |
| `Crc8.PopulateMsb` | compat-wireless/compat/crc8.c:29-42 | every entry b is the eight-step remainder of b, most significant bit first |
| `Crc8.PopulateLsb` | compat-wireless/compat/crc8.c:51-63 | every entry b is the eight-step remainder of b, least significant bit first |
| `Crc8.FillDouble` | compat-wireless/compat/crc8.c:39-40 | the inner loop doubles the filled part |
| `Crc8.FillStride` | compat-wireless/compat/crc8.c:60-61 | the inner loop halves the stride of the filled entries |
| `Crc8.Crc8` | compat-wireless/compat/crc8.c:74-81 | the loop folds the table over the message |
| `Crc8.CrcIsSerial` | compat-wireless/compat/crc8.c:74-81 | the table-driven checksum is the bit-at-a-time division |
| `Crc8.CrcIsRemainder` | compat-wireless/compat/crc8.c:74-81 | a byte is the checksum if and only if some quotient makes it the remainder of the message polynomial |
| `Crc8.BurstsDetected` | compat-wireless/compat/crc8.c:29-81 | every burst of at most eight bits, also across byte boundaries, changes the checksum |
| `Crc8.CrcLinear` | compat-wireless/compat/crc8.c:74-81 | the checksum of an exclusive or is the exclusive or of the checksums |
| `Crc8.TablesMirror` | compat-wireless/compat/crc8.c:29-63 | the lsb table of the reversed polynomial is the msb table with index and entry reversed |
| `RomePackets.TlvRoundTrip` | bluetooth/libbt-vendor/src/hw_rome.c:422-501 | every TLV packet decodes to its segment, all length bytes consistent |
| `RomePackets.LoadRoundTrip` | bluetooth/libbt-vendor/src/hw_rome.c:422-501 | every load packet decodes to its address, little-endian, and its segment |
| `RomePackets.FrameHciCmdPkt` | bluetooth/libbt-vendor/src/hw_rome.c:422-501 | the command buffer starts with the packet for the command and segment |
| `RomePackets.SegmentsAt` | bluetooth/libbt-vendor/src/hw_rome.c:971-1060 | all segments but the last are full, and they tile the file |
| `RomePackets.SegmentsCount` | bluetooth/libbt-vendor/src/hw_rome.c:971-982 | there are n/max segments, and one more for a remainder |
| `RomePackets.SegmentIs` | bluetooth/libbt-vendor/src/hw_rome.c:971-1060 | segment i is what the loop addresses, the remainder included |
| `RomePackets.TlvLossless` | bluetooth/libbt-vendor/src/hw_rome.c:935-1066 | for every file, the packets carry exactly the file |
| `RomePackets.RampatchLossless` | bluetooth/libbt-vendor/src/hw_rome.c:584-674 | for every patch, the load commands fill one contiguous stretch from the base with exactly the patch |
| `RomeEvents.Link.ReadType` | bluetooth/libbt-vendor/src/hci_uart.c:459-480 | reads up to and including the first 0x04 byte |
| `RomeEvents.Link.ReadExactly` | bluetooth/libbt-vendor/src/hci_uart.c:482-500 | reads exactly n bytes however the reads split them, or fails |
| `RomeEvents.Link.ReadHciEvent` | bluetooth/libbt-vendor/src/hci_uart.c:459-503 | takes exactly the next whole event off the stream; fails if and only if there is none, and then uses everything up |
| `RomeEvents.Link.ReadVsHeader` | bluetooth/libbt-vendor/src/hw_rome.c:337-346 | accepts exactly a vendor event header |
| `RomeEvents.Link.ReadVsHciEvent` | bluetooth/libbt-vendor/src/hw_rome.c:284-365 | success and remaining stream in all cases, for every splitting of reads and any number of stray events |
| `RomeEvents.SplitMatters` | bluetooth/libbt-vendor/src/hw_rome.c:337-346 | the remaining stream depends on how bytes arrive if and only if the read meets the header of an event of another kind |
| `RomeEvents.SkipsNoise` | bluetooth/libbt-vendor/src/hci_uart.c:459-480 | bytes before the packet type are passed over |
| `RomeEvents.StraysThenEvent` | bluetooth/libbt-vendor/src/hw_rome.c:284-365 | any number of strays and one more vendor event are consumed, and nothing behind them; the event is accepted if and only if it acknowledges or a stray came before it |
| `RomeEvents.AcceptsExactly` | bluetooth/libbt-vendor/src/hw_rome.c:284-365 | for every stream during a download: accepted if and only if the first event that is not a stray acknowledges or the first event is a stray |
| `RomeEvents.StrayHidesRejection` | bluetooth/libbt-vendor/src/hw_rome.c:284-292 | a rejection that is refused by itself is accepted behind a stray |
| `RomeDownload.PlanMatches` | bluetooth/libbt-vendor/src/hw_rome.c:984-1060 | the flags of the host equal the events of the rules, on every segment, if and only if the combination is a supported one |
| `RomeDownload.ReadsExactly` | bluetooth/libbt-vendor/src/hw_rome.c:971-1066 | against an obeying controller no wait fails, and the stream is empty after the last segment if and only if the combination is supported |
| `RomeDownload.OldChipSkipping` | bluetooth/libbt-vendor/src/hw_rome.c:984-1060 | a version 1.1 chip and a one-segment patch that skips events: the whole answer is left unread |
| `RomeDownload.StopsAt` | bluetooth/libbt-vendor/src/hw_rome.c:397-420 | if the first k commands are answered as planned and the next is refused or not answered, the dialogue fails there and not before |
| `RomeDownload.OtherVersionPlan` | bluetooth/libbt-vendor/src/hw_rome.c:1013-1057 | for versions without a rule the flags stay as the event mode set them |
| `RomeDownload.Host.InitialFlags` | bluetooth/libbt-vendor/src/hw_rome.c:984-1011 | the flags before the first segment |
| `RomeDownload.Host.AdjustFlags` | bluetooth/libbt-vendor/src/hw_rome.c:1013-1057 | how the flags change when the last segments come up |
| `RomeDownload.Host.SendAndWait` | bluetooth/libbt-vendor/src/hw_rome.c:397-420 | sends the packet; succeeds if and only if an awaited vendor event is accepted and an awaited completion is there; the remaining stream is determined by what has arrived, up to how the header of an unexpected event was split |
| `RomeDownload.Host.DownloadSegment` | bluetooth/libbt-vendor/src/hw_rome.c:935-969 | the same for the TLV packet of a segment, with the waits that the flags say |
| `RomeDownload.Host.DownloadTlv` | bluetooth/libbt-vendor/src/hw_rome.c:971-1066 | sends the packets of the file in order up to the first that is not answered as planned; result and remaining stream are those of that dialogue; against an obeying controller it goes through, with no event left unread if and only if the combination is supported; a refused or unanswered segment k makes it fail with exactly k + 1 packets sent |
| `RomeDownload.Host.SendLoad` | bluetooth/libbt-vendor/src/hw_rome.c:609-632 | sends the load packet of the segment and waits for both events |
| `RomeDownload.Host.DownloadRampatch` | bluetooth/libbt-vendor/src/hw_rome.c:584-674 | the same for the load packets of a patch; with an answering controller nothing is left unread; a refused or unanswered command ends it |
| `Kstrtox.OverflowTest` | compat-wireless/compat/kstrtox.c:70-71 | the division test refuses exactly the digits that would overflow |
| `Kstrtox.DigitValue` | compat-wireless/compat/kstrtox.c:54-69 | the character test with its lower-case trick recognises exactly the digits |
| `Kstrtox.Accumulate` | compat-wireless/compat/kstrtox.c:70-73 | one more digit is taken exactly if the value still fits |
| `Kstrtox.ParseDigits` | compat-wireless/compat/kstrtox.c:51-80 | the loop decides by the longest run of digits, its value and what follows |
| `Kstrtox.ParseNumber` | compat-wireless/compat/kstrtox.c:34-81 | radix detection, prefix and loop give the described outcome; on an error the result is untouched |
| `Kstrtox.AcceptedExactly` | compat-wireless/compat/kstrtox.c:34-81 | accepted if and only if a nonempty numeral, at most one newline, and below 2^64; then with that value |
| `Kstrtox.RangeErrorExactly` | compat-wireless/compat/kstrtox.c:70-71 | a range error if and only if the text starts with a numeral that does not fit, whatever follows |
| `Kstrtox.SignRefused` | compat-wireless/compat/kstrtox.c:56-67 | a sign where a number must start is an error |
| `Kstrtox.Kstrtoull` | compat-wireless/compat/kstrtox.c:83-88 | one plus sign is allowed |
| `Kstrtox.Kstrtoll` | compat-wireless/compat/kstrtox.c:91-112 | the tests on the sign of 64-bit words accept exactly the signed range; minus zero is a range error |
| `Kstrtox.KstrtoNarrowUnsigned` | compat-wireless/compat/kstrtox.c:116-128 | succeeds if and only if the wide conversion does and the value is below 2^bits, otherwise with its error or a range error (`_kstrtoul`, `kstrtouint`, `kstrtou16`, `kstrtou8`) |
| `Kstrtox.KstrtoNarrowSigned` | compat-wireless/compat/kstrtox.c:132-144 | succeeds if and only if the wide conversion does and the value is in the signed range, otherwise with its error or a range error (`_kstrtol`, `kstrtoint`, `kstrtos16`, `kstrtos8`) |
| `Kstrtox.UnsignedRoundTrip` | compat-wireless/compat/kstrtox.c:83-88 | reading inverts printing in every base from 2 to 16 |
| `Kstrtox.AnnouncedRoundTrip` | compat-wireless/compat/kstrtox.c:39-49 | with base 0, decimal, 0x and 0 texts read back |
| `Kstrtox.PositiveRoundTrip` | compat-wireless/compat/kstrtox.c:103-110 | a number without minus sign reads back exactly below 2^63 |
| `Kstrtox.NegativeRoundTrip` | compat-wireless/compat/kstrtox.c:96-102 | a number behind a minus sign reads back if and only if it is from 1 to 2^63 |
| `Kstrtox.MinusZero` | compat-wireless/compat/kstrtox.c:100-101 | minus zero is a range error |
| `Kstrtox.NarrowRoundTrip` | compat-wireless/compat/kstrtox.c:147-235 | each conversion reads back every number of its type |
| `PmQos.ExtremeMeans` | compat-wireless/compat/pm_qos_params.c:144-165 | the fold is one of the values, and none is stricter |
| `PmQos.ExtremeUnique` | compat-wireless/compat/pm_qos_params.c:144-165 | there is one extreme, whatever the order of the list |
| `PmQos.Object.constructor` | compat-wireless/compat/pm_qos_params.c:77-129 | each real class starts with its default as target, which is the extreme of no requirements |
| `PmQos.Object.Recompute` | compat-wireless/compat/pm_qos_params.c:155-174 | the target becomes the extreme; a call is due exactly if it changed |
| `PmQos.Object.UpdateTarget` | compat-wireless/compat/pm_qos_params.c:155-180 | a notification with the new target exactly if it changed |
| `PmQos.Object.AddRequirement` | compat-wireless/compat/pm_qos_params.c:226-253 | the requirement is added and the target is the extreme; a failed allocation changes nothing |
| `PmQos.Object.UpdateRequirement` | compat-wireless/compat/pm_qos_params.c:267-291 | the first requirement of that name gets the value, and the target is the extreme; an unknown name changes nothing |
| `PmQos.Object.RemoveRequirement` | compat-wireless/compat/pm_qos_params.c:302-322 | the first requirement of that name goes, and the target is the extreme; an unknown name changes nothing |
| `PmQos.UpdateStores` | compat-wireless/compat/pm_qos_params.c:267-291 | an update stores the value, or the default for it, in the first requirement of that name and changes no other |
| `PmQos.AddStores` | compat-wireless/compat/pm_qos_params.c:226-253 | an addition stores its value or the default, and leaves the others alone |
| `PmQos.RemoveTakes` | compat-wireless/compat/pm_qos_params.c:302-322 | a removal takes out the first requirement of that name and nothing else |
| `PmQos.StepTakesEffect` | compat-wireless/compat/pm_qos_params.c:155-322 | what each critical section does to requirements, target and notifications |
| `PmQos.RemoveUndoesAdd` | compat-wireless/compat/pm_qos_params.c:226-322 | removing what was just added restores the list |
| `PmQos.EveryRun` | compat-wireless/compat/pm_qos_params.c:155-322 | with any number of callers between their critical sections: the target is the extreme or a recomputation is pending, and each real change of the target is notified once or is about to be |
| `PmQos.NotificationsOvertake` | compat-wireless/compat/pm_qos_params.c:176-179 | a run after which the last value notified is not the target |
| `PmQos.InOrder` | compat-wireless/compat/pm_qos_params.c:176-179 | if callers notify in the order of their changes, the notifications are the changes in order |
| `PmQos.InOrderSettles` | compat-wireless/compat/pm_qos_params.c:176-179 | then the last value notified is the target |
| `PmQos.SettlesExactly` | compat-wireless/compat/pm_qos_params.c:176-179 | after any run that leaves something to notify: every order of the remaining notifications ends with the target if and only if nothing but the target is left to notify |
| `FirmwarePages.FlatSplice` | compat-wireless/compat/compat_firmware_class.c:448-463 | copying into a page is copying into the flat array |
| `FirmwarePages.FlatPiece` | compat-wireless/compat/compat_firmware_class.c:346-361 | a piece of a page is a piece of the flat array |
| `FirmwarePages.Buffer.GrowArray` | compat-wireless/compat/compat_firmware_class.c:371-392 | a larger page array, at least twice the old one, keeps all pages; without memory nothing changes but the abort flag |
| `FirmwarePages.Buffer.AddPage` | compat-wireless/compat/compat_firmware_class.c:394-401 | one page more, no stored byte changed |
| `FirmwarePages.Buffer.Realloc` | compat-wireless/compat/compat_firmware_class.c:367-403 | succeeds exactly if the allocations it needs succeed, and then covers the size; in either case no stored byte changes |
| `FirmwarePages.Buffer.CopyIn` | compat-wireless/compat/compat_firmware_class.c:448-463 | the copy loop, page by page, is one copy into the flat array |
| `FirmwarePages.Buffer.Write` | compat-wireless/compat/compat_firmware_class.c:434-465 | all outcomes; on success the data is at the offset, all other stored bytes are unchanged and the size is the highest end |
| `FirmwarePages.Buffer.Read` | compat-wireless/compat/compat_firmware_class.c:332-361 | the bytes of the flat array from the offset, clipped to the size; nothing from behind the end |
| `FirmwarePages.Serve` | compat-wireless/compat/compat_firmware_class.c:332-465 | every sequence of reads and writes is answered as by a flat array: reads return the last bytes written, clipped to the highest end, and a write with memory for all its pages succeeds |
| `Cordic.StaysWithinReach` | compat-wireless/compat/cordic.c:80-91 | for any converging table, the distance to the target stays within the reach of the remaining entries |
| `Cordic.Converges` | compat-wireless/compat/cordic.c:80-91 | for any converging table and any angle in reach, the final error is at most the last entry |
| `Cordic.TableConverges` | compat-wireless/compat/cordic.c:28-47 | this table converges and reaches 90 degrees |
| `Cordic.SeriesEncloses` | compat-wireless/compat/cordic.c:28-47 | an even and the next odd number of terms of the arctangent series enclose every longer sum |
| `Cordic.PiBounds` | compat-wireless/compat/cordic.c:28-47 | bounds of pi by the formula of Machin |
| `Cordic.TableRounds` | compat-wireless/compat/cordic.c:28-47 | every table entry is the arctangent of 2^-k in 1/65536 degree, rounded to the nearest |
| `Cordic.NormAfter` | compat-wireless/compat/cordic.c:80-91 | k exact rotations stretch by the same factor, whatever their directions |
| `Cordic.RadiusOfAll` | compat-wireless/compat/cordic.c:63-91 | the start value is chosen so that the exact vector ends between radius 65536 and 65537 |
| `Cordic.RotationNear` | compat-wireless/compat/cordic.c:80-91 | one integer rotation stays within two more units of the exact one |
| `Cordic.Reduce` | compat-wireless/compat/cordic.c:67-78 | the reduced angle lies between -90 and 90 degrees and differs from the argument by whole turns, or by half a turn more if the sign is negative |
| `Cordic.Rotate` | compat-wireless/compat/cordic.c:80-91 | the loop ends with the angle of the table walk and within 35 units of the exact vector |
| `Cordic.CalcIq` | compat-wireless/compat/cordic.c:55-96 | angle error at most 29/65536 degree, each coordinate within 35 of the exactly rotated vector, squared radius within 9400000 of 2^32 |
| `Gralloc.Give` | camera/QCamera2/HAL/QCameraMem.cpp:985-990 | clearing a flag hands exactly that buffer over |
| `Gralloc.Take` | camera/QCamera2/HAL/QCameraMem.cpp:1000-1004 | setting a flag takes exactly that buffer |
| `Gralloc.Partition` | camera/QCamera2/HAL/QCameraMem.cpp:974-1010 | every buffer is with exactly one side |
| `Gralloc.Memory.CancelFirst` | camera/QCamera2/HAL/QCameraMem.cpp:1095-1102 | gives back the buffers taken so far and no other |
| `Gralloc.Memory.TakeOne` | camera/QCamera2/HAL/QCameraMem.cpp:1077-1158 | one round of the allocation loop and its three outcomes |
| `Gralloc.Memory.KeepMinimum` | camera/QCamera2/HAL/QCameraMem.cpp:1174-1178 | gives back the first buffers |
| `Gralloc.Memory.Allocate` | camera/QCamera2/HAL/QCameraMem.cpp:1025-1183 | the outcome as a function of what the window grants and which descriptors work; after a success the flags are right; a failure leaves nothing behind if and only if fewer than five requests are granted, that is, not even the first buffer |
| `Gralloc.DoneExactly` | camera/QCamera2/HAL/QCameraMem.cpp:1025-1183 | an allocation succeeds if and only if the window grants everything and every descriptor works |
| `Gralloc.RemainsOccur` | camera/QCamera2/HAL/QCameraMem.cpp:1077-1158 | with five grants for two buffers or more, a failing first descriptor leaves a buffer and a working one leaves itself |
| `Gralloc.Memory.DisplayBuffer` | camera/QCamera2/HAL/QCameraMem.cpp:974-1010 | the flags stay right, the result is the buffer taken back, and the number in hand is unchanged when both requests are granted |
| `Gralloc.Memory.Deallocate` | camera/QCamera2/HAL/QCameraMem.cpp:1194-1221 | every descriptor is closed, and every buffer in hand goes back if and only if the window is still attached or there is none in hand |
| `Gralloc.Memory.GetRegFlags` | camera/QCamera2/HAL/QCameraMem.cpp:1255-1263 | right after an allocation exactly the buffers in hand are marked |
| `Gralloc.Session` | camera/QCamera2/HAL/QCameraMem.cpp:974-1221 | every run of an allocation, displays and a deallocation ends with nothing in hand and nothing open |

## Left out

- Kfifo.Fifo.Alloc: size 0 is not modelled, because the rounding of zero is undefined in the source.
- KfifoConcurrent.EveryInterleavingIsSafe: assumes sequentially consistent memory; the memory barriers are not modelled.
- KfifoRecord.InR: a length whose 32-bit sum with the prefix size wraps and then seems to fit is excluded, because the copy runs out of the buffer.
- KfifoScatter.SetupSgl: the scatter list must have `nents` entries, because the second part is written at a computed place in it.
- Calendar.TimeToTm: unbounded integers, so overflow of `long` day counts and of `int` years is not modelled.
- RomeEvents.Link.ReadVsHciEvent: the chip version and build label that some vendor events carry are not stored; the descriptor of a pending download counts as open.
- RomeDownload.Host.DownloadTlv: patches with an event mode that the source calls unsupported are excluded, because a flag is then read uninitialised; for versions below 1.1 or above 3.2 the source has no rule for the events, so the host's waits are stated and nothing about a controller.
- RomePackets.FrameHciCmdPkt: the reset, version, baud rate and NVM commands are modelled by their header only.
- FirmwarePages.Buffer.Write: offsets and counts whose sum does not fit in an `int` are not modelled.
- FirmwarePages.Serve: bytes in a gap that no write has covered are whatever the fresh page holds; nothing is stated about them.
- Cordic.CalcIq: angles whose fixed-point form overflows 32 bits are excluded; that the limit of the series is the angle of the rotation by 1 + 2^-k j, and the 32-bit range of intermediate coordinates, are not stated.
- Gralloc.Memory.Allocate: `cancel_buffer` always succeeds, and the frame arrays are large enough, which the source does not check.
- kfifo: copies from and to user space, `__kfifo_init` and `__kfifo_free`, and the DMA finish functions for records.
- Rome: `do_write` with partial writes (sending is one step), file input, TLV header parsing, the other vendor commands, `hw_ar3k.c`.
- PM QoS: device files, notifier registration, the reserved class 0.
- Firmware: `firmware_loading_store`, `vmap`, timeouts, sysfs registration.
- `dev_mc_sync` and `dev_mc_unsync` of compat-2.6.23.c, an older form of the same protocol.
- Camera: state machine, queues, post-processing, streams, parameters, EXIF, the other memory classes.
- pyCuber, LED, sensor, power and shim code, and one-line arithmetic helpers: they would only add easy members.
