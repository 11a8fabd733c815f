# A Dafny model of PikiwiDB's core

PikiwiDB is a Redis-compatible server. This project models its compact byte formats, its
compression, its queues, its indexes and its two step-by-step protocols, and proves what they
promise. The packed formats are modelled at byte level, on arrays that are resized, moved and
rewritten in place as in the source; objects that the source updates are classes, and their
invariants are proved of every method, so of every run.

| files | what they model |
|---|---|
| Bytes | bytes, little and big endian fields, memmove and memcpy, sequence facts |
| ZiplistCodec, ZiplistLayout, ZiplistOps, ZiplistBytes, ZiplistCascade, ZiplistEdits, ZiplistShrink, Ziplist, ZiplistRuns | the ziplist: entry encodings, the buffer as a function of the entries, the cascade, insert and delete in place, traversal, whole runs |
| LzfFormat, LzfDecoder, LzfTrace, LzfEncoder | LZF: the token format and its meaning, the decoder, what the hash table makes the compressor find, and the compressor |
| RespWriter, RespLines, RespGrammar, RespParser, RespSession | RESP: the command writer, the grammar, the resumable parser, and a connection that receives a stream of commands in pieces |
| ReplicaStream, Replication, ReplicationRuns | replication, master side: what each slave should have been sent, the master's steps, whole runs |
| Store, StoreRuns | the write-behind store over a backend |
| Mask, Ring, Unbounded, Async | the power-of-two ring, the growing buffer, and the three-stage queue built from them |
| IntsetLayout, Intset | the intset with its widening in place |
| RdbFormat, Rdb | rdb lengths, strings, lists, sets and hashes |
| SortedOrder, SortedSet | the sorted set's two indexes |
| Scan | the hash scan cursor |
| BlockHash, Sha256, Md5 | the streaming parts of SHA-256 and MD5 |
| Decimal | decimal text |

Conventions. Integers are unbounded; where the source's width matters it is written out, as a
remainder or as a bound in a `requires`. Library calls that decide on text (strtol, strtoll) are
function parameters, so that a result holds for whatever they answer; so is the compression
function of one hash block, and so is the rdb file that a given data set is saved as. Clocks,
randomness, sockets and fork appear as parameters: what a call returns, or which events occur.
Hash tables iterate in any order. A method may take ghost parameters that say what its caller
knows; they have no influence on what it does.

Where a promise does not hold, the exact condition under which it does is proved:

- ziplistInsert resizes before it moves. It is right if and only if the resize does not shrink the
  buffer, or shrinks it by one byte that was 255 already (`ZiplistShrink.RightIff`). With a
  three-byte entry in front of a back pointer that is wider than needed, the last byte of the list
  becomes 255; with a two-byte entry, the move reads behind the buffer (`ZiplistShrink.InsideIff`).
  Both can be reached (`ZiplistRuns.GuardCanFail`).
- The parser can be resumed exactly at safe cuts (`RespParser.ProtoParser.ParseRequest`): not
  inside a count line behind its second byte, and not behind three or more digits of a length
  line without their CR. Behind the count line this concerns exactly commands with a parameter of
  100 bytes or more (`RespParser.AnyCutSafe`).
- The parser may wait for bytes that cannot help. Some continuation is accepted if and only if what
  it stopped in front of can still be completed (`RespGrammar.RequestWaitIff`,
  `RespGrammar.WaitsInVain`).
- An online slave has its snapshot and every command since if and only if the rdb file is below
  2^31 bytes, since its length is passed as an int, and no command was propagated during another
  slave's save (`Replication.StreamCompleteIff`, `ReplicaStream.FileLost`,
  `ReplicationRuns.MissedCommand`). If the rdb file cannot be opened while slaves wait for it, one
  of them, whose connection may be closed by then, is online with nothing sent
  (`Replication.Replication.OnRdbSaveDone`).
- A slave that syncs while the save for another runs is not started when that save is over, but by
  the next sync or the end of another saving child (`ReplicationRuns.Overlooked`,
  `ReplicationRuns.StaysWaiting`, `ReplicationRuns.NextChance`).
- A string does not survive saving and loading exactly if it has up to 9 bytes, or 20 bytes and was
  compressed, and Strtol takes it for a number whose canonical text it is not
  (`RdbFormat.RoundTripIff`). Both happen: `RdbFormat.OctalChanges`, `Rdb.ZerosChange`.
- SHA-256 follows the standard exactly for messages below 2^29 bytes (`Sha256.PaddingStandard`).

## Model

| member | source | states |
|---|---|---|
| ZiplistCodec.PrevFieldDecodes | src/redis_zip_list.c:253-298 | a back pointer of either width is read back with its width and its length |
| ZiplistCodec.StrHeaderDecodes | src/redis_zip_list.c:189-249 | the 6, 14 and 32 bit string headers are read back with their size and length |
| ZiplistCodec.IntLoads | src/redis_zip_list.c:330-416 | every integer that fits its encoding (immediate, 8, 16, 24, 32, 64 bit) is loaded back |
| ZiplistCodec.Storable | src/redis_zip_list.c:330-371 | any string below 4 GiB can be stored: the encoding chosen for a 64-bit integer holds it |
| ZiplistCodec.ItemOf | src/redis_zip_list.c:330-355 | an integer is stored if and only if the string has 1 to 21 bytes and reads as one, with its value; otherwise the string itself |
| ZiplistCodec.SmallestEncoding | src/redis_zip_list.c:336-349 | no encoding that holds an integer is smaller than the one chosen for it, and 0 to 12 are their own header bytes |
| ZiplistCodec.SmallestHeader | src/redis_zip_list.c:189-223 | the string header is the smallest that can say the length |
| ZiplistCodec.BodyDecodes | src/redis_zip_list.c:189-249 | header and payload behind the back pointer are read back for every item |
| ZiplistCodec.HeaderDecodes | src/redis_zip_list.c:419-427 | zipEntry at a stored entry gives its back pointer, header sizes and length, hence its raw length |
| ZiplistCodec.ItemDecodes | src/redis_zip_list.c:309-427 | wherever the bytes of an entry stand, the string or integer that was stored is what is loaded |
| ZiplistOps.CascadeItems | src/redis_zip_list.c:468-527 | a cascade changes no payload, whatever it widens |
| ZiplistOps.CascadeSize | src/redis_zip_list.c:468-527 | a cascade never shrinks a field and adds at most four bytes an entry |
| ZiplistOps.CascadeFits | src/redis_zip_list.c:468-527 | after a cascade every back pointer is the true length of the entry before it, although fields may stay wider than needed |
| ZiplistOps.CascadeIdle | src/redis_zip_list.c:468-527 | a list whose back pointers already fit is left alone |
| ZiplistOps.InsertRefines | src/redis_zip_list.c:590-678 | the entries after an insert are well linked and hold the plain sequence with the item inserted |
| ZiplistOps.DeleteRefines | src/redis_zip_list.c:530-587 | the entries after a delete are well linked and hold the plain sequence without the deleted items |
| ZiplistOps.CascadeWidths | src/redis_zip_list.c:468-527 | a back pointer is widened exactly where the entry before it has become too long for it |
| ZiplistOps.InsertWidths | src/redis_zip_list.c:590-678 | after an insert, the new back pointer and the one behind it are wide exactly if they have to be; of the others, exactly those that were or now have to be |
| ZiplistOps.DeleteWidths | src/redis_zip_list.c:530-587 | the same after a delete, for the entry behind the deleted ones and for the others |
| ZiplistLayout.Example | src/redis_zip_list.c:430-438 | the bytes of a list of two small integers |
| Ziplist.Ziplist.constructor | src/redis_zip_list.c:430-438 | a new list is well formed and empty |
| Ziplist.Ziplist.Resize | src/redis_zip_list.c:441-446 | reallocation keeps the common bytes, stores the new size and the end marker |
| Ziplist.Ziplist.WidenPointer | src/redis_zip_list.c:489-512 | one cascade step: the next back pointer grows in place, all bytes around it and the tail offset stay right, and only the entry after it is now out of date |
| Ziplist.Ziplist.CascadeUpdate | src/redis_zip_list.c:468-527 | if only the entry at p has changed length, the loop terminates and leaves every later back pointer and the tail offset right, with the entries of Cascade |
| Ziplist.Ziplist.OpenRoom | src/redis_zip_list.c:628-641 | resize, move and rewrite leave exactly the wanted gap before the next entry, whose own back pointer is already relinked; when the resize takes a byte away, the last byte of the list has become an end marker and all else is as it should be |
| Ziplist.Ziplist.ShiftTail | src/redis_zip_list.c:643-654 | the tail offset moves by the insertion, and by the field growth unless the entry is the last |
| Ziplist.Ziplist.MakeRoom | src/redis_zip_list.c:617-654 | room for the new entry, with the list behind it, its last byte overwritten if the buffer shrank, one cascade away from well formed |
| Ziplist.Ziplist.WriteEntry | src/redis_zip_list.c:668-675 | the gap is filled with back pointer, header and payload and nothing else changes |
| Ziplist.Ziplist.IncrLength | src/redis_zip_list.c:153-156 | the stored count moves unless it is stuck at 65535 |
| Ziplist.Ziplist.PrevLenAt | src/redis_zip_list.c:601-609 | the raw length of the entry before a position, also at the end of the list |
| Ziplist.Ziplist.InsertBefore | src/redis_zip_list.c:625-675 | the bytes become those of the list with the new entry and everything behind it relinked, its last byte overwritten if the buffer shrank |
| Ziplist.Ziplist.InsertLast | src/redis_zip_list.c:625-675 | the bytes become those of the list with the new entry at the end |
| Ziplist.Ziplist.Insert | src/redis_zip_list.c:590-678 | whenever the move stays inside the buffer, the buffer stays well formed, its entries are those of Inserted for the item that ItemOf chooses, and the stored count is one more or stuck |
| Ziplist.Ziplist.PullUp | src/redis_zip_list.c:566-577 | the deleted bytes are gone and the others have moved up |
| Ziplist.Ziplist.DeleteInner | src/redis_zip_list.c:544-584 | the bytes become those of the list without the deleted entries and with the rest relinked |
| Ziplist.Ziplist.Relinked | src/redis_zip_list.c:579-584 | after the move, the cascade completes the relinking of what follows |
| Ziplist.Ziplist.DeleteTail | src/redis_zip_list.c:569-578 | deleting up to the end leaves the bytes of the entries before |
| Ziplist.Ziplist.SkipEntries | src/redis_zip_list.c:537-540 | the position behind num entries or at the end marker, and how many were skipped |
| Ziplist.Ziplist.Delete | src/redis_zip_list.c:530-587 | the buffer stays well formed and up to num entries from p are gone, the count with them |
| Ziplist.Ziplist.Next | src/redis_zip_list.c:717-733 | from entry k to entry k+1, or nothing at the last entry and at the end |
| Ziplist.Ziplist.Prev | src/redis_zip_list.c:736-752 | from entry k, or the end, to entry k-1, or nothing at the first: the inverse of Next |
| Ziplist.Ziplist.Get | src/redis_zip_list.c:758-775 | the item stored at a position, or nothing at the end |
| Ziplist.Ziplist.IndexFromHead | src/redis_zip_list.c:702-706 | walking forward reaches the entry of that index, or nothing past the end |
| Ziplist.Ziplist.IndexFromTail | src/redis_zip_list.c:692-701 | walking the back pointers from the tail reaches the same entries as counting from the head |
| Ziplist.Ziplist.Index | src/redis_zip_list.c:689-709 | index i and index i-n are the same position, and indexes out of range on either side give nothing |
| Ziplist.Ziplist.Len | src/redis_zip_list.c:891-906 | the number of entries, also when the stored count is stuck, which is repaired when it can be |
| Ziplist.Ziplist.CountEntries | src/redis_zip_list.c:896-900 | walking to the end marker counts the entries |
| ZiplistShrink.ClobberedBody | src/redis_zip_list.c:189-371 | the item whose last byte has become an end marker: an item again, of the same size, different in that byte only |
| ZiplistShrink.ClobberedIdle | src/redis_zip_list.c:189-371 | it is the same item if and only if the byte was an end marker before |
| ZiplistShrink.ClobberLayout | src/redis_zip_list.c:441-446 | on the whole list, only the byte in front of the end marker differs, and no pointer |
| ZiplistShrink.ShrunkKeeps | src/redis_zip_list.c:441-446 | a resize that takes one byte away gives the same buffer for both lists, and loses nothing of the second |
| ZiplistShrink.CascadeClobber | src/redis_zip_list.c:468-527 | the cascade depends on lengths only, so it commutes with the overwritten byte |
| ZiplistShrink.InsertClobber | src/redis_zip_list.c:590-678 | so does the whole insert in front of an entry |
| ZiplistShrink.ClobberShows | src/redis_zip_list.c:628-638 | the bytes of the two lists are the same if and only if the last byte was an end marker before |
| ZiplistShrink.InsideIff | src/redis_zip_list.c:625-638 | the source range of the move ends inside the resized buffer if and only if not a two-byte entry goes in front of a five-byte back pointer; the buffer shrinks by one byte if and only if a three-byte entry does |
| ZiplistShrink.RightIff | src/redis_zip_list.c:625-675 | the move stays inside the buffer and the bytes are those of the list with the item inserted, if and only if reqlen + nextdiff >= 0, or it is -1 and the last byte of the list was an end marker |
| ZiplistRuns.StepRefines | src/redis_zip_list.c:530-678 | one insert or delete does to the items what it does to a plain sequence |
| ZiplistRuns.RunRefines | src/redis_zip_list.c:430-678 | every run of right inserts and deletes keeps the list well linked and equal to the plain sequence |
| ZiplistRuns.Execute | src/redis_zip_list.c:430-709 | such a run on the bytes, with positions found by ziplistIndex, ends in a well-formed buffer that holds the plain sequence |
| ZiplistRuns.GuardCanFail | src/redis_zip_list.c:628-638 | a run of right operations that leads to a list where inserting one character turns the last element into the byte 255, and inserting the empty string moves bytes from outside the buffer |
| LzfFormat.ParseEncodeAll | src/net/lzf/lzf_c.c:90-95 | the encoded tokens parse back to the same tokens, followed by anything |
| LzfFormat.EncodedMeaning | src/net/lzf/lzf_d.c:55-149 | a token stream that stays inside its own output decodes to what it expands to |
| LzfFormat.CopyBackRepeats | src/net/lzf/lzf_d.c:127-142 | copying byte by byte from an overlapping reference reproduces the matched input |
| LzfFormat.Examples | src/net/lzf/lzf_d.c:68-144 | the bytes of a literal run and of the two forms of a reference |
| LzfDecoder.CopyRun | src/net/lzf/lzf_d.c:89-91 | literals are appended to the output and nothing behind them changes |
| LzfDecoder.CopyMatch | src/net/lzf/lzf_d.c:137-142 | the overlapping copy appends what the back reference stands for and nothing behind it changes |
| LzfDecoder.TakeLiteral | src/net/lzf/lzf_d.c:68-93 | a literal run is rejected exactly if it overruns input or output, else it is one token |
| LzfDecoder.TakeRef | src/net/lzf/lzf_d.c:94-144 | a back reference is rejected exactly if it is truncated, overruns the output or points before its start, else it is one token |
| LzfDecoder.Decompress | src/net/lzf/lzf_d.c:55-149 | terminates on every non-empty input, writes only its output range, succeeds exactly if the stream has a meaning that fits, and then writes that meaning and nothing behind it |
| LzfEncoder.CloseToken | src/net/lzf/lzf_c.c:173-225 | appending a token that reproduces the next input bytes keeps the output an encoding of the input so far |
| LzfEncoder.PendingMore | src/net/lzf/lzf_c.c:266 | copying one more literal keeps a pending run a copy of the input |
| LzfEncoder.PendingClosed | src/net/lzf/lzf_c.c:270 | the control byte turns a pending run of 1 to 32 literals into a token |
| LzfEncoder.EndRun | src/net/lzf/lzf_c.c:173-174 | a run is closed, or its reserved byte taken back when it is empty; its literals have become units of the tokens |
| LzfEncoder.AddLiteral | src/net/lzf/lzf_c.c:262-273 | one more literal, with the run closed at 32 |
| LzfEncoder.EmitRef | src/net/lzf/lzf_c.c:211-227 | the two or three bytes of a reference stand for the matched input, up to 264 bytes of it |
| LzfEncoder.MatchLength | src/net/lzf/lzf_c.c:169-209 | the match found is real, at least 3 and at most 264 bytes long, and inside the input; it ends at a byte that differs unless it is as long as that or reaches the last two bytes |
| LzfEncoder.Unrolled | src/net/lzf/lzf_c.c:183-203 | sixteen comparisons: stopped at the first byte that differs, or nineteen equal bytes |
| LzfTrace.Rolling | src/net/lzf/lzf_c.c:46-53 | the rolling hash value ends in the last two bytes, and its slot is that of the last three, whatever was hashed before |
| LzfEncoder.MatchIff | src/net/lzf/lzf_c.c:151-168 | a match is tried if and only if the three bytes at the offered position are those here, it lies before, not at the beginning, and near enough, and the end is not too near |
| LzfEncoder.Lookup | src/net/lzf/lzf_c.c:147-149 | what the slot of the three bytes held is offered, and only that slot changes, to the current position |
| LzfEncoder.Rehash | src/net/lzf/lzf_c.c:232-246 | the last two positions of a match are entered into the slots of their bytes, and no other slot changes |
| LzfEncoder.MatchStep | src/net/lzf/lzf_c.c:168-227 | the run is closed and the longest match emitted, if and only if there is room for it |
| LzfTrace.TableLast | src/net/lzf/lzf_c.c:147-149 | a slot holds the last position entered into it |
| LzfTrace.TableNone | src/net/lzf/lzf_c.c:133-140 | a slot that nothing was entered into holds what it held before |
| LzfTrace.RepetitionTaken | src/net/lzf/lzf_c.c:147-230 | where the last position entered into the slot of the next three bytes can be used, the compressor emits no literal but a reference to it |
| LzfTrace.SpentBound | src/net/lzf/lzf_c.c:144-274 | at any point, no more has been written than literals cost, one control byte for every 32 |
| LzfTrace.FreshEntry | src/net/lzf/lzf_c.c:147-149 | on periodic input, a period of literals is followed by the offer of the byte one period before |
| LzfTrace.AtOnce | src/net/lzf/lzf_c.c:232-249 | with a period of one or two bytes, so is a repetition |
| LzfTrace.PeriodicRoom | src/net/lzf/lzf_c.c:98-294 | on input of period p whose windows have different slots, what is written stays below about p + p/32, or below the input by more than 250 bytes less p/16 |
| LzfTrace.EqualRepeats | src/net/lzf/lzf_c.c:98-294 | 20 or more equal bytes are such input, with room in four bytes less than their number |
| LzfTrace.LettersRepeat | src/net/lzf/lzf_c.c:98-294 | so are four different letters over and over |
| LzfEncoder.Flush | src/net/lzf/lzf_c.c:276-288 | the last bytes are added as literals within the space checked for |
| LzfEncoder.Compress | src/net/lzf/lzf_c.c:98-294 | for every table content, all writes fall in out_len + 1 bytes and the result is at most out_len; the positions looked at are a trace of that table, the output is the tokens of the trace and means the input; it gives up only within four bytes of the end of the output, so not with n + n/32 + 4 bytes of room, nor on periodic input with less |
| LzfEncoder.RoundTrip | src/net/lzf/lzf_c.c:98-294 | decompressing what was compressed, with the input length as room, gives the input back; with n + n/32 + 4 bytes of output every non-empty input is compressed, and periodic input with less |
| ReplicaStream.CommandKeeps | src/replication.cc:144-157 | a command outside a save extends the stream of every online slave by exactly itself |
| ReplicaStream.BufferedKeeps | src/replication.cc:139-142 | a command during a save changes no stream, and every slave is still where it should be |
| ReplicaStream.StartKeeps | src/replication.cc:116-136 | starting a save, or failing to, leaves every slave where it should be |
| ReplicaStream.DoneSends | src/replication.cc:74-80 | a slave going online is sent the size line, as much of the file as an int length lets through, and the buffer, in that order: the whole snapshot if and only if the file is below 2^31 bytes |
| ReplicaStream.FileSentIff | src/client.h:43 | the file is sent whole if and only if it is below 2^31 bytes, and otherwise less is sent |
| ReplicaStream.FileLost | src/client.h:43 | of a file of 2^31 to 2^32 bytes only the size line is sent, of one more byte only its first |
| ReplicaStream.DoneKeeps | src/replication.cc:51-87 | with the file of the fork as it is sent and the buffer since, a slave that goes online is where it should be |
| ReplicaStream.PingKeeps | src/replication.cc:171-173 | PINGs do not count, and a client that is not online is sent no packet at all |
| ReplicaStream.ExpectedMore | src/replication.cc:138-158 | what a slave should have grows by a live command and by nothing else |
| Replication.EncodeOnce | src/replication.cc:152-154 | the command is encoded for the first slave and reused |
| Replication.Replication.constructor | src/replication.cc:32 | no slaves, no save, nothing buffered |
| Replication.Replication.SendPacket | src/client.h:42 | a packet joins what was sent unless the connection is closing or the packet empty |
| Replication.Replication.SendBytes | src/client.h:43 | the same with the length narrowed to an int: the prefix of that length, or nothing if it is not positive |
| Replication.Replication.HasAnyWaitingBgsave | src/replication.cc:40-49 | true exactly if a live slave waits for a save to start |
| Replication.Replication.Broadcast | src/replication.cc:144-157 | every live slave that is online gets the command once, no one else gets anything |
| Replication.Replication.SendToSlaves | src/replication.cc:138-158 | keeps the invariant: buffered during a save, with every client as before; sent to everyone online otherwise |
| Replication.Replication.StartAll | src/replication.cc:120-135 | every slave waiting for a start, and no other, now waits for the end or is closed |
| Replication.Replication.OnStartBgsave | src/replication.cc:116-136 | keeps the invariant, with the fork as the snapshot of everything propagated so far |
| Replication.Replication.TryBgsave | src/replication.cc:89-114 | starts a save exactly if none runs and a slave waits |
| Replication.Replication.GoOnline | src/replication.cc:63-80 | one slave goes online with its three packets, the file narrowed to an int length |
| Replication.Replication.DeliverAll | src/replication.cc:57-84 | all waiting slaves go online with the file narrowed to an int length, or, if the file does not open, only the first, with nothing sent |
| Replication.Replication.OnRdbSaveDone | src/replication.cc:51-87 | keeps the invariant if the file opens or no one waits for it, and then each open slave that waited has the whole snapshot and the buffer if and only if the file is below 2^31 bytes; otherwise one waiting slave is online with nothing sent, the others wait on and the buffer is not cleared |
| Replication.Replication.ChildEnded | src/pikiwidb.cc:152-182 | when the saving child has ended, a replication save is finished and a slave that asked during it waits on with no save running; only the end of another child tries a save for it; the invariant holds unless the file does not open while a slave waits |
| Replication.Replication.Connect | src/pikiwidb.cc:185-191 | a new client has a fresh identity and no slave info |
| Replication.Replication.Disconnect | src/replication.cc:165-167 | a client that is gone is dead in every list it was in |
| Replication.Replication.AddSlave | src/replication.cc:350-355 | a client becomes a slave at most once, so that no slave is listed twice |
| Replication.Replication.Sync | src/replication.cc:450-469 | the clients, the save and its start after a sync request, in every case, and the invariant |
| Replication.Replication.Await | src/replication.cc:465 | the slave waits for a save to start |
| Replication.Replication.PingAll | src/replication.cc:163-176 | exactly the dead slaves are forgotten and exactly those online are pinged |
| Replication.Replication.PingSlaves | src/replication.cc:160-176 | keeps the invariant; exactly the slaves that are online and open have one PING more, and no other client has anything more |
| Replication.OnlineStream | src/replication.cc:51-158 | up to the start of the next replication save, an online slave has been sent the file of its fork, whole if and only if below 2^31 bytes, and then exactly the commands since, in order; without a later save, all of them |
| Replication.StreamCompleteIff | src/replication.cc:138-158 | an online slave has the whole snapshot and every command since its fork if and only if the file is below 2^31 bytes and no command was propagated during a save after it came online |
| ReplicationRuns.Happen | src/replication.cc:34-158 | every event keeps the invariant and logs exactly the propagated commands; a slave that waits for a save is touched only by a sync, the end of a child or its own disconnection |
| ReplicationRuns.Run | src/replication.cc:34-158 | after any sequence of events the invariant holds, and every online slave is complete if and only if the file of its fork is below 2^31 bytes and no command was propagated during a save after it came online; waiting for the end implies a save, and outside a save the buffer is empty |
| ReplicationRuns.SlaveReceives | src/replication.cc:51-158 | PING packets left out, what a slave of the latest save parses behind the file, however the bytes arrive in pieces that end at safe cuts, is exactly the commands since the fork |
| ReplicationRuns.MissedCommand | src/replication.cc:51-158 | a concrete run: the first slave is online and open, and a command propagated during the save for the second is not in its stream |
| ReplicationRuns.StaysWaiting | src/replication.cc:34-158 | a slave that waits with no save running is not started by any events other than a sync or the end of a saving child |
| ReplicationRuns.NextChance | src/replication.cc:89-136 | it joins a save if and only if one of those attempts a fork that succeeds, and a sync of a slave that is online attempts none; if the fork fails, it is closed |
| ReplicationRuns.Overlooked | src/pikiwidb.cc:169-173 | a concrete run: a slave that syncs during the save for another still waits when that save is over, with no save running |
| RespWriter.WriteBulkString | src/replication.h:21-29 | appends length line, bytes and line end |
| RespWriter.SaveCommand | src/replication.h:51-58 | appends exactly the bytes of the command |
| RespLines.GetIntUntilCRLF | src/common.cc:311-351 | for every input, the result, how far the pointer moves, and the number, wrapped to an int |
| RespLines.LineOutcome | src/common.cc:311-351 | a whole length line gives its number; three or more digits without their CR send the pointer past the end; anything shorter waits |
| RespParser.ProtoParser.Reset | src/proto_parser.cc:21-30 | ready for the next command, with the first three of the old parameters left over |
| RespParser.ProtoParser.ParseMulti | src/proto_parser.cc:47-59 | reads the count line; on wait the pointer may have moved |
| RespParser.ProtoParser.ParseStrlen | src/proto_parser.cc:114-129 | reads a length line; on wait the pointer goes back |
| RespParser.ProtoParser.ParseStrval | src/proto_parser.cc:95-112 | reads a text of known length with its line end, or waits, or rejects |
| RespParser.ProtoParser.ReadLength | src/proto_parser.cc:81-90 | for any bytes: waits, reads a length, or rejects, exactly when the line is cut, spells a number that is not negative, or does not |
| RespParser.ProtoParser.ParseStr | src/proto_parser.cc:80-93 | for any bytes, what the grammar says of the next string; of a command, the next parameter when all of it is there, otherwise resumable unless the cut is unsafe |
| RespParser.ProtoParser.NextParam | src/proto_parser.cc:62-74 | for any bytes, one string further or stopped as the grammar says; one parameter further into a command, or stopped where it is cut |
| RespParser.ProtoParser.ParseStrlist | src/proto_parser.cc:61-78 | for any bytes, all remaining strings, or wait, or reject, as the grammar says; of a command, all parameters, or resumable exactly if the cut is safe |
| RespParser.ProtoParser.ReadCount | src/proto_parser.cc:32-42 | for any bytes, the count, or wait, or reject |
| RespParser.ProtoParser.ParseRequest | src/proto_parser.cc:32-45 | for any bytes, it returns exactly the strings that the grammar finds, rejects exactly what the grammar rejects, and waits otherwise; for every command it is within: given the rest of it and anything after, it returns the command and stops right behind; given less, it can be resumed if and only if the cut is safe |
| RespGrammar.RequestIff | src/proto_parser.cc:13-18 | bytes are accepted as a request, with its strings, if and only if they are spelled by the grammar: a count line and that many strings, each with its length line |
| RespGrammar.RequestStays | src/proto_parser.cc:32-129 | what has been accepted or rejected stays so whatever follows, unless a number was cut |
| RespGrammar.StrsResume | src/proto_parser.cc:61-129 | a parser that stopped inside the data goes on, on any bytes, as one that sees all of them at once |
| RespGrammar.RequestWaitIff | src/proto_parser.cc:32-129 | when it waits, some continuation is accepted if and only if what it stopped in front of can still be completed: the start of a line with a number that is not too small, or a text whose CR is not contradicted |
| RespGrammar.WaitsInVain | src/proto_parser.cc:47-51 | two bytes that are waited for although nothing can complete them |
| RespGrammar.WriterSpells | src/replication.h:21-58 | what the writer writes is spelled by the grammar |
| RespParser.SafeAbsolute | src/proto_parser.cc:21-129 | whether a cut is safe depends only on how many bytes of the command precede it |
| RespParser.AnyCutSafe | src/proto_parser.cc:114-129 | behind the count line, every cut is safe if and only if no parameter has 100 bytes or more |
| RespSession.Session.HandlePacket | src/client.cc:121-153 | for any bytes: a command is delivered, waited for, or rejected, which closes the connection if its count has been read; of a stream of commands, one is delivered exactly when all of it is there, and the stream position stays right |
| RespSession.Session.HandlePackets | src/client.cc:269-284 | every command in the data is delivered, and less than one is left |
| RespSession.Session.Consume | src/net/tcp_obj.cc:313-327 | the same, offered until nothing is consumed |
| RespSession.Session.OnRecvData | src/net/tcp_obj.cc:288-338 | arriving bytes join those kept, and exactly the consumed ones are drained |
| RespSession.Receive | src/net/tcp_obj.cc:288-338 | however a stream of commands is cut at safe points, exactly the commands that have wholly arrived are delivered, in order |
| RespSession.AllArrive | src/replication.h:51-58 | once all bytes have arrived, so have all commands |
| Store.Store.constructor | src/store.cc:657-690 | an empty cache over the backend stands for the backend |
| Store.Store.GetObject | src/store.cc:382-415 | answers as the plain map, and loading from the backend changes nothing visible |
| Store.Store.Assign | src/store.cc:520-523 | the object of a key is assigned in place or created, and no other object changes |
| Store.Store.SetValue | src/store.cc:519-531 | the plain map with the key set |
| Store.Store.DeleteKey | src/store.cc:417-425 | the plain map without the key, even if it is only in the backend |
| Store.Store.Mutate | src/store.cc:724-731 | an update in place changes the plain map at that key, and only that key may now differ from the backend unannounced |
| Store.Store.AddDirtyKey | src/store.cc:724-731 | announcing the key restores the invariant and changes nothing visible |
| Store.Store.Update | src/store.cc:724-731 | find, change and announce is an update of the plain map, or nothing if the key is not there |
| Store.Store.SyncOne | src/store.cc:706-720 | the backend gets exactly what the plain map says of the key |
| Store.Store.DumpToBackends | src/store.cc:692-722 | up to 100 keys in any order reach the backend; nothing visible changes, nor does the backend elsewhere |
| StoreRuns.Step | src/store.cc:382-738 | every operation answers as one plain map |
| StoreRuns.Execute | src/store.cc:382-738 | every run answers as one plain map that starts as the backend, and with nothing pending the backend is that map |
| StoreRuns.Drain | src/store.cc:692-722 | enough partial dumps empty the list and make the backend equal to the map |
| Mask.MaskIsMod | src/net/buffer.h:59-82 | masking with capacity - 1 is the remainder, for every power of two |
| Mask.MaskedDifference | src/net/buffer.h:81-82 | the masked 64-bit difference of the positions is the number of bytes between them |
| Mask.MaskedSum | src/net/buffer.h:283-298 | advancing a position under the mask |
| Ring.RoundUp2Power | src/net/buffer.h:36-47 | the smallest power of two that is at least the size |
| Ring.CircularBuffer.ReadableSize | src/net/buffer.h:81 | the number of bytes queued |
| Ring.CircularBuffer.WritableSize | src/net/buffer.h:82 | capacity - 1 less the bytes queued |
| Ring.CircularBuffer.IsEmpty | src/net/buffer.h:58 | nothing queued |
| Ring.CircularBuffer.IsFull | src/net/buffer.h:59 | capacity - 1 bytes queued |
| Ring.CircularBuffer.AdjustWritePtr | src/net/buffer.h:283-289 | bytes written ahead join the queue |
| Ring.CircularBuffer.AdjustReadPtr | src/net/buffer.h:292-298 | bytes leave the queue at the front |
| Ring.CircularBuffer.PushDataAt | src/net/buffer.h:195-226 | refused exactly if there is no room; else the bytes stand at that distance behind the queue and the queue is unchanged |
| Ring.CircularBuffer.PushData | src/net/buffer.h:229-236 | the queue with the bytes appended, or unchanged if there is no room |
| Ring.CircularBuffer.PeekDataAt | src/net/buffer.h:239-269 | a copy of that slice of the queue, or refused |
| Ring.CircularBuffer.PeekData | src/net/buffer.h:272-280 | the first bytes leave the queue, or none if there are too few |
| Ring.CircularBuffer.GetDatum | src/net/buffer.h:118-159 | one or two segments whose bytes together are exactly the requested slice |
| Ring.CircularBuffer.GetSpace | src/net/buffer.h:162-192 | the segments of the free space from an offset on, at their places in the storage, none of it queued; a single remaining byte is not offered |
| Ring.GatherPieces | src/net/buffer.h:118-159 | the segments of a wrapped slice concatenate to it |
| Unbounded.UnboundedBuffer.AssureSpace | src/net/unbounded_buffer.cc:66-92 | enough space, with the queue unchanged across growth and compaction; the growth loop terminates |
| Unbounded.UnboundedBuffer.SlideToFront | src/net/unbounded_buffer.cc:85-91 | compaction keeps the queue |
| Unbounded.UnboundedBuffer.PushDataAt | src/net/unbounded_buffer.cc:27-42 | the bytes stand at that distance behind an unchanged queue |
| Unbounded.UnboundedBuffer.PushData | src/net/unbounded_buffer.cc:20-25 | the queue with the bytes appended, unless at the maximum |
| Unbounded.UnboundedBuffer.PeekDataAt | src/net/unbounded_buffer.cc:51-64 | a copy of that slice of the queue |
| Unbounded.UnboundedBuffer.PeekData | src/net/unbounded_buffer.cc:44-49 | the first bytes leave the queue |
| Unbounded.UnboundedBuffer.Shrink | src/net/unbounded_buffer.cc:94-118 | reallocates to exactly the contents, which are unchanged |
| Unbounded.UnboundedBuffer.Clear | src/net/unbounded_buffer.cc:120 | nothing queued |
| Unbounded.UnboundedBuffer.Swap | src/net/unbounded_buffer.cc:122-126 | the two queues change places |
| Async.AsyncBuffer.PushBack | src/net/async_buffer.cc:41-46 | the whole sequence joins the overflow buffer |
| Async.AsyncBuffer.PushRing | src/net/async_buffer.cc:54-56 | the whole sequence joins the ring |
| Async.AsyncBuffer.Write | src/net/async_buffer.cc:34-57 | the written bytes come last of everything pending, and the counter is the overflow size |
| Async.AsyncBuffer.ProcessBuffer | src/net/async_buffer.cc:59-84 | what is handed out is all of the front buffer, or else all of the ring, a prefix of everything pending, and pending bytes stay in write order across the swap |
| Async.AsyncBuffer.Skip | src/net/async_buffer.cc:86-94 | exactly the first bytes of everything pending are gone |
| IntsetLayout.PackLoads | src/redis_intset.c:59-97 | every value that fits its width is read back from its place |
| IntsetLayout.NarrowestWidth | src/redis_intset.c:48-56 | the width chosen for a value is the narrowest that holds it |
| IntsetLayout.WideningLoads | src/redis_intset.c:174-175 | while the array is widened from the back, the next element to move is still there to read |
| IntsetLayout.WideningStep | src/redis_intset.c:174-175 | writing it in its wide place overwrites nothing that is still to be read |
| IntsetLayout.FinishWidening | src/redis_intset.c:177-182 | with all elements moved, the free place is at the front or the end, and filling it gives the packed new array |
| IntsetLayout.Outlier | src/redis_intset.c:213-218 | a value that needs a wider field lies outside everything held, on the side of its sign |
| IntsetLayout.InsertedPacks | src/redis_intset.c:228-233 | resize, overlapping move and store give the packed array with the value at its place |
| IntsetLayout.RemovedPacks | src/redis_intset.c:249-252 | the overlapping move and the resize give the packed array without the value |
| Intset.Intset.constructor | src/redis_intset.c:101-106 | an empty set |
| Intset.Intset.GetAt | src/redis_intset.c:79-82 | the value at a position |
| Intset.Intset.Search | src/redis_intset.c:119-158 | found exactly if a member, at its position; else the one position where it belongs |
| Intset.Intset.Resize | src/redis_intset.c:109-113 | the common bytes are kept |
| Intset.Intset.WidenAll | src/redis_intset.c:174-175 | all elements end up in their wide places |
| Intset.Intset.UpgradeAndAdd | src/redis_intset.c:161-184 | wider fields, the same elements, and the value at the end it belongs to |
| Intset.Intset.MoveTail | src/redis_intset.c:186-206 | a memmove of the elements from one position on |
| Intset.Intset.Add | src/redis_intset.c:208-235 | the set with the value, and success exactly if it was not a member; the array stays strictly increasing and within its encoding |
| Intset.Intset.Remove | src/redis_intset.c:238-255 | the set without the value, and success exactly if it was a member |
| Intset.Intset.Find | src/redis_intset.c:258-261 | true exactly for members |
| Intset.Intset.Get | src/redis_intset.c:270-276 | the value of that rank, or nothing out of range |
| Intset.Intset.Len | src/redis_intset.c:279-281 | the number of members |
| Intset.Execute | src/redis_intset.c:119-261 | every run of adds, removes and finds answers as a mathematical set of integers |
| RdbFormat.LengthLoads | src/db.cc:259-277 | LoadLength inverts SaveLength for every length below 2^32 |
| RdbFormat.SavedForm | src/db.cc:244-300 | which form a string is stored in: a number exactly if it has fewer than 10 bytes and reads as one from 0 to 2^31 - 1 |
| RdbFormat.SmallSizes | src/db.cc:279-294 | the smallest of the three number forms |
| RdbFormat.RoundTripIff | src/db.cc:244-257 | a string comes back if and only if it was not taken for a number or is that number in canonical decimal; numbers are looked for in up to 9 bytes before saving and in 20 bytes after decompressing |
| RdbFormat.StableReturns | src/db.cc:619-629 | strings that Strtol rejects, or canonical decimals, come back whatever the compressor does |
| RdbFormat.CanonicalStable | src/db.cc:244-257 | the canonical decimal of a number that strtol reads is one of them |
| RdbFormat.OctalChanges | src/db.cc:244-251 | a concrete string that does not come back: 010 is read in base 8 |
| Rdb.Number2Str | src/common.h:104-142 | the canonical decimal |
| Rdb.Saver.SaveLength | src/db.cc:259-277 | the 6, 14 or 32 bit form |
| Rdb.Saver.SaveInt | src/db.cc:279-300 | small non-negative numbers as 1, 2 or 4 bytes, others as text |
| Rdb.Saver.SaveLZFString | src/db.cc:302-328 | saved only if compressed by four bytes or more, and then as an encoding of the string; 20 or more bytes of periodic input always are |
| Rdb.Saver.SaveString | src/db.cc:244-257 | one item, of a form that the string allows, and compressed for 20 or more bytes of periodic input |
| Rdb.Saver.SaveList | src/db.cc:210-216 | the count and one item for each element in order |
| Rdb.Saver.SaveSet | src/db.cc:218-224 | the count and one item for each member, once, in some order |
| Rdb.Saver.SaveHash | src/db.cc:226-233 | the count and two items for each key, once, in some order |
| Rdb.Loader.LoadLength | src/db.cc:457-498 | the three length forms and the special mark |
| Rdb.Loader.LoadLZFString | src/db.cc:544-563 | the string the compressed data stands for, filled up with zeros to the announced size; the empty string, with the data not skipped, if it cannot be decoded or is longer |
| Rdb.Loader.LoadSpecial | src/db.cc:500-535 | numbers as decimal text, compressed strings as CreateString keeps them |
| Rdb.Loader.LoadGenericString | src/db.cc:619-629 | reads exactly one item and gives what it was loaded as |
| Rdb.Loader.LoadList | src/db.cc:631-654 | the loaded elements in order |
| Rdb.Loader.LoadSet | src/db.cc:656-679 | the set of the loaded elements |
| Rdb.Loader.LoadHash | src/db.cc:681-713 | the hash of the loaded pairs, where the first of equal keys stays |
| RdbFormat.HashFirst | src/db.cc:681-713 | of equal keys, the value of the first one counts |
| Rdb.StringRoundTrip | src/db.cc:244-629 | saving and loading a string, with the exact condition under which it comes back; of periodic strings of 20 or more bytes, what comes back does not depend on the compressor |
| Rdb.ZerosChange | src/db.cc:244-629 | a concrete string that does not come back from its compressed form: twenty zeros are read as the number 0 |
| Rdb.ListRoundTrip | src/db.cc:210-654 | a list of stable strings comes back unchanged |
| Rdb.NumbersRoundTrip | src/db.cc:210-654 | a list of canonical decimals that strtol reads comes back unchanged |
| Rdb.SetRoundTrip | src/db.cc:218-679 | a set of stable strings comes back unchanged |
| Rdb.HashRoundTrip | src/db.cc:226-713 | a hash of stable strings comes back unchanged |
| SortedOrder.InsertedPair | src/sorted_set.cc:21 | inserting adds exactly that pair to the score index |
| SortedOrder.ErasedPair | src/sorted_set.cc:32 | erasing removes exactly that pair and leaves its bucket behind |
| SortedOrder.LessIff | src/sorted_set.h:21-22 | members compare as std::string does, by bytes: one ends where the other goes on, or the first byte that differs is smaller |
| SortedOrder.OrderMeans | src/sorted_set.cc:51-61 | in the order, scores do not decrease, and members of one score are in the order of their bytes |
| SortedOrder.PairsIncreasing | src/sorted_set.cc:51-61 | iterating the buckets goes strictly up by score, then member, past empty buckets |
| SortedOrder.OneOrder | src/sorted_set.cc:41-66 | only one strictly increasing sequence holds a given set of pairs |
| SortedSet.SortedSet.Listed | src/sorted_set.cc:15-155 | the order lists exactly the members with their scores, each once, increasing |
| SortedSet.SortedSet.AddMember | src/sorted_set.cc:17-22 | both indexes hold the new pair and are each other's inverse |
| SortedSet.SortedSet.UpdateMember | src/sorted_set.cc:24-39 | both indexes hold the changed score, also when it does not change |
| SortedSet.SortedSet.DelMember | src/sorted_set.cc:77-94 | the member is gone from both indexes; true exactly if it was there |
| SortedSet.SortedSet.Rank | src/sorted_set.cc:41-66 | the position of the member in the order, -1 exactly for non-members |
| SortedSet.SortedSet.RevRank | src/sorted_set.cc:68-75 | the position from the other end |
| SortedSet.SortedSet.GetMemberByRank | src/sorted_set.cc:96-119 | the pair at the rank, which is cut to the last one; an empty pair if there is none |
| SortedSet.SortedSet.RangeByRank | src/sorted_set.cc:123-135 | the slice of the order between the adjusted positions |
| SortedSet.SortedSet.RangeByScore | src/sorted_set.cc:137-155 | the pairs of the order with scores in the range |
| SortedOrder.RangeExact | src/sorted_set.cc:137-155 | that is exactly the pairs with such a score, in order |
| SortedSet.AdjustIndex | src/common.h:173-192 | of the positions that exist, exactly those between the two given ones, where negative ones count from the end |
| SortedSet.RankInverse | src/sorted_set.cc:41-119 | Rank and GetMemberByRank are inverse: no other position has that member |
| SortedSet.OrderDetermined | src/sorted_set.cc:15-155 | the order depends on the members and scores alone, not on the buckets left behind |
| Scan.NextBucket | src/helper.h:77-83 | the next bucket with elements, with nothing between |
| Scan.Collect | src/helper.h:70-91 | the next elements in bucket order |
| Scan.ScanHashMember | src/helper.h:52-98 | the page from the cursor on, and the cursor behind it, or 0 behind the last element |
| Scan.ScanAll | src/helper.h:52-98 | scanning from 0 until 0 gives every element exactly once, in the same concatenation whatever the page sizes, and terminates |
| BlockHash.Absorb | src/std/pstd_hash.cc:235-257 | completing a block from kept and new bytes folds the same blocks as the whole message |
| Sha256.Sha256.Init | src/std/pstd_hash.cc:222-233 | the state of the empty message |
| Sha256.Sha256.Transform | src/std/pstd_hash.cc:185-220 | folds the compression function over the given blocks, up to 2^31 bytes of them |
| Sha256.OffsetsFit | src/std/pstd_hash.cc:193-194 | the int offsets of the blocks of one call are right if and only if the blocks are no more than 2^31 bytes |
| Sha256.Sha256.Update | src/std/pstd_hash.cc:235-257 | the fields depend only on the concatenated bytes |
| Sha256.Sha256.Final | src/std/pstd_hash.cc:259-274 | folds the compression function over the padded message |
| Sha256.PaddingStandard | src/std/pstd_hash.cc:264-269 | the padded message is that of section 5.1.1 of FIPS 180-2 if and only if the message is below 2^29 bytes |
| Sha256.HashAll | src/std/pstd_hash.cc:235-283 | the digest does not depend on how the message is cut into updates |
| Md5.CountIndex | src/std/pstd_hash.cc:513 | the buffer position follows from the low count, also after it wrapped |
| Md5.AddBits | src/std/pstd_hash.cc:516-519 | the two halves count bits modulo 2^64, with the carry |
| Md5.Md5.TransformChunks | src/std/pstd_hash.cc:533-535 | folds the compression function over all whole blocks, with the guard computed in 32 bits |
| Md5.Md5.Update | src/std/pstd_hash.cc:511-544 | the fields depend only on the concatenated bytes |
| Md5.Md5.Finalize | src/std/pstd_hash.cc:557-586 | folds the compression function over the padded message of sections 3.1 and 3.2 of RFC 1321, for every length; a second call changes nothing, neither a field nor the buffer |
| Md5.HashAll | src/std/pstd_hash.cc:511-586 | the digest does not depend on how the message is cut into updates |
| Decimal.Digits10Exact | src/std/pstd_string.cc:247-273 | the exact digit count of every 64-bit number |
| Decimal.WriteDigits | src/std/pstd_string.cc:317-335 | the digits, two at a time from the right, in exactly their place |
| Decimal.WritePair | src/std/pstd_string.cc:321-326 | the last two digits join those already written |
| Decimal.Ll2String | src/std/pstd_string.cc:286-342 | the canonical decimal of every 64-bit integer, LLONG_MIN included, when it fits; otherwise 0 |
| Decimal.String2Int | src/std/pstd_string.cc:347-436 | accepts exactly -?[0-9]+ in the 64-bit range, with that value |
| Decimal.ParsedText | src/std/pstd_string.cc:286-436 | string2int inverts ll2string |

## Left out

- Ziplist.Ziplist.Insert: for `reqlen + nextdiff == -2` nothing is promised, because the move then reads bytes behind the buffer; sizes must stay below 2^32, which is the width of the stored size, with room for every later back pointer to widen.
- Ziplist.Ziplist.Delete: needs the same 32-bit room, because relinking may widen every later back pointer by four bytes.
- Ziplist.Ziplist.Index: the most negative 32-bit index is left out, because the source negates it.
- ziplistPush, ziplistDeleteRange, ziplistFind, ziplistCompare, ziplistBlobLen: they add only easy members to insert, delete and traversal.
- LzfEncoder.Compress: the first two bytes of the input are read before the loop even when there is only one; the model reads the second as absent. Table entries are arbitrary numbers relative to the input instead of arbitrary pointers.
- LzfDecoder.Decompress: the two errno values of a failure are not told apart.
- Replication.Replication.SendPacket: bytes handed to it count as sent; what the socket does with them is not modelled. Replies to a slave's own commands are not part of its replication stream. A length that comes out negative is refused by the output buffer, which belongs to the event library.
- Replication.Replication.OnRdbSaveDone: the rdb file is the one the fork wrote and is not empty, as Save writes a header first; a save by the BGSAVE command at the same time appears only as the end of a child.
- Replication.Replication.SendToSlaves: the buffer stays below its maximum of 2^63 - 1 bytes.
- Replication.Replication.PingSlaves: one call stands for every fiftieth run of Cron, which is when the source pings.
- Slave side of replication (loading the received snapshot, master connection states): plumbing around the parser and the loader.
- RespSession.Session.HandlePacket: inline commands and the execution of a command are not modelled; delivered is the list of parameters handed on.
- RespParser.ProtoParser.ParseStr: a negative length, for which the source has an assertion, counts as an error.
- Store: one database. Expiry, eviction, flush and rename are left out, as clearing an expiry may delete the key and a reloaded TTL is read from a moved-from object. The backend is taken to hold exactly what is put; the encoding in src/leveldb.cc is not modelled, which casts sorted-set scores to long when it decodes them and whose decodeString asserts more than 4 bytes, so that an empty string at the end of a value fails.
- Async.AsyncBuffer.ProcessBuffer: its test and its swap count as one step and try_lock as free, because the two are not atomic together in the source.
- Unbounded.UnboundedBuffer.PushDataAt: bytes stored ahead of the queue of the unbounded buffer need not survive a later compaction.
- Ring.CircularBuffer.GetSpace: the free segments are described; that the source reports none when one byte is free is kept.
- Intset.Intset.Add: the bytes stay below 2^32 and the elements at most 2^30, beyond which the 32-bit size or the int sum of the search wraps. intsetRandom is left out.
- Rdb.Loader.LoadGenericString: the file is well formed at the offset, as the source reads past the end otherwise or runs into an assertion; likewise the other loaders, LoadLZFString alone excepted.
- Rdb.Number2Str: negating the smallest 64-bit number, which overflows in the source, is not modelled; no string of fewer than 10 bytes leads there.
- Rdb file header, database selection, expiry marks, checksum, sorted set scores, ziplist and intset encoded values: format plumbing, or text of doubles that does not round-trip.
- SortedSet: scores are real numbers, so NaN, infinities and rounding are left out; so are the commands around the class.
- Sha256.Sha256.Update: one call takes at most 2^31 bytes of whole blocks besides the one it completes, beyond which the int offset of the source overflows.
- Md5.Md5.Update: one call ends its whole blocks 64 bytes or more below 2^32, beyond which the 32-bit sum in the loop guard of the source wraps.
- Ring.CircularBuffer.PushDataAt: the int that holds the wrapped part is not modelled; it matters for a ring of more than 2^31 bytes.
- RespParser.ProtoParser.ParseStrval: the int that holds the length of the remaining bytes is not modelled; it matters for 2^31 unconsumed bytes and more.
- RespSession.Session.OnRecvData: the int that holds the length of the input is not modelled; it matters for 2^31 unconsumed bytes and more.
- ReplicationRuns.SlaveReceives: PING packets are left out of the received bytes.
- The compression functions of MD5 and SHA-256, and the state written out as digest bytes or in hexadecimal: the rounds are a fixed computation, and uninterpreted here.
- Sets, lists and hashes as commands, pubsub, transactions, WATCH, blocked clients, configuration, the thread pool, the event loop and the CRC64 table: not modelled.
